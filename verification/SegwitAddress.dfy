/** Witness program addresses (libraries/segwit_addr/segwit_addr.c:165-191): a version and a
    program, regrouped into five-bit symbols and written as a Bech32 string. */
module SegwitAddress {
  import opened Arithmetic
  import opened Bytes
  import Bits
  import opened ConvertBits
  import opened Bech32
  import opened Bech32Codec

  datatype Address = Address(hrp: string, version: nat, program: bytes)

  predicate Permitted(version: int, program: bytes)
  {
    version <= 16 && 2 <= |program| <= 40 && (version == 0 ==> |program| == 20 || |program| == 32)
  }

  /** The five-bit numbers of an address; the version is cut to a byte. */
  function AddressData(version: int, program: bytes): (ds: seq<nat>)
  {
    [version % 256] + Covering(program, 8, 5)
  }

  function Numbers(vs: seq<bv5>): (ds: bytes)
  {
    seq(|vs|, i requires 0 <= i < |vs| => vs[i] as int)
  }

  lemma FitBytes(program: bytes)
    ensures Bits.Fit(program, 8)
  {
    PowersOfTwo();
  }

  lemma FitSymbols(ds: seq<nat>)
    ensures Bits.Fit(ds, 5) <==> forall i :: 0 <= i < |ds| ==> ds[i] < 32
  {
    assert Pow(2, 5) == 32;
  }

  lemma CoveringSymbols(program: bytes)
    ensures forall i :: 0 <= i < |Covering(program, 8, 5)| ==> Covering(program, 8, 5)[i] < 32
  {
    var p := CoveringSpread(program, 8, 5);
    FitSymbols(Covering(program, 8, 5));
  }

  function EncodedAddress(hrp: string, version: int, program: bytes): (r: Option<string>)
  {
    CoveringSymbols(program);
    var ds: bytes := AddressData(version, program);
    if Permitted(version, program) && FiveBit(ds) && Fits(hrp, Symbols(ds))
    then Some(Encoded(hrp, Symbols(ds)))
    else None
  }

  function AddressOf(t: Text): (r: Option<Address>)
  {
    if |t.data| == 0 || |t.data| > 65 || t.data[0] > 16 then None else
    var v, ds := t.data[0] as int, Numbers(t.data[1..]);
    if !Exact(ds, 5, 8) then None else
    var program := Chunks(Bits.Spread(ds, 5), 8);
    ChunksAreBytes(Bits.Spread(ds, 5));
    if Permitted(v, program) then Some(Address(t.hrp, v, program)) else None
  }

  lemma ChunksAreBytes(s: seq<Bits.bit>)
    ensures forall i :: 0 <= i < |Chunks(s, 8)| ==> Chunks(s, 8)[i] < 256
  {
    ChunksSpread(s, 8);
    PowersOfTwo();
  }

  function DecodedAddress(s: string): (r: Option<Address>)
  {
    match Decoded(s)
    case None => None
    case Some(t) => AddressOf(t)
  }

  lemma NumbersOfSymbols(ds: bytes)
    requires FiveBit(ds)
    ensures Numbers(Symbols(ds)) == ds
  {
    forall i | 0 <= i < |ds| ensures Numbers(Symbols(ds))[i] == ds[i] {
      NumberOfSymbol(ds[i], ds[i] as bv5);
    }
  }

  lemma SymbolOfNumber(v: bv5, n: int)
    requires n == v as int
    ensures 0 <= n < 32 && n as bv5 == v
  {
  }

  lemma SymbolsOfNumbers(vs: seq<bv5>)
    ensures FiveBit(Numbers(vs)) && Symbols(Numbers(vs)) == vs
  {
    forall i | 0 <= i < |vs| ensures Numbers(vs)[i] < 32 && Numbers(vs)[i] as bv5 == vs[i] {
      SymbolOfNumber(vs[i], vs[i] as int);
    }
  }

  lemma SymbolsTail(ds: bytes)
    requires FiveBit(ds) && ds != []
    ensures FiveBit(ds[1..]) && Symbols(ds)[1..] == Symbols(ds[1..])
  {
  }

  /** At most 64 groups of five bits cover a program of at most 40 bytes. */
  lemma CoveringLength(program: bytes)
    requires |program| <= 40
    ensures |Covering(program, 8, 5)| <= 64
  {
    var p := CoveringSpread(program, 8, 5);
    Bits.SpreadLength(program, 8);
    Bits.SpreadLength(Covering(program, 8, 5), 5);
  }

  lemma AddressOfData(hrp: string, version: nat, program: bytes, ds: bytes)
    requires Permitted(version, program) && ds == AddressData(version, program) && FiveBit(ds)
    ensures AddressOf(Text(hrp, Symbols(ds))) == Some(Address(hrp, version, program))
  {
    ModSmall(version, 256);
    CoveringLength(program);
    SymbolsTail(ds);
    assert ds[1..] == Covering(program, 8, 5);
    NumbersOfSymbols(ds[1..]);
    FitBytes(program);
    RegroupRoundTrip(program, 8, 5);
    NumberOfSymbol(ds[0], ds[0] as bv5);
    SmallVersion(ds[0], ds[0] as bv5);
  }

  lemma SmallVersion(n: int, v: bv5)
    requires 0 <= n < 32 && v == n as bv5
    ensures v > 16 <==> n > 16
  {
  }

  /** Decoding an address gives back what was encoded, from the lower-case and from the upper-case form. */
  lemma AddressRoundTrip(hrp: string, version: nat, program: bytes)
    requires hrp != "" && EncodedAddress(hrp, version, program).Some?
    ensures var s := EncodedAddress(hrp, version, program).value;
      DecodedAddress(s) == Some(Address(hrp, version, program)) && DecodedAddress(Uppered(s)) == DecodedAddress(s)
  {
    CoveringSymbols(program);
    var ds: bytes := AddressData(version, program);
    DecodeEncoded(hrp, Symbols(ds));
    DecodeUppered(hrp, Symbols(ds));
    AddressOfData(hrp, version, program, ds);
  }

  /** The encoder takes every lower-case printable human-readable part, version and permitted program
      within the length limit, and nothing else. */
  lemma EncoderDomain(hrp: string, version: nat, program: bytes)
    ensures EncodedAddress(hrp, version, program).Some? <==>
        Permitted(version, program) && AllPrintable(hrp) && !HasUpper(hrp) && |hrp| + 8 + (8 * |program| + 4) / 5 <= 90
  {
    CoveringSymbols(program);
    CoveringCount(program);
    if version <= 16 {
      ModSmall(version, 256);
    }
  }

  lemma CoveringCount(program: bytes)
    ensures |Covering(program, 8, 5)| == (8 * |program| + 4) / 5
  {
    var p := CoveringSpread(program, 8, 5);
    Bits.SpreadLength(program, 8);
    Bits.SpreadLength(Covering(program, 8, 5), 5);
  }

  /** Whatever decodes as an address is the encoding of what it decodes to, up to case. */
  lemma AddressReencodes(s: string)
    requires DecodedAddress(s).Some?
    ensures var a := DecodedAddress(s).value;
      EncodedAddress(a.hrp, a.version, a.program) == Some(Lowered(s))
  {
    EncodeDecoded(s);
    var t := Decoded(s).value;
    AddressDataBack(t);
  }

  lemma AddressDataBack(t: Text)
    requires AddressOf(t).Some?
    ensures var a := AddressOf(t).value;
      AddressData(a.version, a.program) == Numbers(t.data) && FiveBit(Numbers(t.data)) && Symbols(Numbers(t.data)) == t.data
      && Permitted(a.version, a.program) && a.hrp == t.hrp
  {
    var a := AddressOf(t).value;
    SymbolsOfNumbers(t.data);
    SymbolsOfNumbers(t.data[1..]);
    FitSymbols(Numbers(t.data[1..]));
    RegroupBack(Numbers(t.data[1..]), 8, 5);
    ModSmall(a.version, 256);
    assert Numbers(t.data) == [t.data[0] as int] + Numbers(t.data[1..]);
  }

  // ----- The two calls -----

  /** `segwit_addr_encode`. */
  method Encode(hrp: string, version: int, program: bytes) returns (r: Option<string>)
    requires '\0' !in hrp
    ensures r == EncodedAddress(hrp, version, program)
  {
    if version > 16 {
      return None;
    }
    if version == 0 && |program| != 20 && |program| != 32 {
      return None;
    }
    if |program| < 2 || |program| > 40 {
      return None;
    }
    FitBytes(program);
    CoveringSymbols(program);
    var groups := RegroupPadded(program, 8, 5);
    r := Bech32Codec.Encode(hrp, [version % 256] + groups);
  }

  /** `segwit_addr_decode`. */
  method Decode(s: string) returns (r: Option<Address>)
    requires '\0' !in s && ('1' in s || |s| <= 84)
    ensures r == DecodedAddress(s)
  {
    var t := Bech32Codec.Decode(s);
    if t == None {
      return None;
    }
    var hrp, data := t.value.hrp, t.value.data;
    if |data| == 0 || |data| > 65 {
      return None;
    }
    if data[0] > 16 {
      return None;
    }
    var ds := Numbers(data[1..]);
    SymbolsOfNumbers(data[1..]);
    FitSymbols(ds);
    var ok, program := RegroupExact(ds, 5, 8);
    if !ok {
      return None;
    }
    if |program| < 2 || |program| > 40 {
      return None;
    }
    if data[0] == 0 && |program| != 20 && |program| != 32 {
      return None;
    }
    ChunksAreBytes(Bits.Spread(ds, 5));
    r := Some(Address(hrp, data[0] as int, program));
  }
}
