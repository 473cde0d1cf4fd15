/** The alphabet, the generator and the places of a Bech32 string and of an address, as BIP 173 gives them
    (libraries/segwit_addr/segwit_addr.c:27-84, 165-175). */
module Bech32Standard {
  import opened Bytes
  import opened ConvertBits
  import opened BitPlaces
  import opened FeedbackRegister
  import opened Polymod
  import opened Bech32Charset
  import opened Bech32
  import opened Bech32Codec
  import opened SegwitAddress

  const ALPHABET: string := "qpzry9x8gf2tvdw0s3jn54khce6mua7l"

  lemma CharInAlphabet(n: int)
    requires 0 <= n < 32
    ensures |ALPHABET| == 32 && CharOf(n) == ALPHABET[n]
  {
  }

  /** A character is a symbol exactly if it is in the alphabet, in either case. */
  lemma RankInAlphabet(c: char)
    ensures -1 <= Rank(c) < 32
    ensures Rank(c) >= 0 ==> ALPHABET[Rank(c)] == Lower(c)
    ensures Rank(c) == -1 ==> Lower(c) !in ALPHABET
  {
    RankBound(c);
    if Rank(c) >= 0 {
      CharOfRank(Lower(c));
      CharInAlphabet(Rank(c));
    } else {
      forall n | 0 <= n < 32 ensures ALPHABET[n] != Lower(c) {
        RankOfChar(n);
        CharInAlphabet(n);
      }
    }
  }

  // ----- The generator -----

  /** Multiplication by x in the field of 32 elements, where x^5 is x^3 + 1. */
  function Alpha(p: bv5): (q: bv5)
  {
    (p << 1) ^ (if p & 0x10 == 0x10 then 0x09 else 0)
  }

  /** The generator x^6 + 29 x^5 + 22 x^4 + 20 x^3 + 21 x^2 + 29 x + 18: each group of the register takes its
      coefficient times what leaves. */
  lemma Coefficients()
    ensures BECH32.g0(1) == 29 && BECH32.g1(1) == 22 && BECH32.g2(1) == 20 && BECH32.g3(1) == 21 && BECH32.g4(1) == 29 && BECH32.g5(1) == 18
  {
  }

  lemma Times0(p: bv5)
    ensures G0(Alpha(p)) == Alpha(G0(p)) && G1(Alpha(p)) == Alpha(G1(p))
  {
  }

  lemma Times2(p: bv5)
    ensures G2(Alpha(p)) == Alpha(G2(p)) && G3(Alpha(p)) == Alpha(G3(p))
  {
  }

  lemma Times4(p: bv5)
    ensures G4(Alpha(p)) == Alpha(G4(p)) && G5(Alpha(p)) == Alpha(G5(p))
  {
  }

  /** And the contributions are multiples in the field. */
  lemma FieldMultiples(p: bv5)
    ensures BECH32.g0(Alpha(p)) == Alpha(BECH32.g0(p)) && BECH32.g1(Alpha(p)) == Alpha(BECH32.g1(p))
    ensures BECH32.g2(Alpha(p)) == Alpha(BECH32.g2(p)) && BECH32.g3(Alpha(p)) == Alpha(BECH32.g3(p))
    ensures BECH32.g4(Alpha(p)) == Alpha(BECH32.g4(p)) && BECH32.g5(Alpha(p)) == Alpha(BECH32.g5(p))
  {
    Times0(p);
    Times2(p);
    Times4(p);
  }

  // ----- The string -----

  /** What the checksum covers: the high three bits of the characters, a zero, their low five bits, the data and
      six more symbols that leave 1 in the register. */
  predicate Covered(hrp: string, data: seq<bv5>, check: seq<bv5>, all: seq<bv5>)
  {
    var n := |hrp|;
    && |check| == 6 && |all| == 2 * n + 1 + |data| + 6 && Run(WORDS, 1, all) == 1
    && (forall i :: 0 <= i < n ==> hrp[i] as int < 128 && all[i] == (hrp[i] as int / 32) as bv5 && all[n + 1 + i] == (hrp[i] as int % 32) as bv5)
    && all[n] == 0 && all[2 * n + 1..2 * n + 1 + |data|] == data && all[2 * n + 1 + |data|..] == check
  }

  /** The human-readable part, a 1, the characters of the data and those of the checksum. */
  lemma StringPlaces(hrp: string, data: seq<bv5>) returns (check: seq<bv5>, all: seq<bv5>)
    requires AllPrintable(hrp)
    ensures Covered(hrp, data, check, all)
    ensures var s, n := Encoded(hrp, data), |hrp|;
      && |s| == n + 1 + |data| + 6 && s[..n] == hrp && s[n] == '1'
      && (forall i :: 0 <= i < |data| ==> s[n + 1 + i] == CharOf(data[i] as int))
      && (forall i :: 0 <= i < 6 ==> s[n + 1 + |data| + i] == CharOf(check[i] as int))
  {
    check := Checksum(WORDS, Register(Expand(hrp) + data));
    all := Expand(hrp) + (data + check);
    WithChecksumCloses(Expand(hrp), data);
    Expansion(hrp, data, check, all);
    CharPlaces(hrp, data, check);
  }

  lemma CharPlaces(hrp: string, data: seq<bv5>, check: seq<bv5>)
    ensures var s, n := hrp + ['1'] + Chars(data + check), |hrp|;
      && |s| == n + 1 + |data| + |check| && s[..n] == hrp && s[n] == '1'
      && (forall i :: 0 <= i < |data| ==> s[n + 1 + i] == CharOf(data[i] as int))
      && (forall i :: 0 <= i < |check| ==> s[n + 1 + |data| + i] == CharOf(check[i] as int))
  {
  }

  lemma Expansion(hrp: string, data: seq<bv5>, check: seq<bv5>, all: seq<bv5>)
    requires AllPrintable(hrp) && all == Expand(hrp) + (data + check) && |check| == 6 && Run(WORDS, 1, all) == 1
    ensures Covered(hrp, data, check, all)
  {
    var n := |hrp|;
    forall i | 0 <= i < n
      ensures hrp[i] as int < 128 && all[i] == (hrp[i] as int / 32) as bv5 && all[n + 1 + i] == (hrp[i] as int % 32) as bv5
    {
      assert Printable(hrp[i]);
      assert all[i] == High(hrp[i]) && all[n + 1 + i] == Low(hrp[i]);
    }
  }

  // ----- Addresses -----

  lemma {:induction false} UpperIs(s: string)
    ensures HasUpper(s) <==> exists i :: 0 <= i < |s| && 'A' <= s[i] <= 'Z'
  {
    UpperSomewhere(s);
    if i :| 0 <= i < |s| && 'A' <= s[i] <= 'Z' {
      assert IsUpper(s[i]);
    }
  }

  /** Versions up to 16 and programs of 2 to 40 bytes, 20 or 32 for version 0; a human-readable part of the
      characters 33 to 126 without upper case; and at most 90 characters in all. */
  lemma AddressAccepted(hrp: string, version: nat, program: bytes)
    ensures EncodedAddress(hrp, version, program).Some? <==>
            && version <= 16 && 2 <= |program| <= 40 && (version == 0 ==> |program| == 20 || |program| == 32)
            && (forall i :: 0 <= i < |hrp| ==> 33 <= hrp[i] as int <= 126 && !('A' <= hrp[i] <= 'Z'))
            && |hrp| + 8 + (8 * |program| + 4) / 5 <= 90
  {
    EncoderDomain(hrp, version, program);
    UpperIs(hrp);
    PrintableIs(hrp);
  }

  lemma PrintableIs(s: string)
    ensures AllPrintable(s) <==> forall i :: 0 <= i < |s| ==> 33 <= s[i] as int <= 126
  {
    if AllPrintable(s) {
      forall i | 0 <= i < |s| ensures 33 <= s[i] as int <= 126 {
        assert Printable(s[i]);
      }
    }
  }

  lemma AddressIs(hrp: string, version: nat, program: bytes) returns (groups: seq<nat>, symbols: seq<bv5>)
    requires EncodedAddress(hrp, version, program).Some?
    ensures groups == Covering(program, 8, 5) && |groups| == (8 * |program| + 4) / 5 && version < 32
    ensures AllPrintable(hrp) && EncodedAddress(hrp, version, program).value == Encoded(hrp, symbols)
    ensures |symbols| == |groups| + 1 && symbols[0] as int == version
    ensures forall i :: 0 <= i < |groups| ==> symbols[i + 1] as int == groups[i]
  {
    CoveringSymbols(program);
    CoveringCount(program);
    groups := Covering(program, 8, 5);
    var data: bytes := AddressData(version, program);
    symbols := Symbols(data);
    SymbolsAre(data, version, groups);
  }

  lemma SymbolsAre(data: bytes, version: nat, groups: seq<nat>)
    requires data == [version % 256] + groups && FiveBit(data) && version <= 16
    ensures |Symbols(data)| == |groups| + 1 && Symbols(data)[0] as int == version
    ensures forall i :: 0 <= i < |groups| ==> Symbols(data)[i + 1] as int == groups[i]
  {
    forall i | 0 <= i < |groups| ensures Symbols(data)[i + 1] as int == groups[i] {
      assert data[i + 1] == groups[i];
    }
  }

  /** The human-readable part, a 1 and the version stand in front. */
  lemma AddressFront(hrp: string, version: nat, program: bytes)
    requires EncodedAddress(hrp, version, program).Some?
    ensures version < 32
    ensures var s, n := EncodedAddress(hrp, version, program).value, |hrp|;
      |s| == n + 8 + (8 * |program| + 4) / 5 && s[..n] == hrp && s[n] == '1' && s[n + 1] == CharOf(version)
  {
    var groups, symbols := AddressIs(hrp, version, program);
    var check, all := StringPlaces(hrp, symbols);
  }

  /** Behind them stand the bits of the program, five to a symbol from the most significant one on, and zeros at
      the end. */
  lemma AddressSymbol(hrp: string, version: nat, program: bytes, i: nat) returns (v: nat)
    requires EncodedAddress(hrp, version, program).Some? && i < (8 * |program| + 4) / 5
    ensures SymbolOf(program, i, v)
    ensures |hrp| + 2 + i < |EncodedAddress(hrp, version, program).value|
    ensures EncodedAddress(hrp, version, program).value[|hrp| + 2 + i] == CharOf(v)
  {
    var groups, symbols := AddressIs(hrp, version, program);
    var check, all := StringPlaces(hrp, symbols);
    v := groups[i];
    assert symbols[i + 1] as int == v;
    GroupSymbol(program, i, 5, v);
  }

  /** A number below 32 whose bits are the five at that place of the program. */
  predicate SymbolOf(program: bytes, i: nat, v: nat)
  {
    v < 32 && forall k :: 0 <= k < 5 ==> NumberBit(v, 5, k) == if 5 * i + k < 8 * |program| then BitAt(program, 5 * i + k) else 0
  }

  lemma GroupSymbol(program: bytes, i: nat, w: nat, v: nat)
    requires w == 5 && i < |Covering(program, 8, w)| && v == Covering(program, 8, w)[i] && v < 32
    ensures SymbolOf(program, i, v)
  {
    forall k: nat | k < w ensures NumberBit(v, w, k) == if 5 * i + k < 8 * |program| then BitAt(program, 5 * i + k) else 0 {
      CoveringBit(program, 8, w, i, k, 5 * i);
    }
  }
}
