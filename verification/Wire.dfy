/** The cursor readers and the append-only writers of code/BTCUtil.c. */
module Wire {
  import opened Bytes

  /** What one read hands back: the value, and the bytes that the cursor has not passed yet. */
  datatype Read<+T> = Read(value: T, rest: bytes)

  /** A short read yields 0 and leaves the cursor at the end. */
  function ReadUint(width: nat, s: bytes): (r: Read<nat>)
    ensures |r.rest| <= |s|
  {
    if |s| >= width then Read(LittleValue(s[..width]), s[width..]) else Read(0, [])
  }

  function ReadVarInt(s: bytes): (r: Read<nat>)
    ensures |r.rest| <= |s|
    ensures s != [] ==> |r.rest| < |s|
  {
    var first := ReadUint(1, s);
    if first.value < 253 then first
    else if first.value < 254 then ReadUint(2, first.rest)
    else if first.value < 255 then ReadUint(4, first.rest)
    else ReadUint(8, first.rest)
  }

  /** A short read yields the null object and leaves the cursor at the end. */
  function ReadBytes(n: nat, s: bytes): (r: Read<Option<bytes>>)
    ensures |r.rest| <= |s|
  {
    if |s| >= n then Read(Some(s[..n]), s[n..]) else Read(None, [])
  }

  /** The variable-length integer as the library writes it (code/BTCUtil.c:1829-1854). */
  function VarInt(n: nat): (s: bytes)
    requires n < 0x1_0000_0000_0000_0000
    ensures 1 <= |s| <= 9
  {
    if n >= 0x1_0000_0000 then [0xff] + Little(n, 8)
    else if n >= 0x1_0000 then [0xfe] + Little(n, 4)
    else if n >= 0x100 then [0xfd] + Little(n, 2)
    else [n]
  }

  /** The variable-length integer of the peer-to-peer protocol: 253..255 take three bytes. */
  function CompactSize(n: nat): (s: bytes)
    requires n < 0x1_0000_0000_0000_0000
    ensures 1 <= |s| <= 9
  {
    if 253 <= n < 0x100 then [0xfd] + Little(n, 2) else VarInt(n)
  }

  /** The counts and lengths that VarInt writes ambiguously. */
  predicate Ambiguous(n: nat)
  {
    253 <= n <= 255
  }

  lemma ReadUintPrefix(width: nat, field: bytes, rest: bytes)
    requires |field| == width
    ensures ReadUint(width, field + rest) == Read(LittleValue(field), rest)
  {
    assert (field + rest)[..width] == field;
    assert (field + rest)[width..] == rest;
  }

  lemma ReadUintLittle(n: nat, width: nat, rest: bytes)
    requires n < Range(width)
    ensures ReadUint(width, Little(n, width) + rest) == Read(n, rest)
  {
    ReadUintPrefix(width, Little(n, width), rest);
    LittleRoundTrip(n, width);
  }

  lemma ReadBytesPrefix(field: bytes, rest: bytes)
    ensures ReadBytes(|field|, field + rest) == Read(Some(field), rest)
  {
    assert (field + rest)[..|field|] == field;
    assert (field + rest)[|field|..] == rest;
  }

  lemma ReadPrefixByte(b: byte, tail: bytes)
    ensures ReadUint(1, [b] + tail) == Read(b, tail)
  {
    ReadUintPrefix(1, [b], tail);
    assert LittleValue([b]) == b + 256 * LittleValue([b][1..]);
  }

  lemma ReadCompactSize(n: nat, rest: bytes)
    requires n < 0x1_0000_0000_0000_0000
    ensures ReadVarInt(CompactSize(n) + rest) == Read(n, rest)
  {
    RangeValues();
    var s := CompactSize(n);
    var tail := s[1..];
    assert s + rest == [s[0]] + (tail + rest);
    ReadPrefixByte(s[0], tail + rest);
    if s[0] >= 253 {
      assert tail == Little(n, |tail|);
      ReadUintLittle(n, |tail|, rest);
    } else {
      assert tail + rest == rest;
    }
  }

  /** Reading back what the library wrote succeeds exactly off the three ambiguous values. */
  lemma VarIntRoundTrip(n: nat, rest: bytes)
    requires n < 0x1_0000_0000_0000_0000
    ensures ReadVarInt(VarInt(n) + rest) == Read(n, rest) <==> !Ambiguous(n)
  {
    if !Ambiguous(n) {
      ReadCompactSize(n, rest);
    } else {
      ReadPrefixByte(n, rest);
      assert |ReadUint(2, rest).rest| < |rest| || ReadUint(2, rest).value == 0;
    }
  }

  /** The `ptr`/`end` pair that the parsers share. */
  class Cursor {
    const data: bytes
    var ptr: nat

    ghost predicate Valid()
      reads this
    {
      ptr <= |data|
    }

    function Rest(): (s: bytes)
      requires Valid()
      reads this
    {
      data[ptr..]
    }

    constructor (data: bytes)
      ensures Valid() && Rest() == data && this.data == data
    {
      this.data := data;
      this.ptr := 0;
    }

    method Uint(width: nat) returns (n: nat)
      requires Valid()
      modifies this
      ensures Valid()
      ensures Read(n, Rest()) == ReadUint(width, old(Rest()))
    {
      if |data| - ptr >= width {
        n := LittleValue(data[ptr..ptr + width]);
        assert data[ptr..][..width] == data[ptr..ptr + width];
        ptr := ptr + width;
      } else {
        ptr := |data|;
        n := 0;
      }
    }

    method VarInt() returns (n: nat)
      requires Valid()
      modifies this
      ensures Valid()
      ensures Read(n, Rest()) == ReadVarInt(old(Rest()))
    {
      n := Uint(1);
      if n < 253 {
        return;
      }
      if n < 254 {
        n := Uint(2);
      } else if n < 255 {
        n := Uint(4);
      } else {
        n := Uint(8);
      }
    }

    method Blob(n: nat) returns (b: Option<bytes>)
      requires Valid()
      modifies this
      ensures Valid()
      ensures Read(b, Rest()) == ReadBytes(n, old(Rest()))
    {
      if |data| - ptr >= n {
        b := Some(data[ptr..ptr + n]);
        assert data[ptr..][..n] == data[ptr..ptr + n];
        ptr := ptr + n;
      } else {
        ptr := |data|;
        b := None;
      }
    }
  }
}
