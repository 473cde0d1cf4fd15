/** The bytes of integers, place by place: little-endian fields, big-endian counters and indices, and the
    variable-length integer (code/BTCUtil.c:1829-1854, libraries/hmac_and_pbkdf/hmac_and_pbkdf.h:11-31). */
module Endian {
  import opened Bytes
  import opened Wire
  import opened Arithmetic

  /** 256 to the power `i`, for the places of a 64-bit integer. */
  function Place(i: nat): (p: nat)
    requires i < 8
    ensures p > 0
  {
    [1, 0x100, 0x1_0000, 0x100_0000, 0x1_0000_0000, 0x100_0000_0000, 0x1_0000_0000_0000, 0x100_0000_0000_0000][i]
  }

  lemma PlaceNext(n: nat, i: nat)
    requires 0 < i < 8
    ensures n / 256 / Place(i - 1) == n / Place(i)
  {
    assert Place(i) == 256 * Place(i - 1);
    Divided(n, Place(i - 1));
  }

  lemma Divided(n: nat, p: nat)
    requires p > 0
    ensures n / 256 / p == n / (256 * p)
  {
    var q := n / 256 / p;
    var r, s := n / 256 % p, n % 256;
    assert n / 256 == p * q + r && n == 256 * (n / 256) + s;
    assert n == 256 * p * q + (256 * r + s) && 256 * r + s < 256 * p;
    DivModUnique(n, 256 * p, q, 256 * r + s);
  }

  /** The byte at a place of a little-endian integer. */
  lemma {:induction false} LittleAt(n: nat, width: nat, i: nat)
    requires i < width <= 8
    ensures Little(n, width)[i] == n / Place(i) % 256
    decreases width
  {
    if i > 0 {
      LittleAt(n / 256, width - 1, i - 1);
      PlaceNext(n, i);
    }
  }

  /** The byte at a place of a big-endian integer. */
  lemma {:induction false} BigAt(n: nat, width: nat, i: nat)
    requires i < width <= 8
    ensures Big(n, width)[i] == n / Place(width - 1 - i) % 256
    decreases width
  {
    if i < width - 1 {
      BigAt(n / 256, width - 1, i);
      PlaceNext(n, width - 1 - i);
    }
  }

  /** The number of bytes, the first one, and what the others say. Between 253 and 255 the library writes one
      byte, which is what a prefix looks like. */
  lemma VarIntBytes(n: nat)
    requires n < 0x1_0000_0000_0000_0000
    ensures var s := VarInt(n);
      if n < 0x100 then s == [n]
      else if n < 0x1_0000 then |s| == 3 && s[0] == 253 && LittleValue(s[1..]) == n
      else if n < 0x1_0000_0000 then |s| == 5 && s[0] == 254 && LittleValue(s[1..]) == n
      else |s| == 9 && s[0] == 255 && LittleValue(s[1..]) == n
  {
    RangeValues();
    var s := VarInt(n);
    if n >= 0x1_0000_0000 {
      LittleRoundTrip(n, 8);
      assert s[1..] == Little(n, 8);
    } else if n >= 0x1_0000 {
      LittleRoundTrip(n, 4);
      assert s[1..] == Little(n, 4);
    } else if n >= 0x100 {
      LittleRoundTrip(n, 2);
      assert s[1..] == Little(n, 2);
    }
  }

  /** The integer of the protocol differs from it at these three values only. */
  lemma CompactSizeBytes(n: nat)
    requires n < 0x1_0000_0000_0000_0000
    ensures if 253 <= n <= 255 then CompactSize(n) == [253, n, 0] else CompactSize(n) == VarInt(n)
  {
    LittleAt(n, 2, 0);
    LittleAt(n, 2, 1);
  }
}
