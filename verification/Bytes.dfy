/** Byte strings as the library's `Data` holds them, and the fixed-width little-endian
    integers that the readers and writers of code/BTCUtil.c exchange with them. */
module Bytes {

  type byte = x: int | 0 <= x < 256

  type bytes = seq<byte>

  /** `None` is the null `Data` object (a NULL pointer of length 0); `Some([])` is the empty one. */
  datatype Option<+T> = None | Some(value: T)

  /** 256 to the power `width`: one more than the largest unsigned integer of that many bytes. */
  function Range(width: nat): (r: nat)
    ensures r > 0
  {
    if width == 0 then 1 else 256 * Range(width - 1)
  }

  /** The low `width` bytes of `n`, least significant first, as a cast to an unsigned type keeps them. */
  function Little(n: nat, width: nat): (s: bytes)
    ensures |s| == width
  {
    if width == 0 then [] else [n % 256] + Little(n / 256, width - 1)
  }

  /** The integer that a little-endian machine reads from `s`. */
  function LittleValue(s: bytes): (n: nat)
  {
    if s == [] then 0 else s[0] + 256 * LittleValue(s[1..])
  }

  lemma {:induction false} LittleValueBound(s: bytes)
    ensures LittleValue(s) < Range(|s|)
  {
    if s != [] {
      LittleValueBound(s[1..]);
    }
  }

  /** The low `width` bytes of `n`, most significant first. */
  function Big(n: nat, width: nat): (s: bytes)
    ensures |s| == width
  {
    if width == 0 then [] else Big(n / 256, width - 1) + [n % 256]
  }

  lemma {:induction false} LittleRoundTrip(n: nat, width: nat)
    requires n < Range(width)
    ensures LittleValue(Little(n, width)) == n
  {
    if width > 0 {
      var s := Little(n, width);
      assert s[1..] == Little(n / 256, width - 1);
      LittleRoundTrip(n / 256, width - 1);
    }
  }

  lemma {:induction false} LittleValueInverse(s: bytes)
    ensures Little(LittleValue(s), |s|) == s
  {
    if s != [] {
      LittleValueInverse(s[1..]);
      var n := LittleValue(s);
      assert n % 256 == s[0] && n / 256 == LittleValue(s[1..]);
    }
  }

  lemma RangeValues()
    ensures Range(1) == 0x100
    ensures Range(2) == 0x1_0000
    ensures Range(4) == 0x1_0000_0000
    ensures Range(8) == 0x1_0000_0000_0000_0000
  {
    assert Range(3) == 256 * Range(2);
    assert Range(5) == 256 * Range(4);
    assert Range(6) == 256 * Range(5);
    assert Range(7) == 256 * Range(6);
  }

  function ZeroBytes(n: nat): (s: bytes)
    ensures |s| == n
  {
    seq(n, _ => 0)
  }

  /** Concatenation of a list of byte strings. */
  function Concat(parts: seq<bytes>): (s: bytes)
  {
    if parts == [] then [] else parts[0] + Concat(parts[1..])
  }

  lemma {:induction false} ConcatAppend(a: seq<bytes>, b: seq<bytes>)
    ensures Concat(a + b) == Concat(a) + Concat(b)
  {
    if a == [] {
      assert a + b == b;
    } else {
      var s := a + b;
      assert s[0] == a[0] && s[1..] == a[1..] + b;
      ConcatAppend(a[1..], b);
    }
  }
}
