/** Numbers of any number of bits in a byte buffer (libraries/mnemonic/mnemonic.c:11-33,
    libraries/mnemonic/wordlist.c:16-23). */
module MnemonicBits {
  import opened Bytes
  import opened Arithmetic
  import opened Bits
  import opened ConvertBits

  /** `get_bits`: the logarithm, rounded down. */
  method GetBits(n0: nat) returns (bits: nat)
    ensures n0 >= 1 ==> Pow(2, bits) <= n0 < Pow(2, bits + 1)
    ensures n0 == 0 ==> bits == 0
  {
    bits := 0;
    var n := n0;
    while n / 2 > 0
      invariant n0 >= 1 ==> n >= 1 && n * Pow(2, bits) <= n0 < (n + 1) * Pow(2, bits)
      invariant n0 == 0 ==> n == 0 && bits == 0
      decreases n
    {
      HalfStep(n, Pow(2, bits), n0);
      n := n / 2;
      bits := bits + 1;
    }
    if n0 >= 1 {
      assert n == 1;
    }
  }

  lemma HalfStep(n: nat, p: nat, n0: nat)
    requires n >= 1 && n * p <= n0 < (n + 1) * p
    ensures (n / 2) * (2 * p) <= n0 < (n / 2 + 1) * (2 * p)
  {
    var h := n / 2;
    MulLe(2 * h, n, p);
    MulLe(n + 1, 2 * h + 2, p);
    assert h * (2 * p) == (2 * h) * p && (h + 1) * (2 * p) == (2 * h + 2) * p;
  }

  // ----- Single bits -----

  function Power(j: nat): (p: nat)
    requires j < 8
  {
    Pow(2, 7 - j)
  }

  /** Bit `j` of a byte, counted from the most significant one. */
  function BitOf(b: byte, j: nat): (r: bit)
    requires j < 8
  {
    Shift(b, 7 - j) % 2
  }

  lemma {:induction false} ToBitsAt(v: nat, n: nat, j: nat)
    requires j < n
    ensures ToBits(v, n)[j] == Shift(v, n - 1 - j) % 2
  {
    if j < n - 1 {
      ToBitsAt(v / 2, n - 1, j);
    }
  }

  /** Setting a bit that is clear adds its power of two. */
  lemma {:induction false} SetBit(v: nat, n: nat, j: nat)
    requires j < n && ToBits(v, n)[j] == 0
    ensures ToBits(v + Pow(2, n - 1 - j), n) == ToBits(v, n)[j := 1]
  {
    var p := Pow(2, n - 1 - j);
    if j < n - 1 {
      SetBit(v / 2, n - 1, j);
      var q := Pow(2, n - 2 - j);
      assert p == 2 * q && (v + p) / 2 == v / 2 + q && (v + p) % 2 == v % 2;
    } else {
      assert p == 1 && v % 2 == 0 && (v + 1) / 2 == v / 2 && (v + 1) % 2 == 1;
    }
  }

  lemma {:induction false} ToBitsBound(v: nat, n: nat, j: nat)
    requires j < n && v < Pow(2, n) && ToBits(v, n)[j] == 0
    ensures v + Pow(2, n - 1 - j) < Pow(2, n)
  {
    var p := Pow(2, n - 1 - j);
    if j < n - 1 {
      ToBitsBound(v / 2, n - 1, j);
      assert p == 2 * Pow(2, n - 2 - j);
    }
  }

  lemma {:induction false} SpreadAt(s: seq<nat>, w: nat, i: nat, j: nat)
    requires i < |s| && j < w
    ensures |Spread(s, w)| == w * |s| && w * i + j < |Spread(s, w)| && Spread(s, w)[w * i + j] == ToBits(s[i], w)[j]
  {
    SpreadLength(s, w);
    var n := |s| - 1;
    MulLe(i + 1, |s|, w);
    assert w * (i + 1) == w * i + w;
    SpreadLength(s[..n], w);
    if i < n {
      SpreadAt(s[..n], w, i, j);
    }
  }

  /** The bit at a position of a buffer of bytes; `w` is 8. */
  lemma BufferBit(s: bytes, pos: nat, w: nat)
    requires w == 8 && pos < w * |s|
    ensures |Spread(s, w)| == w * |s| && Spread(s, w)[pos] == BitOf(s[pos / 8], pos % 8)
  {
    var i, j := pos / 8, pos % 8;
    SpreadLength(s, w);
    ByteBit(s, i, j, pos, w);
    ToBitsAt(s[i], w, j);
  }

  lemma {:induction false} SpreadAppend(a: seq<nat>, b: seq<nat>, w: nat)
    ensures Spread(a + b, w) == Spread(a, w) + Spread(b, w)
    decreases |b|
  {
    if b == [] {
      assert a + b == a;
    } else {
      var b', d := b[..|b| - 1], b[|b| - 1];
      SpreadAppend(a, b', w);
      SpreadSnoc(a + b', d, w);
      Associative(Spread(a, w), Spread(b', w), ToBits(d, w));
      assert a + b == (a + b') + [d];
    }
  }

  lemma SpreadThree(a: seq<nat>, v: nat, c: seq<nat>, w: nat)
    ensures Spread(a + [v] + c, w) == Spread(a, w) + ToBits(v, w) + Spread(c, w)
  {
    SpreadAppend(a + [v], c, w);
    SpreadSnoc(a, v, w);
  }

  lemma SetInside(a: seq<bit>, x: seq<bit>, c: seq<bit>, j: nat)
    requires j < |x|
    ensures a + x[j := 1] + c == (a + x + c)[|a| + j := 1]
  {
  }

  lemma SetByte(front: seq<nat>, b: nat, back: seq<nat>, v: nat, j: nat, w: nat)
    requires j < w && ToBits(v, w) == ToBits(b, w)[j := 1]
    ensures |Spread(front, w)| + j < |Spread(front + [b] + back, w)|
    ensures Spread(front + [v] + back, w) == Spread(front + [b] + back, w)[|Spread(front, w)| + j := 1]
  {
    SpreadThree(front, b, back, w);
    SpreadThree(front, v, back, w);
    SetInside(Spread(front, w), ToBits(b, w), Spread(back, w), j);
  }

  /** Setting a clear bit of the buffer sets that bit of its bit string and no other. */
  lemma BufferSet(s: bytes, pos: nat, v: byte, w: nat)
    requires w == 8 && pos < w * |s| && |Spread(s, w)| == w * |s| && Spread(s, w)[pos] == 0
    requires v == s[pos / 8] + Power(pos % 8)
    ensures Spread(s[pos / 8 := v], w) == Spread(s, w)[pos := 1]
  {
    var i, j := pos / 8, pos % 8;
    ByteBit(s, i, j, pos, w);
    BitSet(s[i], v, j, w);
    ByteSet(s, i, j, v, pos, w);
  }

  lemma BitSet(b: nat, v: nat, j: nat, w: nat)
    requires w == 8 && j < 8 && v == b + Power(j) && ToBits(b, w)[j] == 0
    ensures ToBits(v, w) == ToBits(b, w)[j := 1]
  {
    SetBit(b, w, j);
  }

  lemma ByteBit(s: bytes, i: nat, j: nat, pos: nat, w: nat)
    requires w == 8 && i < |s| && j < 8 && pos == 8 * i + j
    ensures pos < |Spread(s, w)| && Spread(s, w)[pos] == ToBits(s[i], w)[j] && |Spread(s[..i], w)| == 8 * i
  {
    SpreadAt(s, w, i, j);
    SpreadLength(s[..i], w);
  }

  lemma ByteSet(s: bytes, i: nat, j: nat, v: byte, pos: nat, w: nat)
    requires i < |s| && j < w && ToBits(v, w) == ToBits(s[i], w)[j := 1] && pos == |Spread(s[..i], w)| + j
    ensures pos < |Spread(s, w)| && Spread(s[i := v], w) == Spread(s, w)[pos := 1]
  {
    SetByte(s[..i], s[i], s[i + 1..], v, j, w);
    Spliced(s, i, v);
  }

  lemma Spliced(s: bytes, i: nat, v: byte)
    requires i < |s|
    ensures s[..i] + [s[i]] + s[i + 1..] == s && s[..i] + [v] + s[i + 1..] == s[i := v]
  {
  }

  lemma BufferFits(s: bytes, pos: nat, w: nat)
    requires w == 8 && pos < w * |s| && |Spread(s, w)| == w * |s| && Spread(s, w)[pos] == 0
    ensures s[pos / 8] + Power(pos % 8) < 256
  {
    var i, j := pos / 8, pos % 8;
    ByteBit(s, i, j, pos, w);
    PowersOfTwo();
    ToBitsBound(s[i], w, j);
  }

  // ----- The two loops -----

  lemma FromBitsSnoc(all: seq<bit>, start: nat, pos: nat)
    requires start <= pos < |all|
    ensures FromBits(all[start..pos + 1]) == 2 * FromBits(all[start..pos]) + all[pos]
  {
    assert all[start..pos + 1][..pos - start] == all[start..pos];
  }

  /** `extract_index`: the n-th number of `bits` bits. */
  method ExtractIndex(bits: nat, s: bytes, n: nat) returns (value: nat)
    requires n * bits + bits <= 8 * |s|
    ensures |Spread(s, 8)| == 8 * |s| && value == FromBits(Spread(s, 8)[n * bits..n * bits + bits])
  {
    SpreadLength(s, 8);
    value := ExtractFrom(n * bits, n * bits + bits, s, Spread(s, 8));
  }

  method ExtractFrom(start: nat, end: nat, s: bytes, ghost all: seq<bit>) returns (value: nat)
    requires start <= end <= 8 * |s| && all == Spread(s, 8) && |all| == 8 * |s|
    ensures value == FromBits(all[start..end])
  {
    var pos := start;
    value := 0;
    while pos < end
      invariant start <= pos <= end && value == FromBits(all[start..pos])
    {
      BufferBit(s, pos, 8);
      FromBitsSnoc(all, start, pos);
      value := 2 * value + BitOf(s[pos / 8], pos % 8);
      pos := pos + 1;
    }
  }

  /** The bits from `at` on are `x`, the others are as they were. */
  predicate Overwritten(now: seq<bit>, was: seq<bit>, at: nat, x: seq<bit>)
  {
    at + |x| <= |was| && now == was[..at] + x + was[at + |x|..]
  }

  /** `store_index`: into bits that are clear. */
  method StoreIndex(bits: nat, buf: array<byte>, n: nat, value: nat)
    requires n * bits + bits <= 8 * buf.Length && |Spread(buf[..], 8)| == 8 * buf.Length
    requires forall k :: n * bits <= k < n * bits + bits ==> Spread(buf[..], 8)[k] == 0
    modifies buf
    ensures Overwritten(Spread(buf[..], 8), old(Spread(buf[..], 8)), n * bits, ToBits(value, bits))
  {
    StoreFrom(bits, buf, n * bits, value);
  }

  method StoreFrom(bits: nat, buf: array<byte>, start: nat, value: nat)
    requires start + bits <= 8 * buf.Length && |Spread(buf[..], 8)| == 8 * buf.Length
    requires forall k :: start <= k < start + bits ==> Spread(buf[..], 8)[k] == 0
    modifies buf
    ensures Overwritten(Spread(buf[..], 8), old(Spread(buf[..], 8)), start, ToBits(value, bits))
  {
    ghost var was, x := Spread(buf[..], 8), ToBits(value, bits);
    var pos, i := start, 0;
    while i < bits
      invariant i <= bits && pos == start + i && Overwritten(Spread(buf[..], 8), was, start, x[..i])
    {
      StoreStep(Spread(buf[..], 8), was, start, x, i);
      ToBitsAt(value, bits, i);
      if Shift(value, bits - i - 1) % 2 != 0 {
        PutBit(buf, pos);
      }
      pos, i := pos + 1, i + 1;
    }
    assert x[..bits] == x;
  }

  /** `U8_AT(bytes, pos) |= U8_MASK(pos)`, for a bit that is clear. */
  method PutBit(buf: array<byte>, pos: nat)
    requires pos < 8 * buf.Length && |Spread(buf[..], 8)| == 8 * buf.Length && Spread(buf[..], 8)[pos] == 0
    modifies buf
    ensures Spread(buf[..], 8) == old(Spread(buf[..], 8))[pos := 1]
  {
    ghost var now := buf[..];
    BufferFits(now, pos, 8);
    buf[pos / 8] := buf[pos / 8] + Power(pos % 8);
    assert buf[..] == now[pos / 8 := buf[pos / 8]];
    BufferSet(now, pos, buf[pos / 8], 8);
  }

  /** The next bit, whether it is set or left clear. */
  lemma StoreStep(now: seq<bit>, was: seq<bit>, start: nat, x: seq<bit>, i: nat)
    requires i < |x| && start + |x| <= |was| && Overwritten(now, was, start, x[..i])
    requires forall k :: start <= k < start + |x| ==> was[k] == 0
    ensures start + i < |now| == |was| && now[start + i] == 0
    ensures x[i] == 1 ==> Overwritten(now[start + i := 1], was, start, x[..i + 1])
    ensures x[i] == 0 ==> Overwritten(now, was, start, x[..i + 1])
  {
    assert now[start + i] == was[start + i];
    assert x[..i + 1] == x[..i] + [x[i]];
    assert was[start + i..] == [was[start + i]] + was[start + i + 1..];
  }
}
