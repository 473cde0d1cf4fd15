/** Regrouping of bits (libraries/segwit_addr/segwit_addr.c:143-163). */
module ConvertBits {
  import opened Arithmetic
  import opened Bits

  /** As many groups of `w` bits as there are. */
  function Chunks(s: seq<bit>, w: nat): (ds: seq<nat>)
    requires w > 0
    decreases |s|
  {
    if |s| < w then [] else [FromBits(s[..w])] + Chunks(s[w..], w)
  }

  /** What is left over. */
  function Tail(s: seq<bit>, w: nat): (t: seq<bit>)
    requires w > 0
    ensures |t| < w
    decreases |s|
  {
    if |s| < w then s else Tail(s[w..], w)
  }

  /** Regrouping that pads the last group with zeros. */
  function Covering(ds: seq<nat>, from: nat, to: nat): (out: seq<nat>)
    requires to > 0
  {
    var s := Spread(ds, from);
    var t := Tail(s, to);
    if t == [] then Chunks(s, to) else Chunks(s, to) + [FromBits(t + Zeros(to - |t|))]
  }

  /** Regrouping without padding. */
  predicate Exact(ds: seq<nat>, from: nat, to: nat)
    requires to > 0
  {
    var t := Tail(Spread(ds, from), to);
    AllZero(t) && |t| < from
  }

  lemma {:induction false} SpreadCons(d: nat, ds: seq<nat>, w: nat)
    ensures Spread([d] + ds, w) == ToBits(d, w) + Spread(ds, w)
  {
    if ds == [] {
      assert [d] + ds == [] + [d];
      SpreadSnoc([], d, w);
    } else {
      var ds', e := ds[..|ds| - 1], ds[|ds| - 1];
      SpreadCons(d, ds', w);
      SpreadSnoc([d] + ds', e, w);
      assert [d] + ds == ([d] + ds') + [e];
    }
  }

  lemma Associative(a: seq<bit>, b: seq<bit>, c: seq<bit>)
    ensures (a + b) + c == a + (b + c)
  {
  }

  lemma FitCons(d: nat, ds: seq<nat>, w: nat)
    requires d < Pow(2, w) && Fit(ds, w)
    ensures Fit([d] + ds, w)
  {
  }

  lemma SpreadFront(head: seq<bit>, d: nat, ds: seq<nat>, t: seq<bit>, w: nat)
    requires ToBits(d, w) == head
    ensures Spread([d] + ds, w) + t == head + (Spread(ds, w) + t)
  {
    SpreadCons(d, ds, w);
    Associative(head, Spread(ds, w), t);
  }

  lemma SpreadEnd(ds: seq<nat>, d: nat, t: seq<bit>, z: seq<bit>, w: nat)
    requires d < Pow(2, w) && ToBits(d, w) == t + z && Fit(ds, w)
    ensures Fit(ds + [d], w) && Spread(ds + [d], w) == (Spread(ds, w) + t) + z
  {
    SpreadSnoc(ds, d, w);
  }

  lemma {:induction false} ChunksSpread(s: seq<bit>, w: nat)
    requires w > 0
    ensures Fit(Chunks(s, w), w) && Spread(Chunks(s, w), w) + Tail(s, w) == s
    decreases |s|
  {
    if |s| >= w {
      ChunksSpread(s[w..], w);
      ChunksCons(s, s[..w], s[w..], Chunks(s[w..], w), Tail(s[w..], w), w);
    }
  }

  lemma ChunksCons(s: seq<bit>, head: seq<bit>, rest: seq<bit>, ds: seq<nat>, t: seq<bit>, w: nat)
    requires s == head + rest && |head| == w && Fit(ds, w) && Spread(ds, w) + t == rest
    ensures Fit([FromBits(head)] + ds, w) && Spread([FromBits(head)] + ds, w) + t == s
  {
    ToFromBits(head);
    FitCons(FromBits(head), ds, w);
    SpreadFront(head, FromBits(head), ds, t, w);
  }

  /** Any way to cut the bits into groups gives these groups. */
  lemma CutIsChunks(ds: seq<nat>, from: nat, out: seq<nat>, rest: seq<bit>, to: nat)
    requires to > 0 && Cut(ds, from, out, rest, to)
    ensures out == Chunks(Spread(ds, from), to) && rest == Tail(Spread(ds, from), to)
  {
    var s := Spread(ds, from);
    ChunksSpread(s, to);
    SpreadUnique(out, rest, Chunks(s, to), Tail(s, to), to);
  }

  /** The padded groups hold the bits, then fewer zeros than a group has bits. */
  lemma CoveringSpread(ds: seq<nat>, from: nat, to: nat) returns (p: nat)
    requires to > 0
    ensures p < to && Fit(Covering(ds, from, to), to)
    ensures Spread(Covering(ds, from, to), to) == Spread(ds, from) + Zeros(p)
  {
    var s := Spread(ds, from);
    var t := Tail(s, to);
    ChunksSpread(s, to);
    if t == [] {
      p := 0;
      assert s + Zeros(0) == s;
    } else {
      p := to - |t|;
      ToFromBits(t + Zeros(p));
      SpreadEnd(Chunks(s, to), FromBits(t + Zeros(p)), t, Zeros(p), to);
    }
  }

  /** Regrouping into smaller groups with padding, and back without, is the identity. */
  lemma RegroupRoundTrip(ds: seq<nat>, from: nat, to: nat)
    requires 0 < to <= from && Fit(ds, from)
    ensures var out := Covering(ds, from, to);
      Exact(out, to, from) && Chunks(Spread(out, to), from) == ds
  {
    var out := Covering(ds, from, to);
    var p := CoveringSpread(ds, from, to);
    CutIsChunks(out, to, ds, Zeros(p), from);
  }

  /** And the other way round, wherever regrouping without padding succeeds. */
  lemma RegroupBack(out: seq<nat>, from: nat, to: nat)
    requires 0 < to <= from && Fit(out, to) && Exact(out, to, from)
    ensures Fit(Chunks(Spread(out, to), from), from) && Covering(Chunks(Spread(out, to), from), from, to) == out
  {
    var s := Spread(out, to);
    var ds, t := Chunks(s, from), Tail(s, from);
    ChunksSpread(s, from);
    var again := Covering(ds, from, to);
    var p := CoveringSpread(ds, from, to);
    SpreadLength(out, to);
    SpreadLength(again, to);
    SameLength(to, |Spread(ds, from)|, |again|, p, |out|, |t|);
    assert t == Zeros(p);
    SpreadInjective(again, out, to);
  }

  /** Two multiples of `w` within `w` of each other are equal. */
  lemma SameLength(w: nat, n: nat, a: nat, p: nat, b: nat, q: nat)
    requires w * a == n + p && w * b == n + q && p < w && q < w
    ensures a == b && p == q
  {
    if a < b {
      MulLe(a + 1, b, w);
    } else if b < a {
      MulLe(b + 1, a, w);
    }
  }

  /** Groups of `to` bits and what is left over. */
  ghost predicate Cut(ds: seq<nat>, from: nat, out: seq<nat>, rest: seq<bit>, to: nat)
  {
    Fit(out, to) && |rest| < to && Spread(out, to) + rest == Spread(ds, from)
  }

  const WORD: nat := 0x1_0000_0000

  lemma WordIsPower()
    ensures Pow(2, 32) == WORD
  {
    PowersOfTwo();
  }

  /** A number enters the 32-bit accumulator from the right. */
  lemma Accumulate(val: nat, bits: nat, d: nat, w: nat, next: nat)
    requires bits + w <= 32 && d < Pow(2, w) && next == (val * Pow(2, w) + d) % WORD
    ensures ToBits(next, bits + w) == ToBits(val, bits) + ToBits(d, w)
  {
    WordIsPower();
    ModBits(val * Pow(2, w) + d, bits + w, 32);
    JoinBits(val, bits, d, w);
  }

  /** A group leaves it on the left. */
  lemma Release(val: nat, bits: nat, w: nat, d: nat)
    requires d == Shift(val, bits) % Pow(2, w)
    ensures ToBits(val, w + bits) == ToBits(d, w) + ToBits(val, bits)
    ensures d < Pow(2, w)
  {
    SplitBits(val, w, bits);
    ModBits(Shift(val, bits), w, w);
  }

  /** The last group: what is left, moved up against zeros. */
  lemma Pad(val: nat, bits: nat, w: nat, d: nat)
    requires bits < w && d == val * Pow(2, w - bits) % Pow(2, w)
    ensures ToBits(d, w) == ToBits(val, bits) + Zeros(w - bits)
    ensures d < Pow(2, w)
  {
    var x := val * Pow(2, w - bits);
    ModBits(x, w, w);
    JoinBits(val, bits, 0, w - bits);
    ZerosAreBits(w - bits);
  }

  lemma {:induction false} ZerosAreBits(n: nat)
    ensures ToBits(0, n) == Zeros(n)
  {
    if n > 0 {
      ZerosAreBits(n - 1);
    }
  }

  /** Nothing but zeros is left exactly when the padded group would be zero. */
  lemma LeftoverIsZero(val: nat, bits: nat, w: nat, d: nat)
    requires bits < w && d == val * Pow(2, w - bits) % Pow(2, w)
    ensures d == 0 <==> AllZero(ToBits(val, bits))
  {
    Pad(val, bits, w, d);
    var s, z := ToBits(val, bits), Zeros(w - bits);
    ZeroBits(d, w);
    ModSmall(d, Pow(2, w));
    assert AllZero(s + z) ==> forall i :: 0 <= i < |s| ==> s[i] == (s + z)[i];
  }

  /** The inner loop: full groups leave the accumulator. */
  method Drain(val: nat, bits0: nat, outbits: nat, out0: seq<nat>, ghost all: seq<bit>) returns (bits: nat, out: seq<nat>)
    requires outbits > 0 && Fit(out0, outbits) && Spread(out0, outbits) + ToBits(val, bits0) == all
    ensures bits < outbits && Fit(out, outbits) && Spread(out, outbits) + ToBits(val, bits) == all
  {
    bits, out := bits0, out0;
    while bits >= outbits
      invariant Fit(out, outbits) && Spread(out, outbits) + ToBits(val, bits) == all
    {
      bits := bits - outbits;
      var d := Shift(val, bits) % Pow(2, outbits);
      Release(val, bits, outbits, d);
      SpreadSnoc(out, d, outbits);
      out := out + [d];
    }
  }

  /** The outer loop: each number enters, full groups leave. */
  method Regroup(ds: seq<nat>, inbits: nat, outbits: nat) returns (val: nat, bits: nat, out: seq<nat>)
    requires 0 < inbits && 0 < outbits && inbits + outbits <= 32 && Fit(ds, inbits)
    ensures Cut(ds, inbits, out, ToBits(val, bits), outbits)
  {
    val, bits, out := 0, 0, [];
    var i := 0;
    while i < |ds|
      invariant i <= |ds| && Cut(ds[..i], inbits, out, ToBits(val, bits), outbits)
    {
      ghost var all := Spread(ds[..i + 1], inbits);
      var next := (val * Pow(2, inbits) + ds[i]) % WORD;
      Enters(ds, i, inbits, out, outbits, val, bits, next);
      val := next;
      bits, out := Drain(val, bits + inbits, outbits, out, all);
      i := i + 1;
    }
    assert ds[..i] == ds;
  }

  /** After a number has entered, groups and accumulator hold all the bits read. */
  lemma Enters(ds: seq<nat>, i: nat, inbits: nat, out: seq<nat>, outbits: nat, val: nat, bits: nat, next: nat)
    requires i < |ds| && Cut(ds[..i], inbits, out, ToBits(val, bits), outbits) && ds[i] < Pow(2, inbits)
    requires bits + inbits <= 32 && next == (val * Pow(2, inbits) + ds[i]) % WORD
    ensures Spread(out, outbits) + ToBits(next, bits + inbits) == Spread(ds[..i + 1], inbits)
  {
    Accumulate(val, bits, ds[i], inbits, next);
    SpreadSnoc(ds[..i], ds[i], inbits);
    assert ds[..i] + [ds[i]] == ds[..i + 1];
    Associative(Spread(out, outbits), ToBits(val, bits), ToBits(ds[i], inbits));
  }

  /** `convert_bits` with padding. */
  method RegroupPadded(ds: seq<nat>, inbits: nat, outbits: nat) returns (out: seq<nat>)
    requires 0 < inbits && 0 < outbits && inbits + outbits <= 32 && Fit(ds, inbits)
    ensures out == Covering(ds, inbits, outbits)
  {
    var val, bits;
    val, bits, out := Regroup(ds, inbits, outbits);
    CutIsChunks(ds, inbits, out, ToBits(val, bits), outbits);
    if bits > 0 {
      var d := val * Pow(2, outbits - bits) % Pow(2, outbits);
      Pad(val, bits, outbits, d);
      FromToBits(d, outbits);
      out := out + [d];
    }
  }

  /** `convert_bits` without padding: what is left over must be zero and less than one input number. */
  method RegroupExact(ds: seq<nat>, inbits: nat, outbits: nat) returns (ok: bool, out: seq<nat>)
    requires 0 < inbits && 0 < outbits && inbits + outbits <= 32 && Fit(ds, inbits)
    ensures ok == Exact(ds, inbits, outbits) && out == Chunks(Spread(ds, inbits), outbits)
  {
    var val, bits;
    val, bits, out := Regroup(ds, inbits, outbits);
    CutIsChunks(ds, inbits, out, ToBits(val, bits), outbits);
    var d := val * Pow(2, outbits - bits) % Pow(2, outbits);
    LeftoverIsZero(val, bits, outbits, d);
    ok := d == 0 && bits < inbits;
  }
}
