/** HMAC (section 2 of RFC 2104) over hash contexts that are copied as values
    (libraries/hmac_and_pbkdf/hmac_and_pbkdf.h:60-121). */
module Hmac {
  import opened Bytes
  import opened Arithmetic
  import opened HashSpec

  // ----- Definitions -----

  function AddByte<S>(a: Alg<S>, x: byte, y: byte): (z: byte)
  {
    a.xorByte(x, y)
  }

  /** Byte strings added without carry, as far as both reach. */
  function XorBytes<S>(a: Alg<S>, x: bytes, y: bytes): (z: bytes)
  {
    var n := if |x| <= |y| then |x| else |y|;
    seq(n, i requires 0 <= i < n => AddByte(a, x[i], y[i]))
  }

  /** States add up as their digests do. */
  ghost predicate Sound<S(!new)>(a: Alg<S>)
  {
    && Sized(a) && (forall s {:trigger a.extract(s)} :: |a.extract(s)| == a.digest)
    && forall s, t {:trigger a.xor(s, t)} :: a.extract(a.xor(s, t)) == XorBytes(a, a.extract(s), a.extract(t))
  }

  function Mask<S>(a: Alg<S>, k: bytes, b: byte): (m: bytes)
    ensures |m| == |k|
  {
    seq(|k|, i requires 0 <= i < |k| => AddByte(a, b, k[i]))
  }

  /** A key of one block: a long key is hashed, a short one filled with zeros. */
  ghost function KeyBlock<S(!new)>(a: Alg<S>, key: bytes): (k: bytes)
    requires Sound(a)
    ensures |k| == a.block
  {
    if |key| > a.block then Hash(a, key) + ZeroBytes(a.block - a.digest) else key + ZeroBytes(a.block - |key|)
  }

  ghost function Mac<S(!new)>(a: Alg<S>, key: bytes, text: bytes): (d: bytes)
    requires Sound(a)
  {
    var k := KeyBlock(a, key);
    Hash(a, Mask(a, k, 0x5c) + Hash(a, Mask(a, k, 0x36) + text))
  }

  /** The keyed function. */
  ghost function MacOf<S(!new)>(a: Alg<S>, key: bytes): (f: bytes -> bytes)
    requires Sound(a)
  {
    text => Mac(a, key, text)
  }

  // ----- Contexts as values -----

  datatype Ctx<S> = Ctx(state: S, tail: bytes, length: nat)

  function Start<S>(a: Alg<S>): (c: Ctx<S>)
  {
    Ctx(a.init, [], 0)
  }

  /** What is left after the whole blocks. */
  function Remainder<S>(a: Alg<S>, data: bytes): (t: bytes)
    requires Sized(a)
    decreases |data|
  {
    if |data| < a.block then data else Remainder(a, data[a.block..])
  }

  function Feed<S>(a: Alg<S>, c: Ctx<S>, x: bytes): (r: Ctx<S>)
    requires Sized(a)
  {
    Ctx(Fold(a, c.state, c.tail + x), Remainder(a, c.tail + x), c.length + |x|)
  }

  function Close<S>(a: Alg<S>, c: Ctx<S>): (s: S)
    requires Sized(a)
  {
    Fold(a, c.state, c.tail + Padding(a, c.length))
  }

  /** What follows the whole blocks continues from their state. */
  lemma {:induction false} FoldRemainder<S>(a: Alg<S>, s: S, x: bytes, y: bytes)
    requires Sized(a)
    ensures Fold(a, s, x + y) == Fold(a, Fold(a, s, x), Remainder(a, x) + y)
    ensures Remainder(a, x + y) == Remainder(a, Remainder(a, x) + y)
    decreases |x|
  {
    if |x| >= a.block {
      var b, x' := x[..a.block], x[a.block..];
      assert (x + y)[..a.block] == b && (x + y)[a.block..] == x' + y;
      FoldRemainder(a, a.compress(s, b), x', y);
    }
  }

  lemma FeedTwice<S>(a: Alg<S>, c: Ctx<S>, x: bytes, y: bytes)
    requires Sized(a)
    ensures Feed(a, Feed(a, c, x), y) == Feed(a, c, x + y)
  {
    FoldRemainder(a, c.state, c.tail + x, y);
    assert c.tail + x + y == c.tail + (x + y);
  }

  /** A context that has taken in `m` closes with the hash of `m`. */
  lemma CloseFeed<S>(a: Alg<S>, m: bytes)
    requires Sized(a)
    ensures Close(a, Feed(a, Start(a), m)) == Fold(a, a.init, Padded(a, m))
  {
    FoldRemainder(a, a.init, m, Padding(a, |m|));
    assert [] + m == m;
  }

  /** The contexts of the streaming hash functions are these. */
  lemma ReachedIsFed<S>(a: Alg<S>, m: bytes, state: S, tail: bytes, n: nat)
    requires Sized(a) && Reached(a, m, state, tail, n)
    ensures Feed(a, Start(a), m) == Ctx(state, tail, |m|)
  {
    var k := a.block * n;
    var x := m[..k];
    assert m == x + tail;
    assert [] + m == m;
    FedWhole(a, x, n, tail);
  }

  lemma FedWhole<S>(a: Alg<S>, x: bytes, n: nat, tail: bytes)
    requires Sized(a) && Whole(a, x, n) && |tail| < a.block
    ensures Fold(a, a.init, x + tail) == Fold(a, a.init, x) && Remainder(a, x + tail) == tail
  {
    FoldRemainder(a, a.init, x, tail);
    WholeLeavesNothing(a, x, n);
    assert [] + tail == tail;
  }

  lemma {:induction false} WholeLeavesNothing<S>(a: Alg<S>, x: bytes, n: nat)
    requires Sized(a) && Whole(a, x, n)
    ensures Remainder(a, x) == []
  {
    if n > 0 {
      assert a.block * n == a.block + a.block * (n - 1);
      WholeLeavesNothing(a, x[a.block..], n - 1);
    }
  }

  // ----- The calls -----

  datatype HmacCtx<S> = HmacCtx(inner: Ctx<S>, outer: Ctx<S>)

  /** The state in which closing leaves the outer context. */
  function Outcome<S>(a: Alg<S>, c: HmacCtx<S>): (s: S)
    requires Sized(a)
  {
    Close(a, Feed(a, c.outer, a.extract(Close(a, c.inner))))
  }

  function Taken<S>(a: Alg<S>, c: HmacCtx<S>, text: bytes): (r: HmacCtx<S>)
    requires Sized(a)
  {
    c.(inner := Feed(a, c.inner, text))
  }

  /** Whatever text follows, the context produces its authentication code. */
  ghost predicate Authenticates<S(!new)>(a: Alg<S>, c: HmacCtx<S>, mac: bytes -> bytes)
    requires Sized(a)
  {
    forall text {:trigger Taken(a, c, text)} :: a.extract(Outcome(a, Taken(a, c, text))) == mac(text)
  }

  ghost function KeyedCtx<S(!new)>(a: Alg<S>, key: bytes): (c: HmacCtx<S>)
    requires Sound(a)
  {
    var k := KeyBlock(a, key);
    HmacCtx(Feed(a, Start(a), Mask(a, k, 0x36)), Feed(a, Start(a), Mask(a, k, 0x5c)))
  }

  lemma OutcomeIsMac<S(!new)>(a: Alg<S>, i: bytes, o: bytes, text: bytes)
    requires Sized(a)
    ensures var c := HmacCtx(Feed(a, Start(a), i), Feed(a, Start(a), o));
      a.extract(Outcome(a, Taken(a, c, text))) == Hash(a, o + Hash(a, i + text))
  {
    FeedTwice(a, Start(a), i, text);
    CloseFeed(a, i + text);
    FeedTwice(a, Start(a), o, Hash(a, i + text));
    CloseFeed(a, o + Hash(a, i + text));
  }

  lemma KeyedAuthenticates<S(!new)>(a: Alg<S>, key: bytes)
    requires Sound(a)
    ensures Authenticates(a, KeyedCtx(a, key), MacOf(a, key))
  {
    var k := KeyBlock(a, key);
    forall text ensures a.extract(Outcome(a, Taken(a, KeyedCtx(a, key), text))) == MacOf(a, key)(text) {
      OutcomeIsMac(a, Mask(a, k, 0x36), Mask(a, k, 0x5c), text);
    }
  }

  /** The key block, masked byte by byte. */
  method MaskedBlock<S>(a: Alg<S>, k: bytes, b: byte) returns (r: bytes)
    ensures r == Mask(a, k, b)
  {
    r := [];
    var i := 0;
    while i < |k|
      invariant i <= |k| && r == Mask(a, k, b)[..i]
    {
      r := r + [AddByte(a, b, k[i])];
      i := i + 1;
    }
  }

  /** `HMAC_INIT`. */
  method Init<S(!new)>(a: Alg<S>, key: bytes) returns (c: HmacCtx<S>)
    requires Sound(a)
    ensures c == KeyedCtx(a, key) && Authenticates(a, c, MacOf(a, key))
  {
    var k := key;
    if |key| > a.block {
      var inner := Feed(a, Start(a), key);
      CloseFeed(a, key);
      k := a.extract(Close(a, inner));
    }
    if a.block > |k| {
      k := k + ZeroBytes(a.block - |k|);
    }
    assert k == KeyBlock(a, key);
    var blkInner := MaskedBlock(a, k, 0x36);
    var blkOuter := MaskedBlock(a, k, 0x5c);
    c := HmacCtx(Feed(a, Start(a), blkInner), Feed(a, Start(a), blkOuter));
    KeyedAuthenticates(a, key);
  }

  /** `HMAC_UPDATE`. */
  method Update<S>(a: Alg<S>, c: HmacCtx<S>, data: bytes, ghost start: HmacCtx<S>, ghost text: bytes) returns (r: HmacCtx<S>)
    requires Sized(a) && c == Taken(a, start, text)
    ensures r == Taken(a, start, text + data)
  {
    r := c.(inner := Feed(a, c.inner, data));
    FeedTwice(a, start.inner, text, data);
  }

  /** `HMAC_FINAL`: the digest, and the state in which it leaves the outer context. */
  method Final<S>(a: Alg<S>, c: HmacCtx<S>) returns (out: bytes, outer: S)
    requires Sized(a)
    ensures outer == Outcome(a, c) && out == a.extract(outer)
  {
    out := a.extract(Close(a, c.inner));
    var fed := Feed(a, c.outer, out);
    outer := Close(a, fed);
    out := a.extract(outer);
  }
}
