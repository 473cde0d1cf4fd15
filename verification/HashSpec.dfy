/** Iterated hash functions (sections 5.1 and 6 of FIPS 180-4), with the compression function and
    the sizes as parameters. */
module HashSpec {
  import opened Bytes
  import opened Arithmetic

  /** `S` is the chaining state; states and bytes can be added without carry; `field` is the width in
      bytes of the length field. */
  datatype Alg<!S> = Alg(init: S, compress: (S, bytes) -> S, extract: S -> bytes,
                         xor: (S, S) -> S, xorByte: (byte, byte) -> byte, block: nat, digest: nat, field: nat)

  predicate Sized<S>(a: Alg<S>)
  {
    4 <= a.field && 1 <= a.digest && a.digest + 1 + a.field <= a.block && (a.block + a.digest) * 8 < 0x1_0000_0000
  }

  /** The compression function folded over the whole blocks of `data`. */
  function Fold<S>(a: Alg<S>, s: S, data: bytes): (r: S)
    requires Sized(a)
    decreases |data|
  {
    if |data| < a.block then s else Fold(a, a.compress(s, data[..a.block]), data[a.block..])
  }

  /** Zero bytes between the marker and the length of a message of `n` bytes. */
  function PadZeros<S>(a: Alg<S>, n: nat): (k: nat)
    requires Sized(a)
  {
    var used := n % a.block;
    if used < a.block - a.field then a.block - a.field - 1 - used else 2 * a.block - a.field - 1 - used
  }

  /** What follows a message of `n` bytes; the length counts bits, modulo the width of its field. */
  function Padding<S>(a: Alg<S>, n: nat): (s: bytes)
    requires Sized(a)
  {
    [0x80] + ZeroBytes(PadZeros(a, n)) + Big(8 * n, a.field)
  }

  function Padded<S>(a: Alg<S>, m: bytes): (s: bytes)
    requires Sized(a)
  {
    m + Padding(a, |m|)
  }

  function Hash<S>(a: Alg<S>, m: bytes): (d: bytes)
    requires Sized(a)
  {
    a.extract(Fold(a, a.init, Padded(a, m)))
  }

  /** The padding is the shortest that completes a block. */
  lemma PadZerosLeast<S>(a: Alg<S>, n: nat, k: nat)
    requires Sized(a)
    ensures (n + 1 + a.field + PadZeros(a, n)) % a.block == 0
    ensures (n + 1 + a.field + k) % a.block == 0 ==> PadZeros(a, n) <= k
  {
    var (q, used) := DivMod(n, a.block);
    if used < a.block - a.field {
      CompletesBlock(a.block, q + 1, n + 1 + a.field, PadZeros(a, n), k);
    } else {
      CompletesBlock(a.block, q + 2, n + 1 + a.field, PadZeros(a, n), k);
    }
  }

  lemma CompletesBlock(b: nat, q: nat, x: nat, z: nat, k: nat)
    requires b > 0 && q > 0 && x + z == b * q && z < b
    ensures (x + z) % b == 0 && ((x + k) % b == 0 ==> z <= k)
  {
    MultipleOf(b, q, x + z);
    if k < z {
      assert b * q == b * (q - 1) + b;
      BetweenMultiples(b, q - 1, x + k);
    }
  }

  lemma MultipleOf(b: nat, q: nat, x: nat)
    requires b > 0 && x == b * q
    ensures x % b == 0
  {
    DivModUnique(x, b, q, 0);
  }

  lemma BetweenMultiples(b: nat, q: nat, x: nat)
    requires b > 0 && b * q < x < b * q + b
    ensures x % b != 0
  {
    DivModUnique(x, b, q, x - b * q);
  }

  lemma FoldOne<S>(a: Alg<S>, s: S, b: bytes)
    requires Sized(a) && |b| == a.block
    ensures Fold(a, s, b) == a.compress(s, b)
  {
    assert b[..a.block] == b && b[a.block..] == [];
  }

  /** `n` whole blocks. */
  predicate Whole<S>(a: Alg<S>, x: bytes, n: nat)
  {
    |x| == a.block * n
  }

  lemma {:induction false} FoldAppend<S>(a: Alg<S>, s: S, x: bytes, y: bytes, n: nat)
    requires Sized(a) && Whole(a, x, n)
    ensures Fold(a, s, x + y) == Fold(a, Fold(a, s, x), y)
    decreases n
  {
    if n == 0 {
      assert x + y == y;
    } else {
      var b, x' := x[..a.block], x[a.block..];
      assert a.block * n == a.block + a.block * (n - 1);
      assert (x + y)[..a.block] == b && (x + y)[a.block..] == x' + y;
      FoldAppend(a, a.compress(s, b), x', y, n - 1);
    }
  }

  lemma FoldSnoc<S>(a: Alg<S>, s: S, x: bytes, b: bytes, n: nat)
    requires Sized(a) && Whole(a, x, n) && |b| == a.block
    ensures Fold(a, s, x + b) == a.compress(Fold(a, s, x), b) && Whole(a, x + b, n + 1)
  {
    FoldAppend(a, s, x, b, n);
    FoldOne(a, Fold(a, s, x), b);
    assert a.block * (n + 1) == a.block * n + a.block;
  }

  // ----- Streams -----

  /** `state` stands for the first `n` blocks of `m` and `tail` is the rest. */
  ghost predicate Reached<S>(a: Alg<S>, m: bytes, state: S, tail: bytes, n: nat)
    requires Sized(a)
  {
    && |tail| < a.block && |m| == a.block * n + |tail|
    && m[a.block * n..] == tail && state == Fold(a, a.init, m[..a.block * n])
  }

  lemma ReachedLength<S>(a: Alg<S>, m: bytes, state: S, tail: bytes, n: nat)
    requires Sized(a) && Reached(a, m, state, tail, n)
    ensures |m| % a.block == |tail| && |m| / a.block == n
  {
    DivModUnique(|m|, a.block, n, |tail|);
  }

  lemma ReachedEmpty<S>(a: Alg<S>)
    requires Sized(a)
    ensures Reached(a, [], a.init, [], 0)
  {
  }

  /** Bytes that do not complete a block. */
  lemma ReachedMore<S>(a: Alg<S>, m: bytes, state: S, tail: bytes, n: nat, x: bytes)
    requires Sized(a) && Reached(a, m, state, tail, n) && |tail| + |x| < a.block
    ensures Reached(a, m + x, state, tail + x, n)
  {
    var k := a.block * n;
    assert (m + x)[..k] == m[..k];
    assert (m + x)[k..] == m[k..] + x;
  }

  /** Bytes that complete exactly one block. */
  lemma ReachedBlock<S>(a: Alg<S>, m: bytes, state: S, tail: bytes, n: nat, x: bytes)
    requires Sized(a) && Reached(a, m, state, tail, n) && |tail| + |x| == a.block
    ensures Reached(a, m + x, a.compress(state, tail + x), [], n + 1)
  {
    var k := a.block * n;
    assert a.block * (n + 1) == k + a.block;
    assert (m + x)[..k + a.block] == m + x;
    assert m + x == m[..k] + (tail + x);
    FoldSnoc(a, a.init, m[..k], tail + x, n);
  }

  /** A stream that ends with the padding has the hash's final state. */
  lemma ReachedFinal<S>(a: Alg<S>, m: bytes, state: S, n: nat)
    requires Sized(a) && Reached(a, Padded(a, m), state, [], n)
    ensures state == Fold(a, a.init, Padded(a, m))
  {
    var p := Padded(a, m);
    assert p[..a.block * n] == p;
  }

  /** The last block, when the length still fits behind the tail. */
  lemma FinalShort<S>(a: Alg<S>, m: bytes, state: S, tail: bytes, n: nat)
    requires Sized(a) && Reached(a, m, state, tail, n) && |tail| < a.block - a.field
    ensures var last := tail + ([0x80] + ZeroBytes(a.block - a.field - 1 - |tail|) + Big(8 * |m|, a.field));
      a.compress(state, last) == Fold(a, a.init, Padded(a, m))
  {
    var pad := [0x80] + ZeroBytes(a.block - a.field - 1 - |tail|) + Big(8 * |m|, a.field);
    ReachedLength(a, m, state, tail, n);
    ReachedBlock(a, m, state, tail, n, pad);
    ReachedFinal(a, m, a.compress(state, tail + pad), n + 1);
  }

  /** The last two blocks, when it does not. */
  lemma FinalLong<S>(a: Alg<S>, m: bytes, state: S, tail: bytes, n: nat, more: bytes, last: bytes)
    requires Sized(a) && Reached(a, m, state, tail, n) && |tail| >= a.block - a.field
    requires more == [0x80] + ZeroBytes(a.block - 1 - |tail|)
    requires last == ZeroBytes(a.block - a.field) + Big(8 * |m|, a.field)
    ensures a.compress(a.compress(state, tail + more), last) == Fold(a, a.init, Padded(a, m))
  {
    ReachedLength(a, m, state, tail, n);
    PaddingLong(a, |m|, |tail|, more, last);
    assert m + more + last == Padded(a, m);
    ReachedTwo(a, m, state, tail, n, more, last);
    ReachedFinal(a, m, a.compress(a.compress(state, tail + more), last), n + 2);
  }

  lemma ReachedTwo<S>(a: Alg<S>, m: bytes, state: S, tail: bytes, n: nat, more: bytes, last: bytes)
    requires Sized(a) && Reached(a, m, state, tail, n) && |tail| + |more| == a.block == |last|
    ensures Reached(a, m + more + last, a.compress(a.compress(state, tail + more), last), [], n + 2)
  {
    ReachedBlock(a, m, state, tail, n, more);
    ReachedBlock(a, m + more, a.compress(state, tail + more), [], n + 1, last);
    assert [] + last == last;
  }

  lemma PaddingLong<S>(a: Alg<S>, n: nat, used: nat, more: bytes, last: bytes)
    requires Sized(a) && used == n % a.block && used >= a.block - a.field
    requires more == [0x80] + ZeroBytes(a.block - 1 - used)
    requires last == ZeroBytes(a.block - a.field) + Big(8 * n, a.field)
    ensures more + last == Padding(a, n)
  {
    assert ZeroBytes(a.block - 1 - used) + ZeroBytes(a.block - a.field) == ZeroBytes(PadZeros(a, n));
  }
}
