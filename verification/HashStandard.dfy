/** What a digest is (sections 5.1, 5.2 and 6 of FIPS 180-4): the padded message, block by block through the
    compression function, and the words of the last state (libraries/sha256/sha256.c:99-158,
    libraries/sha512/sha512.c:243-311, libraries/hmac_and_pbkdf/hmac_and_pbkdf.h:11-31, 192-286). */
module HashStandard {
  import opened Bytes
  import opened Arithmetic
  import opened HashSpec
  import opened ShaWords

  /** `k` zeros complete the last block of a message of `n` bytes. */
  predicate Completes<S>(a: Alg<S>, n: nat, k: nat)
  {
    a.block > 0 && (n + 1 + a.field + k) % a.block == 0
  }

  /** The message, a one bit, the fewest zeros that complete a block, and the number of bits of the message. */
  predicate PaddedTo<S>(a: Alg<S>, m: bytes, k: nat, p: bytes)
  {
    && p == m + [0x80] + ZeroBytes(k) + Big(8 * |m|, a.field)
    && Completes(a, |m|, k) && forall j: nat :: j < k ==> !Completes(a, |m|, j)
  }

  /** The states before each block and after the last one. */
  ghost predicate States<S>(a: Alg<S>, p: bytes, n: nat, ss: seq<S>)
  {
    && |p| == a.block * n && |ss| == n + 1 && ss[0] == a.init
    && forall i: nat :: i < n ==> a.block * i + a.block <= |p| && ss[i + 1] == a.compress(ss[i], p[a.block * i..a.block * i + a.block])
  }

  lemma {:induction false} FoldStates<S>(a: Alg<S>, p: bytes, n: nat, ss: seq<S>, i: nat, at: nat)
    requires Sized(a) && States(a, p, n, ss) && i <= n && at == a.block * i && at <= |p|
    ensures Fold(a, a.init, p[..at]) == ss[i]
    decreases i
  {
    if i > 0 {
      var j, before := i - 1, at - a.block;
      assert a.block * j == before;
      FoldStates(a, p, n, ss, j, before);
      FoldSnoc(a, a.init, p[..before], p[before..at], j);
      assert p[..before] + p[before..at] == p[..at];
    }
  }

  lemma PaddedIs<S>(a: Alg<S>, m: bytes, k: nat, p: bytes)
    requires Sized(a) && PaddedTo(a, m, k, p)
    ensures p == Padded(a, m)
  {
    var z := PadZeros(a, |m|);
    LeastIs(a, |m|, z, k);
    assert p == m + ([0x80] + ZeroBytes(k) + Big(8 * |m|, a.field));
  }

  lemma LeastIs<S>(a: Alg<S>, n: nat, z: nat, k: nat)
    requires Sized(a) && z == PadZeros(a, n) && Completes(a, n, k) && forall j: nat :: j < k ==> !Completes(a, n, j)
    ensures z == k
  {
    PadZerosLeast(a, n, k);
    assert Completes(a, n, z);
  }

  /** The hash is what is taken from the last state. */
  lemma HashIs<S>(a: Alg<S>, m: bytes, k: nat, p: bytes, n: nat, ss: seq<S>)
    requires Sized(a) && PaddedTo(a, m, k, p) && States(a, p, n, ss)
    ensures Hash(a, m) == a.extract(ss[n])
  {
    PaddedIs(a, m, k, p);
    FoldStates(a, p, n, ss, n, |p|);
    assert p[..|p|] == p;
  }

  /** Eight words of four bytes in their order, blocks of 64 bytes and a length of eight. */
  lemma Sha256Is(init: State<Word32>, compress: (State<Word32>, bytes) -> State<Word32>, s: State<Word32>)
    ensures var a := Sha256(init, compress);
      && a.block == 64 && a.digest == 32 && a.field == 8 && a.init == init && a.compress == compress
      && a.extract(s) == [s.h0.b0, s.h0.b1, s.h0.b2, s.h0.b3] + [s.h1.b0, s.h1.b1, s.h1.b2, s.h1.b3]
                         + [s.h2.b0, s.h2.b1, s.h2.b2, s.h2.b3] + [s.h3.b0, s.h3.b1, s.h3.b2, s.h3.b3]
                         + [s.h4.b0, s.h4.b1, s.h4.b2, s.h4.b3] + [s.h5.b0, s.h5.b1, s.h5.b2, s.h5.b3]
                         + [s.h6.b0, s.h6.b1, s.h6.b2, s.h6.b3] + [s.h7.b0, s.h7.b1, s.h7.b2, s.h7.b3]
  {
    var w := Words32(XorByte);
    WrittenEight(w, s);
  }

  lemma WrittenEight<W>(w: Word<W>, s: State<W>)
    ensures Written(w, Words(s)) == w.write(s.h0) + w.write(s.h1) + w.write(s.h2) + w.write(s.h3)
                                    + w.write(s.h4) + w.write(s.h5) + w.write(s.h6) + w.write(s.h7)
  {
    WrittenFour(w, s.h0, s.h1, s.h2, s.h3, [s.h4, s.h5, s.h6, s.h7]);
    WrittenFour(w, s.h4, s.h5, s.h6, s.h7, []);
    assert Words(s) == [s.h0, s.h1, s.h2, s.h3] + [s.h4, s.h5, s.h6, s.h7];
    assert [s.h4, s.h5, s.h6, s.h7] + [] == [s.h4, s.h5, s.h6, s.h7];
    EightParts(w.write(s.h0), w.write(s.h1), w.write(s.h2), w.write(s.h3), w.write(s.h4), w.write(s.h5), w.write(s.h6), w.write(s.h7));
  }

  lemma EightParts(a: bytes, b: bytes, c: bytes, d: bytes, e: bytes, f: bytes, g: bytes, h: bytes)
    ensures a + (b + (c + (d + (e + (f + (g + (h + []))))))) == a + b + c + d + e + f + g + h
  {
  }

  lemma WrittenFour<W>(w: Word<W>, a: W, b: W, c: W, d: W, rest: seq<W>)
    ensures Written(w, [a, b, c, d] + rest) == w.write(a) + (w.write(b) + (w.write(c) + (w.write(d) + Written(w, rest))))
  {
    WrittenOne(w, a, [b, c, d] + rest, [a, b, c, d] + rest);
    WrittenOne(w, b, [c, d] + rest, [b, c, d] + rest);
    WrittenOne(w, c, [d] + rest, [c, d] + rest);
    WrittenOne(w, d, rest, [d] + rest);
  }

  lemma WrittenOne<W>(w: Word<W>, x: W, rest: seq<W>, all: seq<W>)
    requires all == [x] + rest
    ensures Written(w, all) == w.write(x) + Written(w, rest)
  {
  }

  /** Bytes are added without carry. */
  lemma XorByteIs(x: byte, y: byte)
    ensures XorByte(x, y) as bv8 == (x as bv8) ^ (y as bv8)
  {
  }
}
