/** What `PBKDF2` leaves in its output, byte by byte (libraries/hmac_and_pbkdf/hmac_and_pbkdf.h:68-190;
    section 5.2 of RFC 8018, section 2 of RFC 2104). */
module DerivedBytes {
  import opened Bytes
  import opened Arithmetic
  import opened HashSpec
  import opened Hmac
  import opened Pbkdf2

  // ----- The keyed function -----

  /** A key block, masked: every byte of the key, and the mask itself behind the key. */
  predicate Masked<S>(a: Alg<S>, key: bytes, mask: byte, k: bytes)
  {
    |key| <= |k| == a.block && forall i :: 0 <= i < |k| ==> k[i] == a.xorByte(mask, if i < |key| then key[i] else 0)
  }

  /** The keyed function hashes the text behind the key masked with 0x36, and that hash behind the key masked
      with 0x5c; a key longer than a block is its hash. */
  lemma MacBytes<S(!new)>(a: Alg<S>, key: bytes, text: bytes, inner: bytes, outer: bytes)
    requires Sound(a)
    requires Masked(a, if |key| > a.block then Hash(a, key) else key, 0x36, inner)
    requires Masked(a, if |key| > a.block then Hash(a, key) else key, 0x5c, outer)
    ensures MacOf(a, key)(text) == Hash(a, outer + Hash(a, inner + text))
  {
    var k := KeyBlock(a, key);
    assert inner == Mask(a, k, 0x36);
    assert outer == Mask(a, k, 0x5c);
  }

  // ----- The blocks -----

  /** Each string is the code of the one before. */
  ghost predicate Iterates(mac: bytes -> bytes, first: bytes, us: seq<bytes>)
  {
    us != [] && us[0] == first && forall j :: 0 < j < |us| ==> us[j] == mac(us[j - 1])
  }

  /** The bytes at place `i`, added without carry from the first string to the last. */
  function Column<S>(a: Alg<S>, us: seq<bytes>, i: nat): (b: byte)
    requires us != [] && forall j :: 0 <= j < |us| ==> i < |us[j]|
  {
    var n := |us| - 1;
    if n == 0 then us[0][i] else a.xorByte(Column(a, us[..n], i), us[n][i])
  }

  lemma {:induction false} IterateIs(mac: bytes -> bytes, first: bytes, us: seq<bytes>, j: nat)
    requires Iterates(mac, first, us) && j < |us|
    ensures us[j] == U(mac, first, j + 1)
  {
    if j > 0 {
      IterateIs(mac, first, us, j - 1);
    }
  }

  lemma {:induction false} SumColumn<S>(a: Alg<S>, mac: bytes -> bytes, first: bytes, us: seq<bytes>, i: nat)
    requires Digests(a, mac) && |first| == a.digest && Iterates(mac, first, us) && i < a.digest
    ensures forall j :: 0 <= j < |us| ==> |us[j]| == a.digest
    ensures |Sum(a, mac, first, |us|)| == a.digest && Sum(a, mac, first, |us|)[i] == Column(a, us, i)
    decreases |us|
  {
    var n := |us| - 1;
    SumLength(a, mac, first, |us|);
    forall j | 0 <= j < |us| ensures |us[j]| == a.digest {
      IterateIs(mac, first, us, j);
      SumLength(a, mac, first, j + 1);
    }
    if n > 0 {
      SumColumn(a, mac, first, us[..n], i);
      IterateIs(mac, first, us, n);
      SumLength(a, mac, first, n);
    }
  }

  /** The strings f(1), ..., f(n), one after the other. */
  function Row(f: nat -> bytes, n: nat): (s: bytes)
  {
    if n == 0 then [] else Row(f, n - 1) + f(n)
  }

  lemma {:induction false} RowLength(f: nat -> bytes, digest: nat, n: nat)
    requires forall j: nat {:trigger f(j)} :: |f(j)| == digest
    ensures |Row(f, n)| == n * digest
  {
    if n > 0 {
      RowLength(f, digest, n - 1);
      assert n * digest == (n - 1) * digest + digest;
    }
  }

  lemma {:induction false} RowByte(f: nat -> bytes, n: nat, k: nat, i: nat)
    requires k < n && i < |f(k + 1)|
    ensures |Row(f, k)| + i < |Row(f, n)| && Row(f, n)[|Row(f, k)| + i] == f(k + 1)[i]
    decreases n
  {
    if k < n - 1 {
      RowByte(f, n - 1, k, i);
    }
  }

  /** The blocks, by their counters. */
  ghost function BlockOfCounter<S>(a: Alg<S>, mac: bytes -> bytes, salt: bytes, c: nat): (f: nat -> bytes)
  {
    (j: nat) => Sum(a, mac, mac(salt + Big(j, 4)), c)
  }

  lemma {:induction false} DerivedIsRow<S>(a: Alg<S>, mac: bytes -> bytes, salt: bytes, c: nat, n: nat)
    ensures Derived(a, mac, salt, c, n) == Row(BlockOfCounter(a, mac, salt, c), n)
  {
    if n > 0 {
      DerivedIsRow(a, mac, salt, c, n - 1);
    }
  }

  /** A byte of the derived key belongs to the block of the next counter. */
  lemma DerivedByte<S>(a: Alg<S>, mac: bytes -> bytes, salt: bytes, c: nat, k: nat, n: nat, at: nat, i: nat)
    requires Digests(a, mac) && k < n && i < a.digest && at == k * a.digest
    ensures var d, t := Derived(a, mac, salt, c, n), Sum(a, mac, mac(salt + Big(k + 1, 4)), c);
      at + i < |d| && i < |t| && d[at + i] == t[i]
  {
    var f := BlockOfCounter(a, mac, salt, c);
    forall j: nat ensures |f(j)| == a.digest {
      SumLength(a, mac, mac(salt + Big(j, 4)), c);
    }
    DerivedIsRow(a, mac, salt, c, n);
    RowLength(f, a.digest, k);
    RowByte(f, n, k, i);
  }

  /** How many blocks are computed: the rounded-up length is cut to 32 bits first. */
  function BlockCount(nout: nat, digest: nat): (n: nat)
    requires digest > 0
  {
    (nout + digest - 1) % 0x1_0000_0000 / digest
  }

  /** What `PBKDF2` leaves in `now` where there was `was`. */
  ghost predicate Left<S(!new)>(a: Alg<S>, password: bytes, salt: bytes, c: nat, now: bytes, was: bytes)
    requires Sound(a)
  {
    Progress(Derived(a, MacOf(a, password), salt, c, BlocksNeeded(a, |was|)), now, was)
  }

  /** Block `k` of the output, counted from zero, is made with the counter k + 1: each of its bytes that lies
      inside the output is the sum of the bytes of the iterates, the first of which is the code of the salt
      and the counter. */
  lemma OutputByte<S(!new)>(a: Alg<S>, password: bytes, salt: bytes, c: nat, now: bytes, was: bytes, mac: bytes -> bytes, k: nat, at: nat, i: nat, us: seq<bytes>)
    requires Sound(a) && Left(a, password, salt, c, now, was) && mac == MacOf(a, password)
    requires k < BlockCount(|was|, a.digest) && at == k * a.digest && i < a.digest && at + i < |was|
    requires Iterates(mac, mac(salt + Big(k + 1, 4)), us) && |us| == if c == 0 then 1 else c
    ensures |now| == |was| && (forall j :: 0 <= j < |us| ==> |us[j]| == a.digest) && now[at + i] == Column(a, us, i)
  {
    MacDigests(a, password);
    ReachedByte(a, mac, salt, c, now, was, k, at, BlocksNeeded(a, |was|), i, us);
  }

  lemma ReachedByte<S>(a: Alg<S>, mac: bytes -> bytes, salt: bytes, c: nat, now: bytes, was: bytes, k: nat, at: nat, n: nat, i: nat, us: seq<bytes>)
    requires Digests(a, mac) && Progress(Derived(a, mac, salt, c, n), now, was)
    requires k < n && i < a.digest && at == k * a.digest && at + i < |was|
    requires Iterates(mac, mac(salt + Big(k + 1, 4)), us) && |us| == if c == 0 then 1 else c
    ensures |now| == |was| && (forall j :: 0 <= j < |us| ==> |us[j]| == a.digest) && now[at + i] == Column(a, us, i)
  {
    SumColumn(a, mac, mac(salt + Big(k + 1, 4)), us, i);
    DerivedByte(a, mac, salt, c, k, n, at, i);
    Reaches(Derived(a, mac, salt, c, n), now, was, at + i);
  }

  lemma Reaches(d: bytes, now: bytes, was: bytes, i: nat)
    requires Progress(d, now, was) && i < |d| && i < |was|
    ensures |now| == |was| && now[i] == d[i]
  {
    var n := Least(|d|, |was|);
    assert now[..n][i] == d[..n][i];
  }

  /** With one iteration a block is the code of the salt and its counter. */
  lemma FirstIteration<S(!new)>(a: Alg<S>, password: bytes, salt: bytes, c: nat, now: bytes, was: bytes, mac: bytes -> bytes, k: nat, at: nat, i: nat)
    requires Sound(a) && Left(a, password, salt, c, now, was) && mac == MacOf(a, password) && c <= 1
    requires k < BlockCount(|was|, a.digest) && at == k * a.digest && i < a.digest && at + i < |was|
    ensures |now| == |was| && |mac(salt + Big(k + 1, 4))| == a.digest && now[at + i] == mac(salt + Big(k + 1, 4))[i]
  {
    OutputByte(a, password, salt, c, now, was, mac, k, at, i, [mac(salt + Big(k + 1, 4))]);
  }

  /** What lies behind the last block stays as it was. */
  lemma BehindOutput<S(!new)>(a: Alg<S>, password: bytes, salt: bytes, c: nat, now: bytes, was: bytes, i: nat)
    requires Sound(a) && Left(a, password, salt, c, now, was) && BlockCount(|was|, a.digest) * a.digest <= i < |was|
    ensures |now| == |was| && now[i] == was[i]
  {
    MacDigests(a, password);
    ByteKept(a, MacOf(a, password), salt, c, now, was, BlocksNeeded(a, |was|), i);
  }

  lemma ByteKept<S>(a: Alg<S>, mac: bytes -> bytes, salt: bytes, c: nat, now: bytes, was: bytes, n: nat, i: nat)
    requires Digests(a, mac) && Progress(Derived(a, mac, salt, c, n), now, was) && n * a.digest <= i < |was|
    ensures |now| == |was| && now[i] == was[i]
  {
    DerivedLength(a, mac, salt, c, n);
    var m := Least(n * a.digest, |was|);
    assert now[m..][i - m] == was[m..][i - m];
  }
}
