/** PBKDF2 (section 5.2 of RFC 8018) and the library's fast form of it
    (libraries/hmac_and_pbkdf/hmac_and_pbkdf.h:40-190): from the second iteration on, the midstates
    of the keyed contexts are copied and one ready-padded block is compressed into each. */
module Pbkdf2 {
  import opened Bytes
  import opened Arithmetic
  import opened HashSpec
  import opened Hmac
  import opened Sha512Stream

  // ----- Definitions -----

  /** The j-th iteration, for a keyed function `mac`. */
  ghost function U(mac: bytes -> bytes, first: bytes, j: nat): (u: bytes)
  {
    if j <= 1 then first else mac(U(mac, first, j - 1))
  }

  /** U_1 xor ... xor U_c. */
  ghost function Sum<S>(a: Alg<S>, mac: bytes -> bytes, first: bytes, c: nat): (t: bytes)
  {
    if c <= 1 then first else XorBytes(a, Sum(a, mac, first, c - 1), U(mac, first, c))
  }

  /** The block of a counter. */
  ghost function F<S>(a: Alg<S>, mac: bytes -> bytes, salt: bytes, counter: nat, c: nat): (t: bytes)
  {
    Sum(a, mac, mac(salt + Big(counter, 4)), c)
  }

  /** T_1 || ... || T_k. */
  ghost function Derived<S>(a: Alg<S>, mac: bytes -> bytes, salt: bytes, c: nat, k: nat): (t: bytes)
  {
    if k == 0 then [] else Derived(a, mac, salt, c, k - 1) + F(a, mac, salt, k, c)
  }

  ghost predicate Digests<S>(a: Alg<S>, mac: bytes -> bytes)
  {
    forall t {:trigger mac(t)} :: |mac(t)| == a.digest
  }

  lemma {:induction false} SumLength<S>(a: Alg<S>, mac: bytes -> bytes, first: bytes, c: nat)
    requires Digests(a, mac) && |first| == a.digest
    ensures |U(mac, first, c)| == a.digest && |Sum(a, mac, first, c)| == a.digest
  {
    if c > 1 {
      SumLength(a, mac, first, c - 1);
    }
  }

  lemma {:induction false} DerivedLength<S>(a: Alg<S>, mac: bytes -> bytes, salt: bytes, c: nat, k: nat)
    requires Digests(a, mac)
    ensures |Derived(a, mac, salt, c, k)| == k * a.digest
  {
    if k > 0 {
      DerivedLength(a, mac, salt, c, k - 1);
      SumLength(a, mac, mac(salt + Big(k, 4)), c);
      assert k * a.digest == (k - 1) * a.digest + a.digest;
    }
  }

  // ----- One block after the key block -----

  /** What `md_pad` leaves behind the digest: the length is written in four bytes. */
  function Suffix<S>(a: Alg<S>): (s: bytes)
    requires Sized(a)
    ensures |s| == a.block - a.digest
  {
    [0x80] + ZeroBytes(a.block - a.digest - 5) + Big(8 * (a.block + a.digest), 4)
  }

  lemma {:induction false} BigZero(j: nat)
    ensures Big(0, j) == ZeroBytes(j)
  {
    if j > 0 {
      BigZero(j - 1);
    }
  }

  lemma BigSmall(v: nat, j: nat)
    requires v < 0x1_0000_0000
    ensures Big(v, j + 4) == ZeroBytes(j) + Big(v, 4)
  {
    BigSplit(v, j, 4);
    DropIsDivision(v, 4);
    RangeValues();
    BigZero(j);
  }

  lemma SuffixIsPadding<S>(a: Alg<S>)
    requires Sized(a)
    ensures Suffix(a) == [0x80] + ZeroBytes(a.block - a.field - 1 - a.digest) + Big(8 * (a.block + a.digest), a.field)
  {
    BigSmall(8 * (a.block + a.digest), a.field - 4);
    assert ZeroBytes(a.block - a.digest - 5) == ZeroBytes(a.block - a.field - 1 - a.digest) + ZeroBytes(a.field - 4);
  }

  lemma ReachedOne<S>(a: Alg<S>, k: bytes, state: S, u: bytes)
    requires Sized(a) && |k| == a.block && |u| == a.digest && state == a.compress(a.init, k)
    ensures Reached(a, k + u, state, u, 1)
  {
    FoldOne(a, a.init, k);
    assert (k + u)[..a.block * 1] == k && (k + u)[a.block * 1..] == u;
  }

  /** Compressing a digest with its ready-made padding into the midstate of a key block finishes the hash. */
  lemma MidstateFinishes<S>(a: Alg<S>, k: bytes, state: S, u: bytes)
    requires Sized(a) && |k| == a.block && |u| == a.digest && state == a.compress(a.init, k)
    ensures a.compress(state, u + Suffix(a)) == Fold(a, a.init, Padded(a, k + u))
  {
    ReachedOne(a, k, state, u);
    SuffixIsPadding(a);
    FinalShort(a, k + u, state, u, 1);
  }

  /** A context that has taken in a key block holds such a midstate. */
  lemma KeyMidstate<S>(a: Alg<S>, k: bytes)
    requires Sized(a) && |k| == a.block
    ensures Feed(a, Start(a), k).state == a.compress(a.init, k)
  {
    assert [] + k == k;
    FoldOne(a, a.init, k);
  }

  /** The fast form of one HMAC: both midstates, each with one ready-padded block. */
  function FastRound<S>(a: Alg<S>, start: HmacCtx<S>, u: bytes): (s: S)
    requires Sized(a)
  {
    a.compress(start.outer.state, a.extract(a.compress(start.inner.state, u + Suffix(a))) + Suffix(a))
  }

  /** On every digest, the fast form agrees with the keyed function. */
  ghost predicate Serves<S(!new)>(a: Alg<S>, start: HmacCtx<S>, mac: bytes -> bytes)
    requires Sized(a)
  {
    forall u {:trigger FastRound(a, start, u)} :: |u| == a.digest ==> a.extract(FastRound(a, start, u)) == mac(u)
  }

  lemma FastRoundIsHash<S>(a: Alg<S>, i: bytes, o: bytes, u: bytes)
    requires Sized(a) && |i| == |o| == a.block && |u| == a.digest && |Hash(a, i + u)| == a.digest
    ensures var c := HmacCtx(Feed(a, Start(a), i), Feed(a, Start(a), o));
      a.extract(FastRound(a, c, u)) == Hash(a, o + Hash(a, i + u))
  {
    KeyMidstate(a, i);
    KeyMidstate(a, o);
    MidstateFinishes(a, i, Feed(a, Start(a), i).state, u);
    MidstateFinishes(a, o, Feed(a, Start(a), o).state, Hash(a, i + u));
  }

  /** One round of the fast loop is one HMAC. */
  lemma KeyedServes<S(!new)>(a: Alg<S>, key: bytes)
    requires Sound(a)
    ensures Serves(a, KeyedCtx(a, key), MacOf(a, key)) && Digests(a, MacOf(a, key))
  {
    MacDigests(a, key);
    forall u | |u| == a.digest ensures a.extract(FastRound(a, KeyedCtx(a, key), u)) == MacOf(a, key)(u) {
      ServesAt(a, key, u);
    }
  }

  lemma MacDigests<S(!new)>(a: Alg<S>, key: bytes)
    requires Sound(a)
    ensures Digests(a, MacOf(a, key))
  {
  }

  lemma ServesAt<S(!new)>(a: Alg<S>, key: bytes, u: bytes)
    requires Sound(a) && |u| == a.digest
    ensures a.extract(FastRound(a, KeyedCtx(a, key), u)) == MacOf(a, key)(u)
  {
    var k := KeyBlock(a, key);
    FastRoundIsHash(a, Mask(a, k, 0x36), Mask(a, k, 0x5c), u);
  }

  // ----- The library's functions -----

  /** `md_pad`. */
  method MdPad(b: array<byte>, used: nat, msg: nat)
    requires used + 5 <= b.Length
    modifies b
    ensures b[..used] == old(b[..used])
    ensures b[used..] == [0x80] + ZeroBytes(b.Length - used - 5) + Big(8 * msg, 4)
  {
    var n := b.Length - 4;
    forall i | used <= i < n {
      b[i] := 0;
    }
    b[used] := 0x80;
    var size := Big(8 * msg, 4);
    forall i | 0 <= i < 4 {
      b[n + i] := size[i];
    }
    assert b[used..] == [0x80] + ZeroBytes(n - used - 1) + size;
  }

  /** The digest is written over the front of the block. */
  method Extract(b: array<byte>, d: bytes)
    requires |d| <= b.Length
    modifies b
    ensures b[..] == d + old(b[|d|..])
  {
    forall i | 0 <= i < |d| {
      b[i] := d[i];
    }
  }

  /** One round of the loop: both midstates are restored, and the block is rewritten twice. */
  method Round<S>(a: Alg<S>, start: HmacCtx<S>, block: array<byte>, ghost u: bytes) returns (outer: S)
    requires Sized(a) && |u| == a.digest && block[..] == u + Suffix(a) && block.Length == a.block
    requires |a.extract(a.compress(start.inner.state, u + Suffix(a)))| == a.digest
    requires |a.extract(FastRound(a, start, u))| == a.digest
    modifies block
    ensures outer == FastRound(a, start, u) && block[..] == a.extract(outer) + Suffix(a)
  {
    var inner := start.inner.state;
    inner := a.compress(inner, block[..]);
    Extract(block, a.extract(inner));
    assert block[..] == a.extract(inner) + Suffix(a);
    outer := start.outer.state;
    outer := a.compress(outer, block[..]);
    Extract(block, a.extract(outer));
  }

  /** The first iteration, through HMAC proper. */
  method First<S(!new)>(a: Alg<S>, start: HmacCtx<S>, salt: bytes, counter: nat, block: array<byte>, ghost mac: bytes -> bytes)
    returns (outer: S)
    requires Sized(a) && Authenticates(a, start, mac) && Digests(a, mac)
    requires block.Length == a.block && block[a.digest..] == Suffix(a)
    modifies block
    ensures a.extract(outer) == mac(salt + Big(counter, 4))
    ensures block[..] == mac(salt + Big(counter, 4)) + Suffix(a)
  {
    var ctx := start.(inner := Feed(a, start.inner, salt));
    ctx := Update(a, ctx, Big(counter, 4), start, salt);
    var out;
    out, outer := Final(a, ctx);
    assert a.extract(outer) == mac(salt + Big(counter, 4));
    Extract(block, out);
  }

  /** The loop-invariant block: nothing yet, and the padding of a digest behind a key block. */
  method ReadyBlock<S>(a: Alg<S>) returns (block: array<byte>)
    requires Sized(a)
    ensures fresh(block) && block.Length == a.block && block[a.digest..] == Suffix(a)
  {
    block := new byte[a.block](_ => 0);
    MdPad(block, a.digest, a.block + a.digest);
  }

  /** What the loop needs of the context. */
  ghost predicate Ready<S(!new)>(a: Alg<S>, start: HmacCtx<S>, mac: bytes -> bytes)
  {
    Sound(a) && Digests(a, mac) && Serves(a, start, mac)
  }

  /** After `i` iterations: the block holds the last one, ready for the next, and the result their sum. */
  ghost predicate After<S>(a: Alg<S>, mac: bytes -> bytes, first: bytes, i: nat, block: bytes, result: S)
    requires Sized(a)
  {
    && i >= 1 && |U(mac, first, i)| == a.digest
    && block == U(mac, first, i) + Suffix(a) && a.extract(result) == Sum(a, mac, first, i)
  }

  method Next<S(!new)>(a: Alg<S>, start: HmacCtx<S>, i: nat, block: array<byte>, result0: S, ghost mac: bytes -> bytes, ghost first: bytes)
    returns (result: S)
    requires Ready(a, start, mac) && After(a, mac, first, i, block[..], result0)
    modifies block
    ensures After(a, mac, first, i + 1, block[..], result)
  {
    ghost var u := U(mac, first, i);
    assert |mac(u)| == a.digest;
    var outer := Round(a, start, block, u);
    result := a.xor(result0, outer);
    assert mac(u) == U(mac, first, i + 1);
  }

  /** The iterations after the first. */
  method Iterate<S(!new)>(a: Alg<S>, start: HmacCtx<S>, iterations: nat, block: array<byte>, first0: S, ghost mac: bytes -> bytes, ghost first: bytes)
    returns (result: S)
    requires Ready(a, start, mac) && After(a, mac, first, 1, block[..], first0)
    modifies block
    ensures a.extract(result) == Sum(a, mac, first, iterations)
  {
    result := first0;
    var i := 1;
    while i < iterations
      invariant 1 <= i && (i <= iterations || i == 1) && After(a, mac, first, i, block[..], result)
    {
      result := Next(a, start, i, block, result, mac, first);
      i := i + 1;
    }
  }

  /** `PBKDF2_F`: the sum of that many iterations. A count of 0 makes the first one all the same. */
  method BlockOf<S(!new)>(a: Alg<S>, start: HmacCtx<S>, salt: bytes, counter: nat, iterations: nat, ghost mac: bytes -> bytes)
    returns (out: bytes)
    requires Ready(a, start, mac) && Authenticates(a, start, mac)
    ensures out == F(a, mac, salt, counter, iterations)
  {
    var block := ReadyBlock(a);
    ghost var first := mac(salt + Big(counter, 4));
    var result := First(a, start, salt, counter, block, mac);
    assert After(a, mac, first, 1, block[..], result);
    result := Iterate(a, start, iterations, block, result, mac, first);
    out := a.extract(result);
  }

  /** How many blocks the library computes: the sum is cut to 32 bits before it is divided. */
  function BlocksNeeded<S>(a: Alg<S>, nout: nat): (n: nat)
    requires Sized(a)
  {
    (nout + a.digest - 1) % 0x1_0000_0000 / a.digest
  }

  /** How much of the output is written. */
  function Written<S>(a: Alg<S>, nout: nat): (n: nat)
    requires Sized(a)
    ensures n <= nout
  {
    Least(BlocksNeeded(a, nout) * a.digest, nout)
  }

  /** The whole output is written exactly when the length, rounded up, is within 32 bits. */
  lemma WrittenAll<S>(a: Alg<S>, nout: nat)
    requires Sized(a)
    ensures Written(a, nout) == nout <==> nout + a.digest - 1 < 0x1_0000_0000
  {
    var x := nout + a.digest - 1;
    var r := x % 0x1_0000_0000;
    var (q, t) := DivMod(r, a.digest);
    assert q * a.digest == r - t;
  }

  function Least(k: nat, n: nat): (m: nat)
  {
    if k < n then k else n
  }

  /** As far as `d` reaches, the output agrees with it; the rest is as it was. */
  predicate Progress(d: bytes, now: bytes, was: bytes)
  {
    var n := Least(|d|, |was|);
    |now| == |was| && now[..n] == d[..n] && now[n..] == was[n..]
  }

  lemma ProgressStep(d: bytes, f: bytes, now: bytes, was: bytes, next: bytes, taken: nat)
    requires Progress(d, now, was) && |d| < |was| && taken == Least(|f|, |was| - |d|)
    requires |next| == |was| && next[..|d|] == now[..|d|] && next[|d|..|d| + taken] == f[..taken]
    requires next[|d| + taken..] == now[|d| + taken..]
    ensures Progress(d + f, next, was)
  {
    var at, n := |d|, |d| + taken;
    assert now[..at] == d;
    assert (d + f)[..n] == d + f[..taken];
    assert next[..n] == next[..at] + next[at..n];
    assert now[n..] == now[at..][taken..] && was[n..] == was[at..][taken..];
  }

  /** `memcpy` into the output. */
  method CopyTo(out: array<byte>, at: nat, x: bytes)
    requires at + |x| <= out.Length
    modifies out
    ensures out[..at] == old(out[..at]) && out[at..at + |x|] == x && out[at + |x|..] == old(out[at + |x|..])
  {
    forall i | 0 <= i < |x| {
      out[at + i] := x[i];
    }
  }

  /** One round of the counter. */
  method MakeBlock<S(!new)>(a: Alg<S>, ctx: HmacCtx<S>, salt: bytes, counter: nat, iterations: nat, offset: nat, out: array<byte>,
                            ghost mac: bytes -> bytes, ghost was: bytes, ghost d: bytes)
    requires Ready(a, ctx, mac) && Authenticates(a, ctx, mac) && 1 <= counter && offset == |d| < out.Length
    requires d == Derived(a, mac, salt, iterations, counter - 1) && Progress(d, out[..], was)
    modifies out
    ensures Progress(Derived(a, mac, salt, iterations, counter), out[..], was)
  {
    var block := BlockOf(a, ctx, salt, counter, iterations, mac);
    PutBlock(out, offset, block, d, was);
  }

  /** The loop over the counter. */
  method Blocks<S(!new)>(a: Alg<S>, ctx: HmacCtx<S>, salt: bytes, iterations: nat, needed: nat, out: array<byte>,
                         ghost mac: bytes -> bytes, ghost was: bytes)
    requires Ready(a, ctx, mac) && Authenticates(a, ctx, mac) && out[..] == was
    requires needed > 0 ==> (needed - 1) * a.digest < out.Length
    modifies out
    ensures Progress(Derived(a, mac, salt, iterations, needed), out[..], was)
  {
    var counter := 1;
    ghost var d: bytes := [];
    while counter <= needed
      invariant 1 <= counter <= needed + 1 && d == Derived(a, mac, salt, iterations, counter - 1)
      invariant Progress(d, out[..], was)
    {
      var offset := (counter - 1) * a.digest;
      DerivedLength(a, mac, salt, iterations, counter - 1);
      MulLe(counter - 1, needed - 1, a.digest);
      MakeBlock(a, ctx, salt, counter, iterations, offset, out, mac, was, d);
      d := Derived(a, mac, salt, iterations, counter);
      counter := counter + 1;
    }
  }

  /** `PBKDF2`: what is written is the derived key; what is not written is left alone. */
  method Derive<S(!new)>(a: Alg<S>, password: bytes, salt: bytes, iterations: nat, out: array<byte>)
    requires Sound(a)
    modifies out
    ensures Progress(Derived(a, MacOf(a, password), salt, iterations, BlocksNeeded(a, out.Length)), out[..], old(out[..]))
  {
    ghost var was, mac := out[..], MacOf(a, password);
    var ctx := Init(a, password);
    KeyedServes(a, password);
    var needed := BlocksNeeded(a, out.Length);
    LastInside(a, out.Length, needed);
    Blocks(a, ctx, salt, iterations, needed, out, mac, was);
  }

  /** One block, cut where the output ends. */
  method PutBlock(out: array<byte>, offset: nat, block: bytes, ghost d: bytes, ghost was: bytes)
    requires Progress(d, out[..], was) && offset == |d| && offset < out.Length
    modifies out
    ensures Progress(d + block, out[..], was)
  {
    var hs := |block|;
    var taken := if out.Length - offset > hs then hs else out.Length - offset;
    ghost var now := out[..];
    CopyTo(out, offset, block[..taken]);
    ProgressStep(d, block, now, was, out[..], taken);
  }

  /** Within 32 bits the output is the derived key, cut to the length asked for. */
  lemma DerivesKey<S(!new)>(a: Alg<S>, password: bytes, salt: bytes, c: nat, now: bytes, was: bytes, key: bytes)
    requires Sound(a) && |was| + a.digest - 1 < 0x1_0000_0000
    requires key == Derived(a, MacOf(a, password), salt, c, BlocksNeeded(a, |was|)) && Progress(key, now, was)
    ensures |was| <= |key| && now == key[..|was|]
  {
    KeyedServes(a, password);
    DerivedLength(a, MacOf(a, password), salt, c, BlocksNeeded(a, |was|));
    WrittenAll(a, |was|);
    assert now[..|was|] == now;
  }

  /** Even the last block starts inside the output. */
  lemma LastInside<S>(a: Alg<S>, nout: nat, needed: nat)
    requires Sized(a) && needed == BlocksNeeded(a, nout)
    ensures needed > 0 ==> (needed - 1) * a.digest < nout
  {
    var sum := nout + a.digest - 1;
    CutSum(sum);
    Quotient(sum % 0x1_0000_0000, a.digest);
  }

  lemma CutSum(sum: nat)
    ensures sum % 0x1_0000_0000 <= sum
  {
  }

  lemma Quotient(x: nat, d: nat)
    requires d > 0
    ensures x / d > 0 ==> (x / d - 1) * d <= x - d
  {
    var q := x / d;
    assert x == d * q + x % d;
    assert q > 0 ==> (q - 1) * d == d * q - d;
  }
}
