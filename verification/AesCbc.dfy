/** Cipher block chaining over a buffer, in place (libraries/aes/aes.c:488-527). While encrypting, the
    initialisation vector of a block is the block before it, where it stands in the buffer. */
module AesCbc {
  import opened BlockCipher
  import opened Aes
  import opened AesInPlace

  function Blocks<V>(s: seq<V>): (bs: seq<State<V>>)
    ensures |bs| == |s| / 16
  {
    seq(|s| / 16, i requires 0 <= i < |s| / 16 => StateIn(s, 16 * i))
  }

  lemma StateKept<V>(now: seq<V>, was: seq<V>, at: nat, other: nat)
    requires Outside(now, was, at) && other + 16 <= |was| && (other + 16 <= at || at + 16 <= other)
    ensures StateIn(now, other) == StateIn(was, other)
  {
  }

  /** Changing one block of the buffer changes one block of the list. */
  lemma BlocksUpdate<V>(now: seq<V>, was: seq<V>, n: nat)
    requires n < |was| / 16 && Outside(now, was, 16 * n)
    ensures Blocks(now) == Blocks(was)[n := StateIn(now, 16 * n)]
  {
    forall i | 0 <= i < |was| / 16 && i != n ensures Blocks(now)[i] == Blocks(was)[i] {
      StateKept(now, was, 16 * n, 16 * i);
    }
  }

  lemma OutsideTwice<V>(a: seq<V>, b: seq<V>, c: seq<V>, at: nat)
    requires Outside(a, b, at) && Outside(b, c, at)
    ensures Outside(a, c, at)
  {
  }

  // ----- How far the loops have come -----

  /** `n` blocks are done; `iv` is what the next one is chained to. */
  ghost predicate Chained<S>(st: Steps<S>, ks: seq<S>, iv0: S, was: seq<S>, now: seq<S>, n: nat, iv: S)
    requires |ks| >= 2
  {
    n <= |was| == |now| && now[n..] == was[n..] && now[..n] + Chain(st, ks, iv, was[n..]) == Chain(st, ks, iv0, was)
  }

  lemma ChainedStep<S>(st: Steps<S>, ks: seq<S>, iv0: S, was: seq<S>, now: seq<S>, n: nat, iv: S, c: S)
    requires |ks| >= 2 && n < |was| && Chained(st, ks, iv0, was, now, n, iv)
    requires c == Ciphered(st, ks, st.add(now[n], iv))
    ensures Chained(st, ks, iv0, was, now[n := c], n + 1, c)
  {
    var next, rest := now[n := c], was[n..];
    assert now[n..][0] == now[n] && rest[0] == was[n] && rest[1..] == was[n + 1..];
    assert next[..n + 1] == now[..n] + [c];
    assert next[n + 1..] == now[n..][1..];
    assert now[..n] + ([c] + Chain(st, ks, c, was[n + 1..])) == now[..n] + [c] + Chain(st, ks, c, was[n + 1..]);
  }

  ghost predicate Unchained<S>(st: Steps<S>, ks: seq<S>, iv0: S, was: seq<S>, now: seq<S>, n: nat, iv: S)
    requires |ks| >= 2
  {
    n <= |was| == |now| && now[n..] == was[n..] && now[..n] + Unchain(st, ks, iv, was[n..]) == Unchain(st, ks, iv0, was)
  }

  lemma UnchainedStep<S>(st: Steps<S>, ks: seq<S>, iv0: S, was: seq<S>, now: seq<S>, n: nat, iv: S, p: S)
    requires |ks| >= 2 && n < |was| && Unchained(st, ks, iv0, was, now, n, iv)
    requires p == st.add(Deciphered(st, ks, now[n]), iv)
    ensures Unchained(st, ks, iv0, was, now[n := p], n + 1, now[n])
  {
    var next, rest := now[n := p], was[n..];
    assert now[n..][0] == now[n] && rest[0] == was[n] && rest[1..] == was[n + 1..];
    assert next[..n + 1] == now[..n] + [p];
    assert next[n + 1..] == now[n..][1..];
    var tail := Unchain(st, ks, was[n], was[n + 1..]);
    assert now[..n] + ([p] + tail) == now[..n] + [p] + tail;
  }

  // ----- The library's functions -----

  /** `XorWithIv`; the vector may stand in front of the block in the same buffer. */
  method XorWithIv<V>(l: Layer<V>, buf: array<V>, at: nat, iv: array<V>, ivAt: nat)
    requires at + 16 <= buf.Length && ivAt + 16 <= iv.Length && (iv == buf ==> ivAt + 16 <= at)
    modifies buf
    ensures Outside(buf[..], old(buf[..]), at)
    ensures StateIn(buf[..], at) == Add(l, old(StateIn(buf[..], at)), old(StateIn(iv[..], ivAt)))
  {
    ghost var was, v := buf[..], iv[..];
    var i := 0;
    while i < 16
      invariant i <= 16 && Outside(buf[..], was, at)
      invariant forall k :: ivAt <= k < ivAt + 16 ==> iv[k] == v[k]
      invariant forall k :: at <= k < at + i ==> buf[k] == l.xor(was[k], v[ivAt + (k - at)])
      invariant forall k :: at + i <= k < at + 16 ==> buf[k] == was[k]
    {
      buf[at + i] := l.xor(buf[at + i], iv[ivAt + i]);
      i := i + 1;
    }
    AddByBytes(l, buf[..], was, at, v, ivAt);
  }

  /** `memcpy` of one block. */
  method CopyBlock<V>(to: array<V>, from: array<V>, at: nat)
    requires to.Length == 16 && at + 16 <= from.Length && to != from
    modifies to
    ensures StateIn(to[..], 0) == StateIn(from[..], at)
  {
    forall i | 0 <= i < 16 {
      to[i] := from[at + i];
    }
  }

  /** One block of the loop. */
  method EncryptBlock<V(!new)>(l: Layer<V>, f: Field<V>, rk: seq<V>, buf: array<V>, at: nat, iv: array<V>, ivAt: nat, ghost st: Steps<State<V>>)
    requires at + 16 <= buf.Length && ivAt + 16 <= iv.Length && (iv == buf ==> ivAt + 16 <= at)
    requires Over(l, f) && |rk| == 240 && Runs(st, l)
    modifies buf
    ensures Outside(buf[..], old(buf[..]), at)
    ensures StateIn(buf[..], at) == Ciphered(st, Keys(rk), st.add(old(StateIn(buf[..], at)), old(StateIn(iv[..], ivAt))))
  {
    ghost var was := buf[..];
    XorWithIv(l, buf, at, iv, ivAt);
    ghost var now := buf[..];
    Cipher(l, f, buf, at, rk, st);
    OutsideTwice(buf[..], now, was, at);
  }

  /** How far the loop has come, with the vector at `ptrAt` of `ptr`. */
  ghost predicate EncryptedTo<V>(st: Steps<State<V>>, ks: seq<State<V>>, iv0: State<V>, was: seq<State<V>>, now: seq<V>, n: nat, v: seq<V>, ptrAt: nat)
    requires |ks| >= 2
  {
    ptrAt + 16 <= |v| && Chained(st, ks, iv0, was, Blocks(now), n, StateIn(v, ptrAt))
  }

  method EncryptStep<V(!new)>(l: Layer<V>, f: Field<V>, rk: seq<V>, buf: array<V>, n: nat, ptr: array<V>, ptrAt: nat,
                              ghost st: Steps<State<V>>, ghost iv0: State<V>, ghost was: seq<State<V>>)
    requires Over(l, f) && |rk| == 240 && Runs(st, l) && 16 * n + 16 <= buf.Length && (ptr == buf ==> ptrAt + 16 <= 16 * n)
    requires EncryptedTo(st, Keys(rk), iv0, was, buf[..], n, ptr[..], ptrAt)
    modifies buf
    ensures EncryptedTo(st, Keys(rk), iv0, was, buf[..], n + 1, buf[..], 16 * n)
  {
    ghost var now, cur := buf[..], StateIn(ptr[..], ptrAt);
    EncryptBlock(l, f, rk, buf, 16 * n, ptr, ptrAt, st);
    BlocksUpdate(buf[..], now, n);
    ChainedStep(st, Keys(rk), iv0, was, Blocks(now), n, cur, StateIn(buf[..], 16 * n));
  }

  /** The loop; it ends with the vector at the last block, if there is one. */
  method EncryptLoop<V(!new)>(l: Layer<V>, f: Field<V>, rk: seq<V>, iv: array<V>, buf: array<V>,
                              ghost st: Steps<State<V>>, ghost iv0: State<V>, ghost was: seq<State<V>>) returns (ptr: array<V>, ptrAt: nat, n: nat)
    requires iv.Length == 16 && iv != buf && Over(l, f) && |rk| == 240 && Runs(st, l) && buf.Length % 16 == 0
    requires EncryptedTo(st, Keys(rk), iv0, was, buf[..], 0, iv[..], 0)
    modifies buf
    ensures 16 * n == buf.Length && EncryptedTo(st, Keys(rk), iv0, was, buf[..], n, ptr[..], ptrAt)
    ensures if n == 0 then ptr == iv && ptrAt == 0 else ptr == buf && ptrAt == 16 * n - 16
  {
    ptr, ptrAt, n := iv, 0, 0;
    while 16 * n < buf.Length
      invariant 16 * n <= buf.Length
      invariant if n == 0 then ptr == iv && ptrAt == 0 else ptr == buf && ptrAt == 16 * n - 16
      invariant EncryptedTo(st, Keys(rk), iv0, was, buf[..], n, ptr[..], ptrAt)
    {
      EncryptStep(l, f, rk, buf, n, ptr, ptrAt, st, iv0, was);
      ptr, ptrAt := buf, 16 * n;
      n := n + 1;
    }
  }

  lemma NothingChained<S>(st: Steps<S>, ks: seq<S>, iv0: S, was: seq<S>)
    requires |ks| >= 2
    ensures Chained(st, ks, iv0, was, was, 0, iv0)
  {
    assert was[0..] == was && was[..0] + Chain(st, ks, iv0, was) == Chain(st, ks, iv0, was);
  }

  /** `AES_CBC_encrypt_buffer`: the buffer is chained, and the context's vector is its last block. */
  method EncryptBuffer<V(!new)>(l: Layer<V>, f: Field<V>, rk: seq<V>, iv: array<V>, buf: array<V>, ghost st: Steps<State<V>>)
    requires buf.Length % 16 == 0 && iv.Length == 16 && iv != buf && Over(l, f) && |rk| == 240 && Runs(st, l)
    modifies buf, iv
    ensures Blocks(buf[..]) == Chain(st, Keys(rk), old(StateIn(iv[..], 0)), old(Blocks(buf[..])))
    ensures buf.Length > 0 ==> StateIn(iv[..], 0) == StateIn(buf[..], buf.Length - 16)
  {
    ghost var iv0, was, ks := StateIn(iv[..], 0), Blocks(buf[..]), Keys(rk);
    NothingChained(st, ks, iv0, was);
    var ptr, ptrAt, n := EncryptLoop(l, f, rk, iv, buf, st, iv0, was);
    ChainedAll(st, ks, iv0, was, Blocks(buf[..]), n, StateIn(ptr[..], ptrAt));
    if ptr != iv {
      CopyBlock(iv, ptr, ptrAt);
    }
  }

  lemma ChainedAll<S>(st: Steps<S>, ks: seq<S>, iv0: S, was: seq<S>, now: seq<S>, n: nat, iv: S)
    requires |ks| >= 2 && n == |was| && Chained(st, ks, iv0, was, now, n, iv)
    ensures now == Chain(st, ks, iv0, was)
  {
    assert now[..n] == now && was[n..] == [];
  }

  lemma UnchainedAll<S>(st: Steps<S>, ks: seq<S>, iv0: S, was: seq<S>, now: seq<S>, n: nat, iv: S)
    requires |ks| >= 2 && n == |was| && Unchained(st, ks, iv0, was, now, n, iv)
    ensures now == Unchain(st, ks, iv0, was)
  {
    assert now[..n] == now && was[n..] == [];
  }

  /** One block of the loop: the vector is put aside before the block is overwritten. */
  method DecryptBlock<V(!new)>(l: Layer<V>, f: Field<V>, rk: seq<V>, iv: array<V>, buf: array<V>, at: nat, next: array<V>, ghost st: Steps<State<V>>)
    requires at + 16 <= buf.Length && iv.Length == 16 == next.Length && iv != buf && next != buf && next != iv
    requires Over(l, f) && |rk| == 240 && Runs(st, l)
    modifies buf, iv, next
    ensures Outside(buf[..], old(buf[..]), at) && StateIn(iv[..], 0) == old(StateIn(buf[..], at))
    ensures StateIn(buf[..], at) == st.add(Deciphered(st, Keys(rk), old(StateIn(buf[..], at))), old(StateIn(iv[..], 0)))
  {
    ghost var was := buf[..];
    CopyBlock(next, buf, at);
    InvCipher(l, f, buf, at, rk, st);
    ghost var now := buf[..];
    XorWithIv(l, buf, at, iv, 0);
    OutsideTwice(buf[..], now, was, at);
    CopyBlock(iv, next, 0);
  }

  ghost predicate DecryptedTo<V>(st: Steps<State<V>>, ks: seq<State<V>>, iv0: State<V>, was: seq<State<V>>, now: seq<V>, n: nat, v: seq<V>)
    requires |ks| >= 2
  {
    |v| == 16 && Unchained(st, ks, iv0, was, Blocks(now), n, StateIn(v, 0))
  }

  method DecryptStep<V(!new)>(l: Layer<V>, f: Field<V>, rk: seq<V>, iv: array<V>, buf: array<V>, n: nat, next: array<V>,
                              ghost st: Steps<State<V>>, ghost iv0: State<V>, ghost was: seq<State<V>>)
    requires Over(l, f) && |rk| == 240 && Runs(st, l) && 16 * n + 16 <= buf.Length
    requires next.Length == 16 && iv != buf && next != buf && next != iv
    requires DecryptedTo(st, Keys(rk), iv0, was, buf[..], n, iv[..])
    modifies buf, iv, next
    ensures DecryptedTo(st, Keys(rk), iv0, was, buf[..], n + 1, iv[..])
  {
    ghost var now, cur := buf[..], StateIn(iv[..], 0);
    DecryptBlock(l, f, rk, iv, buf, 16 * n, next, st);
    BlocksUpdate(buf[..], now, n);
    UnchainedStep(st, Keys(rk), iv0, was, Blocks(now), n, cur, StateIn(buf[..], 16 * n));
  }

  /** `AES_CBC_decrypt_buffer`; `next` is its local `storeNextIv`. */
  method DecryptBuffer<V(!new)>(l: Layer<V>, f: Field<V>, rk: seq<V>, iv: array<V>, buf: array<V>, next: array<V>, ghost st: Steps<State<V>>)
    requires buf.Length % 16 == 0 && iv.Length == 16 == next.Length && iv != buf && next != buf && next != iv
    requires Over(l, f) && |rk| == 240 && Runs(st, l)
    modifies buf, iv, next
    ensures Blocks(buf[..]) == Unchain(st, Keys(rk), old(StateIn(iv[..], 0)), old(Blocks(buf[..])))
  {
    ghost var iv0, was := StateIn(iv[..], 0), Blocks(buf[..]);
    var n := 0;
    while 16 * n < buf.Length
      invariant 16 * n <= buf.Length
      invariant DecryptedTo(st, Keys(rk), iv0, was, buf[..], n, iv[..])
    {
      DecryptStep(l, f, rk, iv, buf, n, next, st, iv0, was);
      n := n + 1;
    }
    UnchainedAll(st, Keys(rk), iv0, was, Blocks(buf[..]), n, StateIn(iv[..], 0));
  }
}
