/** What the standards say of the bytes: the key schedule, the steps of a round and the rounds (sections 5.1 and
    5.2 of FIPS 197), the chaining (section 6.2 of NIST SP 800-38A), and the library's messages
    (libraries/aes/aes.c:152-527, code/BTCUtil.c:1406-1493). */
module AesStandard {
  import opened BlockCipher
  import opened Aes
  import opened AesInPlace
  import opened AesCbc
  import opened AesMessage

  // ----- The key schedule -----

  lemma WordByte<V>(l: Layer<V>, rcon: nat -> V, key: seq<V>, rk: seq<V>, i: nat, j: nat, at: nat)
    requires |key| == 32 && rk == RoundKeys(l, rcon, key) && i < 60 && j < 4 && at == 4 * i + j
    ensures rk[at] == ByteOf(Word(l, rcon, key, i), j)
  {
    assert at / 4 == i && at % 4 == j;
  }

  lemma AddedTo<V>(l: Layer<V>, x: Col<V>, y: Col<V>, j: nat)
    requires j < 4
    ensures ByteOf(AddCol(l, x, y), j) == l.xor(ByteOf(x, j), ByteOf(y, j))
  {
  }

  lemma TurnedByte<V>(l: Layer<V>, rcon: nat -> V, x: Col<V>, i: nat, j: nat)
    requires j < 4
    ensures i % 8 == 0 ==> ByteOf(Turned(l, rcon, x, i), j)
                           == if j == 0 then l.xor(l.sub(ByteOf(x, 1)), rcon(i / 8)) else l.sub(ByteOf(x, (j + 1) % 4))
    ensures i % 8 == 4 ==> ByteOf(Turned(l, rcon, x, i), j) == l.sub(ByteOf(x, j))
    ensures i % 8 != 0 && i % 8 != 4 ==> ByteOf(Turned(l, rcon, x, i), j) == ByteOf(x, j)
  {
  }

  lemma KeyByte<V>(key: seq<V>, i: nat, j: nat)
    requires |key| == 32 && i < 8 && j < 4
    ensures ByteOf(ColIn(key, 4 * i), j) == key[4 * i + j]
  {
  }

  /** The 240 bytes begin with the key. */
  lemma ScheduleKey<V>(l: Layer<V>, rcon: nat -> V, key: seq<V>, rk: seq<V>)
    requires |key| == 32 && rk == RoundKeys(l, rcon, key)
    ensures |rk| == 240 && rk[..32] == key
  {
    forall k | 0 <= k < 32 ensures rk[k] == key[k] {
      WordByte(l, rcon, key, rk, k / 4, k % 4, k);
      KeyByte(key, k / 4, k % 4);
    }
  }

  /** Every later word is the one eight words before, added to the one just before: turned by a byte,
      substituted and with a round constant at the multiples of eight. */
  lemma ScheduleTurned<V>(l: Layer<V>, rcon: nat -> V, key: seq<V>, rk: seq<V>, i: nat, j: nat)
    requires |key| == 32 && rk == RoundKeys(l, rcon, key) && 8 <= i < 60 && j < 4 && i % 8 == 0
    ensures var turned := l.sub(rk[4 * (i - 1) + (j + 1) % 4]);
      rk[4 * i + j] == l.xor(rk[4 * (i - 8) + j], if j == 0 then l.xor(turned, rcon(i / 8)) else turned)
  {
    var before, last, w := Word(l, rcon, key, i - 8), Word(l, rcon, key, i - 1), Word(l, rcon, key, i);
    WordByte(l, rcon, key, rk, i, j, 4 * i + j);
    WordByte(l, rcon, key, rk, i - 8, j, 4 * (i - 8) + j);
    WordByte(l, rcon, key, rk, i - 1, (j + 1) % 4, 4 * (i - 1) + (j + 1) % 4);
    LaterByte(l, rcon, before, last, w, i, j);
  }

  /** Substituted halfway between, and as it is elsewhere. */
  lemma ScheduleStraight<V>(l: Layer<V>, rcon: nat -> V, key: seq<V>, rk: seq<V>, i: nat, j: nat)
    requires |key| == 32 && rk == RoundKeys(l, rcon, key) && 8 <= i < 60 && j < 4 && i % 8 != 0
    ensures var last := rk[4 * (i - 1) + j];
      rk[4 * i + j] == l.xor(rk[4 * (i - 8) + j], if i % 8 == 4 then l.sub(last) else last)
  {
    var before, last, w := Word(l, rcon, key, i - 8), Word(l, rcon, key, i - 1), Word(l, rcon, key, i);
    WordByte(l, rcon, key, rk, i, j, 4 * i + j);
    WordByte(l, rcon, key, rk, i - 8, j, 4 * (i - 8) + j);
    WordByte(l, rcon, key, rk, i - 1, j, 4 * (i - 1) + j);
    LaterByte(l, rcon, before, last, w, i, j);
  }

  lemma LaterByte<V>(l: Layer<V>, rcon: nat -> V, before: Col<V>, last: Col<V>, w: Col<V>, i: nat, j: nat)
    requires j < 4 && w == AddCol(l, before, Turned(l, rcon, last, i))
    ensures i % 8 == 0 ==>
      var turned := l.sub(ByteOf(last, (j + 1) % 4));
      ByteOf(w, j) == l.xor(ByteOf(before, j), if j == 0 then l.xor(turned, rcon(i / 8)) else turned)
    ensures i % 8 == 4 ==> ByteOf(w, j) == l.xor(ByteOf(before, j), l.sub(ByteOf(last, j)))
    ensures i % 8 != 0 && i % 8 != 4 ==> ByteOf(w, j) == l.xor(ByteOf(before, j), ByteOf(last, j))
  {
    AddedTo(l, before, Turned(l, rcon, last, i), j);
    TurnedByte(l, rcon, last, i, j);
  }

  // ----- The steps -----

  /** Row `r` moves `r` columns to the left. */
  lemma ShiftedByte<V>(x: State<V>, c: nat, r: nat)
    requires c < 4 && r < 4
    ensures Flat(Shift(x))[4 * c + r] == Flat(x)[4 * ((c + r) % 4) + r]
  {
  }

  lemma SubstitutedByte<V>(l: Layer<V>, x: State<V>, i: nat)
    requires i < 16
    ensures Flat(Sub(l, x))[i] == l.sub(Flat(x)[i])
  {
  }

  lemma AddedByte<V>(l: Layer<V>, x: State<V>, k: State<V>, i: nat)
    requires i < 16
    ensures Flat(Add(l, x, k))[i] == l.xor(Flat(x)[i], Flat(k)[i])
  {
  }

  /** The bytes of a block are its state, and sixteen bytes of the schedule after the other are round keys. */
  lemma StateBytes<V>(s: seq<V>, at: nat)
    requires at + 16 <= |s|
    ensures Flat(StateIn(s, at)) == s[at..at + 16]
  {
  }

  lemma RoundKeyBytes<V>(rk: seq<V>, r: nat)
    requires |rk| == 240 && r < 15
    ensures |Keys(rk)| == 15 && Flat(Keys(rk)[r]) == rk[16 * r..16 * r + 16]
  {
    StateBytes(rk, 16 * r);
  }

  // ----- The rounds -----

  /** A key addition, thirteen rounds of substitution, shift, mixing and key addition, and a last one without
      mixing. */
  ghost predicate Rounds<V>(l: Layer<V>, ks: seq<State<V>>, x: State<V>, ss: seq<State<V>>)
  {
    && |ks| == 15 && |ss| == 14 && ss[0] == Add(l, x, ks[0])
    && forall r :: 1 <= r < 14 ==> ss[r] == Add(l, Mix(l, Shift(Sub(l, ss[r - 1]))), ks[r])
  }

  lemma {:induction false} RoundsUp<V(!new)>(l: Layer<V>, ks: seq<State<V>>, x: State<V>, ss: seq<State<V>>, r: nat)
    requires Rounds(l, ks, x, ss) && r < 14
    ensures Up(StepsOf(l), ks, x, r) == ss[r]
  {
    if r > 0 {
      RoundsUp(l, ks, x, ss, r - 1);
    }
  }

  lemma CipherRounds<V(!new)>(l: Layer<V>, ks: seq<State<V>>, x: State<V>, ss: seq<State<V>>)
    requires Rounds(l, ks, x, ss)
    ensures Ciphered(StepsOf(l), ks, x) == Add(l, Shift(Sub(l, ss[13])), ks[14])
  {
    RoundsUp(l, ks, x, ss, 13);
  }

  // ----- The chain -----

  /** Every block is added to the enciphered block before it, the first one to the vector, and enciphered. */
  lemma {:induction false} ChainBlock<S>(st: Steps<S>, ks: seq<S>, iv: S, plain: seq<S>, i: nat)
    requires |ks| >= 2 && i < |plain|
    ensures var c := Chain(st, ks, iv, plain);
      c[i] == Ciphered(st, ks, st.add(plain[i], if i == 0 then iv else c[i - 1]))
  {
    if i > 0 {
      var c := Ciphered(st, ks, st.add(plain[0], iv));
      ChainBlock(st, ks, c, plain[1..], i - 1);
      var rest := Chain(st, ks, c, plain[1..]);
      assert Chain(st, ks, iv, plain) == [c] + rest;
    }
  }

  // ----- Messages -----

  /** Up to sixteen bytes behind the message, each of which is their number, complete the last block. */
  lemma PaddedBytes(m: seq<bv8>)
    ensures var d := Padded(m);
      && |d| % 16 == 0 && |m| < |d| <= |m| + 16 && d[..|m|] == m
      && forall i :: |m| <= i < |d| ==> d[i] as int == |d| - |m|
  {
    PadByte(PadNumber(|m|));
  }

  /** The bytes of the nonce, least significant first. */
  lemma NoncePlaces(nonce: bv64)
    ensures var s := NonceBytes(nonce);
      && |s| == 8
      && (s[0] as bv64) | ((s[1] as bv64) << 8) | ((s[2] as bv64) << 16) | ((s[3] as bv64) << 24)
         | ((s[4] as bv64) << 32) | ((s[5] as bv64) << 40) | ((s[6] as bv64) << 48) | ((s[7] as bv64) << 56) == nonce
  {
  }

  /** The padded message is chained from the first half of the hash of the nonce, under the expanded key. */
  lemma EncryptedBlocks(c: Suite, m: seq<bv8>, key: seq<bv8>, nonce: bv64, i: nat)
    requires Usable(c) && |key| == 32 && i < |Padded(m)| / 16
    ensures Encrypted(c, m, key, nonce).Some?
    ensures var d, p, h := Encrypted(c, m, key, nonce).value, Padded(m), c.sha256(NonceBytes(nonce));
      && |d| == |p| && |h| == 32 && 16 * i + 16 <= |p|
      && StateIn(d, 16 * i) == Ciphered(StepsOf(c.l), Keys(RoundKeys(c.l, c.rcon, key)),
                                        Add(c.l, StateIn(p, 16 * i), if i == 0 then StateIn(h, 0) else StateIn(d, 16 * (i - 1))))
  {
    var st, ks, iv := StepsOf(c.l), Keys(RoundKeys(c.l, c.rcon, key)), Iv(c, nonce);
    UnpaddedPadded(m);
    ChainedBytes(st, ks, iv, Padded(m), i);
  }

  lemma ChainedBytes<V>(st: Steps<State<V>>, ks: seq<State<V>>, iv: State<V>, p: seq<V>, i: nat)
    requires |ks| >= 2 && |p| % 16 == 0 && i < |p| / 16
    ensures var d := FlatAll(Chain(st, ks, iv, Blocks(p)));
      && |d| == |p|
      && StateIn(d, 16 * i) == Ciphered(st, ks, st.add(StateIn(p, 16 * i), if i == 0 then iv else StateIn(d, 16 * (i - 1))))
  {
    var chain := Chain(st, ks, iv, Blocks(p));
    var d := FlatAll(chain);
    BlocksOfFlat(chain);
    ChainBlock(st, ks, iv, Blocks(p), i);
    assert Blocks(d)[i] == chain[i] && Blocks(p)[i] == StateIn(p, 16 * i);
    assert i > 0 ==> Blocks(d)[i - 1] == chain[i - 1];
  }
}
