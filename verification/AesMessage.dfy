/** Key expansion (section 5.2 of FIPS 197, libraries/aes/aes.c:152-225) and whole messages: padding,
    encryption and decryption (code/BTCUtil.c:1406-1493). */
module AesMessage {
  import opened Bytes
  import opened BlockCipher
  import opened Aes
  import opened AesInPlace
  import opened AesCbc
  import opened AesField

  // ----- Key expansion -----

  function Rotated<V>(x: Col<V>): (y: Col<V>)
  {
    Col(x.b, x.c, x.d, x.a)
  }

  /** What the word before contributes to word `i`. */
  function Turned<V>(l: Layer<V>, rcon: nat -> V, x: Col<V>, i: nat): (y: Col<V>)
  {
    if i % 8 == 0 then
      var s := SubCol(l, Rotated(x));
      s.(a := l.xor(s.a, rcon(i / 8)))
    else if i % 8 == 4 then SubCol(l, x)
    else x
  }

  /** Word `i` of the key schedule for a key of eight words. */
  function Word<V>(l: Layer<V>, rcon: nat -> V, key: seq<V>, i: nat): (w: Col<V>)
    requires |key| == 32
  {
    if i < 8 then ColIn(key, 4 * i)
    else AddCol(l, Word(l, rcon, key, i - 8), Turned(l, rcon, Word(l, rcon, key, i - 1), i))
  }

  function ByteOf<V>(x: Col<V>, j: nat): (v: V)
  {
    if j == 0 then x.a else if j == 1 then x.b else if j == 2 then x.c else x.d
  }

  function RoundKeys<V>(l: Layer<V>, rcon: nat -> V, key: seq<V>): (rk: seq<V>)
    requires |key| == 32
    ensures |rk| == 240
  {
    seq(240, j requires 0 <= j < 240 => ByteOf(Word(l, rcon, key, j / 4), j % 4))
  }

  /** The first `n` words are in place. */
  ghost predicate Filled<V>(l: Layer<V>, rcon: nat -> V, key: seq<V>, rk: seq<V>, n: nat)
    requires |key| == 32
  {
    4 * n <= |rk| && forall i: nat :: i < n ==> ColIn(rk, 4 * i) == Word(l, rcon, key, i)
  }

  lemma FilledMore<V>(l: Layer<V>, rcon: nat -> V, key: seq<V>, now: seq<V>, next: seq<V>, n: nat)
    requires |key| == 32 && Filled(l, rcon, key, now, n) && 4 * n + 4 <= |now|
    requires OutsideCol(next, now, 4 * n) && ColIn(next, 4 * n) == Word(l, rcon, key, n)
    ensures Filled(l, rcon, key, next, n + 1)
  {
    forall i: nat | i < n ensures ColIn(next, 4 * i) == Word(l, rcon, key, i) {
      ColumnKept(next, now, 4 * n, 4 * i);
    }
  }

  method PutWord<V>(rk: array<V>, at: nat, x: Col<V>)
    requires at + 4 <= rk.Length
    modifies rk
    ensures OutsideCol(rk[..], old(rk[..]), at) && ColIn(rk[..], at) == x
  {
    rk[at] := x.a;
    rk[at + 1] := x.b;
    rk[at + 2] := x.c;
    rk[at + 3] := x.d;
  }

  /** One word from the two before it that count. */
  method NextWord<V>(l: Layer<V>, rcon: nat -> V, rk: array<V>, i: nat, ghost key: seq<V>)
    requires |key| == 32 && 8 <= i < 60 && rk.Length == 240 && Filled(l, rcon, key, rk[..], i)
    modifies rk
    ensures Filled(l, rcon, key, rk[..], i + 1)
  {
    ghost var now := rk[..];
    var temp := ColIn(rk[..], 4 * (i - 1));
    if i % 8 == 0 {
      temp := Rotated(temp);
      temp := SubCol(l, temp);
      temp := temp.(a := l.xor(temp.a, rcon(i / 8)));
    }
    if i % 8 == 4 {
      temp := SubCol(l, temp);
    }
    PutWord(rk, 4 * i, AddCol(l, ColIn(rk[..], 4 * (i - 8)), temp));
    FilledMore(l, rcon, key, now, rk[..], i);
  }

  lemma FilledAll<V>(l: Layer<V>, rcon: nat -> V, key: seq<V>, rk: seq<V>)
    requires |key| == 32 && |rk| == 240 && Filled(l, rcon, key, rk, 60)
    ensures rk == RoundKeys(l, rcon, key)
  {
    forall j | 0 <= j < 240 ensures rk[j] == ByteOf(Word(l, rcon, key, j / 4), j % 4) {
      assert ColIn(rk, 4 * (j / 4)) == Word(l, rcon, key, j / 4);
    }
  }

  /** `KeyExpansion`. */
  method KeyExpansion<V>(l: Layer<V>, rcon: nat -> V, key: seq<V>, rk: array<V>)
    requires |key| == 32 && rk.Length == 240
    modifies rk
    ensures rk[..] == RoundKeys(l, rcon, key)
  {
    var i := 0;
    while i < 8
      invariant i <= 8 && Filled(l, rcon, key, rk[..], i)
    {
      ghost var now := rk[..];
      PutWord(rk, 4 * i, ColIn(key, 4 * i));
      FilledMore(l, rcon, key, now, rk[..], i);
      i := i + 1;
    }
    while i < 60
      invariant 8 <= i <= 60 && Filled(l, rcon, key, rk[..], i)
    {
      NextWord(l, rcon, rk, i, key);
      i := i + 1;
    }
    FilledAll(l, rcon, key, rk[..]);
  }

  // ----- Blocks and bytes -----

  function FlatCol<V>(x: Col<V>): (s: seq<V>)
    ensures |s| == 4
  {
    [x.a, x.b, x.c, x.d]
  }

  function Flat<V>(x: State<V>): (s: seq<V>)
    ensures |s| == 16
  {
    FlatCol(x.p) + FlatCol(x.q) + FlatCol(x.r) + FlatCol(x.s)
  }

  function FlatAll<V>(bs: seq<State<V>>): (s: seq<V>)
    ensures |s| == 16 * |bs|
  {
    if bs == [] then [] else Flat(bs[0]) + FlatAll(bs[1..])
  }

  lemma StateOfFlat<V>(x: State<V>, rest: seq<V>)
    ensures StateIn(Flat(x) + rest, 0) == x
  {
  }

  lemma StateLater<V>(front: seq<V>, rest: seq<V>, at: nat)
    requires at + 16 <= |rest|
    ensures StateIn(front + rest, |front| + at) == StateIn(rest, at)
  {
  }

  lemma {:induction false} BlocksOfFlat<V>(bs: seq<State<V>>)
    ensures Blocks(FlatAll(bs)) == bs
  {
    if bs != [] {
      var front, rest := Flat(bs[0]), FlatAll(bs[1..]);
      BlocksOfFlat(bs[1..]);
      StateOfFlat(bs[0], rest);
      forall i | 1 <= i < |bs| ensures Blocks(front + rest)[i] == bs[i] {
        StateLater(front, rest, 16 * (i - 1));
        assert Blocks(rest)[i - 1] == bs[1..][i - 1];
      }
    }
  }

  lemma FlatOfState<V>(s: seq<V>)
    requires |s| >= 16
    ensures Flat(StateIn(s, 0)) == s[..16]
  {
  }

  lemma {:induction false} FlatOfBlocks<V>(s: seq<V>)
    requires |s| % 16 == 0
    ensures FlatAll(Blocks(s)) == s
  {
    if s != [] {
      var rest := s[16..];
      FlatOfBlocks(rest);
      FlatOfState(s);
      assert s == s[..16] + rest;
      BlocksRest(s[..16], rest, s);
    }
  }

  lemma BlocksRest<V>(front: seq<V>, rest: seq<V>, s: seq<V>)
    requires |front| == 16 && |rest| % 16 == 0 && s == front + rest
    ensures Blocks(s) != [] && Blocks(s)[1..] == Blocks(rest)
  {
    forall i | 0 <= i < |rest| / 16 ensures Blocks(s)[1..][i] == Blocks(rest)[i] {
      StateLater(front, rest, 16 * i);
    }
  }

  // ----- Padding -----

  function PadNumber(n: nat): (p: nat)
    ensures 1 <= p <= 16
  {
    16 - n % 16
  }

  function Repeated(b: bv8, n: nat): (s: seq<bv8>)
    ensures |s| == n && forall i :: 0 <= i < n ==> s[i] == b
  {
    seq(n, _ => b)
  }

  function Padded(m: seq<bv8>): (r: seq<bv8>)
  {
    var p := PadNumber(|m|);
    m + Repeated(p as bv8, p)
  }

  function Unpadded(d: seq<bv8>): (r: Option<seq<bv8>>)
  {
    if d == [] then Some(d) else
    var p := d[|d| - 1] as int;
    if p > |d| || p > 16 then None else Some(d[..|d| - p])
  }

  lemma PadByte(p: nat)
    requires p <= 16
    ensures (p as bv8) as int == p
  {
  }

  lemma UnpaddedPadded(m: seq<bv8>)
    ensures Unpadded(Padded(m)) == Some(m) && |Padded(m)| % 16 == 0
  {
    var p := PadNumber(|m|);
    PadByte(p);
    var d := Padded(m);
    assert d[|d| - 1] == p as bv8;
    assert d[..|d| - p] == m;
  }

  /** `padData16`: one byte at a time. */
  method PadData16(m: seq<bv8>) returns (d: seq<bv8>)
    ensures d == Padded(m)
  {
    var padNum := 16 - |m| % 16;
    d := m;
    var i := 0;
    while i < padNum
      invariant i <= padNum && d == m + Repeated(padNum as bv8, i)
    {
      d := d + [padNum as bv8];
      i := i + 1;
    }
  }

  // ----- Messages -----

  function Octet(w: bv64): (b: bv8)
  {
    (w & 0xff) as bv8
  }

  /** The 64-bit nonce as it lies in memory. */
  function NonceBytes(nonce: bv64): (s: seq<bv8>)
  {
    [Octet(nonce), Octet(nonce >> 8), Octet(nonce >> 16), Octet(nonce >> 24),
     Octet(nonce >> 32), Octet(nonce >> 40), Octet(nonce >> 48), Octet(nonce >> 56)]
  }

  /** The library's choices: the layer of AES with its arithmetic, the round constants, and SHA-256. */
  datatype Suite = Suite(l: Layer<bv8>, f: Field<bv8>, rcon: nat -> bv8, sha256: seq<bv8> -> seq<bv8>)

  ghost predicate Usable(c: Suite)
  {
    Over(c.l, c.f) && Lawful(c.l) && forall s {:trigger c.sha256(s)} :: |c.sha256(s)| == 32
  }

  ghost function Iv(c: Suite, nonce: bv64): (x: State<bv8>)
    requires Usable(c)
  {
    StateIn(c.sha256(NonceBytes(nonce)), 0)
  }

  ghost function Encrypted(c: Suite, m: seq<bv8>, key: seq<bv8>, nonce: bv64): (r: Option<seq<bv8>>)
    requires Usable(c)
  {
    if |key| != 32 then None else
    Some(FlatAll(Chain(StepsOf(c.l), Keys(RoundKeys(c.l, c.rcon, key)), Iv(c, nonce), Blocks(Padded(m)))))
  }

  ghost function Decrypted(c: Suite, d: seq<bv8>, key: seq<bv8>, nonce: bv64): (r: Option<seq<bv8>>)
    requires Usable(c)
  {
    if |d| % 16 != 0 || |key| != 32 then None else
    Unpadded(FlatAll(Unchain(StepsOf(c.l), Keys(RoundKeys(c.l, c.rcon, key)), Iv(c, nonce), Blocks(d))))
  }

  /** Every message comes back from its encryption under the same key and nonce. */
  lemma DecryptEncrypted(c: Suite, m: seq<bv8>, key: seq<bv8>, nonce: bv64)
    requires Usable(c) && |key| == 32
    ensures Encrypted(c, m, key, nonce).Some? && Decrypted(c, Encrypted(c, m, key, nonce).value, key, nonce) == Some(m)
  {
    var st, ks, iv := StepsOf(c.l), Keys(RoundKeys(c.l, c.rcon, key)), Iv(c, nonce);
    ChainRoundTrip(c.l, st, ks, iv, Padded(m));
    UnpaddedPadded(m);
  }

  lemma ChainRoundTrip<V(!new)>(l: Layer<V>, st: Steps<State<V>>, ks: seq<State<V>>, iv: State<V>, p: seq<V>)
    requires Lawful(l) && st == StepsOf(l) && |ks| >= 2 && |p| % 16 == 0
    ensures FlatAll(Unchain(st, ks, iv, Blocks(FlatAll(Chain(st, ks, iv, Blocks(p)))))) == p
  {
    AesUndoes(l);
    BlocksOfFlat(Chain(st, ks, iv, Blocks(p)));
    UnchainChain(st, ks, iv, Blocks(p));
    FlatOfBlocks(p);
  }

  /** The library's suite is usable, whatever SHA-256 computes. */
  lemma AesUsable(rcon: nat -> bv8, sha256: seq<bv8> -> seq<bv8>)
    requires forall s :: |sha256(s)| == 32
    ensures Usable(Suite(AES, GF, rcon, sha256))
  {
    AesLawful();
  }

  // ----- The library's functions -----

  method Buffer(s: seq<bv8>, n: nat) returns (a: array<bv8>)
    requires n <= |s|
    ensures fresh(a) && a.Length == n && a[..] == s[..n]
  {
    a := new bv8[n](i requires 0 <= i < n => s[i]);
  }

  lemma IvOf(s: seq<bv8>)
    requires |s| >= 16
    ensures StateIn(s[..16], 0) == StateIn(s, 0)
  {
  }

  /** `AES_init_ctx_iv`: the expanded key and the first block of the vector. */
  method InitContext(c: Suite, key: seq<bv8>, iv: seq<bv8>) returns (rk: seq<bv8>, v: array<bv8>)
    requires |key| == 32 && |iv| >= 16
    ensures rk == RoundKeys(c.l, c.rcon, key) && fresh(v) && v.Length == 16 && StateIn(v[..], 0) == StateIn(iv, 0)
  {
    var schedule := new bv8[240](_ => 0);
    KeyExpansion(c.l, c.rcon, key, schedule);
    rk := schedule[..];
    v := Buffer(iv, 16);
    IvOf(iv);
  }

  /** `encryptAES`. */
  method EncryptAES(c: Suite, data: seq<bv8>, privKey: seq<bv8>, nonce: bv64) returns (r: Option<seq<bv8>>)
    requires Usable(c) && |data| + 16 < 0x1_0000_0000
    ensures r == Encrypted(c, data, privKey, nonce)
  {
    var padded := PadData16(data);
    UnpaddedPadded(data);
    if |padded| % 16 != 0 {
      return None;
    }
    if |privKey| != 32 {
      return None;
    }
    var iv := c.sha256(NonceBytes(nonce));
    var rk, v := InitContext(c, privKey, iv);
    var buf := Buffer(padded, |padded|);
    assert buf[..] == padded;
    StepsRun(c.l);
    EncryptBuffer(c.l, c.f, rk, v, buf, StepsOf(c.l));
    FlatOfBlocks(buf[..]);
    r := Some(buf[..]);
  }

  /** `decryptAES`. */
  method DecryptAES(c: Suite, data: seq<bv8>, privKey: seq<bv8>, nonce: bv64) returns (r: Option<seq<bv8>>)
    requires Usable(c) && |data| < 0x1_0000_0000
    ensures r == Decrypted(c, data, privKey, nonce)
  {
    if |data| % 16 != 0 {
      return None;
    }
    if |privKey| != 32 {
      return None;
    }
    var iv := c.sha256(NonceBytes(nonce));
    var rk, v := InitContext(c, privKey, iv);
    var buf := Buffer(data, |data|);
    assert buf[..] == data;
    var next := Buffer(iv, 16);
    StepsRun(c.l);
    DecryptBuffer(c.l, c.f, rk, v, buf, next, StepsOf(c.l));
    FlatOfBlocks(buf[..]);
    r := Unpadded(buf[..]);
  }
}
