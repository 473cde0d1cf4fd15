/** AES in place (libraries/aes/aes.c:231-458): the state is sixteen bytes of a longer buffer, and every
    step rewrites them where they are. */
module AesInPlace {
  import opened BlockCipher
  import opened Aes

  function ColIn<V>(s: seq<V>, at: nat): (x: Col<V>)
    requires at + 4 <= |s|
  {
    Col(s[at], s[at + 1], s[at + 2], s[at + 3])
  }

  /** The block that begins at `at`. */
  function StateIn<V>(s: seq<V>, at: nat): (x: State<V>)
    requires at + 16 <= |s|
  {
    State(ColIn(s, at), ColIn(s, at + 4), ColIn(s, at + 8), ColIn(s, at + 12))
  }

  /** Nothing but the sixteen bytes at `at` differs. */
  ghost predicate Outside<V>(now: seq<V>, was: seq<V>, at: nat)
  {
    |now| == |was| && forall k :: 0 <= k < |was| && !(at <= k < at + 16) ==> now[k] == was[k]
  }

  /** Byte by byte: what each place of the block becomes. */
  lemma SubByBytes<V>(l: Layer<V>, now: seq<V>, was: seq<V>, at: nat)
    requires |now| == |was| && at + 16 <= |was|
    requires forall k :: at <= k < at + 16 ==> now[k] == l.sub(was[k])
    ensures StateIn(now, at) == Sub(l, StateIn(was, at))
  {
  }

  lemma InvSubByBytes<V>(l: Layer<V>, now: seq<V>, was: seq<V>, at: nat)
    requires |now| == |was| && at + 16 <= |was|
    requires forall k :: at <= k < at + 16 ==> now[k] == l.inv(was[k])
    ensures StateIn(now, at) == InvSub(l, StateIn(was, at))
  {
  }

  lemma AddByBytes<V>(l: Layer<V>, now: seq<V>, was: seq<V>, at: nat, key: seq<V>, from: nat)
    requires |now| == |was| && at + 16 <= |was| && from + 16 <= |key|
    requires forall k :: at <= k < at + 16 ==> now[k] == l.xor(was[k], key[from + (k - at)])
    ensures StateIn(now, at) == Add(l, StateIn(was, at), StateIn(key, from))
  {
  }

  /** `AddRoundKey`; the loops go through the block in order. */
  method AddRoundKey<V>(l: Layer<V>, round: nat, buf: array<V>, at: nat, rk: seq<V>)
    requires at + 16 <= buf.Length && 16 * round + 16 <= |rk|
    modifies buf
    ensures Outside(buf[..], old(buf[..]), at)
    ensures StateIn(buf[..], at) == Add(l, old(StateIn(buf[..], at)), StateIn(rk, 16 * round))
  {
    ghost var was := buf[..];
    var i := 0;
    while i < 4
      invariant i <= 4 && Outside(buf[..], was, at)
      invariant forall k :: at <= k < at + 4 * i ==> buf[k] == l.xor(was[k], rk[16 * round + (k - at)])
      invariant forall k :: at + 4 * i <= k < at + 16 ==> buf[k] == was[k]
    {
      var j := 0;
      while j < 4
        invariant j <= 4 && Outside(buf[..], was, at)
        invariant forall k :: at <= k < at + 4 * i + j ==> buf[k] == l.xor(was[k], rk[16 * round + (k - at)])
        invariant forall k :: at + 4 * i + j <= k < at + 16 ==> buf[k] == was[k]
      {
        var k := 4 * i + j;
        buf[at + k] := l.xor(buf[at + k], rk[16 * round + k]);
        j := j + 1;
      }
      i := i + 1;
    }
    AddByBytes(l, buf[..], was, at, rk, 16 * round);
  }

  /** The loops of `SubBytes` and `InvSubBytes` go through the rows: they have passed column `c` of row
      `r` when they are at column `j` of row `i`. */
  predicate Passed(r: nat, c: nat, i: nat, j: nat)
  {
    r < i || (r == i && c < j)
  }

  method SubBytes<V>(l: Layer<V>, buf: array<V>, at: nat)
    requires at + 16 <= buf.Length
    modifies buf
    ensures Outside(buf[..], old(buf[..]), at)
    ensures StateIn(buf[..], at) == Sub(l, old(StateIn(buf[..], at)))
  {
    ghost var was := buf[..];
    ThroughRows(l.sub, buf, at);
    SubByBytes(l, buf[..], was, at);
  }

  method InvSubBytes<V>(l: Layer<V>, buf: array<V>, at: nat)
    requires at + 16 <= buf.Length
    modifies buf
    ensures Outside(buf[..], old(buf[..]), at)
    ensures StateIn(buf[..], at) == InvSub(l, old(StateIn(buf[..], at)))
  {
    ghost var was := buf[..];
    ThroughRows(l.inv, buf, at);
    InvSubByBytes(l, buf[..], was, at);
  }

  method ThroughRows<V>(g: V -> V, buf: array<V>, at: nat)
    requires at + 16 <= buf.Length
    modifies buf
    ensures Outside(buf[..], old(buf[..]), at)
    ensures forall k :: at <= k < at + 16 ==> buf[k] == g(old(buf[k]))
  {
    ghost var was := buf[..];
    var i := 0;
    while i < 4
      invariant i <= 4 && Outside(buf[..], was, at)
      invariant forall k :: at <= k < at + 16 ==>
        buf[k] == if Passed((k - at) % 4, (k - at) / 4, i, 0) then g(was[k]) else was[k]
    {
      var j := 0;
      while j < 4
        invariant j <= 4 && Outside(buf[..], was, at)
        invariant forall k :: at <= k < at + 16 ==>
          buf[k] == if Passed((k - at) % 4, (k - at) / 4, i, j) then g(was[k]) else was[k]
      {
        buf[at + 4 * j + i] := g(buf[at + 4 * j + i]);
        j := j + 1;
      }
      i := i + 1;
    }
  }

  method ShiftRows<V>(buf: array<V>, at: nat)
    requires at + 16 <= buf.Length
    modifies buf
    ensures Outside(buf[..], old(buf[..]), at)
    ensures StateIn(buf[..], at) == Shift(old(StateIn(buf[..], at)))
  {
    var temp := buf[at + 1];
    buf[at + 1] := buf[at + 5];
    buf[at + 5] := buf[at + 9];
    buf[at + 9] := buf[at + 13];
    buf[at + 13] := temp;

    temp := buf[at + 2];
    buf[at + 2] := buf[at + 10];
    buf[at + 10] := temp;
    temp := buf[at + 6];
    buf[at + 6] := buf[at + 14];
    buf[at + 14] := temp;

    temp := buf[at + 3];
    buf[at + 3] := buf[at + 15];
    buf[at + 15] := buf[at + 11];
    buf[at + 11] := buf[at + 7];
    buf[at + 7] := temp;
  }

  method InvShiftRows<V>(buf: array<V>, at: nat)
    requires at + 16 <= buf.Length
    modifies buf
    ensures Outside(buf[..], old(buf[..]), at)
    ensures StateIn(buf[..], at) == InvShift(old(StateIn(buf[..], at)))
  {
    var temp := buf[at + 13];
    buf[at + 13] := buf[at + 9];
    buf[at + 9] := buf[at + 5];
    buf[at + 5] := buf[at + 1];
    buf[at + 1] := temp;

    temp := buf[at + 2];
    buf[at + 2] := buf[at + 10];
    buf[at + 10] := temp;
    temp := buf[at + 6];
    buf[at + 6] := buf[at + 14];
    buf[at + 14] := temp;

    temp := buf[at + 3];
    buf[at + 3] := buf[at + 7];
    buf[at + 7] := buf[at + 11];
    buf[at + 11] := buf[at + 15];
    buf[at + 15] := temp;
  }

  /** Nothing but the four bytes at `at` differs. */
  ghost predicate OutsideCol<V>(now: seq<V>, was: seq<V>, at: nat)
  {
    |now| == |was| && forall k :: 0 <= k < |was| && !(at <= k < at + 4) ==> now[k] == was[k]
  }

  /** One column of `MixColumns`; each byte is rewritten from bytes that may be rewritten already. */
  method MixColumn<V(!new)>(l: Layer<V>, f: Field<V>, buf: array<V>, at: nat)
    requires at + 4 <= buf.Length && Over(l, f)
    modifies buf
    ensures OutsideCol(buf[..], old(buf[..]), at)
    ensures ColIn(buf[..], at) == l.mix(old(ColIn(buf[..], at)))
  {
    assert l.mix(ColIn(buf[..], at)) == MixCol(f, ColIn(buf[..], at));
    var t := buf[at];
    var tmp := f.xor(f.xor(f.xor(buf[at], buf[at + 1]), buf[at + 2]), buf[at + 3]);
    var tm := f.xor(buf[at], buf[at + 1]);
    tm := f.xtime(tm);
    buf[at] := f.xor(buf[at], f.xor(tm, tmp));
    tm := f.xor(buf[at + 1], buf[at + 2]);
    tm := f.xtime(tm);
    buf[at + 1] := f.xor(buf[at + 1], f.xor(tm, tmp));
    tm := f.xor(buf[at + 2], buf[at + 3]);
    tm := f.xtime(tm);
    buf[at + 2] := f.xor(buf[at + 2], f.xor(tm, tmp));
    tm := f.xor(buf[at + 3], t);
    tm := f.xtime(tm);
    buf[at + 3] := f.xor(buf[at + 3], f.xor(tm, tmp));
  }

  method InvMixColumn<V(!new)>(l: Layer<V>, f: Field<V>, buf: array<V>, at: nat)
    requires at + 4 <= buf.Length && Over(l, f)
    modifies buf
    ensures OutsideCol(buf[..], old(buf[..]), at)
    ensures ColIn(buf[..], at) == l.unmix(old(ColIn(buf[..], at)))
  {
    var x := ColIn(buf[..], at);
    assert l.unmix(x) == InvMixCol(f, x);
    buf[at] := Combine(f, x, 0x0e, 0x0b, 0x0d, 0x09);
    buf[at + 1] := Combine(f, x, 0x09, 0x0e, 0x0b, 0x0d);
    buf[at + 2] := Combine(f, x, 0x0d, 0x09, 0x0e, 0x0b);
    buf[at + 3] := Combine(f, x, 0x0b, 0x0d, 0x09, 0x0e);
  }

  lemma ColumnKept<V>(now: seq<V>, was: seq<V>, at: nat, other: nat)
    requires OutsideCol(now, was, at) && other + 4 <= |was| && (other + 4 <= at || at + 4 <= other)
    ensures ColIn(now, other) == ColIn(was, other)
  {
  }

  // ----- The loops over the columns -----

  function PartMixed<V>(g: Col<V> -> Col<V>, x: State<V>, i: nat): (y: State<V>)
  {
    State(if 0 < i then g(x.p) else x.p, if 1 < i then g(x.q) else x.q, if 2 < i then g(x.r) else x.r, if 3 < i then g(x.s) else x.s)
  }

  /** One more column. */
  lemma PartStep<V>(g: Col<V> -> Col<V>, next: seq<V>, now: seq<V>, x: State<V>, at: nat, i: nat)
    requires i < 4 && at + 16 <= |now| && OutsideCol(next, now, at + 4 * i)
    requires StateIn(now, at) == PartMixed(g, x, i) && ColIn(next, at + 4 * i) == g(ColIn(now, at + 4 * i))
    ensures StateIn(next, at) == PartMixed(g, x, i + 1)
  {
    assert i == 0 || i == 1 || i == 2 || i == 3;
  }

  lemma OutsideStep<V>(next: seq<V>, now: seq<V>, was: seq<V>, at: nat, i: nat)
    requires i < 4 && at + 16 <= |was| && OutsideCol(next, now, at + 4 * i) && Outside(now, was, at)
    ensures Outside(next, was, at)
  {
  }

  /** `MixColumns`. */
  method MixColumns<V(!new)>(l: Layer<V>, f: Field<V>, buf: array<V>, at: nat)
    requires at + 16 <= buf.Length && Over(l, f)
    modifies buf
    ensures Outside(buf[..], old(buf[..]), at)
    ensures StateIn(buf[..], at) == Mix(l, old(StateIn(buf[..], at)))
  {
    ghost var was := buf[..];
    ghost var x := StateIn(was, at);
    var i := 0;
    while i < 4
      invariant i <= 4 && Outside(buf[..], was, at) && StateIn(buf[..], at) == PartMixed(l.mix, x, i)
    {
      ghost var now := buf[..];
      MixColumn(l, f, buf, at + 4 * i);
      PartStep(l.mix, buf[..], now, x, at, i);
      OutsideStep(buf[..], now, was, at, i);
      i := i + 1;
    }
  }

  /** `InvMixColumns`. */
  method InvMixColumns<V(!new)>(l: Layer<V>, f: Field<V>, buf: array<V>, at: nat)
    requires at + 16 <= buf.Length && Over(l, f)
    modifies buf
    ensures Outside(buf[..], old(buf[..]), at)
    ensures StateIn(buf[..], at) == InvMix(l, old(StateIn(buf[..], at)))
  {
    ghost var was := buf[..];
    ghost var x := StateIn(was, at);
    var i := 0;
    while i < 4
      invariant i <= 4 && Outside(buf[..], was, at) && StateIn(buf[..], at) == PartMixed(l.unmix, x, i)
    {
      ghost var now := buf[..];
      InvMixColumn(l, f, buf, at + 4 * i);
      PartStep(l.unmix, buf[..], now, x, at, i);
      OutsideStep(buf[..], now, was, at, i);
      i := i + 1;
    }
  }

  // ----- The cipher -----

  /** Fifteen round keys, one after the other. */
  function Keys<V>(rk: seq<V>): (ks: seq<State<V>>)
    requires |rk| == 240
  {
    seq(15, r requires 0 <= r < 15 => StateIn(rk, 16 * r))
  }

  /** The steps that a run of the cipher is specified by. */
  ghost predicate Runs<V(!new)>(st: Steps<State<V>>, l: Layer<V>)
  {
    && (forall x, k {:trigger Add(l, x, k)} :: st.add(x, k) == Add(l, x, k))
    && (forall x {:trigger Half(l, x)} :: st.half(x) == Half(l, x))
    && (forall x, k {:trigger Rest(l, x, k)} :: st.rest(x, k) == Rest(l, x, k))
    && (forall x, k {:trigger Back(l, x, k)} :: st.back(x, k) == Back(l, x, k))
    && (forall x {:trigger InvMix(l, x)} :: st.unmix(x) == InvMix(l, x))
  }

  lemma StepsRun<V(!new)>(l: Layer<V>)
    ensures Runs(StepsOf(l), l)
  {
  }

  /** Substitution and shift. */
  method HalfRound<V(!new)>(l: Layer<V>, buf: array<V>, at: nat, ghost st: Steps<State<V>>)
    requires at + 16 <= buf.Length && Runs(st, l)
    modifies buf
    ensures Outside(buf[..], old(buf[..]), at) && StateIn(buf[..], at) == st.half(old(StateIn(buf[..], at)))
  {
    ghost var x := StateIn(buf[..], at);
    SubBytes(l, buf, at);
    ShiftRows(buf, at);
    assert StateIn(buf[..], at) == Half(l, x);
  }

  /** Mixing and round key. */
  method RestOfRound<V(!new)>(l: Layer<V>, f: Field<V>, round: nat, buf: array<V>, at: nat, rk: seq<V>, ghost st: Steps<State<V>>)
    requires at + 16 <= buf.Length && Over(l, f) && |rk| == 240 && round < 15 && Runs(st, l)
    modifies buf
    ensures Outside(buf[..], old(buf[..]), at)
    ensures StateIn(buf[..], at) == st.rest(old(StateIn(buf[..], at)), Keys(rk)[round])
  {
    ghost var x := StateIn(buf[..], at);
    MixColumns(l, f, buf, at);
    AddRoundKey(l, round, buf, at, rk);
    assert StateIn(buf[..], at) == Rest(l, x, Keys(rk)[round]);
  }

  method KeyRound<V(!new)>(l: Layer<V>, round: nat, buf: array<V>, at: nat, rk: seq<V>, ghost st: Steps<State<V>>)
    requires at + 16 <= buf.Length && |rk| == 240 && round < 15 && Runs(st, l)
    modifies buf
    ensures Outside(buf[..], old(buf[..]), at)
    ensures StateIn(buf[..], at) == st.add(old(StateIn(buf[..], at)), Keys(rk)[round])
  {
    AddRoundKey(l, round, buf, at, rk);
  }

  /** Back through shift and substitution, and the round key. */
  method BackRound<V(!new)>(l: Layer<V>, round: nat, buf: array<V>, at: nat, rk: seq<V>, ghost st: Steps<State<V>>)
    requires at + 16 <= buf.Length && |rk| == 240 && round < 15 && Runs(st, l)
    modifies buf
    ensures Outside(buf[..], old(buf[..]), at)
    ensures StateIn(buf[..], at) == st.back(old(StateIn(buf[..], at)), Keys(rk)[round])
  {
    ghost var x := StateIn(buf[..], at);
    InvShiftRows(buf, at);
    InvSubBytes(l, buf, at);
    AddRoundKey(l, round, buf, at, rk);
    assert StateIn(buf[..], at) == Back(l, x, Keys(rk)[round]);
  }

  /** `Cipher`. */
  method Cipher<V(!new)>(l: Layer<V>, f: Field<V>, buf: array<V>, at: nat, rk: seq<V>, ghost st: Steps<State<V>>)
    requires at + 16 <= buf.Length && Over(l, f) && |rk| == 240 && Runs(st, l)
    modifies buf
    ensures Outside(buf[..], old(buf[..]), at)
    ensures StateIn(buf[..], at) == Ciphered(st, Keys(rk), old(StateIn(buf[..], at)))
  {
    ghost var x, ks := StateIn(buf[..], at), Keys(rk);
    KeyRound(l, 0, buf, at, rk, st);
    var round := 1;
    while round < 14
      invariant 1 <= round <= 14 && Outside(buf[..], old(buf[..]), at)
      invariant StateIn(buf[..], at) == Up(st, ks, x, round - 1)
    {
      HalfRound(l, buf, at, st);
      RestOfRound(l, f, round, buf, at, rk, st);
      round := round + 1;
    }
    HalfRound(l, buf, at, st);
    KeyRound(l, 14, buf, at, rk, st);
  }

  /** The rounds of the way back, from a given one down to the first. */
  method InvRounds<V(!new)>(l: Layer<V>, f: Field<V>, last: nat, buf: array<V>, at: nat, rk: seq<V>, ghost st: Steps<State<V>>)
    requires at + 16 <= buf.Length && Over(l, f) && |rk| == 240 && last < 15 && Runs(st, l)
    modifies buf
    ensures Outside(buf[..], old(buf[..]), at)
    ensures StateIn(buf[..], at) == Down(st, Keys(rk), old(StateIn(buf[..], at)), last)
  {
    ghost var y, ks := StateIn(buf[..], at), Keys(rk);
    var round := last;
    while round > 0
      invariant 0 <= round <= last && Outside(buf[..], old(buf[..]), at)
      invariant Down(st, ks, y, last) == Down(st, ks, StateIn(buf[..], at), round)
    {
      BackRound(l, round, buf, at, rk, st);
      InvMixColumns(l, f, buf, at);
      round := round - 1;
    }
    BackRound(l, 0, buf, at, rk, st);
  }

  /** `InvCipher`. */
  method InvCipher<V(!new)>(l: Layer<V>, f: Field<V>, buf: array<V>, at: nat, rk: seq<V>, ghost st: Steps<State<V>>)
    requires at + 16 <= buf.Length && Over(l, f) && |rk| == 240 && Runs(st, l)
    modifies buf
    ensures Outside(buf[..], old(buf[..]), at)
    ensures StateIn(buf[..], at) == Deciphered(st, Keys(rk), old(StateIn(buf[..], at)))
  {
    KeyRound(l, 14, buf, at, rk, st);
    InvRounds(l, f, |Keys(rk)| - 2, buf, at, rk, st);
  }
}
