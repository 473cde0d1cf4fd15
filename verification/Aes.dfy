/** AES-256 (section 5 of FIPS 197, libraries/aes/aes.c:243-458): the steps of a round on a block of
    sixteen bytes, over any field arithmetic and substitution that the steps can undo. */
module Aes {
  import opened BlockCipher

  /** Addition, doubling and multiplication by a single bit. */
  datatype Field<!V> = Field(xor: (V, V) -> V, xtime: V -> V, scale: (nat, V) -> V)

  datatype Col<V> = Col(a: V, b: V, c: V, d: V)

  /** The four columns of a block, which are its bytes in order. */
  datatype State<V> = State(p: Col<V>, q: Col<V>, r: Col<V>, s: Col<V>)

  /** What the steps are made of: addition, the substitution and its inverse, the mixing of a column and
      its inverse. */
  datatype Layer<!V> = Layer(xor: (V, V) -> V, sub: V -> V, inv: V -> V, mix: Col<V> -> Col<V>, unmix: Col<V> -> Col<V>)

  // ----- The steps as functions -----

  function SubCol<V>(l: Layer<V>, x: Col<V>): (y: Col<V>)
  {
    Col(l.sub(x.a), l.sub(x.b), l.sub(x.c), l.sub(x.d))
  }

  function Sub<V>(l: Layer<V>, x: State<V>): (y: State<V>)
  {
    State(SubCol(l, x.p), SubCol(l, x.q), SubCol(l, x.r), SubCol(l, x.s))
  }

  function InvSubCol<V>(l: Layer<V>, x: Col<V>): (y: Col<V>)
  {
    Col(l.inv(x.a), l.inv(x.b), l.inv(x.c), l.inv(x.d))
  }

  function InvSub<V>(l: Layer<V>, x: State<V>): (y: State<V>)
  {
    State(InvSubCol(l, x.p), InvSubCol(l, x.q), InvSubCol(l, x.r), InvSubCol(l, x.s))
  }

  function AddCol<V>(l: Layer<V>, x: Col<V>, k: Col<V>): (y: Col<V>)
  {
    Col(l.xor(x.a, k.a), l.xor(x.b, k.b), l.xor(x.c, k.c), l.xor(x.d, k.d))
  }

  function Add<V>(l: Layer<V>, x: State<V>, k: State<V>): (y: State<V>)
  {
    State(AddCol(l, x.p, k.p), AddCol(l, x.q, k.q), AddCol(l, x.r, k.r), AddCol(l, x.s, k.s))
  }

  /** Row j moves j columns to the left. */
  function Shift<V>(x: State<V>): (y: State<V>)
  {
    State(Col(x.p.a, x.q.b, x.r.c, x.s.d), Col(x.q.a, x.r.b, x.s.c, x.p.d),
          Col(x.r.a, x.s.b, x.p.c, x.q.d), Col(x.s.a, x.p.b, x.q.c, x.r.d))
  }

  function InvShift<V>(x: State<V>): (y: State<V>)
  {
    State(Col(x.p.a, x.s.b, x.r.c, x.q.d), Col(x.q.a, x.p.b, x.s.c, x.r.d),
          Col(x.r.a, x.q.b, x.p.c, x.s.d), Col(x.s.a, x.r.b, x.q.c, x.p.d))
  }

  /** The matrix product of section 5.1.3 of FIPS 197, with 3x written as x + 2x. */
  function MixCol<V>(f: Field<V>, x: Col<V>): (y: Col<V>)
  {
    var all := f.xor(f.xor(f.xor(x.a, x.b), x.c), x.d);
    Col(f.xor(x.a, f.xor(f.xtime(f.xor(x.a, x.b)), all)), f.xor(x.b, f.xor(f.xtime(f.xor(x.b, x.c)), all)),
        f.xor(x.c, f.xor(f.xtime(f.xor(x.c, x.d)), all)), f.xor(x.d, f.xor(f.xtime(f.xor(x.d, x.a)), all)))
  }

  /** Multiplication by a constant of five bits. */
  function Mul<V>(f: Field<V>, x: V, y: nat): (z: V)
  {
    var x2 := f.xtime(x);
    var x4 := f.xtime(x2);
    var x8 := f.xtime(x4);
    f.xor(f.xor(f.xor(f.xor(f.scale(y % 2, x), f.scale(y / 2 % 2, x2)), f.scale(y / 4 % 2, x4)), f.scale(y / 8 % 2, x8)),
          f.scale(y / 16 % 2, f.xtime(x8)))
  }

  function Combine<V>(f: Field<V>, x: Col<V>, p: nat, q: nat, r: nat, s: nat): (v: V)
  {
    f.xor(f.xor(f.xor(Mul(f, x.a, p), Mul(f, x.b, q)), Mul(f, x.c, r)), Mul(f, x.d, s))
  }

  function InvMixCol<V>(f: Field<V>, x: Col<V>): (y: Col<V>)
  {
    Col(Combine(f, x, 0x0e, 0x0b, 0x0d, 0x09), Combine(f, x, 0x09, 0x0e, 0x0b, 0x0d),
        Combine(f, x, 0x0d, 0x09, 0x0e, 0x0b), Combine(f, x, 0x0b, 0x0d, 0x09, 0x0e))
  }

  function Mix<V>(l: Layer<V>, x: State<V>): (y: State<V>)
  {
    State(l.mix(x.p), l.mix(x.q), l.mix(x.r), l.mix(x.s))
  }

  function InvMix<V>(l: Layer<V>, x: State<V>): (y: State<V>)
  {
    State(l.unmix(x.p), l.unmix(x.q), l.unmix(x.r), l.unmix(x.s))
  }

  // ----- The laws, and what each step undoes -----

  ghost predicate Lawful<V(!new)>(l: Layer<V>)
  {
    && (forall x {:trigger l.sub(x)} :: l.inv(l.sub(x)) == x)
    && (forall x, k {:trigger l.xor(l.xor(x, k), k)} :: l.xor(l.xor(x, k), k) == x)
    && (forall x {:trigger l.mix(x)} :: l.unmix(l.mix(x)) == x)
  }

  lemma AddAdd<V(!new)>(l: Layer<V>, x: State<V>, k: State<V>)
    requires Lawful(l)
    ensures Add(l, Add(l, x, k), k) == x
  {
  }

  lemma InvMixMix<V(!new)>(l: Layer<V>, x: State<V>)
    requires Lawful(l)
    ensures InvMix(l, Mix(l, x)) == x
  {
  }

  /** Substituting and shifting, and back. */
  lemma InvSubShift<V(!new)>(l: Layer<V>, x: State<V>)
    requires Lawful(l)
    ensures InvSub(l, InvShift(Shift(Sub(l, x)))) == x
  {
  }

  // ----- The steps as the cipher uses them -----

  function Half<V>(l: Layer<V>, x: State<V>): (y: State<V>)
  {
    Shift(Sub(l, x))
  }

  function Rest<V>(l: Layer<V>, x: State<V>, k: State<V>): (y: State<V>)
  {
    Add(l, Mix(l, x), k)
  }

  function Back<V>(l: Layer<V>, x: State<V>, k: State<V>): (y: State<V>)
  {
    Add(l, InvSub(l, InvShift(x)), k)
  }

  function StepsOf<V>(l: Layer<V>): (st: Steps<State<V>>)
  {
    Steps((x, k) => Add(l, x, k), x => Half(l, x), (x, k) => Rest(l, x, k), (x, k) => Back(l, x, k), x => InvMix(l, x))
  }

  lemma BackHalf<V(!new)>(l: Layer<V>, x: State<V>, k: State<V>)
    requires Lawful(l)
    ensures Back(l, Half(l, Add(l, x, k)), k) == x
  {
    InvSubShift(l, Add(l, x, k));
    AddAdd(l, x, k);
  }

  lemma BackRest<V(!new)>(l: Layer<V>, x: State<V>, k: State<V>)
    requires Lawful(l)
    ensures InvMix(l, Back(l, Half(l, Rest(l, x, k)), k)) == x
  {
    BackHalf(l, Mix(l, x), k);
    InvMixMix(l, x);
  }

  lemma AesUndoes<V(!new)>(l: Layer<V>)
    requires Lawful(l)
    ensures Undoes(StepsOf(l))
  {
    var st := StepsOf(l);
    forall x, k
      ensures st.add(st.add(x, k), k) == x && st.back(st.half(st.add(x, k)), k) == x
    {
      AddAdd(l, x, k);
      BackHalf(l, x, k);
    }
    forall h, k ensures st.unmix(st.back(st.half(st.rest(h, k)), k)) == h {
      BackRest(l, h, k);
    }
  }

  /** A layer whose columns are mixed by the arithmetic of `f`. */
  ghost predicate Over<V(!new)>(l: Layer<V>, f: Field<V>)
  {
    && l.xor == f.xor
    && (forall x {:trigger MixCol(f, x)} :: l.mix(x) == MixCol(f, x))
    && (forall x {:trigger InvMixCol(f, x)} :: l.unmix(x) == InvMixCol(f, x))
  }
}
