/** Mixing and unmixing of a column are inverse to each other: both are linear, so it is enough to look
    at columns with one byte (libraries/aes/aes.c:296-371). */
module AesField {
  import opened Aes
  import opened AesTables

  // ----- Linear columns, over any addition -----

  function Plus4<V>(f: Field<V>, x: Col<V>, k: Col<V>): (y: Col<V>)
  {
    Col(f.xor(x.a, k.a), f.xor(x.b, k.b), f.xor(x.c, k.c), f.xor(x.d, k.d))
  }

  function Four<V>(f: Field<V>, a: V, b: V, c: V, d: V): (z: V)
  {
    f.xor(f.xor(a, b), f.xor(c, d))
  }

  ghost predicate Regroups<V(!new)>(f: Field<V>)
  {
    forall a, b, c, d {:trigger Four(f, a, b, c, d)} :: Four(f, a, b, c, d) == Four(f, a, c, b, d)
  }

  lemma Swap<V(!new)>(f: Field<V>, a: V, b: V, c: V, d: V)
    requires Regroups(f)
    ensures f.xor(f.xor(a, b), f.xor(c, d)) == f.xor(f.xor(a, c), f.xor(b, d))
  {
    assert Four(f, a, b, c, d) == Four(f, a, c, b, d);
  }

  ghost predicate Doubles<V(!new)>(f: Field<V>)
  {
    forall a, b {:trigger f.xtime(f.xor(a, b))} :: f.xtime(f.xor(a, b)) == f.xor(f.xtime(a), f.xtime(b))
  }

  ghost predicate Scales<V(!new)>(f: Field<V>)
  {
    forall n, a, b {:trigger f.scale(n, f.xor(a, b))} :: f.scale(n, f.xor(a, b)) == f.xor(f.scale(n, a), f.scale(n, b))
  }

  /** Everything that mixing and unmixing are made of is linear. */
  ghost predicate Linear<V(!new)>(f: Field<V>)
  {
    Regroups(f) && Doubles(f) && Scales(f)
  }

  /** Five pairs, added pairwise or side by side. */
  lemma SumPairs<V(!new)>(f: Field<V>, a: V, a': V, b: V, b': V, c: V, c': V, d: V, d': V, e: V, e': V)
    requires Regroups(f)
    ensures f.xor(f.xor(f.xor(f.xor(f.xor(a, a'), f.xor(b, b')), f.xor(c, c')), f.xor(d, d')), f.xor(e, e'))
         == f.xor(f.xor(f.xor(f.xor(f.xor(a, b), c), d), e), f.xor(f.xor(f.xor(f.xor(a', b'), c'), d'), e'))
  {
    Sums(f, a, a', b, b', c, c', d, d');
    Swap(f, f.xor(f.xor(f.xor(a, b), c), d), f.xor(f.xor(f.xor(a', b'), c'), d'), e, e');
  }

  lemma Sums<V(!new)>(f: Field<V>, a: V, a': V, b: V, b': V, c: V, c': V, d: V, d': V)
    requires Regroups(f)
    ensures f.xor(f.xor(f.xor(f.xor(a, a'), f.xor(b, b')), f.xor(c, c')), f.xor(d, d'))
         == f.xor(f.xor(f.xor(f.xor(a, b), c), d), f.xor(f.xor(f.xor(a', b'), c'), d'))
  {
    Swap(f, a, a', b, b');
    Swap(f, f.xor(a, b), f.xor(a', b'), c, c');
    Swap(f, f.xor(f.xor(a, b), c), f.xor(f.xor(a', b'), c'), d, d');
  }

  lemma MulAdds<V(!new)>(f: Field<V>, a: V, b: V, n: nat)
    requires Linear(f)
    ensures Mul(f, f.xor(a, b), n) == f.xor(Mul(f, a, n), Mul(f, b, n))
  {
    var a2, b2 := f.xtime(a), f.xtime(b);
    var a4, b4 := f.xtime(a2), f.xtime(b2);
    var a8, b8 := f.xtime(a4), f.xtime(b4);
    var a16, b16 := f.xtime(a8), f.xtime(b8);
    var n1, n2, n4, n8, n16 := n % 2, n / 2 % 2, n / 4 % 2, n / 8 % 2, n / 16 % 2;
    SumPairs(f, f.scale(n1, a), f.scale(n1, b), f.scale(n2, a2), f.scale(n2, b2), f.scale(n4, a4), f.scale(n4, b4),
             f.scale(n8, a8), f.scale(n8, b8), f.scale(n16, a16), f.scale(n16, b16));
  }

  lemma AddDoubled<V(!new)>(f: Field<V>, x: V, x': V, t: V, t': V, all: V, all': V, s: V, u: V)
    requires Linear(f) && s == f.xor(t, t') && u == f.xor(all, all')
    ensures f.xor(f.xor(x, x'), f.xor(f.xtime(s), u)) == f.xor(f.xor(x, f.xor(f.xtime(t), all)), f.xor(x', f.xor(f.xtime(t'), all')))
  {
    Swap(f, f.xtime(t), f.xtime(t'), all, all');
    Swap(f, x, x', f.xor(f.xtime(t), all), f.xor(f.xtime(t'), all'));
  }

  lemma SumAdds<V(!new)>(f: Field<V>, x: Col<V>, y: Col<V>)
    requires Regroups(f)
    ensures var z := Plus4(f, x, y);
      f.xor(f.xor(f.xor(z.a, z.b), z.c), z.d)
      == f.xor(f.xor(f.xor(f.xor(x.a, x.b), x.c), x.d), f.xor(f.xor(f.xor(y.a, y.b), y.c), y.d))
  {
    Sums(f, x.a, y.a, x.b, y.b, x.c, y.c, x.d, y.d);
  }

  lemma MixAdds<V(!new)>(f: Field<V>, x: Col<V>, y: Col<V>)
    requires Linear(f)
    ensures MixCol(f, Plus4(f, x, y)) == Plus4(f, MixCol(f, x), MixCol(f, y))
  {
    var z := Plus4(f, x, y);
    var p := f.xor(f.xor(f.xor(x.a, x.b), x.c), x.d);
    var q := f.xor(f.xor(f.xor(y.a, y.b), y.c), y.d);
    var u := f.xor(f.xor(f.xor(z.a, z.b), z.c), z.d);
    SumAdds(f, x, y);
    Swap(f, x.a, y.a, x.b, y.b);
    Swap(f, x.b, y.b, x.c, y.c);
    Swap(f, x.c, y.c, x.d, y.d);
    Swap(f, x.d, y.d, x.a, y.a);
    AddDoubled(f, x.a, y.a, f.xor(x.a, x.b), f.xor(y.a, y.b), p, q, f.xor(z.a, z.b), u);
    AddDoubled(f, x.b, y.b, f.xor(x.b, x.c), f.xor(y.b, y.c), p, q, f.xor(z.b, z.c), u);
    AddDoubled(f, x.c, y.c, f.xor(x.c, x.d), f.xor(y.c, y.d), p, q, f.xor(z.c, z.d), u);
    AddDoubled(f, x.d, y.d, f.xor(x.d, x.a), f.xor(y.d, y.a), p, q, f.xor(z.d, z.a), u);
  }

  lemma CombineAdds<V(!new)>(f: Field<V>, x: Col<V>, y: Col<V>, p: nat, q: nat, r: nat, s: nat)
    requires Linear(f)
    ensures Combine(f, Plus4(f, x, y), p, q, r, s) == f.xor(Combine(f, x, p, q, r, s), Combine(f, y, p, q, r, s))
  {
    MulAdds(f, x.a, y.a, p);
    MulAdds(f, x.b, y.b, q);
    MulAdds(f, x.c, y.c, r);
    MulAdds(f, x.d, y.d, s);
    Sums(f, Mul(f, x.a, p), Mul(f, y.a, p), Mul(f, x.b, q), Mul(f, y.b, q), Mul(f, x.c, r), Mul(f, y.c, r), Mul(f, x.d, s), Mul(f, y.d, s));
  }

  lemma UnmixAdds<V(!new)>(f: Field<V>, x: Col<V>, y: Col<V>)
    requires Linear(f)
    ensures InvMixCol(f, Plus4(f, x, y)) == Plus4(f, InvMixCol(f, x), InvMixCol(f, y))
  {
    CombineAdds(f, x, y, 0x0e, 0x0b, 0x0d, 0x09);
    CombineAdds(f, x, y, 0x09, 0x0e, 0x0b, 0x0d);
    CombineAdds(f, x, y, 0x0d, 0x09, 0x0e, 0x0b);
    CombineAdds(f, x, y, 0x0b, 0x0d, 0x09, 0x0e);
  }

  /** A column that unmixing recovers from its mixture. */
  ghost predicate Recovered<V>(f: Field<V>, x: Col<V>)
  {
    InvMixCol(f, MixCol(f, x)) == x
  }

  lemma RecoveredAdds<V(!new)>(f: Field<V>, x: Col<V>, y: Col<V>)
    requires Linear(f) && Recovered(f, x) && Recovered(f, y)
    ensures Recovered(f, Plus4(f, x, y))
  {
    MixAdds(f, x, y);
    UnmixAdds(f, MixCol(f, x), MixCol(f, y));
  }

  // ----- Columns with one byte -----

  /** What is used of the addition besides linearity. */
  ghost predicate Cancels<V(!new)>(f: Field<V>, o: V)
  {
    && (forall a {:trigger f.xor(a, o)} {:trigger f.xor(o, a)} :: f.xor(a, o) == a && f.xor(o, a) == a)
    && (forall a {:trigger f.xor(a, a)} :: f.xor(a, a) == o)
    && (forall a {:trigger f.scale(0, a)} :: f.scale(0, a) == o)
    && (forall a {:trigger f.scale(1, a)} :: f.scale(1, a) == a)
    && f.xtime(o) == o
  }

  /** A byte and its doublings. */
  datatype Powers<V> = Powers(a1: V, a2: V, a4: V, a8: V, a16: V)

  function Doublings<V>(f: Field<V>, a: V): (p: Powers<V>)
  {
    var a2 := f.xtime(a);
    var a4 := f.xtime(a2);
    var a8 := f.xtime(a4);
    Powers(a, a2, a4, a8, f.xtime(a8))
  }

  /** Which of them a sum has, as bits. */
  datatype Vec = Vec(b1: nat, b2: nat, b4: nat, b8: nat, b16: nat)

  predicate Bits(v: Vec)
  {
    v.b1 < 2 && v.b2 < 2 && v.b4 < 2 && v.b8 < 2 && v.b16 < 2
  }

  function Plus2(a: nat, b: nat): (c: nat)
  {
    if a == b then 0 else 1
  }

  function VecAdd(v: Vec, w: Vec): (r: Vec)
  {
    Vec(Plus2(v.b1, w.b1), Plus2(v.b2, w.b2), Plus2(v.b4, w.b4), Plus2(v.b8, w.b8), Plus2(v.b16, w.b16))
  }

  function Sum<V>(f: Field<V>, p: Powers<V>, v: Vec): (x: V)
  {
    f.xor(f.xor(f.xor(f.xor(f.scale(v.b1, p.a1), f.scale(v.b2, p.a2)), f.scale(v.b4, p.a4)), f.scale(v.b8, p.a8)), f.scale(v.b16, p.a16))
  }

  lemma ScaleBits<V(!new)>(f: Field<V>, o: V, a: nat, b: nat, x: V)
    requires Cancels(f, o) && a < 2 && b < 2
    ensures f.scale(Plus2(a, b), x) == f.xor(f.scale(a, x), f.scale(b, x))
  {
    assert a == 0 || a == 1;
    assert b == 0 || b == 1;
  }

  lemma SumAdd<V(!new)>(f: Field<V>, o: V, p: Powers<V>, v: Vec, w: Vec)
    requires Regroups(f) && Cancels(f, o) && Bits(v) && Bits(w)
    ensures Sum(f, p, VecAdd(v, w)) == f.xor(Sum(f, p, v), Sum(f, p, w))
  {
    ScaleBits(f, o, v.b1, w.b1, p.a1);
    ScaleBits(f, o, v.b2, w.b2, p.a2);
    ScaleBits(f, o, v.b4, w.b4, p.a4);
    ScaleBits(f, o, v.b8, w.b8, p.a8);
    ScaleBits(f, o, v.b16, w.b16, p.a16);
    SumPairs(f, f.scale(v.b1, p.a1), f.scale(w.b1, p.a1), f.scale(v.b2, p.a2), f.scale(w.b2, p.a2),
             f.scale(v.b4, p.a4), f.scale(w.b4, p.a4), f.scale(v.b8, p.a8), f.scale(w.b8, p.a8),
             f.scale(v.b16, p.a16), f.scale(w.b16, p.a16));
  }

  /** The products of a, 2a and 3a with a constant below 16, as sums of doublings. */
  function Product(n: nat): (v: Vec)
  {
    Vec(n % 2, n / 2 % 2, n / 4 % 2, n / 8 % 2, n / 16 % 2)
  }

  lemma MulSingle<V(!new)>(f: Field<V>, a: V, n: nat)
    ensures Mul(f, a, n) == Sum(f, Doublings(f, a), Product(n))
  {
  }

  lemma MulDouble<V(!new)>(f: Field<V>, o: V, a: V, n: nat, v: Vec)
    requires Cancels(f, o) && n < 16 && v == Vec(0, n % 2, n / 2 % 2, n / 4 % 2, n / 8 % 2)
    ensures Mul(f, f.xtime(a), n) == Sum(f, Doublings(f, a), v)
  {
    assert n / 16 % 2 == 0;
  }

  function DoubleProduct(n: nat): (v: Vec)
  {
    Vec(0, n % 2, n / 2 % 2, n / 4 % 2, n / 8 % 2)
  }

  function TripleProduct(n: nat): (v: Vec)
  {
    VecAdd(DoubleProduct(n), Product(n))
  }

  lemma MulTriple<V(!new)>(f: Field<V>, o: V, a: V, n: nat)
    requires Linear(f) && Cancels(f, o) && n < 16
    ensures Mul(f, f.xor(f.xtime(a), a), n) == Sum(f, Doublings(f, a), TripleProduct(n))
  {
    MulAdds(f, f.xtime(a), a, n);
    MulDouble(f, o, a, n, DoubleProduct(n));
    MulSingle(f, a, n);
    SumAdd(f, o, Doublings(f, a), DoubleProduct(n), Product(n));
  }

  /** Sums of doublings add up as their bits do. */
  ghost predicate Additive<V(!new)>(f: Field<V>, p: Powers<V>)
  {
    forall v, w {:trigger VecAdd(v, w)} :: Bits(v) && Bits(w) ==> Sum(f, p, VecAdd(v, w)) == f.xor(Sum(f, p, v), Sum(f, p, w))
  }

  lemma AllAdditive<V(!new)>(f: Field<V>, o: V, p: Powers<V>)
    requires Regroups(f) && Cancels(f, o)
    ensures Additive(f, p)
  {
    forall v, w ensures Bits(v) && Bits(w) ==> Sum(f, p, VecAdd(v, w)) == f.xor(Sum(f, p, v), Sum(f, p, w)) {
      if Bits(v) && Bits(w) {
        SumAdd(f, o, p, v, w);
      }
    }
  }

  lemma BitsAdd(v: Vec, w: Vec)
    ensures Bits(VecAdd(v, w))
  {
  }

  /** A row of unmixing adds up its four products. */
  lemma RowSum<V(!new)>(f: Field<V>, p: Powers<V>, x: V, y: V, z: V, w: V, vx: Vec, vy: Vec, vz: Vec, vw: Vec)
    requires Additive(f, p) && Bits(vx) && Bits(vy) && Bits(vz) && Bits(vw)
    requires x == Sum(f, p, vx) && y == Sum(f, p, vy) && z == Sum(f, p, vz) && w == Sum(f, p, vw)
    ensures f.xor(f.xor(f.xor(x, y), z), w) == Sum(f, p, VecAdd(VecAdd(VecAdd(vx, vy), vz), vw))
  {
    BitsAdd(vx, vy);
    BitsAdd(VecAdd(vx, vy), vz);
  }

  /** What a byte at one place contributes: its multiple by 1, 2 or 3. */
  datatype Multiple = Once | Twice | Thrice

  function Times<V>(f: Field<V>, a: V, k: Multiple): (x: V)
  {
    match k
    case Once => a
    case Twice => f.xtime(a)
    case Thrice => f.xor(f.xtime(a), a)
  }

  function ProductOf(k: Multiple, n: nat): (v: Vec)
  {
    match k
    case Once => Product(n)
    case Twice => DoubleProduct(n)
    case Thrice => TripleProduct(n)
  }

  lemma MulTimes<V(!new)>(f: Field<V>, o: V, a: V, k: Multiple, n: nat)
    requires Linear(f) && Cancels(f, o) && n < 16
    ensures Mul(f, Times(f, a, k), n) == Sum(f, Doublings(f, a), ProductOf(k, n)) && Bits(ProductOf(k, n))
  {
    match k
    case Once => MulSingle(f, a, n);
    case Twice => MulDouble(f, o, a, n, DoubleProduct(n));
    case Thrice => MulTriple(f, o, a, n);
  }

  function RowVec(k: Col<Multiple>, p: nat, q: nat, r: nat, s: nat): (v: Vec)
  {
    VecAdd(VecAdd(VecAdd(ProductOf(k.a, p), ProductOf(k.b, q)), ProductOf(k.c, r)), ProductOf(k.d, s))
  }

  function TimesCol<V>(f: Field<V>, a: V, k: Col<Multiple>): (x: Col<V>)
  {
    Col(Times(f, a, k.a), Times(f, a, k.b), Times(f, a, k.c), Times(f, a, k.d))
  }

  lemma CombineTimes<V(!new)>(f: Field<V>, o: V, a: V, k: Col<Multiple>, p: nat, q: nat, r: nat, s: nat)
    requires Linear(f) && Cancels(f, o) && p < 16 && q < 16 && r < 16 && s < 16
    ensures Combine(f, TimesCol(f, a, k), p, q, r, s) == Sum(f, Doublings(f, a), RowVec(k, p, q, r, s))
  {
    MulTimes(f, o, a, k.a, p);
    MulTimes(f, o, a, k.b, q);
    MulTimes(f, o, a, k.c, r);
    MulTimes(f, o, a, k.d, s);
    AllAdditive(f, o, Doublings(f, a));
    RowSum(f, Doublings(f, a), Mul(f, Times(f, a, k.a), p), Mul(f, Times(f, a, k.b), q),
           Mul(f, Times(f, a, k.c), r), Mul(f, Times(f, a, k.d), s),
           ProductOf(k.a, p), ProductOf(k.b, q), ProductOf(k.c, r), ProductOf(k.d, s));
  }

  lemma SumOfNone<V(!new)>(f: Field<V>, o: V, p: Powers<V>)
    requires Cancels(f, o)
    ensures Sum(f, p, NONE) == o && Sum(f, p, UNIT) == p.a1
  {
  }

  const NONE := Vec(0, 0, 0, 0, 0)
  const UNIT := Vec(1, 0, 0, 0, 0)

  lemma Products14()
    ensures ProductOf(Once, 14) == Vec(0, 1, 1, 1, 0) && ProductOf(Twice, 14) == Vec(0, 0, 1, 1, 1) && ProductOf(Thrice, 14) == Vec(0, 1, 0, 0, 1)
  {
  }

  lemma Products11()
    ensures ProductOf(Once, 11) == Vec(1, 1, 0, 1, 0) && ProductOf(Twice, 11) == Vec(0, 1, 1, 0, 1) && ProductOf(Thrice, 11) == Vec(1, 0, 1, 1, 1)
  {
  }

  lemma Products13()
    ensures ProductOf(Once, 13) == Vec(1, 0, 1, 1, 0) && ProductOf(Twice, 13) == Vec(0, 1, 0, 1, 1) && ProductOf(Thrice, 13) == Vec(1, 1, 1, 0, 1)
  {
  }

  lemma Products9()
    ensures ProductOf(Once, 9) == Vec(1, 0, 0, 1, 0) && ProductOf(Twice, 9) == Vec(0, 1, 0, 0, 1) && ProductOf(Thrice, 9) == Vec(1, 1, 0, 1, 1)
  {
  }

  lemma FourProducts(k: Col<Multiple>, p: nat, q: nat, r: nat, s: nat, a: Vec, b: Vec, c: Vec, d: Vec, z: Vec)
    requires ProductOf(k.a, p) == a && ProductOf(k.b, q) == b && ProductOf(k.c, r) == c && ProductOf(k.d, s) == d
    requires VecAdd(VecAdd(VecAdd(a, b), c), d) == z
    ensures RowVec(k, p, q, r, s) == z
  {
  }

  lemma RowVecs0(k: Col<Multiple>)
    requires k == Col(Twice, Once, Once, Thrice)
    ensures RowVec(k, 14, 11, 13, 9) == UNIT
    ensures RowVec(k, 9, 14, 11, 13) == NONE
    ensures RowVec(k, 13, 9, 14, 11) == NONE
    ensures RowVec(k, 11, 13, 9, 14) == NONE
  {
    Products14();
    Products11();
    Products13();
    Products9();
    FourProducts(k, 14, 11, 13, 9, Vec(0, 0, 1, 1, 1), Vec(1, 1, 0, 1, 0), Vec(1, 0, 1, 1, 0), Vec(1, 1, 0, 1, 1), UNIT);
    FourProducts(k, 9, 14, 11, 13, Vec(0, 1, 0, 0, 1), Vec(0, 1, 1, 1, 0), Vec(1, 1, 0, 1, 0), Vec(1, 1, 1, 0, 1), NONE);
    FourProducts(k, 13, 9, 14, 11, Vec(0, 1, 0, 1, 1), Vec(1, 0, 0, 1, 0), Vec(0, 1, 1, 1, 0), Vec(1, 0, 1, 1, 1), NONE);
    FourProducts(k, 11, 13, 9, 14, Vec(0, 1, 1, 0, 1), Vec(1, 0, 1, 1, 0), Vec(1, 0, 0, 1, 0), Vec(0, 1, 0, 0, 1), NONE);
  }

  lemma RowVecs1(k: Col<Multiple>)
    requires k == Col(Thrice, Twice, Once, Once)
    ensures RowVec(k, 14, 11, 13, 9) == NONE
    ensures RowVec(k, 9, 14, 11, 13) == UNIT
    ensures RowVec(k, 13, 9, 14, 11) == NONE
    ensures RowVec(k, 11, 13, 9, 14) == NONE
  {
    Products14();
    Products11();
    Products13();
    Products9();
    FourProducts(k, 14, 11, 13, 9, Vec(0, 1, 0, 0, 1), Vec(0, 1, 1, 0, 1), Vec(1, 0, 1, 1, 0), Vec(1, 0, 0, 1, 0), NONE);
    FourProducts(k, 9, 14, 11, 13, Vec(1, 1, 0, 1, 1), Vec(0, 0, 1, 1, 1), Vec(1, 1, 0, 1, 0), Vec(1, 0, 1, 1, 0), UNIT);
    FourProducts(k, 13, 9, 14, 11, Vec(1, 1, 1, 0, 1), Vec(0, 1, 0, 0, 1), Vec(0, 1, 1, 1, 0), Vec(1, 1, 0, 1, 0), NONE);
    FourProducts(k, 11, 13, 9, 14, Vec(1, 0, 1, 1, 1), Vec(0, 1, 0, 1, 1), Vec(1, 0, 0, 1, 0), Vec(0, 1, 1, 1, 0), NONE);
  }

  lemma RowVecs2(k: Col<Multiple>)
    requires k == Col(Once, Thrice, Twice, Once)
    ensures RowVec(k, 14, 11, 13, 9) == NONE
    ensures RowVec(k, 9, 14, 11, 13) == NONE
    ensures RowVec(k, 13, 9, 14, 11) == UNIT
    ensures RowVec(k, 11, 13, 9, 14) == NONE
  {
    Products14();
    Products11();
    Products13();
    Products9();
    FourProducts(k, 14, 11, 13, 9, Vec(0, 1, 1, 1, 0), Vec(1, 0, 1, 1, 1), Vec(0, 1, 0, 1, 1), Vec(1, 0, 0, 1, 0), NONE);
    FourProducts(k, 9, 14, 11, 13, Vec(1, 0, 0, 1, 0), Vec(0, 1, 0, 0, 1), Vec(0, 1, 1, 0, 1), Vec(1, 0, 1, 1, 0), NONE);
    FourProducts(k, 13, 9, 14, 11, Vec(1, 0, 1, 1, 0), Vec(1, 1, 0, 1, 1), Vec(0, 0, 1, 1, 1), Vec(1, 1, 0, 1, 0), UNIT);
    FourProducts(k, 11, 13, 9, 14, Vec(1, 1, 0, 1, 0), Vec(1, 1, 1, 0, 1), Vec(0, 1, 0, 0, 1), Vec(0, 1, 1, 1, 0), NONE);
  }

  lemma RowVecs3(k: Col<Multiple>)
    requires k == Col(Once, Once, Thrice, Twice)
    ensures RowVec(k, 14, 11, 13, 9) == NONE
    ensures RowVec(k, 9, 14, 11, 13) == NONE
    ensures RowVec(k, 13, 9, 14, 11) == NONE
    ensures RowVec(k, 11, 13, 9, 14) == UNIT
  {
    Products14();
    Products11();
    Products13();
    Products9();
    FourProducts(k, 14, 11, 13, 9, Vec(0, 1, 1, 1, 0), Vec(1, 1, 0, 1, 0), Vec(1, 1, 1, 0, 1), Vec(0, 1, 0, 0, 1), NONE);
    FourProducts(k, 9, 14, 11, 13, Vec(1, 0, 0, 1, 0), Vec(0, 1, 1, 1, 0), Vec(1, 0, 1, 1, 1), Vec(0, 1, 0, 1, 1), NONE);
    FourProducts(k, 13, 9, 14, 11, Vec(1, 0, 1, 1, 0), Vec(1, 0, 0, 1, 0), Vec(0, 1, 0, 0, 1), Vec(0, 1, 1, 0, 1), NONE);
    FourProducts(k, 11, 13, 9, 14, Vec(1, 1, 0, 1, 0), Vec(1, 0, 1, 1, 0), Vec(1, 1, 0, 1, 1), Vec(0, 0, 1, 1, 1), UNIT);
  }

  /** Unmixing a column of multiples gives back the byte at its place. */
  lemma UnmixTimes<V(!new)>(f: Field<V>, o: V, a: V, k: Col<Multiple>)
    requires Linear(f) && Cancels(f, o)
    ensures var p := Doublings(f, a);
      InvMixCol(f, TimesCol(f, a, k)) == Col(Sum(f, p, RowVec(k, 14, 11, 13, 9)), Sum(f, p, RowVec(k, 9, 14, 11, 13)),
                                             Sum(f, p, RowVec(k, 13, 9, 14, 11)), Sum(f, p, RowVec(k, 11, 13, 9, 14)))
  {
    CombineTimes(f, o, a, k, 14, 11, 13, 9);
    CombineTimes(f, o, a, k, 9, 14, 11, 13);
    CombineTimes(f, o, a, k, 13, 9, 14, 11);
    CombineTimes(f, o, a, k, 11, 13, 9, 14);
  }

  /** One byte a mixes to 2a, a, a and 3a, beginning at its own place. */
  lemma MixOneByte<V(!new)>(f: Field<V>, o: V, a: V)
    requires Cancels(f, o) && f.xor(a, f.xor(f.xtime(a), a)) == f.xtime(a)
    ensures MixCol(f, Col(a, o, o, o)) == TimesCol(f, a, Col(Twice, Once, Once, Thrice))
    ensures MixCol(f, Col(o, a, o, o)) == TimesCol(f, a, Col(Thrice, Twice, Once, Once))
    ensures MixCol(f, Col(o, o, a, o)) == TimesCol(f, a, Col(Once, Thrice, Twice, Once))
    ensures MixCol(f, Col(o, o, o, a)) == TimesCol(f, a, Col(Once, Once, Thrice, Twice))
  {
  }

  lemma TripleLess<V(!new)>(f: Field<V>, o: V, a: V, t: V)
    requires Regroups(f) && Cancels(f, o)
    ensures f.xor(a, f.xor(t, a)) == t
  {
    Swap(f, o, a, t, a);
  }

  lemma UnmixTo<V(!new)>(f: Field<V>, o: V, a: V, k: Col<Multiple>, p: Powers<V>, r0: Vec, r1: Vec, r2: Vec, r3: Vec)
    requires Linear(f) && Cancels(f, o) && p == Doublings(f, a)
    requires RowVec(k, 14, 11, 13, 9) == r0 && RowVec(k, 9, 14, 11, 13) == r1
    requires RowVec(k, 13, 9, 14, 11) == r2 && RowVec(k, 11, 13, 9, 14) == r3
    ensures InvMixCol(f, TimesCol(f, a, k)) == Col(Sum(f, p, r0), Sum(f, p, r1), Sum(f, p, r2), Sum(f, p, r3))
  {
    UnmixTimes(f, o, a, k);
  }

  lemma RecoveredBy<V(!new)>(f: Field<V>, o: V, a: V, x: Col<V>, k: Col<Multiple>, p: Powers<V>, r0: Vec, r1: Vec, r2: Vec, r3: Vec)
    requires MixCol(f, x) == TimesCol(f, a, k)
    requires InvMixCol(f, TimesCol(f, a, k)) == Col(Sum(f, p, r0), Sum(f, p, r1), Sum(f, p, r2), Sum(f, p, r3))
    requires x == Col(Sum(f, p, r0), Sum(f, p, r1), Sum(f, p, r2), Sum(f, p, r3))
    ensures Recovered(f, x)
  {
  }

  lemma Unmixed0<V(!new)>(f: Field<V>, o: V, a: V, k: Col<Multiple>, p: Powers<V>)
    requires Linear(f) && Cancels(f, o) && p == Doublings(f, a) && k == Col(Twice, Once, Once, Thrice)
    ensures InvMixCol(f, TimesCol(f, a, k)) == Col(Sum(f, p, UNIT), Sum(f, p, NONE), Sum(f, p, NONE), Sum(f, p, NONE))
  {
    RowVecs0(k);
    UnmixTo(f, o, a, k, p, UNIT, NONE, NONE, NONE);
  }

  lemma Recovered0<V(!new)>(f: Field<V>, o: V, a: V)
    requires Linear(f) && Cancels(f, o)
    ensures Recovered(f, Col(a, o, o, o))
  {
    var k, p := Col(Twice, Once, Once, Thrice), Doublings(f, a);
    TripleLess(f, o, a, f.xtime(a));
    MixOneByte(f, o, a);
    SumOfNone(f, o, p);
    Unmixed0(f, o, a, k, p);
    RecoveredBy(f, o, a, Col(a, o, o, o), k, p, UNIT, NONE, NONE, NONE);
  }

  lemma Unmixed1<V(!new)>(f: Field<V>, o: V, a: V, k: Col<Multiple>, p: Powers<V>)
    requires Linear(f) && Cancels(f, o) && p == Doublings(f, a) && k == Col(Thrice, Twice, Once, Once)
    ensures InvMixCol(f, TimesCol(f, a, k)) == Col(Sum(f, p, NONE), Sum(f, p, UNIT), Sum(f, p, NONE), Sum(f, p, NONE))
  {
    RowVecs1(k);
    UnmixTo(f, o, a, k, p, NONE, UNIT, NONE, NONE);
  }

  lemma Recovered1<V(!new)>(f: Field<V>, o: V, a: V)
    requires Linear(f) && Cancels(f, o)
    ensures Recovered(f, Col(o, a, o, o))
  {
    var k, p := Col(Thrice, Twice, Once, Once), Doublings(f, a);
    TripleLess(f, o, a, f.xtime(a));
    MixOneByte(f, o, a);
    SumOfNone(f, o, p);
    Unmixed1(f, o, a, k, p);
    RecoveredBy(f, o, a, Col(o, a, o, o), k, p, NONE, UNIT, NONE, NONE);
  }

  lemma Unmixed2<V(!new)>(f: Field<V>, o: V, a: V, k: Col<Multiple>, p: Powers<V>)
    requires Linear(f) && Cancels(f, o) && p == Doublings(f, a) && k == Col(Once, Thrice, Twice, Once)
    ensures InvMixCol(f, TimesCol(f, a, k)) == Col(Sum(f, p, NONE), Sum(f, p, NONE), Sum(f, p, UNIT), Sum(f, p, NONE))
  {
    RowVecs2(k);
    UnmixTo(f, o, a, k, p, NONE, NONE, UNIT, NONE);
  }

  lemma Recovered2<V(!new)>(f: Field<V>, o: V, a: V)
    requires Linear(f) && Cancels(f, o)
    ensures Recovered(f, Col(o, o, a, o))
  {
    var k, p := Col(Once, Thrice, Twice, Once), Doublings(f, a);
    TripleLess(f, o, a, f.xtime(a));
    MixOneByte(f, o, a);
    SumOfNone(f, o, p);
    Unmixed2(f, o, a, k, p);
    RecoveredBy(f, o, a, Col(o, o, a, o), k, p, NONE, NONE, UNIT, NONE);
  }

  lemma Unmixed3<V(!new)>(f: Field<V>, o: V, a: V, k: Col<Multiple>, p: Powers<V>)
    requires Linear(f) && Cancels(f, o) && p == Doublings(f, a) && k == Col(Once, Once, Thrice, Twice)
    ensures InvMixCol(f, TimesCol(f, a, k)) == Col(Sum(f, p, NONE), Sum(f, p, NONE), Sum(f, p, NONE), Sum(f, p, UNIT))
  {
    RowVecs3(k);
    UnmixTo(f, o, a, k, p, NONE, NONE, NONE, UNIT);
  }

  lemma Recovered3<V(!new)>(f: Field<V>, o: V, a: V)
    requires Linear(f) && Cancels(f, o)
    ensures Recovered(f, Col(o, o, o, a))
  {
    var k, p := Col(Once, Once, Thrice, Twice), Doublings(f, a);
    TripleLess(f, o, a, f.xtime(a));
    MixOneByte(f, o, a);
    SumOfNone(f, o, p);
    Unmixed3(f, o, a, k, p);
    RecoveredBy(f, o, a, Col(o, o, o, a), k, p, NONE, NONE, NONE, UNIT);
  }

  /** Every column is a sum of columns with one byte. */
  lemma AllRecovered<V(!new)>(f: Field<V>, o: V, x: Col<V>)
    requires Linear(f) && Cancels(f, o)
    ensures Recovered(f, x)
  {
    var p, q := Col(x.a, o, o, o), Col(o, x.b, o, o);
    var r, s := Col(o, o, x.c, o), Col(o, o, o, x.d);
    Recovered0(f, o, x.a);
    Recovered1(f, o, x.b);
    Recovered2(f, o, x.c);
    Recovered3(f, o, x.d);
    RecoveredAdds(f, p, q);
    var pq := Plus4(f, p, q);
    RecoveredAdds(f, pq, r);
    var pqr := Plus4(f, pq, r);
    RecoveredAdds(f, pqr, s);
    assert Plus4(f, pqr, s) == x;
  }

  // ----- The bytes of AES -----

  function Plus(a: bv8, b: bv8): (c: bv8)
  {
    a ^ b
  }

  function Xtime(x: bv8): (y: bv8)
  {
    (x << 1) ^ (((x >> 7) & 1) * 0x1b)
  }

  /** A bit times a byte. */
  function Scale(n: nat, x: bv8): (y: bv8)
  {
    if n == 0 then 0 else x
  }

  const GF: Field<bv8> := Field(Plus, Xtime, Scale)

  const AES: Layer<bv8> := Layer(Plus, Sbox, InvSbox, x => MixCol(GF, x), x => InvMixCol(GF, x))

  ghost predicate IsGF(f: Field<bv8>)
  {
    f.xor == Plus && f.xtime == Xtime && f.scale == Scale
  }

  lemma XtimeAdds(a: bv8, b: bv8)
    ensures Xtime(Plus(a, b)) == Plus(Xtime(a), Xtime(b))
  {
  }

  lemma PlusLaws(a: bv8, b: bv8)
    ensures Plus(a, b) == Plus(b, a) && Plus(Plus(a, b), b) == a && Plus(a, 0) == a && Plus(0, a) == a && Plus(a, a) == 0
  {
  }

  lemma XorRegroups(a: bv8, b: bv8, c: bv8, d: bv8)
    ensures (a ^ b) ^ (c ^ d) == (a ^ c) ^ (b ^ d)
  {
  }

  lemma FourIsXor(f: Field<bv8>, a: bv8, b: bv8, c: bv8, d: bv8)
    requires f.xor == Plus
    ensures Four(f, a, b, c, d) == (a ^ b) ^ (c ^ d)
  {
  }

  lemma FourSwaps(f: Field<bv8>, a: bv8, b: bv8, c: bv8, d: bv8)
    requires f.xor == Plus
    ensures Four(f, a, b, c, d) == Four(f, a, c, b, d)
  {
    FourIsXor(f, a, b, c, d);
    FourIsXor(f, a, c, b, d);
    XorRegroups(a, b, c, d);
  }

  lemma GFRegroups(f: Field<bv8>)
    requires f.xor == Plus
    ensures Regroups(f)
  {
    forall a, b, c, d ensures Four(f, a, b, c, d) == Four(f, a, c, b, d) {
      FourSwaps(f, a, b, c, d);
    }
  }

  lemma GFDoubles(f: Field<bv8>)
    requires f.xor == Plus && f.xtime == Xtime
    ensures Doubles(f)
  {
    forall a, b ensures f.xtime(f.xor(a, b)) == f.xor(f.xtime(a), f.xtime(b)) {
      XtimeAdds(a, b);
    }
  }

  lemma GFScales(f: Field<bv8>)
    requires f.xor == Plus && f.scale == Scale
    ensures Scales(f)
  {
    forall n, a, b ensures f.scale(n, f.xor(a, b)) == f.xor(f.scale(n, a), f.scale(n, b)) {
      PlusLaws(0, 0);
    }
  }

  lemma GFCancels(f: Field<bv8>)
    requires IsGF(f)
    ensures Cancels(f, 0)
  {
    forall a ensures f.xor(a, 0) == a && f.xor(0, a) == a && f.xor(a, a) == 0 {
      PlusLaws(a, a);
    }
    XtimeZero();
  }

  lemma XtimeZero()
    ensures Xtime(0) == 0
  {
  }

  lemma MixRecovers(f: Field<bv8>, x: Col<bv8>)
    requires IsGF(f)
    ensures InvMixCol(f, MixCol(f, x)) == x
  {
    GFRegroups(f);
    GFDoubles(f);
    GFScales(f);
    GFCancels(f);
    AllRecovered(f, 0, x);
  }

  /** The bytes of AES with its tables satisfy every law that the cipher needs. */
  lemma AesLawful()
    ensures Lawful(AES) && Over(AES, GF)
  {
    var l := AES;
    forall x ensures l.unmix(l.mix(x)) == x {
      MixRecovers(GF, x);
    }
    forall x ensures l.inv(l.sub(x)) == x {
      SboxInverse(x);
    }
    forall x, k ensures l.xor(l.xor(x, k), k) == x {
      PlusLaws(x, k);
    }
  }
}
