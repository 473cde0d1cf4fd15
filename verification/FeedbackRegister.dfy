/** A checksum register of six groups with a linear feedback, over any groups that can be added
    without carry. Nothing here depends on what the groups or the feedback are. */
module FeedbackRegister {

  datatype Reg<V> = Reg(p0: V, p1: V, p2: V, p3: V, p4: V, p5: V)

  /** Addition without carry, and what the group that leaves on the left adds to each group. */
  datatype Gen<!V> = Gen(zero: V, xor: (V, V) -> V, g0: V -> V, g1: V -> V, g2: V -> V, g3: V -> V, g4: V -> V, g5: V -> V)

  ghost predicate Regroups<V(!new)>(g: Gen<V>)
  {
    forall a: V, b: V, c: V, d: V {:trigger g.xor(g.xor(a, b), g.xor(c, d))} ::
      g.xor(g.xor(a, b), g.xor(c, d)) == g.xor(g.xor(a, c), g.xor(b, d))
  }

  ghost predicate HasUnit<V(!new)>(g: Gen<V>)
  {
    forall a: V {:trigger g.xor(a, g.zero)} :: g.xor(a, g.zero) == a
  }

  ghost predicate UnitLeft<V(!new)>(g: Gen<V>)
  {
    forall a: V {:trigger g.xor(g.zero, a)} :: g.xor(g.zero, a) == a
  }

  ghost predicate UndoesItself<V(!new)>(g: Gen<V>)
  {
    forall a: V, b: V {:trigger g.xor(a, g.xor(a, b))} :: g.xor(a, g.xor(a, b)) == b
  }

  ghost predicate UndoneRight<V(!new)>(g: Gen<V>)
  {
    forall a: V, b: V {:trigger g.xor(g.xor(a, b), b)} :: g.xor(g.xor(a, b), b) == a
  }

  ghost predicate Additive<V(!new)>(g: Gen<V>, f: V -> V)
  {
    f(g.zero) == g.zero && forall a: V, b: V {:trigger f(g.xor(a, b))} :: f(g.xor(a, b)) == g.xor(f(a), f(b))
  }

  ghost predicate Linear<V(!new)>(g: Gen<V>)
  {
    && Regroups(g) && HasUnit(g) && UnitLeft(g)
    && Additive(g, g.g0) && Additive(g, g.g1) && Additive(g, g.g2) && Additive(g, g.g3) && Additive(g, g.g4) && Additive(g, g.g5)
  }

  ghost predicate LeftInverse<V(!new)>(g: Gen<V>, inv: V -> V)
  {
    forall a: V {:trigger g.g5(a)} :: inv(g.g5(a)) == a
  }

  /** The group fed back to the right end determines the group that left. */
  ghost predicate Invertible<V(!new)>(g: Gen<V>)
  {
    UndoesItself(g) && UndoneRight(g) && exists inv: V -> V :: LeftInverse(g, inv)
  }

  function Advance<V>(g: Gen<V>, r: Reg<V>): (s: Reg<V>)
  {
    Reg(g.xor(r.p1, g.g0(r.p0)), g.xor(r.p2, g.g1(r.p0)), g.xor(r.p3, g.g2(r.p0)),
        g.xor(r.p4, g.g3(r.p0)), g.xor(r.p5, g.g4(r.p0)), g.g5(r.p0))
  }

  function Add<V>(g: Gen<V>, r: Reg<V>, v: V): (s: Reg<V>)
  {
    r.(p5 := g.xor(r.p5, v))
  }

  function Take<V>(g: Gen<V>, r: Reg<V>, v: V): (s: Reg<V>)
  {
    Add(g, Advance(g, r), v)
  }

  function TakeAll<V>(g: Gen<V>, r: Reg<V>, vs: seq<V>): (s: Reg<V>)
  {
    if vs == [] then r else Take(g, TakeAll(g, r, vs[..|vs| - 1]), vs[|vs| - 1])
  }

  function Xor<V>(g: Gen<V>, a: Reg<V>, b: Reg<V>): (c: Reg<V>)
  {
    Reg(g.xor(a.p0, b.p0), g.xor(a.p1, b.p1), g.xor(a.p2, b.p2), g.xor(a.p3, b.p3), g.xor(a.p4, b.p4), g.xor(a.p5, b.p5))
  }

  lemma AdvanceXor<V(!new)>(g: Gen<V>, a: Reg<V>, b: Reg<V>)
    requires Linear(g)
    ensures Advance(g, Xor(g, a, b)) == Xor(g, Advance(g, a), Advance(g, b))
  {
  }

  /** While the leftmost group is empty, a step only moves the groups to the left. */
  lemma AdvanceEmpty<V(!new)>(g: Gen<V>, s: Reg<V>)
    requires Linear(g) && s.p0 == g.zero
    ensures Advance(g, s) == Reg(s.p1, s.p2, s.p3, s.p4, s.p5, g.zero)
  {
  }

  /** A symbol fed beside a disturbance that has not reached the left end. */
  lemma TakeBeside<V(!new)>(g: Gen<V>, z: Reg<V>, s: Reg<V>, v: V)
    requires Linear(g) && s.p0 == g.zero
    ensures Take(g, Xor(g, z, s), v) == Xor(g, Advance(g, z), Reg(s.p1, s.p2, s.p3, s.p4, s.p5, v))
  {
    AdvanceXor(g, z, s);
    AdvanceEmpty(g, s);
  }

  function Steps<V>(g: Gen<V>, r: Reg<V>, n: nat): (s: Reg<V>)
  {
    if n == 0 then r else Advance(g, Steps(g, r, n - 1))
  }

  /** The k-th symbol from the right, or nothing. */
  function At<V>(g: Gen<V>, vs: seq<V>, k: nat): (v: V)
    requires 1 <= k
  {
    if k <= |vs| then vs[|vs| - k] else g.zero
  }

  /** Up to six symbols, laid into an empty register. */
  function Window<V>(g: Gen<V>, vs: seq<V>): (r: Reg<V>)
  {
    Reg(At(g, vs, 6), At(g, vs, 5), At(g, vs, 4), At(g, vs, 3), At(g, vs, 2), At(g, vs, 1))
  }

  lemma TakeAllSnoc<V(!new)>(g: Gen<V>, r: Reg<V>, vs: seq<V>, v: V)
    ensures TakeAll(g, r, vs + [v]) == Take(g, TakeAll(g, r, vs), v)
  {
    assert (vs + [v])[..|vs|] == vs;
  }

  lemma XorBlank<V(!new)>(g: Gen<V>, r: Reg<V>)
    requires Linear(g)
    ensures Xor(g, r, Window(g, [])) == r
  {
  }

  lemma WindowSnoc<V(!new)>(g: Gen<V>, vs: seq<V>)
    requires 1 <= |vs| <= 6
    ensures var s := Window(g, vs[..|vs| - 1]);
      s.p0 == g.zero && Window(g, vs) == Reg(s.p1, s.p2, s.p3, s.p4, s.p5, vs[|vs| - 1])
  {
  }

  /** Up to six symbols act on the register as that many empty steps do, plus the symbols themselves. */
  lemma {:induction false} TakeWindow<V(!new)>(g: Gen<V>, r: Reg<V>, vs: seq<V>)
    requires Linear(g) && |vs| <= 6
    ensures TakeAll(g, r, vs) == Xor(g, Steps(g, r, |vs|), Window(g, vs))
  {
    if vs == [] {
      XorBlank(g, r);
    } else {
      var vs' := vs[..|vs| - 1];
      TakeWindow(g, r, vs');
      WindowSnoc(g, vs);
      TakeBeside(g, Steps(g, r, |vs'|), Window(g, vs'), vs[|vs| - 1]);
    }
  }

  /** A step loses nothing. */
  lemma TakeInjective<V(!new)>(g: Gen<V>, a: Reg<V>, b: Reg<V>, v: V)
    requires Invertible(g) && Take(g, a, v) == Take(g, b, v)
    ensures a == b
  {
    CancelRight(g, g.g5(a.p0), g.g5(b.p0), v);
    assert a.p0 == b.p0;
    CancelRight(g, a.p1, b.p1, g.g0(a.p0));
    CancelRight(g, a.p2, b.p2, g.g1(a.p0));
    CancelRight(g, a.p3, b.p3, g.g2(a.p0));
    CancelRight(g, a.p4, b.p4, g.g3(a.p0));
    CancelRight(g, a.p5, b.p5, g.g4(a.p0));
  }

  lemma CancelRight<V(!new)>(g: Gen<V>, a: V, b: V, c: V)
    requires UndoneRight(g)
    ensures g.xor(a, c) == g.xor(b, c) ==> a == b
  {
    assert g.xor(g.xor(a, c), c) == a && g.xor(g.xor(b, c), c) == b;
  }

  lemma {:induction false} TakeAllInjective<V(!new)>(g: Gen<V>, a: Reg<V>, b: Reg<V>, vs: seq<V>)
    requires Invertible(g) && TakeAll(g, a, vs) == TakeAll(g, b, vs)
    ensures a == b
  {
    if vs != [] {
      var vs' := vs[..|vs| - 1];
      TakeInjective(g, TakeAll(g, a, vs'), TakeAll(g, b, vs'), vs[|vs| - 1]);
      TakeAllInjective(g, a, b, vs');
    }
  }

  lemma XorInjective<V(!new)>(g: Gen<V>, z: Reg<V>, a: Reg<V>, b: Reg<V>)
    requires UndoesItself(g) && Xor(g, z, a) == Xor(g, z, b)
    ensures a == b
  {
    XorTwice(g, z, a);
    XorTwice(g, z, b);
  }

  lemma {:induction false} TakeAllAppend<V(!new)>(g: Gen<V>, r: Reg<V>, a: seq<V>, b: seq<V>)
    ensures TakeAll(g, r, a + b) == TakeAll(g, TakeAll(g, r, a), b)
    decreases |b|
  {
    if b == [] {
      assert a + b == a;
    } else {
      var b', v := b[..|b| - 1], b[|b| - 1];
      TakeAllAppend(g, r, a, b');
      TakeAllSnoc(g, r, a + b', v);
      assert a + b == (a + b') + [v];
    }
  }

  lemma WindowInjective<V(!new)>(g: Gen<V>, a: seq<V>, b: seq<V>)
    requires |a| == |b| <= 6 && Window(g, a) == Window(g, b)
    ensures a == b
  {
    forall i | 0 <= i < |a| ensures a[i] == b[i] {
      assert At(g, a, |a| - i) == At(g, b, |a| - i);
    }
  }

  lemma TakeThree<V(!new)>(g: Gen<V>, r: Reg<V>, a: seq<V>, b: seq<V>, c: seq<V>)
    ensures TakeAll(g, r, a + b + c) == TakeAll(g, TakeAll(g, TakeAll(g, r, a), b), c)
  {
    TakeAllAppend(g, r, a + b, c);
    TakeAllAppend(g, r, a, b);
  }

  /** Different symbols within a window of six lead to different registers, whatever surrounds them. */
  lemma BurstSeparates<V(!new)>(g: Gen<V>, r: Reg<V>, front: seq<V>, a: seq<V>, b: seq<V>, rest: seq<V>)
    requires Linear(g) && Invertible(g) && |a| == |b| <= 6 && a != b
    ensures TakeAll(g, r, front + a + rest) != TakeAll(g, r, front + b + rest)
  {
    var c := TakeAll(g, r, front);
    TakeThree(g, r, front, a, rest);
    TakeThree(g, r, front, b, rest);
    TakeWindow(g, c, a);
    TakeWindow(g, c, b);
    if TakeAll(g, r, front + a + rest) == TakeAll(g, r, front + b + rest) {
      TakeAllInjective(g, TakeAll(g, c, a), TakeAll(g, c, b), rest);
      XorInjective(g, Steps(g, c, |a|), Window(g, a), Window(g, b));
      WindowInjective(g, a, b);
    }
  }

  /** The symbols of a register's worth. */
  function Six<V>(w: Reg<V>): (vs: seq<V>)
    ensures |vs| == 6
  {
    [w.p0, w.p1, w.p2, w.p3, w.p4, w.p5]
  }

  lemma XorTwice<V(!new)>(g: Gen<V>, z: Reg<V>, t: Reg<V>)
    requires UndoesItself(g)
    ensures Xor(g, z, Xor(g, z, t)) == t
  {
  }

  /** Six symbols chosen as the encoder chooses them bring the register to any target: what six empty
      symbols would have led to, added to the target. */
  lemma SixCloses<V(!new)>(g: Gen<V>, r: Reg<V>, target: Reg<V>)
    requires Linear(g) && UndoesItself(g)
    ensures TakeAll(g, r, Six(Xor(g, TakeAll(g, r, Six(Window(g, []))), target))) == target
  {
    var z := Steps(g, r, 6);
    SixWindow(g, Window(g, []));
    TakeWindow(g, r, Six(Window(g, [])));
    XorBlank(g, z);
    SixWindow(g, Xor(g, z, target));
    TakeWindow(g, r, Six(Xor(g, z, target)));
    XorTwice(g, z, target);
  }

  lemma SixWindow<V(!new)>(g: Gen<V>, w: Reg<V>)
    ensures Window(g, Six(w)) == w
  {
  }

  // ----- Words that implement the register -----

  /** A word that is stepped and fed as a whole, and how it divides into groups. */
  datatype Machine<!W, !V> = Machine(step: W -> W, feed: (W, V) -> W, groups: W -> Reg<V>)

  ghost predicate Implements<W(!new), V(!new)>(m: Machine<W, V>, g: Gen<V>)
  {
    && (forall w: W {:trigger m.step(w)} :: m.groups(m.step(w)) == Advance(g, m.groups(w)))
    && (forall w: W, v: V {:trigger m.feed(w, v)} :: m.groups(m.feed(w, v)) == Add(g, m.groups(w), v))
  }

  ghost predicate Faithful<W(!new), V>(m: Machine<W, V>)
  {
    forall v: W, w: W {:trigger m.groups(v), m.groups(w)} :: m.groups(v) == m.groups(w) ==> v == w
  }

  function Run<W, V>(m: Machine<W, V>, chk: W, vs: seq<V>): (r: W)
  {
    if vs == [] then chk else m.feed(m.step(Run(m, chk, vs[..|vs| - 1])), vs[|vs| - 1])
  }

  lemma RunSnoc<W, V>(m: Machine<W, V>, chk: W, vs: seq<V>, v: V)
    ensures Run(m, chk, vs + [v]) == m.feed(m.step(Run(m, chk, vs)), v)
  {
    assert (vs + [v])[..|vs|] == vs;
  }

  lemma {:induction false} RunAppend<W, V>(m: Machine<W, V>, chk: W, a: seq<V>, b: seq<V>)
    ensures Run(m, chk, a + b) == Run(m, Run(m, chk, a), b)
    decreases |b|
  {
    if b == [] {
      assert a + b == a;
    } else {
      var b', v := b[..|b| - 1], b[|b| - 1];
      RunAppend(m, chk, a, b');
      RunSnoc(m, chk, a + b', v);
      assert a + b == (a + b') + [v];
    }
  }

  lemma {:induction false} RunGroups<W(!new), V(!new)>(m: Machine<W, V>, g: Gen<V>, chk: W, vs: seq<V>)
    requires Implements(m, g)
    ensures m.groups(Run(m, chk, vs)) == TakeAll(g, m.groups(chk), vs)
  {
    if vs != [] {
      RunGroups(m, g, chk, vs[..|vs| - 1]);
    }
  }

  /** The symbols that close a word: the groups of what six empty symbols lead to, with `one` added. */
  function Closing<W, V>(m: Machine<W, V>, zero: V, one: V, chk: W): (vs: seq<V>)
    ensures |vs| == 6
  {
    Six(m.groups(m.feed(Run(m, chk, seq(6, _ => zero)), one)))
  }

  lemma IdleSymbols<V(!new)>(g: Gen<V>)
    ensures seq(6, _ => g.zero) == Six(Window(g, []))
  {
  }

  lemma AddIsXor<V(!new)>(g: Gen<V>, r: Reg<V>, v: V)
    requires Linear(g)
    ensures Add(g, r, v) == Xor(g, r, Window(g, [v]))
  {
  }

  /** Whatever the word holds, the symbols that close it bring it to the word that holds `one` alone. */
  lemma ClosingCloses<W(!new), V(!new)>(m: Machine<W, V>, g: Gen<V>, chk: W, one: V, goal: W)
    requires Implements(m, g) && Faithful(m) && Linear(g) && UndoesItself(g) && m.groups(goal) == Window(g, [one])
    ensures Run(m, chk, Closing(m, g.zero, one, chk)) == goal
  {
    var idle := seq(6, _ => g.zero);
    IdleSymbols(g);
    RunGroups(m, g, chk, idle);
    AddIsXor(g, TakeAll(g, m.groups(chk), idle), one);
    SixCloses(g, m.groups(chk), Window(g, [one]));
    RunGroups(m, g, chk, Closing(m, g.zero, one, chk));
  }
}
