/** Positional numerals, most significant digit first. */
module Numerals {
  import opened Arithmetic

  predicate Digits(ds: seq<nat>, base: nat)
  {
    forall i :: 0 <= i < |ds| ==> ds[i] < base
  }

  function Value(ds: seq<nat>, base: nat): (v: nat)
  {
    if ds == [] then 0 else Value(ds[..|ds| - 1], base) * base + ds[|ds| - 1]
  }

  /** The digits of `v` without leading zeros; none at all for zero. */
  function Canonical(v: nat, base: nat): (ds: seq<nat>)
    requires base >= 2
    ensures Digits(ds, base)
    decreases v
  {
    if v == 0 then [] else DivSmaller(v, base); Canonical(v / base, base) + [v % base]
  }

  lemma DivSmaller(v: nat, base: nat)
    requires v > 0 && base >= 2
    ensures v / base < v
  {
    DivAtLeast(v, base, v);
    MulLe(2, base, v);
  }

  function Zeros(n: nat): (s: seq<nat>)
    ensures |s| == n && forall i :: 0 <= i < n ==> s[i] == 0
  {
    seq(n, _ => 0)
  }

  /** Number of leading zeros. */
  function Leading(ds: seq<nat>): (n: nat)
    ensures n <= |ds|
    ensures forall i :: 0 <= i < n ==> ds[i] == 0
    ensures n < |ds| ==> ds[n] != 0
  {
    if ds == [] || ds[0] != 0 then 0 else 1 + Leading(ds[1..])
  }

  function Strip(ds: seq<nat>): (s: seq<nat>)
  {
    ds[Leading(ds)..]
  }

  /** The same number in another base, leading zeros carried over one for one. */
  function Rebase(ds: seq<nat>, from: nat, to: nat): (r: seq<nat>)
    requires to >= 2
    ensures Digits(r, to)
  {
    Zeros(Leading(ds)) + Canonical(Value(ds, from), to)
  }

  lemma ValueSnoc(ds: seq<nat>, d: nat, base: nat)
    ensures Value(ds + [d], base) == Value(ds, base) * base + d
  {
    assert (ds + [d])[..|ds|] == ds;
  }

  lemma {:induction false} ValueAppend(a: seq<nat>, b: seq<nat>, base: nat)
    ensures Value(a + b, base) == Value(a, base) * Pow(base, |b|) + Value(b, base)
    decreases |b|
  {
    if b == [] {
      assert a + b == a;
    } else {
      var b', d := b[..|b| - 1], b[|b| - 1];
      ValueAppend(a, b', base);
      ValueSnoc(a + b', d, base);
      assert a + b == (a + b') + [d];
      var p := Pow(base, |b'|);
      assert Pow(base, |b|) == base * p;
      Distribute(Value(a, base), p, Value(b', base), base);
    }
  }

  lemma Distribute(x: nat, p: nat, y: nat, base: nat)
    ensures (x * p + y) * base == x * (base * p) + y * base
  {
  }

  lemma ValueCons(d: nat, ds: seq<nat>, base: nat)
    ensures Value([d] + ds, base) == d * Pow(base, |ds|) + Value(ds, base)
  {
    ValueAppend([d], ds, base);
    ValueSnoc([], d, base);
    assert [] + [d] == [d];
  }

  lemma {:induction false} ValueOfZeros(n: nat, base: nat)
    ensures Value(Zeros(n), base) == 0
  {
    if n > 0 {
      ValueOfZeros(n - 1, base);
      assert Zeros(n) == Zeros(n - 1) + [0];
      ValueSnoc(Zeros(n - 1), 0, base);
    }
  }

  lemma ValueZerosPrefix(n: nat, ds: seq<nat>, base: nat)
    ensures Value(Zeros(n) + ds, base) == Value(ds, base)
  {
    ValueOfZeros(n, base);
    ValueAppend(Zeros(n), ds, base);
  }

  lemma {:induction false} ValueBound(ds: seq<nat>, base: nat)
    requires Digits(ds, base) && base > 0
    ensures Value(ds, base) < Pow(base, |ds|)
  {
    if ds != [] {
      var ds', d := ds[..|ds| - 1], ds[|ds| - 1];
      ValueBound(ds', base);
      HornerBound(Value(ds', base), Pow(base, |ds'|), base, d);
    }
  }

  lemma HornerBound(v: nat, p: nat, base: nat, d: nat)
    requires v < p && d < base
    ensures v * base + d < base * p
  {
    MulLe(v + 1, p, base);
    assert (v + 1) * base == v * base + base;
  }

  lemma {:induction false} ValueOfCanonical(v: nat, base: nat)
    requires base >= 2
    ensures Value(Canonical(v, base), base) == v
  {
    if v > 0 {
      DivSmaller(v, base);
      var q, r := v / base, v % base;
      ValueOfCanonical(q, base);
      ValueSnoc(Canonical(q, base), r, base);
      DivModSum(v, base);
    }
  }

  lemma {:induction false} CanonicalHead(v: nat, base: nat)
    requires base >= 2 && v > 0
    ensures Canonical(v, base) != [] && Canonical(v, base)[0] != 0
  {
    DivSmaller(v, base);
    if v / base > 0 {
      CanonicalHead(v / base, base);
    } else {
      assert Canonical(v / base, base) == [];
    }
  }

  /** Digits without a leading zero are determined by their value. */
  lemma {:induction false} CanonicalOfValue(ds: seq<nat>, base: nat)
    requires base >= 2 && Digits(ds, base) && (ds != [] ==> ds[0] != 0)
    ensures Canonical(Value(ds, base), base) == ds
    decreases |ds|
  {
    if ds != [] {
      var ds', d := ds[..|ds| - 1], ds[|ds| - 1];
      CanonicalOfValue(ds', base);
      ValuePositive(ds, base);
      CanonicalSnoc(Value(ds', base), d, base);
      assert ds == ds' + [d];
    }
  }

  lemma CanonicalSnoc(v: nat, d: nat, base: nat)
    requires base >= 2 && d < base && v * base + d > 0
    ensures Canonical(v * base + d, base) == Canonical(v, base) + [d]
  {
    DivModUnique(v * base + d, base, v, d);
  }

  lemma {:induction false} ValuePositive(ds: seq<nat>, base: nat)
    requires base >= 1 && ds != [] && ds[0] != 0
    ensures Value(ds, base) > 0
  {
    if |ds| > 1 {
      ValuePositive(ds[..|ds| - 1], base);
      MulLe(1, Value(ds[..|ds| - 1], base), base);
    } else {
      assert Value(ds[..0], base) == 0;
    }
  }

  lemma StripSplit(ds: seq<nat>)
    ensures ds == Zeros(Leading(ds)) + Strip(ds)
    ensures Strip(ds) != [] ==> Strip(ds)[0] != 0
  {
  }

  /** Stripping leading zeros gives the canonical digits. */
  lemma StripIsCanonical(ds: seq<nat>, base: nat)
    requires base >= 2 && Digits(ds, base)
    ensures Strip(ds) == Canonical(Value(ds, base), base)
  {
    StripSplit(ds);
    ValueZerosPrefix(Leading(ds), Strip(ds), base);
    CanonicalOfValue(Strip(ds), base);
  }

  lemma {:induction false} LeadingOfZeros(n: nat, ds: seq<nat>)
    requires ds != [] ==> ds[0] != 0
    ensures Leading(Zeros(n) + ds) == n
  {
    if n > 0 {
      LeadingOfZeros(n - 1, ds);
      assert (Zeros(n) + ds)[1..] == Zeros(n - 1) + ds;
    } else {
      assert Zeros(0) + ds == ds;
    }
  }

  /** Changing base and back is the identity on digit strings of every length. */
  lemma RebaseInverse(ds: seq<nat>, from: nat, to: nat)
    requires from >= 2 && to >= 2 && Digits(ds, from)
    ensures Rebase(Rebase(ds, from, to), to, from) == ds
  {
    var z, v := Leading(ds), Value(ds, from);
    var c := Canonical(v, to);
    if v > 0 {
      CanonicalHead(v, to);
    }
    LeadingOfZeros(z, c);
    ValueZerosPrefix(z, c, to);
    ValueOfCanonical(v, to);
    StripIsCanonical(ds, from);
    StripSplit(ds);
  }

  /** Digit strings of one length with equal values are equal. */
  lemma {:induction false} FixedLengthUnique(a: seq<nat>, b: seq<nat>, base: nat)
    requires base >= 2 && Digits(a, base) && Digits(b, base)
    requires |a| == |b| && Value(a, base) == Value(b, base)
    ensures a == b
    decreases |a|
  {
    if a != [] {
      var a', d := a[..|a| - 1], a[|a| - 1];
      var b', e := b[..|b| - 1], b[|b| - 1];
      DivModUnique(Value(a, base), base, Value(a', base), d);
      DivModUnique(Value(b, base), base, Value(b', base), e);
      FixedLengthUnique(a', b', base);
      assert a == a' + [d] && b == b' + [e];
    }
  }
}
