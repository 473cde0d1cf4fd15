/** Strings of bits, most significant first, and numbers of a fixed number of bits laid end to end. */
module Bits {
  import opened Arithmetic

  type bit = b: int | 0 <= b < 2

  /** The low `n` bits of `v`. */
  function ToBits(v: nat, n: nat): (s: seq<bit>)
    ensures |s| == n
  {
    if n == 0 then [] else ToBits(v / 2, n - 1) + [v % 2]
  }

  function FromBits(s: seq<bit>): (v: nat)
  {
    if s == [] then 0 else 2 * FromBits(s[..|s| - 1]) + s[|s| - 1]
  }

  function Zeros(n: nat): (s: seq<bit>)
    ensures |s| == n
  {
    seq(n, _ => 0)
  }

  predicate AllZero(s: seq<bit>)
  {
    forall i :: 0 <= i < |s| ==> s[i] == 0
  }

  lemma {:induction false} FromToBits(v: nat, n: nat)
    requires v < Pow(2, n)
    ensures FromBits(ToBits(v, n)) == v
  {
    if n > 0 {
      FromToBits(v / 2, n - 1);
      assert ToBits(v, n)[..n - 1] == ToBits(v / 2, n - 1);
    }
  }

  lemma ToBitsInjective(u: nat, v: nat, n: nat)
    requires u < Pow(2, n) && v < Pow(2, n) && ToBits(u, n) == ToBits(v, n)
    ensures u == v
  {
    FromToBits(u, n);
    FromToBits(v, n);
  }

  lemma {:induction false} ToFromBits(s: seq<bit>)
    ensures ToBits(FromBits(s), |s|) == s && FromBits(s) < Pow(2, |s|)
  {
    if s != [] {
      var s', v := s[..|s| - 1], FromBits(s);
      ToFromBits(s');
      assert v / 2 == FromBits(s') && v % 2 == s[|s| - 1];
      assert s == s' + [s[|s| - 1]];
    }
  }

  function Shift(v: nat, k: nat): (r: nat)
  {
    if k == 0 then v else Shift(v / 2, k - 1)
  }

  lemma {:induction false} ShiftIsDivision(v: nat, k: nat)
    ensures Shift(v, k) == v / Pow(2, k)
  {
    if k > 0 {
      ShiftIsDivision(v / 2, k - 1);
      HalveFirst(v, Pow(2, k - 1));
    }
  }

  /** Shifting right drops the bits on the right. */
  lemma {:induction false} SplitBits(v: nat, n: nat, k: nat)
    ensures ToBits(v, n + k) == ToBits(Shift(v, k), n) + ToBits(v, k)
  {
    if k > 0 {
      SplitBits(v / 2, n, k - 1);
      MoveBit(v, n + k, k, ToBits(Shift(v, k), n));
    }
  }

  lemma MoveBit(v: nat, m: nat, k: nat, s: seq<bit>)
    requires k > 0 && m > 0 && ToBits(v / 2, m - 1) == s + ToBits(v / 2, k - 1)
    ensures ToBits(v, m) == s + ToBits(v, k)
  {
    assert s + (ToBits(v / 2, k - 1) + [v % 2]) == s + ToBits(v / 2, k - 1) + [v % 2];
  }

  lemma HalveFirst(v: nat, p: nat)
    requires p > 0
    ensures (v / 2) / p == v / (2 * p)
  {
    var q, r := (v / 2) / p, (v / 2) % p;
    assert v / 2 == p * q + r;
    assert 2 * (p * q) == (2 * p) * q;
    DivModUnique(v, 2 * p, q, 2 * r + v % 2);
  }

  /** What lies above the low bits does not matter. */
  lemma {:induction false} ModBits(v: nat, n: nat, k: nat)
    requires n <= k
    ensures ToBits(v % Pow(2, k), n) == ToBits(v, n)
  {
    if n > 0 {
      ModHalf(v, Pow(2, k - 1));
      ModBits(v / 2, n - 1, k - 1);
    }
  }

  lemma ModHalf(v: nat, p: nat)
    requires p > 0
    ensures v % (2 * p) / 2 == v / 2 % p && v % (2 * p) % 2 == v % 2
  {
    var q, r := (v / 2) / p, (v / 2) % p;
    assert v / 2 == p * q + r;
    assert 2 * (p * q) == (2 * p) * q;
    DivModUnique(v, 2 * p, q, 2 * r + v % 2);
  }

  /** A number put to the right of another one. */
  lemma JoinBits(v: nat, n: nat, d: nat, k: nat)
    requires d < Pow(2, k)
    ensures ToBits(v * Pow(2, k) + d, n + k) == ToBits(v, n) + ToBits(d, k)
  {
    var p := Pow(2, k);
    var x := v * p + d;
    DivModUnique(x, p, v, d);
    ShiftIsDivision(x, k);
    SplitBits(x, n, k);
    ModBits(x, k, k);
  }

  /** The low bits are all zero exactly when they count nothing. */
  lemma {:induction false} ZeroBits(v: nat, n: nat)
    ensures AllZero(ToBits(v, n)) <==> v % Pow(2, n) == 0
  {
    if n > 0 {
      ZeroBits(v / 2, n - 1);
      ModHalf(v, Pow(2, n - 1));
      var s := ToBits(v, n);
      assert s[n - 1] == v % 2 && s[..n - 1] == ToBits(v / 2, n - 1);
      assert AllZero(s) ==> AllZero(s[..n - 1]);
    }
  }

  // ----- Numbers end to end -----

  predicate Fit(ds: seq<nat>, w: nat)
  {
    forall i :: 0 <= i < |ds| ==> ds[i] < Pow(2, w)
  }

  /** `w` bits for each number. */
  function Spread(ds: seq<nat>, w: nat): (s: seq<bit>)
  {
    if ds == [] then [] else Spread(ds[..|ds| - 1], w) + ToBits(ds[|ds| - 1], w)
  }

  lemma SpreadSnoc(ds: seq<nat>, d: nat, w: nat)
    ensures Spread(ds + [d], w) == Spread(ds, w) + ToBits(d, w)
  {
    assert (ds + [d])[..|ds|] == ds;
  }

  lemma {:induction false} SpreadLength(ds: seq<nat>, w: nat)
    ensures |Spread(ds, w)| == w * |ds|
  {
    if ds != [] {
      SpreadLength(ds[..|ds| - 1], w);
      assert w * |ds| == w * (|ds| - 1) + w;
    }
  }

  /** Two lists of numbers with the same bits, up to less than a number's worth on the right, are equal. */
  lemma {:induction false} SpreadUnique(a: seq<nat>, ra: seq<bit>, b: seq<nat>, rb: seq<bit>, w: nat)
    requires w > 0 && Fit(a, w) && Fit(b, w) && |ra| < w && |rb| < w
    requires Spread(a, w) + ra == Spread(b, w) + rb
    ensures a == b && ra == rb
  {
    SpreadLength(a, w);
    SpreadLength(b, w);
    DivModUnique(w * |a| + |ra|, w, |a|, |ra|);
    DivModUnique(w * |a| + |ra|, w, |b|, |rb|);
    SuffixEqual(Spread(a, w), ra, Spread(b, w), rb);
    SpreadInjective(a, b, w);
  }

  lemma SuffixEqual(x: seq<bit>, y: seq<bit>, u: seq<bit>, v: seq<bit>)
    requires x + y == u + v && |y| == |v|
    ensures x == u && y == v
  {
    assert x == (x + y)[..|x|] && u == (u + v)[..|u|];
    assert y == (x + y)[|x|..] && v == (u + v)[|u|..];
  }

  lemma {:induction false} SpreadInjective(a: seq<nat>, b: seq<nat>, w: nat)
    requires Fit(a, w) && Fit(b, w) && |a| == |b| && Spread(a, w) == Spread(b, w)
    ensures a == b
  {
    if a != [] {
      var a', d := a[..|a| - 1], a[|a| - 1];
      var b', e := b[..|b| - 1], b[|b| - 1];
      SuffixEqual(Spread(a', w), ToBits(d, w), Spread(b', w), ToBits(e, w));
      ToBitsInjective(d, e, w);
      SpreadInjective(a', b', w);
      assert a == a' + [d];
      assert b == b' + [e];
    }
  }
}
