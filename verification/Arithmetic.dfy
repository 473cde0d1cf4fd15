/** Products, quotients and powers: the few non-linear facts that the codecs rest on. */
module Arithmetic {

  lemma MulLe(a: nat, b: nat, c: nat)
    requires a <= b
    ensures a * c <= b * c
    ensures c * a <= c * b
  {
    assert b * c == a * c + (b - a) * c;
  }

  lemma MulAssociative(a: nat, b: nat, c: nat)
    ensures a * (b * c) == (a * b) * c
  {
  }

  /** Euclidean division is determined by its defining equation. */
  lemma DivModUnique(x: int, d: nat, q: int, r: nat)
    requires d > 0 && r < d && x == d * q + r
    ensures x / d == q && x % d == r
  {
    var q', r' := x / d, x % d;
    assert d * (q' - q) == r - r';
    if q' > q {
      MulLe(1, q' - q, d);
    } else if q' < q {
      MulLe(1, q - q', d);
    }
  }

  /** Quotient and remainder together. */
  function DivMod(x: nat, d: nat): (qr: (nat, nat))
    requires d > 0
    ensures x == d * qr.0 + qr.1 && qr.1 < d
  {
    (x / d, x % d)
  }

  function MulPlus(a: nat, b: nat, c: nat): (r: nat)
  {
    a + b * c
  }

  lemma ModSmall(x: nat, d: nat)
    requires x < d
    ensures x % d == x
  {
    DivModUnique(x, d, 0, x);
  }

  lemma DivAtLeast(x: nat, d: nat, k: nat)
    requires d > 0
    ensures x / d >= k <==> x >= k * d
  {
    var q := x / d;
    assert x == d * q + x % d;
    if q >= k {
      MulLe(k, q, d);
    } else {
      MulLe(q + 1, k, d);
    }
  }

  lemma CeilingDivision(n: nat, p: nat)
    requires p > 0
    ensures (n + p - 1) / p > 1 <==> n > p
    ensures (n + p - 1) / p <= n
  {
    var s := n + p - 1;
    DivAtLeast(s, p, 2);
    DivAtLeast(s, p, n + 1);
    MulLe(1, p, n);
  }

  function Pow(b: nat, e: nat): (r: nat)
    ensures b > 0 ==> r > 0
  {
    if e == 0 then 1 else b * Pow(b, e - 1)
  }

  lemma {:induction false} PowMonotone(b: nat, m: nat, n: nat)
    requires b > 0 && m <= n
    ensures Pow(b, m) <= Pow(b, n)
    decreases n - m
  {
    if m < n {
      PowMonotone(b, m, n - 1);
      MulLe(1, b, Pow(b, n - 1));
    }
  }

  lemma {:induction false} PowAdd(b: nat, m: nat, n: nat)
    ensures Pow(b, m + n) == Pow(b, m) * Pow(b, n)
  {
    if m > 0 {
      PowAdd(b, m - 1, n);
      MulAssociative(b, Pow(b, m - 1), Pow(b, n));
    }
  }

  lemma PowersOfTwo()
    ensures Pow(2, 0) == 1 && Pow(2, 8) == 0x100 && Pow(2, 16) == 0x1_0000
    ensures Pow(2, 31) == 0x8000_0000 && Pow(2, 32) == 0x1_0000_0000
  {
    assert Pow(2, 4) == 16;
    PowAdd(2, 4, 4);
    PowAdd(2, 8, 8);
    PowAdd(2, 16, 16);
    assert Pow(2, 32) == 2 * Pow(2, 31);
  }

  lemma {:induction false} PowBaseMonotone(x: nat, y: nat, e: nat)
    requires x <= y
    ensures Pow(x, e) <= Pow(y, e)
  {
    if e > 0 {
      PowBaseMonotone(x, y, e - 1);
      MulLe(x, y, Pow(x, e - 1));
      MulLe(Pow(x, e - 1), Pow(y, e - 1), y);
    }
  }

  lemma {:induction false} PowBaseStrict(x: nat, y: nat, e: nat)
    requires x < y && e > 0
    ensures Pow(x, e) < Pow(y, e)
  {
    PowBaseMonotone(x, y, e - 1);
    var p, q := Pow(x, e - 1), Pow(y, e - 1);
    MulLe(p, q, x);
    assert q > 0;
    assert y * q == x * q + (y - x) * q;
    MulLe(1, y - x, q);
  }

  lemma {:induction false} PowPow(b: nat, m: nat, n: nat)
    ensures Pow(b, m * n) == Pow(Pow(b, m), n)
  {
    if n > 0 {
      PowPow(b, m, n - 1);
      assert m * n == m + m * (n - 1);
      PowAdd(b, m, m * (n - 1));
    } else {
      assert m * n == 0;
    }
  }

  /** From p^a <= q^b and a*k >= b*n follows p^n <= q^k: compare the a-th powers of both sides. */
  lemma PowRatio(p: nat, q: nat, a: nat, b: nat, n: nat, k: nat)
    requires a > 0 && q > 0 && Pow(p, a) <= Pow(q, b) && a * k >= b * n
    ensures Pow(p, n) <= Pow(q, k)
  {
    PowSwap(p, n, a);
    PowBaseMonotone(Pow(p, a), Pow(q, b), n);
    PowGrow(q, b, n, k, a);
    if Pow(p, n) > Pow(q, k) {
      PowBaseStrict(Pow(q, k), Pow(p, n), a);
    }
  }

  lemma PowPowAs(b: nat, m: nat, n: nat, e: nat)
    requires e == m * n
    ensures Pow(b, e) == Pow(Pow(b, m), n)
  {
    PowPow(b, m, n);
  }

  lemma MulCommutes(m: nat, n: nat)
    ensures m * n == n * m
  {
  }

  lemma PowSwap(p: nat, m: nat, n: nat)
    ensures Pow(Pow(p, m), n) == Pow(Pow(p, n), m)
  {
    PowPow(p, m, n);
    PowPow(p, n, m);
    MulCommutes(m, n);
  }

  lemma PowGrow(q: nat, b: nat, n: nat, k: nat, a: nat)
    requires q > 0 && a * k >= b * n
    ensures Pow(Pow(q, b), n) <= Pow(Pow(q, k), a)
  {
    var x, y := b * n, a * k;
    PowPowAs(q, b, n, x);
    PowPowAs(q, k, a, y);
    PowMonotone(q, x, y);
  }

  lemma DivModSum(v: nat, base: nat)
    requires base > 0
    ensures v == v / base * base + v % base
  {
  }
}
