/** The arithmetic of AES as section 4 of FIPS 197 defines it, and the tables of the library against it
    (libraries/aes/aes.c:80-120, 300-321): the substitution is the affine image of the inverse, a column is
    mixed by the constants 2, 3, 1 and 1, and the round constants are the powers of x. */
module AesSubstitution {
  import opened Bytes
  import opened Aes
  import opened AesTables
  import opened AesField
  import opened AesMessage

  // ----- The substitution -----

  function Times1(y: bv8, x: bv8): (z: bv8)
  {
    if y & 1 == 1 then x else 0
  }

  /** The product of two bytes: doublings of the first, added as the bits of the second select them. */
  function Times(x: bv8, y: bv8): (z: bv8)
  {
    var x1 := Xtime(x);
    var x2 := Xtime(x1);
    var x3 := Xtime(x2);
    var x4 := Xtime(x3);
    var x5 := Xtime(x4);
    var x6 := Xtime(x5);
    Times1(y, x) ^ Times1(y >> 1, x1) ^ Times1(y >> 2, x2) ^ Times1(y >> 3, x3) ^ Times1(y >> 4, x4)
    ^ Times1(y >> 5, x5) ^ Times1(y >> 6, x6) ^ Times1(y >> 7, Xtime(x6))
  }

  /** Doubling reduces by x^8 + x^4 + x^3 + x + 1. */
  lemma DoublingReduces(x: bv8)
    ensures Xtime(x) as bv16 == if x < 0x80 then (x as bv16) << 1 else ((x as bv16) << 1) ^ 0x11b
  {
  }

  /** A byte added to its four rotations to the left and to 63. */
  function Affine(y: bv8): (z: bv8)
  {
    y ^ ((y << 1) | (y >> 7)) ^ ((y << 2) | (y >> 6)) ^ ((y << 3) | (y >> 5)) ^ ((y << 4) | (y >> 4)) ^ 0x63
  }

  function Unaffine(z: bv8): (y: bv8)
  {
    ((z << 1) | (z >> 7)) ^ ((z << 3) | (z >> 5)) ^ ((z << 6) | (z >> 2)) ^ 0x05
  }

  lemma AffineUnaffine(z: bv8)
    ensures Affine(Unaffine(z)) == z
  {
  }

  /** `y` is the inverse of `x`, or both are zero. */
  predicate Inverses(x: bv8, y: bv8)
  {
    if x == 0 then y == 0 else Times(x, y) == 1
  }

  lemma FirstEighth(x: bv8)
    requires x < 0x20
    ensures Inverses(x, Unaffine(Sbox(x)))
  {
  }

  lemma SecondEighth(x: bv8)
    requires 0x20 <= x < 0x40
    ensures Inverses(x, Unaffine(Sbox(x)))
  {
  }

  lemma ThirdEighth(x: bv8)
    requires 0x40 <= x < 0x60
    ensures Inverses(x, Unaffine(Sbox(x)))
  {
  }

  lemma FourthEighth(x: bv8)
    requires 0x60 <= x < 0x80
    ensures Inverses(x, Unaffine(Sbox(x)))
  {
  }

  lemma FifthEighth(x: bv8)
    requires 0x80 <= x < 0xa0
    ensures Inverses(x, Unaffine(Sbox(x)))
  {
  }

  lemma SixthEighth(x: bv8)
    requires 0xa0 <= x < 0xc0
    ensures Inverses(x, Unaffine(Sbox(x)))
  {
  }

  lemma SeventhEighth(x: bv8)
    requires 0xc0 <= x < 0xe0
    ensures Inverses(x, Unaffine(Sbox(x)))
  {
  }

  lemma LastEighth(x: bv8)
    requires 0xe0 <= x
    ensures Inverses(x, Unaffine(Sbox(x)))
  {
  }

  lemma AllEighths(x: bv8, y: bv8)
    requires y == Unaffine(Sbox(x))
    ensures Inverses(x, y)
  {
    if x < 0x20 {
      FirstEighth(x);
    } else if x < 0x40 {
      SecondEighth(x);
    } else if x < 0x60 {
      ThirdEighth(x);
    } else if x < 0x80 {
      FourthEighth(x);
    } else if x < 0xa0 {
      FifthEighth(x);
    } else if x < 0xc0 {
      SixthEighth(x);
    } else if x < 0xe0 {
      SeventhEighth(x);
    } else {
      LastEighth(x);
    }
  }

  /** Every entry of the table is the affine image of the inverse of its place. */
  lemma SboxIsAffineInverse(x: bv8) returns (y: bv8)
    ensures Inverses(x, y) && Sbox(x) == Affine(y)
  {
    y := Unaffine(Sbox(x));
    AllEighths(x, y);
    AffineUnaffine(Sbox(x));
  }

  // ----- Mixing -----

  /** Twice the first, three times the second, and the other two. */
  function Row<V>(f: Field<V>, a: V, b: V, c: V, d: V): (y: V)
  {
    f.xor(f.xor(f.xor(f.xtime(a), f.xor(f.xtime(b), b)), c), d)
  }

  /** One byte of the column, from the sum of all four. */
  function Mixed<V>(f: Field<V>, a: V, b: V, all: V): (y: V)
  {
    f.xor(a, f.xor(f.xtime(f.xor(a, b)), all))
  }

  lemma Associates<V(!new)>(f: Field<V>, o: V, x: V, y: V, z: V)
    requires Regroups(f) && Cancels(f, o)
    ensures f.xor(f.xor(x, y), z) == f.xor(x, f.xor(y, z))
  {
    assert Four(f, x, y, o, z) == Four(f, x, o, y, z);
  }

  lemma Commutes<V(!new)>(f: Field<V>, o: V, x: V, y: V)
    requires Regroups(f) && Cancels(f, o)
    ensures f.xor(x, y) == f.xor(y, x)
  {
    assert Four(f, o, x, y, o) == Four(f, o, y, x, o);
  }

  /** A byte added to a sum of four of which it is the first. */
  lemma FirstLeaves<V(!new)>(f: Field<V>, o: V, a: V, b: V, c: V, d: V)
    requires Regroups(f) && Cancels(f, o)
    ensures f.xor(a, f.xor(f.xor(f.xor(a, b), c), d)) == f.xor(f.xor(b, c), d)
  {
    var ab := f.xor(a, b);
    Associates(f, o, a, f.xor(ab, c), d);
    Associates(f, o, a, ab, c);
    Associates(f, o, a, a, b);
    assert f.xor(a, a) == o && f.xor(o, b) == b;
  }

  lemma Collected<V(!new)>(f: Field<V>, o: V, a: V, b: V, c: V, d: V, p: V, q: V, s: V)
    requires Regroups(f) && Cancels(f, o) && f.xor(a, s) == f.xor(f.xor(b, c), d)
    ensures f.xor(a, f.xor(f.xor(p, q), s)) == f.xor(f.xor(f.xor(p, f.xor(q, b)), c), d)
  {
    var pq, bc := f.xor(p, q), f.xor(b, c);
    Associates(f, o, a, pq, s);
    Commutes(f, o, a, pq);
    Associates(f, o, pq, a, s);
    Associates(f, o, pq, bc, d);
    Associates(f, o, pq, b, c);
    Associates(f, o, p, q, b);
  }

  lemma MixedRow<V(!new)>(f: Field<V>, o: V, a: V, b: V, c: V, d: V, all: V)
    requires Regroups(f) && Cancels(f, o) && Doubles(f) && all == f.xor(f.xor(f.xor(a, b), c), d)
    ensures Mixed(f, a, b, all) == Row(f, a, b, c, d)
  {
    FirstLeaves(f, o, a, b, c, d);
    Collected(f, o, a, b, c, d, f.xtime(a), f.xtime(b), all);
    assert f.xtime(f.xor(a, b)) == f.xor(f.xtime(a), f.xtime(b));
  }

  lemma Around<V(!new)>(f: Field<V>, o: V, a: V, b: V, c: V, d: V)
    requires Regroups(f) && Cancels(f, o)
    ensures f.xor(f.xor(f.xor(a, b), c), d) == f.xor(f.xor(f.xor(b, c), d), a)
  {
    var bcd := f.xor(f.xor(b, c), d);
    Associates(f, o, a, b, c);
    Associates(f, o, a, f.xor(b, c), d);
    Commutes(f, o, a, bcd);
  }

  lemma MixedRows<V>(f: Field<V>, x: Col<V>, all: V)
    requires all == f.xor(f.xor(f.xor(x.a, x.b), x.c), x.d)
    ensures MixCol(f, x) == Col(Mixed(f, x.a, x.b, all), Mixed(f, x.b, x.c, all), Mixed(f, x.c, x.d, all), Mixed(f, x.d, x.a, all))
  {
  }

  /** Each byte of a mixed column is twice its own, three times the next and once the other two, around. */
  lemma RowsOf<V(!new)>(f: Field<V>, o: V, x: Col<V>)
    requires Regroups(f) && Cancels(f, o) && Doubles(f)
    ensures MixCol(f, x) == Col(Row(f, x.a, x.b, x.c, x.d), Row(f, x.b, x.c, x.d, x.a), Row(f, x.c, x.d, x.a, x.b), Row(f, x.d, x.a, x.b, x.c))
  {
    var all := f.xor(f.xor(f.xor(x.a, x.b), x.c), x.d);
    MixedRows(f, x, all);
    Around(f, o, x.a, x.b, x.c, x.d);
    Around(f, o, x.b, x.c, x.d, x.a);
    Around(f, o, x.c, x.d, x.a, x.b);
    MixedRow(f, o, x.a, x.b, x.c, x.d, all);
    MixedRow(f, o, x.b, x.c, x.d, x.a, all);
    MixedRow(f, o, x.c, x.d, x.a, x.b, all);
    MixedRow(f, o, x.d, x.a, x.b, x.c, all);
  }

  lemma MixedByConstants(f: Field<bv8>, x: Col<bv8>)
    requires f == GF
    ensures MixCol(f, x) == Col(Row(f, x.a, x.b, x.c, x.d), Row(f, x.b, x.c, x.d, x.a), Row(f, x.c, x.d, x.a, x.b), Row(f, x.d, x.a, x.b, x.c))
  {
    GFDoubles(f);
    GFRegroups(f);
    GFCancels(f);
    RowsOf(f, 0, x);
  }

  // ----- The round constants -----

  /** The table of the library; what lies behind it is never read. */
  function Rcon(i: nat): (r: bv8)
  {
    if i == 0 then 0x8d else if i == 1 then 0x01 else if i == 2 then 0x02 else if i == 3 then 0x04 else if i == 4 then 0x08
    else if i == 5 then 0x10 else if i == 6 then 0x20 else if i == 7 then 0x40 else if i == 8 then 0x80 else if i == 9 then 0x1b
    else if i == 10 then 0x36 else 0
  }

  lemma RconDoubles(i: nat)
    requires i < 10
    ensures Rcon(1) == 1 && Rcon(i + 1) == Xtime(Rcon(i))
  {
  }

  /** With these tables and constants, and whatever SHA-256 computes, messages come back. */
  lemma LibraryUsable(sha256: seq<bv8> -> seq<bv8>)
    requires forall s :: |sha256(s)| == 32
    ensures Usable(Suite(AES, GF, Rcon, sha256))
  {
    AesUsable(Rcon, sha256);
  }
}
