/** The order of byte strings (code/Data.c:801-809) and sorting by it (code/Data.c:1067-1079). */
module DataOrder {
  import opened Bytes

  /** The sign of the first difference. */
  function Memcmp(a: bytes, b: bytes): (r: int)
    requires |a| == |b|
  {
    if a == [] then 0 else if a[0] != b[0] then a[0] - b[0] else Memcmp(a[1..], b[1..])
  }

  /** `DataCompare`; the difference of the two unsigned lengths is read as a signed number. */
  function DataCompare(a: bytes, b: bytes): (r: int)
    requires |a| < 0x1_0000_0000 && |b| < 0x1_0000_0000
  {
    var n := if |a| <= |b| then |a| else |b|;
    var r := Memcmp(a[..n], b[..n]);
    if |a| == |b| || r != 0 then r else
    Int32((|a| - |b|) % 0x1_0000_0000)
  }

  /** 32 bits read as a signed number. */
  function Int32(d: nat): (r: int)
    requires d < 0x1_0000_0000
  {
    if d < 0x8000_0000 then d else d - 0x1_0000_0000
  }

  /** Dictionary order: -1, 0 or 1. */
  function Lex(a: bytes, b: bytes): (r: int)
  {
    if a == [] && b == [] then 0
    else if a == [] then -1
    else if b == [] then 1
    else if a[0] < b[0] then -1
    else if a[0] > b[0] then 1
    else Lex(a[1..], b[1..])
  }

  function Sign(n: int): (r: int)
  {
    if n < 0 then -1 else if n > 0 then 1 else 0
  }

  predicate Small(a: bytes)
  {
    |a| < 0x8000_0000
  }

  lemma {:induction false} MemcmpIsLex(a: bytes, b: bytes, n: nat)
    requires n == if |a| <= |b| then |a| else |b|
    ensures Lex(a, b) == if Memcmp(a[..n], b[..n]) != 0 then Sign(Memcmp(a[..n], b[..n])) else if |a| == |b| then 0 else if |a| < |b| then -1 else 1
    decreases n
  {
    if n > 0 && a[0] == b[0] {
      MemcmpIsLex(a[1..], b[1..], n - 1);
      assert a[..n][1..] == a[1..][..n - 1] && b[..n][1..] == b[1..][..n - 1];
    }
  }

  lemma LengthSign(a: nat, b: nat)
    requires a < 0x1_0000_0000 && b < 0x1_0000_0000 && a != b
    ensures Sign(Int32((a - b) % 0x1_0000_0000)) == (if a < b then -1 else 1) <==> a - b < 0x8000_0000 && b - a <= 0x8000_0000
  {
    assert (a - b) % 0x1_0000_0000 == if a < b then a - b + 0x1_0000_0000 else a - b;
  }

  /** The comparison has the sign of the dictionary order exactly if the common front decides, or the
      lengths differ by so little that the difference keeps its sign in 32 bits. */
  lemma CompareIsLexIff(a: bytes, b: bytes, n: nat)
    requires |a| < 0x1_0000_0000 && |b| < 0x1_0000_0000 && n == if |a| <= |b| then |a| else |b|
    ensures Sign(DataCompare(a, b)) == Lex(a, b) <==>
            Memcmp(a[..n], b[..n]) != 0 || (|a| - |b| < 0x8000_0000 && |b| - |a| <= 0x8000_0000)
  {
    MemcmpIsLex(a, b, n);
    if |a| != |b| {
      LengthSign(|a|, |b|);
    }
  }

  /** Below 2 GiB it always has. */
  lemma CompareIsLex(a: bytes, b: bytes)
    requires Small(a) && Small(b)
    ensures Sign(DataCompare(a, b)) == Lex(a, b)
  {
    CompareIsLexIff(a, b, if |a| <= |b| then |a| else |b|);
  }

  /** The empty key counts as greater than one of 2 GiB and a byte. */
  lemma EmptyKeyMisplaced(b: bytes)
    requires |b| == 0x8000_0001
    ensures DataCompare([], b) > 0 && Lex([], b) < 0
  {
    CompareIsLexIff([], b, 0);
    assert [][..0] == b[..0];
  }

  /** The order is total. */
  lemma {:induction false} LexTotal(a: bytes, b: bytes)
    ensures Lex(a, b) == -Lex(b, a) && (Lex(a, b) == 0 <==> a == b)
  {
    if a != [] && b != [] {
      LexTotal(a[1..], b[1..]);
      assert a == [a[0]] + a[1..] && b == [b[0]] + b[1..];
    }
  }

  lemma {:induction false} LexTransitive(a: bytes, b: bytes, c: bytes)
    requires Lex(a, b) < 0 && Lex(b, c) <= 0
    ensures Lex(a, c) < 0
  {
    if a != [] && b != [] && c != [] && a[0] == b[0] == c[0] {
      LexTransitive(a[1..], b[1..], c[1..]);
    }
  }

  /** The first difference decides, and a string comes after its beginnings. */
  lemma {:induction false} FirstDifference(a: bytes, b: bytes, n: nat)
    requires n <= |a| && n <= |b| && a[..n] == b[..n]
    ensures n < |a| && n < |b| && a[n] < b[n] ==> Lex(a, b) == -1
    ensures n == |a| < |b| ==> Lex(a, b) == -1
    decreases n
  {
    if n > 0 {
      assert a[0] == a[..n][0] == b[..n][0] == b[0];
      assert a[1..][..n - 1] == a[..n][1..] && b[1..][..n - 1] == b[..n][1..];
      FirstDifference(a[1..], b[1..], n - 1);
    }
  }

  predicate Less(a: bytes, b: bytes)
  {
    Lex(a, b) < 0
  }

  /** The next entry that a `bsearch` looks at may be any of the range that is left. */
  method Probe(l: nat, u: nat) returns (i: nat)
    requires l < u
    ensures l <= i < u
  {
    i := *;
    if !(l <= i < u) {
      i := l;
    }
  }

  // ----- Sorting -----

  predicate Ascending(ks: seq<bytes>)
  {
    forall i, j :: 0 <= i < j < |ks| ==> Lex(ks[i], ks[j]) <= 0
  }

  /** A key put in front of the first one that is not smaller. */
  function Inserted(k: bytes, ks: seq<bytes>): (r: seq<bytes>)
  {
    if ks == [] || Lex(k, ks[0]) <= 0 then [k] + ks else [ks[0]] + Inserted(k, ks[1..])
  }

  function SortKeys(ks: seq<bytes>): (r: seq<bytes>)
  {
    if ks == [] then [] else Inserted(ks[0], SortKeys(ks[1..]))
  }

  lemma {:induction false} InsertedKeeps(k: bytes, ks: seq<bytes>)
    ensures multiset(Inserted(k, ks)) == multiset{k} + multiset(ks) && |Inserted(k, ks)| == |ks| + 1
  {
    if ks != [] && Lex(k, ks[0]) > 0 {
      InsertedKeeps(k, ks[1..]);
      assert ks == [ks[0]] + ks[1..];
    }
  }

  lemma {:induction false} SortKeeps(ks: seq<bytes>)
    ensures multiset(SortKeys(ks)) == multiset(ks) && |SortKeys(ks)| == |ks|
  {
    if ks != [] {
      SortKeeps(ks[1..]);
      InsertedKeeps(ks[0], SortKeys(ks[1..]));
      assert ks == [ks[0]] + ks[1..];
    }
  }

  predicate Bounds(x: bytes, ks: seq<bytes>)
  {
    forall i :: 0 <= i < |ks| ==> Lex(x, ks[i]) <= 0
  }

  lemma LexAtMost(a: bytes, b: bytes, c: bytes)
    requires Lex(a, b) <= 0 && Lex(b, c) <= 0
    ensures Lex(a, c) <= 0
  {
    LexTotal(a, b);
    LexTotal(b, c);
    LexTotal(a, c);
    if Lex(a, b) < 0 {
      LexTransitive(a, b, c);
    }
  }

  lemma AscendingCons(x: bytes, ks: seq<bytes>)
    requires Ascending(ks) && Bounds(x, ks)
    ensures Ascending([x] + ks)
  {
    var r := [x] + ks;
    forall i, j | 0 <= i < j < |r| ensures Lex(r[i], r[j]) <= 0 {
      assert r[j] == ks[j - 1];
      if i > 0 {
        assert r[i] == ks[i - 1];
      }
    }
  }

  lemma AscendingTail(ks: seq<bytes>)
    requires ks != [] && Ascending(ks)
    ensures Ascending(ks[1..]) && Bounds(ks[0], ks[1..])
  {
    var r := ks[1..];
    forall i, j | 0 <= i < j < |r| ensures Lex(r[i], r[j]) <= 0 {
      assert r[i] == ks[i + 1] && r[j] == ks[j + 1];
    }
  }

  lemma {:induction false} InsertedBounds(x: bytes, k: bytes, ks: seq<bytes>)
    requires Bounds(x, ks) && Lex(x, k) <= 0
    ensures Bounds(x, Inserted(k, ks))
  {
    if ks != [] && Lex(k, ks[0]) > 0 {
      assert Bounds(x, ks[1..]);
      InsertedBounds(x, k, ks[1..]);
    }
  }

  lemma {:induction false} InsertedAscends(k: bytes, ks: seq<bytes>)
    requires Ascending(ks)
    ensures Ascending(Inserted(k, ks))
  {
    if ks != [] {
      AscendingTail(ks);
      if Lex(k, ks[0]) <= 0 {
        forall i | 0 <= i < |ks| ensures Lex(k, ks[i]) <= 0 {
          if i > 0 {
            assert ks[1..][i - 1] == ks[i];
            LexAtMost(k, ks[0], ks[i]);
          }
        }
        AscendingCons(k, ks);
      } else {
        InsertedAscends(k, ks[1..]);
        LexTotal(k, ks[0]);
        InsertedBounds(ks[0], k, ks[1..]);
        AscendingCons(ks[0], Inserted(k, ks[1..]));
      }
    }
  }

  /** The result is in order and has the same keys. */
  lemma {:induction false} SortAscends(ks: seq<bytes>)
    ensures Ascending(SortKeys(ks)) && multiset(SortKeys(ks)) == multiset(ks)
  {
    SortKeeps(ks);
    if ks != [] {
      SortAscends(ks[1..]);
      InsertedAscends(ks[0], SortKeys(ks[1..]));
    }
  }

  /** There is only one way to put keys in order. */
  lemma {:induction false} AscendingUnique(a: seq<bytes>, b: seq<bytes>)
    requires Ascending(a) && Ascending(b) && multiset(a) == multiset(b)
    ensures a == b
  {
    if a == [] {
      assert |multiset(b)| == |b|;
    } else {
      assert |multiset(a)| == |a| && |multiset(b)| == |b|;
      AscendingTail(a);
      AscendingTail(b);
      SameLeast(a, b);
      assert a == [a[0]] + a[1..] && b == [b[0]] + b[1..];
      assert multiset(a[1..]) == multiset(a) - multiset{a[0]} && multiset(b[1..]) == multiset(b) - multiset{b[0]};
      AscendingUnique(a[1..], b[1..]);
    }
  }

  lemma SameLeast(a: seq<bytes>, b: seq<bytes>)
    requires a != [] && b != [] && Ascending(a) && Ascending(b) && multiset(a) == multiset(b)
    ensures a[0] == b[0]
  {
    assert a[0] in multiset(b) && b[0] in multiset(a);
    var i :| 0 <= i < |b| && b[i] == a[0];
    var j :| 0 <= j < |a| && a[j] == b[0];
    LexTotal(a[0], a[0]);
    LexTotal(b[0], b[0]);
    LexTotal(a[0], b[0]);
  }
}
