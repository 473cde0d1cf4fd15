/** Ordering the signatures of a witness stack by the keys they verify under (code/Transaction.c:763-808). */
module Signatures {
  import opened Bytes

  /** Does a signature verify under a key, for the digest at hand. */
  type Verify = (bytes, Option<bytes>) -> bool

  datatype Split = Split(taken: seq<bytes>, left: seq<bytes>)

  // ----- What the loops do -----

  /** One key: every signature that verifies is taken, but the one behind it is passed over, because the
      index moves on although the list has closed up. */
  function Pass(v: Verify, pub: Option<bytes>, sigs: seq<bytes>): (r: Split)
  {
    if sigs == [] then Split([], [])
    else if v(sigs[0], pub) then
      if |sigs| == 1 then Split([sigs[0]], [])
      else
        var r := Pass(v, pub, sigs[2..]);
        Split([sigs[0]] + r.taken, [sigs[1]] + r.left)
    else
      var r := Pass(v, pub, sigs[1..]);
      Split(r.taken, [sigs[0]] + r.left)
  }

  /** All keys, in order. */
  function Passes(v: Verify, pubs: seq<Option<bytes>>, sigs: seq<bytes>): (r: Split)
  {
    if pubs == [] then Split([], sigs) else
    var p := Pass(v, pubs[0], sigs);
    var r := Passes(v, pubs[1..], p.left);
    Split(p.taken + r.taken, r.left)
  }

  predicate Conserves(r: Split, sigs: seq<bytes>)
  {
    multiset(r.taken) + multiset(r.left) == multiset(sigs) && |r.taken| + |r.left| == |sigs|
  }

  lemma ConservesTwo(x: bytes, y: bytes, r: Split, rest: seq<bytes>, all: seq<bytes>)
    requires Conserves(r, rest) && all == [x] + [y] + rest
    ensures Conserves(Split([x] + r.taken, [y] + r.left), all)
  {
  }

  lemma ConservesOne(x: bytes, r: Split, rest: seq<bytes>, all: seq<bytes>)
    requires Conserves(r, rest) && all == [x] + rest
    ensures Conserves(Split(r.taken, [x] + r.left), all)
  {
  }

  /** Signatures are neither lost nor made up, whatever verifies. */
  lemma {:induction false} PassConserves(v: Verify, pub: Option<bytes>, sigs: seq<bytes>)
    ensures Conserves(Pass(v, pub, sigs), sigs)
    decreases |sigs|
  {
    if |sigs| > 1 && v(sigs[0], pub) {
      assert sigs == [sigs[0]] + [sigs[1]] + sigs[2..];
      PassConserves(v, pub, sigs[2..]);
      ConservesTwo(sigs[0], sigs[1], Pass(v, pub, sigs[2..]), sigs[2..], sigs);
    } else if sigs != [] && !v(sigs[0], pub) {
      assert sigs == [sigs[0]] + sigs[1..];
      PassConserves(v, pub, sigs[1..]);
      ConservesOne(sigs[0], Pass(v, pub, sigs[1..]), sigs[1..], sigs);
    } else if sigs != [] {
      assert sigs == [sigs[0]];
    }
  }

  lemma {:induction false} PassesConserve(v: Verify, pubs: seq<Option<bytes>>, sigs: seq<bytes>)
    ensures Conserves(Passes(v, pubs, sigs), sigs)
    decreases |pubs|
  {
    if pubs != [] {
      PassConserves(v, pubs[0], sigs);
      PassesConserve(v, pubs[1..], Pass(v, pubs[0], sigs).left);
    }
  }

  /** The inner loop, with removal in place. */
  method OnePass(v: Verify, pub: Option<bytes>, signatures0: seq<bytes>, newStack0: seq<bytes>)
    returns (signatures: seq<bytes>, newStack: seq<bytes>)
    ensures var r := Pass(v, pub, signatures0);
      signatures == r.left && newStack == newStack0 + r.taken
  {
    signatures, newStack := signatures0, newStack0;
    ghost var front: seq<bytes>, rest := [], signatures0;
    ghost var all := Split(newStack0 + Pass(v, pub, signatures0).taken, Pass(v, pub, signatures0).left);
    var k := 0;
    while k < |signatures|
      invariant k == |front| && signatures == front + rest && Ahead(v, pub, all, newStack, front, rest)
      decreases |rest|
    {
      assert signatures[k] == rest[0];
      if v(signatures[k], pub) {
        newStack := newStack + [signatures[k]];
        signatures := signatures[..k] + signatures[k + 1..];
        if k == |signatures| {
          TakeLast(v, pub, all, newStack, front, rest);
          rest := [];
          break;
        }
        TakeOne(v, pub, all, newStack, front, rest);
        front, rest := front + [rest[1]], rest[2..];
      } else {
        KeepOne(v, pub, all, newStack, front, rest);
        front, rest := front + [rest[0]], rest[1..];
      }
      k := k + 1;
    }
  }

  /** What the rest of the pass will add to the two lists. */
  ghost predicate Ahead(v: Verify, pub: Option<bytes>, all: Split, taken: seq<bytes>, front: seq<bytes>, rest: seq<bytes>)
  {
    var r := Pass(v, pub, rest);
    all.taken == taken + r.taken && all.left == front + r.left
  }

  lemma TakeLast(v: Verify, pub: Option<bytes>, all: Split, taken: seq<bytes>, front: seq<bytes>, rest: seq<bytes>)
    requires |rest| == 1 && v(rest[0], pub) && taken != [] && taken[|taken| - 1] == rest[0]
    requires Ahead(v, pub, all, taken[..|taken| - 1], front, rest)
    ensures Ahead(v, pub, all, taken, front, [])
  {
    assert taken == taken[..|taken| - 1] + [rest[0]];
  }

  lemma TakeOne(v: Verify, pub: Option<bytes>, all: Split, taken: seq<bytes>, front: seq<bytes>, rest: seq<bytes>)
    requires |rest| > 1 && v(rest[0], pub) && taken != [] && taken[|taken| - 1] == rest[0]
    requires Ahead(v, pub, all, taken[..|taken| - 1], front, rest)
    ensures Ahead(v, pub, all, taken, front + [rest[1]], rest[2..])
  {
    var r := Pass(v, pub, rest[2..]);
    Regroup(taken[..|taken| - 1], rest[0], r.taken);
    Regroup(front, rest[1], r.left);
    assert taken == taken[..|taken| - 1] + [rest[0]];
  }

  lemma KeepOne(v: Verify, pub: Option<bytes>, all: Split, taken: seq<bytes>, front: seq<bytes>, rest: seq<bytes>)
    requires rest != [] && !v(rest[0], pub) && Ahead(v, pub, all, taken, front, rest)
    ensures Ahead(v, pub, all, taken, front + [rest[0]], rest[1..])
  {
    Regroup(front, rest[0], Pass(v, pub, rest[1..]).left);
  }

  lemma Regroup(a: seq<bytes>, x: bytes, b: seq<bytes>)
    ensures a + ([x] + b) == (a + [x]) + b
  {
  }

  // ----- What they are meant to do -----

  function Matching(v: Verify, pub: Option<bytes>, sigs: seq<bytes>): (r: seq<bytes>)
  {
    if sigs == [] then [] else (if v(sigs[0], pub) then [sigs[0]] else []) + Matching(v, pub, sigs[1..])
  }

  function Others(v: Verify, pub: Option<bytes>, sigs: seq<bytes>): (r: seq<bytes>)
  {
    if sigs == [] then [] else (if v(sigs[0], pub) then [] else [sigs[0]]) + Others(v, pub, sigs[1..])
  }

  /** Key by key, the signatures that verify under it. */
  function InKeyOrder(v: Verify, pubs: seq<Option<bytes>>, sigs: seq<bytes>): (r: seq<bytes>)
  {
    if pubs == [] then [] else Matching(v, pubs[0], sigs) + InKeyOrder(v, pubs[1..], sigs)
  }

  /** At most one signature for the key. */
  predicate Single(v: Verify, pub: Option<bytes>, sigs: seq<bytes>)
  {
    forall i, j :: 0 <= i < j < |sigs| ==> !(v(sigs[i], pub) && v(sigs[j], pub))
  }

  /** No signature verifies under two keys of the list. */
  predicate Apart(v: Verify, pubs: seq<Option<bytes>>, s: bytes)
  {
    forall i, j :: 0 <= i < j < |pubs| ==> !(v(s, pubs[i]) && v(s, pubs[j]))
  }

  lemma {:induction false} NoneMatching(v: Verify, pub: Option<bytes>, sigs: seq<bytes>)
    requires forall i :: 0 <= i < |sigs| ==> !v(sigs[i], pub)
    ensures Pass(v, pub, sigs) == Split([], sigs) && Matching(v, pub, sigs) == [] && Others(v, pub, sigs) == sigs
  {
    if sigs != [] {
      NoneMatching(v, pub, sigs[1..]);
      assert sigs == [sigs[0]] + sigs[1..];
    }
  }

  /** No two neighbours verify under the key. */
  predicate Scattered(v: Verify, pub: Option<bytes>, sigs: seq<bytes>)
  {
    forall i :: 0 < i < |sigs| ==> !(v(sigs[i - 1], pub) && v(sigs[i], pub))
  }

  lemma {:induction false} OthersFail(v: Verify, pub: Option<bytes>, sigs: seq<bytes>)
    ensures forall k :: 0 <= k < |Others(v, pub, sigs)| ==> !v(Others(v, pub, sigs)[k], pub)
  {
    if sigs != [] {
      OthersFail(v, pub, sigs[1..]);
    }
  }

  lemma ScatteredRest(v: Verify, pub: Option<bytes>, sigs: seq<bytes>)
    requires |sigs| >= 2
    ensures Scattered(v, pub, sigs) <==> !(v(sigs[0], pub) && v(sigs[1], pub)) && Scattered(v, pub, sigs[1..])
  {
    var rest := sigs[1..];
    assert forall i :: 0 < i < |rest| ==> rest[i - 1] == sigs[i] && rest[i] == sigs[i + 1];
    if !(v(sigs[0], pub) && v(sigs[1], pub)) && Scattered(v, pub, rest) {
      forall i | 0 < i < |sigs| ensures !(v(sigs[i - 1], pub) && v(sigs[i], pub)) {
        if i > 1 {
          assert sigs[i - 1] == rest[i - 2] && sigs[i] == rest[i - 1];
        }
      }
    }
  }

  lemma ConsCancel(x: bytes, a: seq<bytes>, b: seq<bytes>)
    ensures [x] + a == [x] + b <==> a == b
  {
    assert ([x] + a)[1..] == a && ([x] + b)[1..] == b;
  }

  /** The pass takes what verifies and leaves the rest, both in their order. */
  predicate Clean(v: Verify, pub: Option<bytes>, sigs: seq<bytes>)
  {
    Pass(v, pub, sigs) == Split(Matching(v, pub, sigs), Others(v, pub, sigs))
  }

  lemma CleanAfterOther(v: Verify, pub: Option<bytes>, sigs: seq<bytes>)
    requires sigs != [] && !v(sigs[0], pub)
    ensures Clean(v, pub, sigs) <==> Clean(v, pub, sigs[1..])
  {
    ConsCancel(sigs[0], Pass(v, pub, sigs[1..]).left, Others(v, pub, sigs[1..]));
  }

  lemma CleanAfterMatch(v: Verify, pub: Option<bytes>, sigs: seq<bytes>, rest: seq<bytes>)
    requires |sigs| >= 2 && v(sigs[0], pub) && !v(sigs[1], pub) && rest == sigs[2..]
    ensures Clean(v, pub, sigs) <==> Clean(v, pub, rest)
  {
    assert sigs[1..][1..] == rest;
    assert Matching(v, pub, sigs) == [sigs[0]] + Matching(v, pub, rest);
    assert Others(v, pub, sigs) == [sigs[1]] + Others(v, pub, rest);
    ConsCancel(sigs[0], Pass(v, pub, rest).taken, Matching(v, pub, rest));
    ConsCancel(sigs[1], Pass(v, pub, rest).left, Others(v, pub, rest));
  }

  lemma NotClean(v: Verify, pub: Option<bytes>, sigs: seq<bytes>)
    requires |sigs| >= 2 && v(sigs[0], pub) && v(sigs[1], pub)
    ensures !Clean(v, pub, sigs)
  {
    OthersFail(v, pub, sigs);
    assert Pass(v, pub, sigs).left[0] == sigs[1];
  }

  /** Passing over the neighbour of a match does no harm exactly if that neighbour never matches. */
  lemma {:induction false} PassIffScattered(v: Verify, pub: Option<bytes>, sigs: seq<bytes>)
    ensures Clean(v, pub, sigs) <==> Scattered(v, pub, sigs)
    decreases |sigs|
  {
    if |sigs| >= 2 {
      var rest := sigs[1..];
      ScatteredRest(v, pub, sigs);
      if !v(sigs[0], pub) {
        CleanAfterOther(v, pub, sigs);
        PassIffScattered(v, pub, rest);
      } else if v(sigs[1], pub) {
        NotClean(v, pub, sigs);
      } else {
        assert rest[1..] == sigs[2..];
        CleanAfterMatch(v, pub, sigs, sigs[2..]);
        PassIffScattered(v, pub, sigs[2..]);
        if |rest| >= 2 {
          ScatteredRest(v, pub, rest);
        }
      }
    } else {
      CleanShort(v, pub, sigs);
    }
  }

  lemma CleanShort(v: Verify, pub: Option<bytes>, sigs: seq<bytes>)
    requires |sigs| <= 1
    ensures Clean(v, pub, sigs)
  {
    if sigs != [] {
      assert sigs[1..] == [];
    }
  }

  /** Two neighbours that verify under one key: the second is left over. */
  lemma NeighbourLeft(v: Verify, pub: Option<bytes>, a: bytes, b: bytes)
    requires v(a, pub) && v(b, pub)
    ensures Pass(v, pub, [a, b]) == Split([a], [b])
  {
    assert [a, b][2..] == [];
  }

  /** With at most one match there are no such neighbours. */
  lemma PassIsMatching(v: Verify, pub: Option<bytes>, sigs: seq<bytes>)
    requires Single(v, pub, sigs)
    ensures Pass(v, pub, sigs) == Split(Matching(v, pub, sigs), Others(v, pub, sigs))
  {
    PassIffScattered(v, pub, sigs);
  }

  lemma {:induction false} MatchingOthers(v: Verify, p: Option<bytes>, q: Option<bytes>, sigs: seq<bytes>)
    requires forall i :: 0 <= i < |sigs| ==> !(v(sigs[i], p) && v(sigs[i], q))
    ensures Matching(v, q, Others(v, p, sigs)) == Matching(v, q, sigs)
  {
    if sigs != [] {
      MatchingOthers(v, p, q, sigs[1..]);
      var o := Others(v, p, sigs[1..]);
      if !v(sigs[0], p) {
        assert ([sigs[0]] + o)[0] == sigs[0] && ([sigs[0]] + o)[1..] == o;
      } else {
        assert Others(v, p, sigs) == [] + o == o && !v(sigs[0], q);
      }
    }
  }

  lemma {:induction false} OrderOthers(v: Verify, p: Option<bytes>, pubs: seq<Option<bytes>>, sigs: seq<bytes>)
    requires forall i, j :: 0 <= i < |sigs| && 0 <= j < |pubs| ==> !(v(sigs[i], p) && v(sigs[i], pubs[j]))
    ensures InKeyOrder(v, pubs, Others(v, p, sigs)) == InKeyOrder(v, pubs, sigs)
  {
    if pubs != [] {
      MatchingOthers(v, p, pubs[0], sigs);
      OrderOthers(v, p, pubs[1..], sigs);
    }
  }

  lemma {:induction false} OthersWithin(v: Verify, p: Option<bytes>, sigs: seq<bytes>)
    ensures forall s :: s in Others(v, p, sigs) ==> s in sigs && !v(s, p)
    ensures forall s :: s in sigs && !v(s, p) ==> s in Others(v, p, sigs)
  {
    if sigs != [] {
      OthersWithin(v, p, sigs[1..]);
    }
  }

  lemma {:induction false} OthersSingle(v: Verify, p: Option<bytes>, q: Option<bytes>, sigs: seq<bytes>)
    requires Single(v, q, sigs)
    ensures Single(v, q, Others(v, p, sigs))
  {
    if sigs != [] {
      var rest := sigs[1..];
      assert Single(v, q, rest) by {
        forall i, j | 0 <= i < j < |rest| ensures !(v(rest[i], q) && v(rest[j], q)) {
          assert rest[i] == sigs[i + 1] && rest[j] == sigs[j + 1];
        }
      }
      OthersSingle(v, p, q, rest);
      var o := Others(v, p, rest);
      if !v(sigs[0], p) {
        OthersWithin(v, p, rest);
        SingleCons(v, q, sigs, o);
      }
    }
  }

  lemma SingleCons(v: Verify, q: Option<bytes>, sigs: seq<bytes>, o: seq<bytes>)
    requires sigs != [] && Single(v, q, sigs) && Single(v, q, o) && forall s :: s in o ==> s in sigs[1..]
    ensures Single(v, q, [sigs[0]] + o)
  {
    var r := [sigs[0]] + o;
    forall i, j | 0 <= i < j < |r| ensures !(v(r[i], q) && v(r[j], q)) {
      assert r[j] == o[j - 1] && o[j - 1] in sigs[1..];
      var k :| 0 <= k < |sigs[1..]| && sigs[1..][k] == r[j];
      assert sigs[k + 1] == r[j];
      if i > 0 {
        assert r[i] == o[i - 1];
      }
    }
  }

  /** One signature per key, one key per signature. */
  predicate Matched(v: Verify, pubs: seq<Option<bytes>>, sigs: seq<bytes>)
  {
    && (forall i :: 0 <= i < |pubs| ==> Single(v, pubs[i], sigs))
    && (forall i :: 0 <= i < |sigs| ==> Apart(v, pubs, sigs[i]))
  }

  lemma MatchedRest(v: Verify, pubs: seq<Option<bytes>>, sigs: seq<bytes>, o: seq<bytes>)
    requires pubs != [] && Matched(v, pubs, sigs) && o == Others(v, pubs[0], sigs)
    ensures Matched(v, pubs[1..], o)
  {
    OthersWithin(v, pubs[0], sigs);
    forall i | 0 <= i < |pubs[1..]| ensures Single(v, pubs[1..][i], o) {
      OthersSingle(v, pubs[0], pubs[i + 1], sigs);
    }
    forall i | 0 <= i < |o| ensures Apart(v, pubs[1..], o[i]) {
      assert o[i] in sigs;
      var k :| 0 <= k < |sigs| && sigs[k] == o[i];
      assert Apart(v, pubs, sigs[k]);
      forall a, b | 0 <= a < b < |pubs[1..]| ensures !(v(o[i], pubs[1..][a]) && v(o[i], pubs[1..][b])) {
        assert pubs[1..][a] == pubs[a + 1] && pubs[1..][b] == pubs[b + 1];
      }
    }
  }

  lemma ApartFirst(v: Verify, pubs: seq<Option<bytes>>, sigs: seq<bytes>)
    requires pubs != [] && forall i :: 0 <= i < |sigs| ==> Apart(v, pubs, sigs[i])
    ensures forall i, j :: 0 <= i < |sigs| && 0 <= j < |pubs[1..]| ==> !(v(sigs[i], pubs[0]) && v(sigs[i], pubs[1..][j]))
  {
    forall i, j | 0 <= i < |sigs| && 0 <= j < |pubs[1..]| ensures !(v(sigs[i], pubs[0]) && v(sigs[i], pubs[1..][j])) {
      assert Apart(v, pubs, sigs[i]) && pubs[1..][j] == pubs[j + 1];
    }
  }

  /** Then the loops put the signatures in key order. */
  lemma {:induction false} PassesInOrder(v: Verify, pubs: seq<Option<bytes>>, sigs: seq<bytes>)
    requires Matched(v, pubs, sigs)
    ensures Passes(v, pubs, sigs).taken == InKeyOrder(v, pubs, sigs)
    decreases |pubs|
  {
    if pubs != [] {
      var o := Others(v, pubs[0], sigs);
      PassIsMatching(v, pubs[0], sigs);
      MatchedRest(v, pubs, sigs, o);
      PassesInOrder(v, pubs[1..], o);
      ApartFirst(v, pubs, sigs);
      OrderOthers(v, pubs[0], pubs[1..], sigs);
    }
  }

  /** Every signature verifies under some key of the list. */
  predicate Covered(v: Verify, pubs: seq<Option<bytes>>, sigs: seq<bytes>)
  {
    forall s :: s in sigs ==> exists i :: 0 <= i < |pubs| && v(s, pubs[i])
  }

  lemma CoveredRest(v: Verify, pubs: seq<Option<bytes>>, sigs: seq<bytes>, o: seq<bytes>)
    requires pubs != [] && Covered(v, pubs, sigs) && o == Others(v, pubs[0], sigs)
    ensures Covered(v, pubs[1..], o)
  {
    OthersWithin(v, pubs[0], sigs);
    forall s | s in o ensures exists i :: 0 <= i < |pubs[1..]| && v(s, pubs[1..][i]) {
      var i :| 0 <= i < |pubs| && v(s, pubs[i]);
      assert i > 0 && pubs[1..][i - 1] == pubs[i];
    }
  }

  lemma CoveredByNone(v: Verify, pubs: seq<Option<bytes>>, sigs: seq<bytes>)
    requires Covered(v, pubs, sigs) && pubs == []
    ensures sigs == []
  {
    HasFirst(sigs);
  }

  lemma HasFirst(sigs: seq<bytes>)
    ensures sigs != [] ==> exists s :: s in sigs
  {
    if sigs != [] {
      assert sigs[0] in sigs;
    }
  }

  /** And none is left over. */
  lemma {:induction false} PassesTakeAll(v: Verify, pubs: seq<Option<bytes>>, sigs: seq<bytes>)
    requires Matched(v, pubs, sigs) && Covered(v, pubs, sigs)
    ensures Passes(v, pubs, sigs).left == []
    decreases |pubs|
  {
    if pubs == [] {
      CoveredByNone(v, pubs, sigs);
    } else {
      var o := Others(v, pubs[0], sigs);
      PassIsMatching(v, pubs[0], sigs);
      MatchedRest(v, pubs, sigs, o);
      CoveredRest(v, pubs, sigs, o);
      PassesTakeAll(v, pubs[1..], o);
    }
  }
}
