/** The bytes of a vault script and the number of signatures that they ask for (code/BTCUtil.c:90-113, 1618-1644),
    and the order in which finalising leaves the signatures (code/Transaction.c:763-808). */
module VaultBytes {
  import opened Bytes
  import opened Script
  import opened ScriptKeys
  import opened Signatures
  import opened Finalize
  import opened Finalised = Vault
  import opened DataOrder

  // ----- Pushes -----

  /** `s` pushes `d`: up to 75 bytes behind their number, more of them behind an opcode and a number of one, two
      or four bytes. */
  predicate Pushed(d: bytes, s: bytes)
  {
    if |d| < 76 then s == [|d|] + d
    else if |d| < 0x100 then s == [0x4c, |d|] + d
    else if |d| < 0x1_0000 then |s| == |d| + 3 && s[0] == 0x4d && LittleValue(s[1..3]) == |d| && s[3..] == d
    else |s| == |d| + 5 && s[0] == 0x4e && LittleValue(s[1..5]) == |d| && s[5..] == d
  }

  lemma PushIsPushed(d: bytes)
    requires |d| < 0x1_0000_0000
    ensures Pushed(d, Push(d))
  {
    RangeValues();
    var s := Push(d);
    if |d| >= 0x1_0000 {
      LittleRoundTrip(|d|, 4);
      assert s[1..5] == Little(|d|, 4);
    } else if |d| >= 0x100 {
      LittleRoundTrip(|d|, 2);
      assert s[1..3] == Little(|d|, 2);
    }
  }

  lemma {:induction false} PushParts(keys: seq<bytes>) returns (parts: seq<bytes>)
    requires AllUsable(keys)
    ensures |parts| == |keys| && (forall k :: 0 <= k < |keys| ==> Pushed(keys[k], parts[k])) && Pushes(keys) == Concat(parts)
  {
    if keys == [] {
      parts := [];
    } else {
      PushIsPushed(keys[0]);
      var more := PushParts(keys[1..]);
      parts := [Push(keys[0])] + more;
      assert parts[1..] == more;
    }
  }

  // ----- The script -----

  /** The largest number of signatures that is at most two thirds of the members, and never none. */
  predicate TwoThirds(n: nat, m: nat)
  {
    if n < 2 then m == 1 else 3 * m <= 2 * n < 3 * m + 3
  }

  lemma QuorumIsTwoThirds(n: nat)
    ensures TwoThirds(n, Quorum(n))
  {
  }

  /** The master key and its check, the number of signatures, the member keys in order and their number, and
      the check of them. */
  lemma ScriptBytes(master: bytes, keys: seq<bytes>, data: bytes) returns (m: nat, first: bytes, parts: seq<bytes>)
    requires VaultKeys(master, keys) && VaultKeys(master, SortKeys(keys)) && data == Vault(master, SortKeys(keys))
    ensures 1 <= m <= 16 && TwoThirds(|keys|, m) && Pushed(master, first)
    ensures |parts| == |keys| == |SortKeys(keys)| && forall k :: 0 <= k < |keys| ==> Pushed(SortKeys(keys)[k], parts[k])
    ensures data == first + [0xad, 0x50 + m] + Concat(parts) + [0x50 + |keys|, 0xae]
  {
    SortKeeps(keys);
    SortedUsable(keys);
    m := Quorum(|keys|);
    first := Push(master);
    PushIsPushed(master);
    parts := PushParts(SortKeys(keys));
    Flattened(first, 0xad, 0x50 + m, Concat(parts), 0x50 + |keys|, 0xae);
  }

  lemma Flattened(a: bytes, b: byte, c: byte, d: bytes, e: byte, f: byte)
    ensures a + ([b] + ([c] + (d + ([e] + ([f] + []))))) == a + [b, c] + d + [e, f]
  {
  }

  /** Acceptance asks for two thirds. */
  lemma AcceptedByTwoThirds(w: Verify, v: Verify, master: bytes, keys: seq<bytes>, sigs: seq<bytes>, m: nat)
    requires VaultKeys(master, keys) && TwoThirds(|keys|, m)
    ensures Validates(w, v, sigs + [Vault(master, keys)]) <==>
            || (|sigs| == 1 && w(sigs[0], Some(Vault(master, keys))))
            || (SomeVerifies(v, Some(master), sigs) && Count(v, Somes(keys), sigs) == m)
  {
    QuorumIsTwoThirds(|keys|);
    VaultAcceptedIff(w, v, master, keys, sigs);
  }

  // ----- The order of the signatures -----

  lemma {:induction false} MatchingVerifies(v: Verify, pub: Option<bytes>, sigs: seq<bytes>)
    ensures forall k :: 0 <= k < |Matching(v, pub, sigs)| ==> v(Matching(v, pub, sigs)[k], pub)
  {
    if sigs != [] {
      MatchingVerifies(v, pub, sigs[1..]);
    }
  }

  lemma {:induction false} MatchingWithin(v: Verify, pub: Option<bytes>, sigs: seq<bytes>)
    ensures forall s :: s in Matching(v, pub, sigs) ==> s in sigs
  {
    if sigs != [] {
      MatchingWithin(v, pub, sigs[1..]);
    }
  }

  lemma {:induction false} OrderVerifies(v: Verify, pubs: seq<Option<bytes>>, sigs: seq<bytes>, s: bytes) returns (i: nat)
    requires s in InKeyOrder(v, pubs, sigs)
    ensures i < |pubs| && v(s, pubs[i]) && s in sigs
    decreases |pubs|
  {
    var first := Matching(v, pubs[0], sigs);
    if s in first {
      MatchingVerifies(v, pubs[0], sigs);
      MatchingWithin(v, pubs[0], sigs);
      i := 0;
    } else {
      var later := OrderVerifies(v, pubs[1..], sigs, s);
      i := later + 1;
    }
  }

  lemma {:induction false} NoneTwice(v: Verify, pub: Option<bytes>, sigs: seq<bytes>)
    requires Single(v, pub, sigs)
    ensures |Matching(v, pub, sigs)| <= 1
  {
    if sigs != [] {
      var rest := sigs[1..];
      assert forall i :: 0 <= i < |rest| ==> rest[i] == sigs[i + 1];
      if v(sigs[0], pub) {
        NoneMatching(v, pub, rest);
      } else {
        NoneTwice(v, pub, rest);
      }
    }
  }

  /** Where every signature has one key and every key at most one signature, the signatures stand in the order
      of the keys that they verify under. */
  lemma {:induction false} OrderFollowsKeys(v: Verify, pubs: seq<Option<bytes>>, sigs: seq<bytes>, a: nat, b: nat, i: nat, j: nat)
    requires (forall k :: 0 <= k < |pubs| ==> Single(v, pubs[k], sigs)) && forall s :: s in sigs ==> Apart(v, pubs, s)
    requires a < b < |InKeyOrder(v, pubs, sigs)| && i < |pubs| && j < |pubs|
    requires v(InKeyOrder(v, pubs, sigs)[a], pubs[i]) && v(InKeyOrder(v, pubs, sigs)[b], pubs[j])
    ensures i < j
    decreases |pubs|
  {
    var first, rest := Matching(v, pubs[0], sigs), pubs[1..];
    var all := InKeyOrder(v, pubs, sigs);
    var later := InKeyOrder(v, rest, sigs);
    assert all == first + later;
    assert Single(v, pubs[0], sigs);
    NoneTwice(v, pubs[0], sigs);
    assert b >= |first| && all[b] == later[b - |first|];
    var jj := OrderVerifies(v, rest, sigs, all[b]);
    OnlyKey(v, pubs, all[b], j, jj + 1);
    if a < |first| {
      MatchingVerifies(v, pubs[0], sigs);
      MatchingWithin(v, pubs[0], sigs);
      OnlyKey(v, pubs, all[a], i, 0);
    } else {
      assert all[a] == later[a - |first|];
      var ii := OrderVerifies(v, rest, sigs, all[a]);
      OnlyKey(v, pubs, all[a], i, ii + 1);
      RestApart(v, pubs, sigs);
      OrderFollowsKeys(v, rest, sigs, a - |first|, b - |first|, ii, jj);
    }
  }

  lemma OnlyKey(v: Verify, pubs: seq<Option<bytes>>, s: bytes, i: nat, j: nat)
    requires Apart(v, pubs, s) && i < |pubs| && j < |pubs| && v(s, pubs[i]) && v(s, pubs[j])
    ensures i == j
  {
  }

  lemma RestApart(v: Verify, pubs: seq<Option<bytes>>, sigs: seq<bytes>)
    requires pubs != [] && (forall k :: 0 <= k < |pubs| ==> Single(v, pubs[k], sigs)) && forall s :: s in sigs ==> Apart(v, pubs, s)
    ensures (forall k :: 0 <= k < |pubs[1..]| ==> Single(v, pubs[1..][k], sigs)) && forall s :: s in sigs ==> Apart(v, pubs[1..], s)
  {
    var rest := pubs[1..];
    forall s | s in sigs ensures Apart(v, rest, s) {
      forall i, j | 0 <= i < j < |rest| ensures !(v(s, rest[i]) && v(s, rest[j])) {
        assert rest[i] == pubs[i + 1] && rest[j] == pubs[j + 1];
      }
    }
  }

  /** The member signatures of a finalised vault stand in the order of the keys in the script. */
  lemma MembersFollowKeys(v: Verify, master: bytes, keys: seq<bytes>, sigs: seq<bytes>, a: nat, b: nat, i: nat, j: nat)
    requires Signed(v, master, keys, sigs) && a < b < |MemberSigs(v, keys, sigs)| && i < |keys| && j < |keys|
    requires v(MemberSigs(v, keys, sigs)[a], Some(keys[i])) && v(MemberSigs(v, keys, sigs)[b], Some(keys[j]))
    ensures i < j
  {
    var pubs := Somes(keys);
    MemberLaws(v, master, keys, sigs);
    OrderFollowsKeys(v, pubs, sigs, a, b, i, j);
  }

  lemma MemberLaws(v: Verify, master: bytes, keys: seq<bytes>, sigs: seq<bytes>)
    requires Signed(v, master, keys, sigs)
    ensures var pubs := Somes(keys);
      (forall k :: 0 <= k < |pubs| ==> Single(v, pubs[k], sigs)) && forall s :: s in sigs ==> Apart(v, pubs, s)
  {
    var pubs, all := Somes(keys), Pubs(master, keys);
    forall k | 0 <= k < |pubs| ensures Single(v, pubs[k], sigs) {
      assert all[k] == pubs[k];
    }
    forall s | s in sigs ensures Apart(v, pubs, s) {
      var k :| 0 <= k < |sigs| && sigs[k] == s;
      forall i, j | 0 <= i < j < |pubs| ensures !(v(s, pubs[i]) && v(s, pubs[j])) {
        assert all[i] == pubs[i] && all[j] == pubs[j];
      }
    }
  }
}
