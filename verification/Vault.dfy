/** What finalising a vault input achieves: from the signatures in any order to a stack that the
    library's validator accepts. */
module Vault {
  import opened Bytes
  import opened Script
  import opened ScriptKeys
  import opened Signatures
  import opened Finalize
  import opened DataOrder

  function Pubs(master: bytes, keys: seq<bytes>): (ps: seq<Option<bytes>>)
  {
    Somes(keys) + [Some(master)]
  }

  /** The member signatures, in the order of the keys in the script. */
  function MemberSigs(v: Verify, keys: seq<bytes>, sigs: seq<bytes>): (r: seq<bytes>)
  {
    InKeyOrder(v, Somes(keys), sigs)
  }

  function MasterSigs(v: Verify, master: bytes, sigs: seq<bytes>): (r: seq<bytes>)
  {
    Matching(v, Some(master), sigs)
  }

  lemma ScriptReads(master: bytes, keys: seq<bytes>)
    requires VaultKeys(master, keys)
    ensures KeysOf(Vault(master, keys)) == Pubs(master, keys)
    ensures ChecksOf(Vault(master, keys)) == [Check(OP_CHECKMULTISIG, Quorum(|keys|), keys), Check(OP_CHECKSIGVERIFY, 1, [master])]
  {
    TokensOfVault(master, keys);
    KeysOfVault(master, keys, VaultTokens(master, keys));
    ChecksOfVault(master, keys, VaultTokens(master, keys));
  }

  lemma OrderOfVault(v: Verify, master: bytes, keys: seq<bytes>, sigs: seq<bytes>)
    ensures InKeyOrder(v, Pubs(master, keys), sigs) == MemberSigs(v, keys, sigs) + MasterSigs(v, master, sigs)
  {
    OrderAppend(v, Somes(keys), [Some(master)], sigs);
    OrderOne(v, Some(master), sigs);
  }

  lemma OrderOne(v: Verify, pub: Option<bytes>, sigs: seq<bytes>)
    ensures InKeyOrder(v, [pub], sigs) == Matching(v, pub, sigs)
  {
    assert [pub][1..] == [];
    assert InKeyOrder(v, [pub], sigs) == Matching(v, pub, sigs) + InKeyOrder(v, [pub][1..], sigs);
  }

  /** The loops take everything, members first and the one master signature last. */
  lemma PassesOfVault(v: Verify, master: bytes, keys: seq<bytes>, sigs: seq<bytes>)
    requires VaultKeys(master, keys) && Signed(v, master, keys, sigs)
    ensures var r := Passes(v, Pubs(master, keys), sigs);
      r.taken == MemberSigs(v, keys, sigs) + MasterSigs(v, master, sigs) && r.left == [] && multiset(r.taken) == multiset(sigs)
    ensures |MemberSigs(v, keys, sigs)| == Quorum(|keys|) && |MasterSigs(v, master, sigs)| == 1
  {
    var pubs := Pubs(master, keys);
    PassesInOrder(v, pubs, sigs);
    PassesTakeAll(v, pubs, sigs);
    PassesConserve(v, pubs, sigs);
    OrderOfVault(v, master, keys, sigs);
    MatchingAll(v, Some(master), sigs);
    assert pubs[|keys|] == Some(master);
  }

  lemma SortedVault(v: Verify, master: bytes, keys: seq<bytes>, sigs: seq<bytes>, stack: seq<bytes>)
    requires VaultKeys(master, keys) && Signed(v, master, keys, sigs) && stack == sigs + [Vault(master, keys)]
    ensures AllPlaced(v, stack)
    ensures SortedStack(v, stack) == MemberSigs(v, keys, sigs) + MasterSigs(v, master, sigs) + [Vault(master, keys)]
  {
    ScriptReads(master, keys);
    PassesOfVault(v, master, keys, sigs);
    assert stack[..|stack| - 1] == sigs;
  }

  lemma CorrectedVault(master: bytes, keys: seq<bytes>, members: seq<bytes>, last: seq<bytes>, stack: seq<bytes>)
    requires VaultKeys(master, keys) && |members| == Quorum(|keys|) && |last| == 1
    requires stack == members + last + [Vault(master, keys)]
    ensures stack != [] && Counted(ChecksOf(stack[|stack| - 1]))
    ensures CorrectedStack(stack) == [[]] + members + last + [Vault(master, keys)]
  {
    ScriptReads(master, keys);
    var cs := ChecksOf(Vault(master, keys));
    assert stack[..|stack| - 1] == members + last;
    RebuiltVault(cs, members, last);
  }

  lemma RebuiltVault(cs: seq<Check>, members: seq<bytes>, last: seq<bytes>)
    requires |cs| == 2 && cs[0].op == OP_CHECKMULTISIG && cs[0].needed == |members|
    requires cs[1].op == OP_CHECKSIGVERIFY && cs[1].needed == 1 == |last|
    ensures Counted(cs) && Needed(cs) == |members| + 1 && Rebuilt(cs, members + last) == [[]] + members + last
  {
    var sigs := members + last;
    assert cs[1..][1..] == [] && Needed(cs[1..][1..]) == 0;
    assert Needed(cs[1..]) == 1;
    assert sigs[..|members|] == members && sigs[|members|..] == last;
    assert last[..1] == last;
    assert Rebuilt(cs[1..], last) == last + Rebuilt(cs[1..][1..], last[1..]);
  }

  // ----- The validator accepts -----

  lemma {:induction false} MatchingPerm(v: Verify, pub: Option<bytes>, a: seq<bytes>, b: seq<bytes>)
    requires multiset(a) == multiset(b)
    ensures |Matching(v, pub, a)| == |Matching(v, pub, b)|
  {
    if a == [] {
      EmptyPerm(b);
    } else {
      assert a[0] in multiset(b);
      var k :| 0 <= k < |b| && b[k] == a[0];
      var rest := b[..k] + b[k + 1..];
      Pulled(a, b, k);
      MatchingPerm(v, pub, a[1..], rest);
      MatchingWithout(v, pub, b, k, rest);
    }
  }

  lemma MatchingWithout(v: Verify, pub: Option<bytes>, b: seq<bytes>, k: nat, rest: seq<bytes>)
    requires k < |b| && rest == b[..k] + b[k + 1..]
    ensures |Matching(v, pub, b)| == |Matching(v, pub, rest)| + if v(b[k], pub) then 1 else 0
  {
    MatchingThree(v, pub, b[..k], b[k], b[k + 1..]);
    assert b == b[..k] + ([b[k]] + b[k + 1..]);
  }

  lemma MatchingThree(v: Verify, pub: Option<bytes>, front: seq<bytes>, x: bytes, back: seq<bytes>)
    ensures |Matching(v, pub, front + ([x] + back))| == |Matching(v, pub, front + back)| + if v(x, pub) then 1 else 0
  {
    MatchingAppend(v, pub, front, back);
    MatchingAppend(v, pub, front, [x] + back);
    MatchingAppend(v, pub, [x], back);
    MatchingOne(v, pub, x);
  }

  lemma EmptyPerm(b: seq<bytes>)
    requires multiset(b) == multiset{}
    ensures b == []
  {
    assert |multiset(b)| == |b|;
  }

  lemma Pulled(a: seq<bytes>, b: seq<bytes>, k: nat)
    requires a != [] && k < |b| && b[k] == a[0] && multiset(a) == multiset(b)
    ensures multiset(a[1..]) == multiset(b[..k] + b[k + 1..])
  {
    assert a == [a[0]] + a[1..];
    assert multiset(a[1..]) == multiset(a) - multiset{a[0]};
    assert b == b[..k] + ([b[k]] + b[k + 1..]);
    assert multiset(b) == multiset(b[..k]) + (multiset{b[k]} + multiset(b[k + 1..]));
  }

  lemma {:induction false} CountPerm(v: Verify, pubs: seq<Option<bytes>>, a: seq<bytes>, b: seq<bytes>)
    requires multiset(a) == multiset(b)
    ensures Count(v, pubs, a) == Count(v, pubs, b)
  {
    if pubs != [] {
      MatchingPerm(v, pubs[0], a, b);
      CountPerm(v, pubs[1..], a, b);
    }
  }

  /** An empty signature verifies under no key. */
  ghost predicate EmptyFails(v: Verify)
  {
    forall pub :: !v([], pub)
  }

  lemma {:induction false} CountEmpty(v: Verify, pubs: seq<Option<bytes>>, sigs: seq<bytes>)
    requires EmptyFails(v)
    ensures Count(v, pubs, [[]] + sigs) == Count(v, pubs, sigs)
  {
    if pubs != [] {
      MatchingAppend(v, pubs[0], [[]], sigs);
      MatchingOne(v, pubs[0], []);
      CountEmpty(v, pubs[1..], sigs);
    }
  }

  /** What the validator demands of the two checks of a vault. */
  lemma VaultChecks(v: Verify, master: bytes, keys: seq<bytes>, sigs: seq<bytes>, ts: seq<Token>)
    requires VaultKeys(master, keys) && ts == VaultTokens(master, keys)
    ensures Passed(v, ts, 1, sigs) <==> SomeVerifies(v, Some(master), sigs)
    ensures Passed(v, ts, |keys| + 4, sigs) <==> Count(v, Somes(keys), sigs) == Quorum(|keys|)
    ensures forall j :: 0 <= j < |ts| && j != 1 && j != |keys| + 4 ==> Passed(v, ts, j, sigs)
  {
    VaultShape(master, keys, ts);
    forall j | 0 <= j < |ts| && j != 1 && j != |keys| + 4 ensures Passed(v, ts, j, sigs) {
      assert !IsCheckSig(ts[j].op) && !IsMultisig(ts[j].op);
    }
  }

  /** The validator accepts a vault's stack exactly if some element verifies under the master key and the
      pairs of a member key and an element that verifies under it are as many as the quorum. */
  lemma VaultAcceptedIff(w: Verify, v: Verify, master: bytes, keys: seq<bytes>, sigs: seq<bytes>)
    requires VaultKeys(master, keys)
    ensures Validates(w, v, sigs + [Vault(master, keys)]) <==>
            || (|sigs| == 1 && w(sigs[0], Some(Vault(master, keys))))
            || (SomeVerifies(v, Some(master), sigs) && Count(v, Somes(keys), sigs) == Quorum(|keys|))
  {
    TokensOfVault(master, keys);
    AllPassedIff(v, master, keys, sigs, VaultTokens(master, keys));
    ValidatesScript(w, v, sigs, Vault(master, keys));
  }

  lemma AllPassedIff(v: Verify, master: bytes, keys: seq<bytes>, sigs: seq<bytes>, ts: seq<Token>)
    requires VaultKeys(master, keys) && ts == VaultTokens(master, keys)
    ensures AllPassed(v, ts, sigs) <==> SomeVerifies(v, Some(master), sigs) && Count(v, Somes(keys), sigs) == Quorum(|keys|)
  {
    VaultChecks(v, master, keys, sigs, ts);
  }

  lemma ValidatesScript(w: Verify, v: Verify, sigs: seq<bytes>, script: bytes)
    ensures Validates(w, v, sigs + [script]) <==> (|sigs| == 1 && w(sigs[0], Some(script))) || AllPassed(v, Tokens(script), sigs)
  {
    var stack := sigs + [script];
    assert stack[..|stack| - 1] == sigs && stack[|stack| - 1] == script;
  }

  lemma CountOfVault(v: Verify, master: bytes, keys: seq<bytes>, sigs: seq<bytes>, members: seq<bytes>, last: seq<bytes>)
    requires VaultKeys(master, keys) && Signed(v, master, keys, sigs) && EmptyFails(v)
    requires members == MemberSigs(v, keys, sigs) && last == MasterSigs(v, master, sigs)
    ensures Count(v, Somes(keys), [[]] + members + last) == Quorum(|keys|)
  {
    PassesOfVault(v, master, keys, sigs);
    CountWithEmpty(v, Somes(keys), sigs, members, last);
    CountIsLength(v, Somes(keys), sigs);
  }

  lemma CountWithEmpty(v: Verify, pubs: seq<Option<bytes>>, sigs: seq<bytes>, members: seq<bytes>, last: seq<bytes>)
    requires EmptyFails(v) && multiset(members + last) == multiset(sigs)
    ensures Count(v, pubs, [[]] + members + last) == Count(v, pubs, sigs)
  {
    CountPerm(v, pubs, members + last, sigs);
    CountEmpty(v, pubs, members + last);
    assert [[]] + (members + last) == [[]] + members + last;
  }

  lemma MasterVerifies(v: Verify, master: bytes, sigs: seq<bytes>, members: seq<bytes>, last: seq<bytes>)
    requires last == MasterSigs(v, master, sigs) && |last| == 1
    ensures SomeVerifies(v, Some(master), [[]] + members + last)
  {
    MatchingAll(v, Some(master), sigs);
    var all := [[]] + members + last;
    assert all[|all| - 1] == last[0] && last[0] in last;
  }

  /** Finalising turns the signatures of a vault, in whatever order they were collected, into the empty
      element, the member signatures in the order of their keys, the master signature and the script; and
      the validator accepts that. */
  lemma VaultFinalises(w: Verify, v: Verify, master: bytes, keys: seq<bytes>, sigs: seq<bytes>)
    requires VaultKeys(master, keys) && Signed(v, master, keys, sigs) && EmptyFails(v)
    ensures var script := Vault(master, keys);
      var sorted := SortedStack(v, sigs + [script]);
      && AllPlaced(v, sigs + [script]) && sorted != [] && Counted(ChecksOf(sorted[|sorted| - 1]))
      && CorrectedStack(sorted) == [[]] + MemberSigs(v, keys, sigs) + MasterSigs(v, master, sigs) + [script]
      && |MemberSigs(v, keys, sigs)| == Quorum(|keys|) && |MasterSigs(v, master, sigs)| == 1
      && Validates(w, v, CorrectedStack(sorted))
  {
    var script, members, last := Vault(master, keys), MemberSigs(v, keys, sigs), MasterSigs(v, master, sigs);
    var sorted := SortedStack(v, sigs + [script]);
    SortedVault(v, master, keys, sigs, sigs + [script]);
    PassesOfVault(v, master, keys, sigs);
    CorrectedVault(master, keys, members, last, sorted);
    MasterVerifies(v, master, sigs, members, last);
    CountOfVault(v, master, keys, sigs, members, last);
    VaultAcceptedIff(w, v, master, keys, [[]] + members + last);
  }

  // ----- What acceptance does not say -----

  lemma MatchingThrice(v: Verify, pub: Option<bytes>, s: bytes, t: bytes)
    ensures |Matching(v, pub, [s, s, t])| == (if v(s, pub) then 2 else 0) + (if v(t, pub) then 1 else 0)
  {
    MatchingAppend(v, pub, [s, s], [t]);
    MatchingAppend(v, pub, [s], [s]);
    MatchingOne(v, pub, s);
    MatchingOne(v, pub, t);
    assert [s, s] + [t] == [s, s, t] && [s] + [s] == [s, s];
  }

  lemma CountThree(v: Verify, pubs: seq<Option<bytes>>, sigs: seq<bytes>)
    requires |pubs| == 3
    ensures Count(v, pubs, sigs) == |Matching(v, pubs[0], sigs)| + |Matching(v, pubs[1], sigs)| + |Matching(v, pubs[2], sigs)|
  {
    assert pubs[1..][1..][1..] == [];
    assert Count(v, pubs[1..], sigs) == |Matching(v, pubs[1], sigs)| + Count(v, pubs[1..][1..], sigs);
    assert Count(v, pubs[1..][1..], sigs) == |Matching(v, pubs[2], sigs)| + Count(v, pubs[1..][1..][1..], sigs);
  }

  /** One member of three, whose signature is on the stack twice, makes the quorum of two. */
  lemma RepeatedSignatureAccepted(w: Verify, v: Verify, master: bytes, keys: seq<bytes>, s: bytes, t: bytes)
    requires VaultKeys(master, keys) && |keys| == 3
    requires v(s, Some(keys[0])) && !v(s, Some(keys[1])) && !v(s, Some(keys[2]))
    requires v(t, Some(master)) && forall i :: 0 <= i < 3 ==> !v(t, Some(keys[i]))
    ensures Quorum(|keys|) == 2 && Validates(w, v, [s, s, t] + [Vault(master, keys)])
  {
    var sigs := [s, s, t];
    var pubs := Somes(keys);
    CountThree(v, pubs, sigs);
    MatchingThrice(v, pubs[0], s, t);
    MatchingThrice(v, pubs[1], s, t);
    MatchingThrice(v, pubs[2], s, t);
    assert sigs[2] == t;
    VaultAcceptedIff(w, v, master, keys, sigs);
  }

  /** A script that begins with its quorum is never accepted for its signatures: the validator wants a
      token in front of the quorum. */
  lemma MultisigRefused(w: Verify, v: Verify, keys: seq<bytes>, stack: seq<bytes>)
    requires AllUsable(keys) && 1 <= |keys| <= 16 && stack != [] && stack[|stack| - 1] == MultisigPart(keys)
    ensures Validates(w, v, stack) <==> |stack| == 2 && w(stack[0], Some(stack[1]))
  {
    MultisigTokens(keys);
    var ts, n := Tokens(MultisigPart(keys)), |keys|;
    assert |ts| == n + 3 && ts[n + 2] == Token(OP_CHECKMULTISIG, None) && ts[n + 1] == Token(OP_1 - 1 + n, None);
    assert !Passed(v, ts, n + 2, stack[..|stack| - 1]);
  }

  // ----- Building the script -----

  lemma SortedUsable(keys: seq<bytes>)
    requires AllUsable(keys)
    ensures AllUsable(SortKeys(keys)) && |SortKeys(keys)| == |keys|
  {
    SortKeeps(keys);
    var s := SortKeys(keys);
    forall i | 0 <= i < |s| ensures Usable(s[i]) {
      assert s[i] in multiset(keys);
      var j :| 0 <= j < |keys| && keys[j] == s[i];
    }
  }

  /** `vaultScript`: the member keys go in sorted. */
  method VaultScript(masterPubKey: bytes, pubKeys: seq<bytes>) returns (data: bytes)
    requires VaultKeys(masterPubKey, pubKeys)
    ensures VaultKeys(masterPubKey, SortKeys(pubKeys)) && data == Vault(masterPubKey, SortKeys(pubKeys))
  {
    SortedUsable(pubKeys);
    var sorted := SortKeys(pubKeys);
    var m := |sorted| * 2 / 3;
    var n := |sorted|;
    if m < 1 {
      m := 1;
    }
    data := [];
    data := data + Push(masterPubKey);
    data := data + [OP_CHECKSIGVERIFY];
    data := data + [OP_1 - 1 + m];
    data := AddPushes(data, sorted);
    data := data + [OP_1 - 1 + n];
    data := data + [OP_CHECKMULTISIG];
    VaultParts(masterPubKey, sorted, data);
  }

  method AddPushes(data0: bytes, keys: seq<bytes>) returns (data: bytes)
    requires AllUsable(keys)
    ensures data == data0 + Pushes(keys)
  {
    data := data0;
    var rest := keys;
    while rest != []
      invariant AllUsable(rest) && data + Pushes(rest) == data0 + Pushes(keys)
      decreases |rest|
    {
      Three(data, Push(rest[0]), Pushes(rest[1..]));
      data := data + Push(rest[0]);
      rest := rest[1..];
    }
  }

  lemma Three(a: bytes, b: bytes, c: bytes)
    ensures a + (b + c) == a + b + c
  {
  }

  lemma VaultParts(master: bytes, keys: seq<bytes>, data: bytes)
    requires VaultKeys(master, keys)
    requires data == [] + Push(master) + [OP_CHECKSIGVERIFY] + [OP_1 - 1 + Quorum(|keys|)] + Pushes(keys) + [OP_1 - 1 + |keys|] + [OP_CHECKMULTISIG]
    ensures data == Vault(master, keys)
  {
    Seven(Push(master), [OP_CHECKSIGVERIFY], [OP_1 - 1 + Quorum(|keys|)], Pushes(keys), [OP_1 - 1 + |keys|], [OP_CHECKMULTISIG]);
  }

  lemma Seven(a: bytes, b: bytes, c: bytes, d: bytes, e: bytes, f: bytes)
    ensures [] + a + b + c + d + e + f == a + (b + (c + (d + (e + (f + [])))))
  {
  }

  /** The order in which the member keys are given does not matter. */
  lemma ScriptOrderFree(a: seq<bytes>, b: seq<bytes>)
    requires multiset(a) == multiset(b)
    ensures SortKeys(a) == SortKeys(b)
  {
    SortAscends(a);
    SortAscends(b);
    AscendingUnique(SortKeys(a), SortKeys(b));
  }
}
