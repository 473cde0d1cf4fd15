/** Finalising and validating the witness stack of an input (code/Transaction.c:740-909, 1238-1327,
    1437-1444): signatures are put in key order, the extra element of a multisig check is inserted, and
    the library's own validator is run over the result. */
module Finalize {
  import opened Bytes
  import opened Script
  import opened ScriptKeys
  import opened Signatures

  function KeysOf(script: bytes): (ks: seq<Option<bytes>>)
  {
    Keys(Tokens(script), |Tokens(script)|)
  }

  function ChecksOf(script: bytes): (cs: seq<Check>)
  {
    Checks(Tokens(script), |Tokens(script)|)
  }

  // ----- Sorting -----

  /** Every signature of the stack finds its key. */
  predicate AllPlaced(v: Verify, stack: seq<bytes>)
  {
    |stack| <= 2 || Passes(v, KeysOf(stack[|stack| - 1]), stack[..|stack| - 1]).left == []
  }

  /** The stack after sorting; it is left alone unless every signature found its key. */
  function SortedStack(v: Verify, stack: seq<bytes>): (r: seq<bytes>)
  {
    if |stack| <= 2 then stack else
    var script := stack[|stack| - 1];
    var next := Passes(v, KeysOf(script), stack[..|stack| - 1]).taken + [script];
    if |next| == |stack| then next else stack
  }

  /** Whatever verifies, a stack is left as it is or rearranged. */
  lemma SortedStackPermutes(v: Verify, stack: seq<bytes>)
    ensures multiset(SortedStack(v, stack)) == multiset(stack)
  {
    if |stack| > 2 {
      var script, sigs := stack[|stack| - 1], stack[..|stack| - 1];
      var r := Passes(v, KeysOf(script), sigs);
      PassesConserve(v, KeysOf(script), sigs);
      assert stack == sigs + [script];
      if |r.taken + [script]| == |stack| {
        assert r.left == [];
      }
    }
  }

  /** The loops over keys and signatures of `sortSignatures`, for one input. */
  method SortSignatures(v: Verify, stack: seq<bytes>) returns (ok: bool, r: seq<bytes>)
    ensures r == SortedStack(v, stack) && (!ok ==> r == stack)
    ensures ok <==> AllPlaced(v, stack)
  {
    ok := true;
    if |stack| <= 2 {
      return true, stack;
    }
    var signatures, script := stack[..|stack| - 1], stack[|stack| - 1];
    var pubs := AllPubKeys(script);
    var newStack := SortLoop(v, pubs, signatures);
    PassesConserve(v, pubs, signatures);
    newStack := newStack + [script];
    if |newStack| == |stack| {
      r := newStack;
    } else {
      ok, r := false, stack;
    }
  }

  method SortLoop(v: Verify, pubs: seq<Option<bytes>>, signatures0: seq<bytes>) returns (newStack: seq<bytes>)
    ensures newStack == Passes(v, pubs, signatures0).taken
  {
    newStack := [];
    var signatures, j := signatures0, 0;
    assert pubs[0..] == pubs;
    while j < |pubs|
      invariant j <= |pubs| && newStack + Passes(v, pubs[j..], signatures).taken == Passes(v, pubs, signatures0).taken
    {
      PassesStep(v, pubs[j..], signatures, newStack);
      assert pubs[j..][0] == pubs[j] && pubs[j..][1..] == pubs[j + 1..];
      signatures, newStack := OnePass(v, pubs[j], signatures, newStack);
      j := j + 1;
    }
  }

  lemma PassesStep(v: Verify, pubs: seq<Option<bytes>>, sigs: seq<bytes>, n: seq<bytes>)
    requires pubs != []
    ensures var p := Pass(v, pubs[0], sigs);
      n + Passes(v, pubs, sigs).taken == (n + p.taken) + Passes(v, pubs[1..], p.left).taken
  {
  }

  // ----- The extra element -----

  function Needed(cs: seq<Check>): (n: int)
  {
    if cs == [] then 0 else cs[0].needed + Needed(cs[1..])
  }

  predicate Counted(cs: seq<Check>)
  {
    forall i :: 0 <= i < |cs| ==> cs[i].needed >= 0 && (!IsMultisig(cs[i].op) ==> cs[i].needed == 1)
  }

  lemma {:induction false} NeededNonNegative(cs: seq<Check>)
    requires Counted(cs)
    ensures Needed(cs) >= 0
  {
    if cs != [] {
      NeededNonNegative(cs[1..]);
    }
  }

  /** Check by check: an empty element, then the signatures of a multisig check. */
  function Rebuilt(cs: seq<Check>, sigs: seq<bytes>): (r: seq<bytes>)
    requires Counted(cs) && |sigs| >= Needed(cs)
  {
    if cs == [] then [] else
    NeededNonNegative(cs[1..]);
    var n := cs[0].needed;
    (if IsMultisig(cs[0].op) then [[]] + sigs[..n] else sigs[..n]) + Rebuilt(cs[1..], sigs[n..])
  }

  function CorrectedStack(stack: seq<bytes>): (r: seq<bytes>)
    requires stack != [] && Counted(ChecksOf(stack[|stack| - 1]))
  {
    var script, cs := stack[|stack| - 1], ChecksOf(stack[|stack| - 1]);
    if |stack| - 1 != Needed(cs) then stack else Rebuilt(cs, stack[..|stack| - 1]) + [script]
  }

  /** `TransactionCorrectMultisigSignaturesInStack`. A script that asks for a negative number of
      signatures would make it read outside the stack. */
  method CorrectStack(stack: seq<bytes>) returns (r: seq<bytes>)
    requires stack != [] && Counted(ChecksOf(stack[|stack| - 1]))
    ensures r == CorrectedStack(stack)
  {
    var script := stack[|stack| - 1];
    var cs := AllCheckSigs(script);
    var needed, i := 0, 0;
    assert cs[0..] == cs;
    while i < |cs|
      invariant i <= |cs| && needed + Needed(cs[i..]) == Needed(cs)
    {
      assert cs[i..][0] == cs[i] && cs[i..][1..] == cs[i + 1..];
      needed := needed + cs[i].needed;
      i := i + 1;
    }
    if |stack| - 1 != needed {
      return stack;
    }
    r := Rebuild(cs, stack[..|stack| - 1]);
    r := r + [script];
  }

  method Rebuild(cs: seq<Check>, sigs: seq<bytes>) returns (newStack: seq<bytes>)
    requires Counted(cs) && |sigs| == Needed(cs)
    ensures newStack == Rebuilt(cs, sigs)
  {
    newStack := [];
    var rest, left := cs, sigs;
    while rest != []
      invariant Counted(rest) && |left| == Needed(rest) && newStack + Rebuilt(rest, left) == Rebuilt(cs, sigs)
      decreases |rest|
    {
      NeededNonNegative(rest[1..]);
      newStack := PutCheck(rest, left, newStack);
      rest, left := rest[1..], left[rest[0].needed..];
    }
  }

  /** The elements of one check. */
  method PutCheck(rest: seq<Check>, sigs: seq<bytes>, was: seq<bytes>) returns (now: seq<bytes>)
    requires rest != [] && Counted(rest) && |sigs| == Needed(rest) && 0 <= rest[0].needed <= |sigs|
    ensures |sigs| - rest[0].needed == Needed(rest[1..])
    ensures now + Rebuilt(rest[1..], sigs[rest[0].needed..]) == was + Rebuilt(rest, sigs)
  {
    now := was;
    if IsMultisig(rest[0].op) {
      now := now + [[]];
    }
    now := now + sigs[..rest[0].needed];
    RebuiltStep(rest, sigs, was, now, rest[0].needed);
  }

  lemma RebuiltStep(rest: seq<Check>, sigs: seq<bytes>, was: seq<bytes>, now: seq<bytes>, n: nat)
    requires rest != [] && Counted(rest) && |sigs| >= Needed(rest) && n == rest[0].needed && n <= |sigs|
    requires now == (if IsMultisig(rest[0].op) then was + [[]] else was) + sigs[..n]
    ensures |sigs| - n >= Needed(rest[1..]) && now + Rebuilt(rest[1..], sigs[n..]) == was + Rebuilt(rest, sigs)
  {
    NeededNonNegative(rest[1..]);
    var tail := Rebuilt(rest[1..], sigs[n..]);
    if IsMultisig(rest[0].op) {
      Join4(was, [[]], sigs[..n], tail);
    } else {
      Join3(was, sigs[..n], tail);
    }
  }

  lemma Join3(a: seq<bytes>, b: seq<bytes>, c: seq<bytes>)
    ensures a + (b + c) == (a + b) + c
  {
  }

  lemma Join4(a: seq<bytes>, b: seq<bytes>, c: seq<bytes>, d: seq<bytes>)
    ensures a + ((b + c) + d) == ((a + b) + c) + d
  {
  }

  /** One empty element for each multisig check. */
  function Extras(cs: seq<Check>): (es: seq<bytes>)
  {
    if cs == [] then [] else (if IsMultisig(cs[0].op) then [[]] else []) + Extras(cs[1..])
  }

  lemma {:induction false} RebuiltConserves(cs: seq<Check>, sigs: seq<bytes>)
    requires Counted(cs) && |sigs| == Needed(cs)
    ensures multiset(Rebuilt(cs, sigs)) == multiset(sigs) + multiset(Extras(cs))
  {
    if cs != [] {
      NeededNonNegative(cs[1..]);
      var a, b := sigs[..cs[0].needed], sigs[cs[0].needed..];
      assert sigs == a + b;
      RebuiltConserves(cs[1..], b);
      RebuiltFront(IsMultisig(cs[0].op), a, b, Rebuilt(cs[1..], b), Extras(cs[1..]), sigs);
    }
  }

  lemma RebuiltFront(multisig: bool, a: seq<bytes>, b: seq<bytes>, r: seq<bytes>, es: seq<bytes>, sigs: seq<bytes>)
    requires multiset(r) == multiset(b) + multiset(es) && sigs == a + b
    ensures multiset((if multisig then [[]] + a else a) + r) == multiset(sigs) + multiset((if multisig then [[]] else []) + es)
  {
  }

  lemma ConservesScript(stack: seq<bytes>, sigs: seq<bytes>, r: seq<bytes>, es: seq<bytes>, script: bytes)
    requires stack == sigs + [script] && multiset(r) == multiset(sigs) + multiset(es)
    ensures multiset(r + [script]) == multiset(stack) + multiset(es)
  {
  }

  lemma RebuiltWithScript(cs: seq<Check>, stack: seq<bytes>)
    requires stack != [] && Counted(cs) && |stack| - 1 == Needed(cs)
    ensures multiset(Rebuilt(cs, stack[..|stack| - 1]) + [stack[|stack| - 1]]) == multiset(stack) + multiset(Extras(cs))
  {
    var script, sigs := stack[|stack| - 1], stack[..|stack| - 1];
    assert stack == sigs + [script];
    RebuiltConserves(cs, sigs);
    ConservesScript(stack, sigs, Rebuilt(cs, sigs), Extras(cs), script);
  }

  lemma CorrectedConserves(stack: seq<bytes>, cs: seq<Check>)
    requires stack != [] && cs == ChecksOf(stack[|stack| - 1]) && Counted(cs)
    ensures multiset(CorrectedStack(stack)) == multiset(stack) + multiset(if |stack| - 1 == Needed(cs) then Extras(cs) else [])
  {
    if |stack| - 1 == Needed(cs) {
      RebuiltWithScript(cs, stack);
    }
  }

  lemma SortedKeepsScript(v: Verify, stack: seq<bytes>)
    requires stack != []
    ensures var r := SortedStack(v, stack); |r| == |stack| && r[|r| - 1] == stack[|stack| - 1]
  {
  }

  /** Whatever verifies, finalising loses no signature: it rearranges them, and adds nothing but the empty
      elements of the multisig checks if the number of signatures is the one that the script needs. */
  lemma FinalizeConserves(v: Verify, stack: seq<bytes>)
    requires stack != [] && Counted(ChecksOf(stack[|stack| - 1]))
    ensures var cs := ChecksOf(stack[|stack| - 1]);
      var sorted := SortedStack(v, stack);
      && sorted != [] && sorted[|sorted| - 1] == stack[|stack| - 1]
      && multiset(CorrectedStack(sorted)) == multiset(stack) + multiset(if |stack| - 1 == Needed(cs) then Extras(cs) else [])
  {
    SortedKeepsScript(v, stack);
    SortedStackPermutes(v, stack);
    CorrectedConserves(SortedStack(v, stack), ChecksOf(stack[|stack| - 1]));
  }

  /** `TransactionFinalize`, for the witness stack of one input. */
  method FinalizeStack(v: Verify, stack: seq<bytes>) returns (ok: bool, r: seq<bytes>)
    requires stack != [] && Counted(ChecksOf(stack[|stack| - 1]))
    ensures SortedStack(v, stack) != [] && SortedStack(v, stack)[|SortedStack(v, stack)| - 1] == stack[|stack| - 1]
    ensures r == CorrectedStack(SortedStack(v, stack))
    ensures ok <==> AllPlaced(v, stack)
    ensures !ok ==> r == CorrectedStack(stack)
  {
    SortedKeepsScript(v, stack);
    ok, r := SortSignatures(v, stack);
    r := CorrectStack(r);
  }

  // ----- The validator -----

  function Count(v: Verify, pubs: seq<Option<bytes>>, sigs: seq<bytes>): (n: nat)
  {
    if pubs == [] then 0 else |Matching(v, pubs[0], sigs)| + Count(v, pubs[1..], sigs)
  }

  predicate SomeVerifies(v: Verify, pub: Option<bytes>, sigs: seq<bytes>)
  {
    exists k :: 0 <= k < |sigs| && v(sigs[k], pub)
  }

  /** What the validator demands of the token at `j`. */
  predicate Passed(v: Verify, ts: seq<Token>, j: nat, sigs: seq<bytes>)
    requires j < |ts|
  {
    if IsCheckSig(ts[j].op) then SomeVerifies(v, if j > 0 then ts[j - 1].data else None, sigs)
    else if IsMultisig(ts[j].op) then
      && j >= 1 && SmallNumber(ts[j - 1].op)
      && var n := 1 + ts[j - 1].op - OP_1;
      && j - 2 - n - 1 >= 0
      && SmallNumber(ts[j - 2 - n].op)
      && Count(v, Datas(ts, j - 1 - n, j - 1), sigs) == 1 + ts[j - 2 - n].op - OP_1
    else true
  }

  predicate AllPassed(v: Verify, ts: seq<Token>, sigs: seq<bytes>)
  {
    forall j :: 0 <= j < |ts| ==> Passed(v, ts, j, sigs)
  }

  /** The signature of a plain key hash, or every check of the script. `w` verifies against the digest of
      the implied key-hash script. */
  predicate Validates(w: Verify, v: Verify, stack: seq<bytes>)
  {
    if |stack| == 2 && w(stack[0], Some(stack[1])) then true
    else if stack == [] then true
    else AllPassed(v, Tokens(stack[|stack| - 1]), stack[..|stack| - 1])
  }

  method AnyVerifies(v: Verify, pub: Option<bytes>, sigs: seq<bytes>) returns (valid: bool)
    ensures valid == SomeVerifies(v, pub, sigs)
  {
    valid := false;
    var k := 0;
    while k < |sigs|
      invariant k <= |sigs| && valid == exists i :: 0 <= i < k && v(sigs[i], pub)
    {
      if v(sigs[k], pub) {
        valid := true;
      }
      k := k + 1;
    }
  }

  lemma {:induction false} MatchingAppend(v: Verify, pub: Option<bytes>, a: seq<bytes>, b: seq<bytes>)
    ensures Matching(v, pub, a + b) == Matching(v, pub, a) + Matching(v, pub, b)
  {
    if a == [] {
      assert a + b == b;
    } else {
      var s := a + b;
      assert s[0] == a[0] && s[1..] == a[1..] + b;
      MatchingAppend(v, pub, a[1..], b);
    }
  }

  lemma MatchingOne(v: Verify, pub: Option<bytes>, s: bytes)
    ensures Matching(v, pub, [s]) == if v(s, pub) then [s] else []
  {
    assert Matching(v, pub, [s][1..]) == [];
  }

  method CountOne(v: Verify, pub: Option<bytes>, sigs: seq<bytes>, start: nat) returns (n: nat)
    ensures n == start + |Matching(v, pub, sigs)|
  {
    n := start;
    var k := 0;
    while k < |sigs|
      invariant k <= |sigs| && n == start + |Matching(v, pub, sigs[..k])|
    {
      assert sigs[..k + 1] == sigs[..k] + [sigs[k]];
      MatchingAppend(v, pub, sigs[..k], [sigs[k]]);
      MatchingOne(v, pub, sigs[k]);
      if v(sigs[k], pub) {
        n := n + 1;
      }
      k := k + 1;
    }
    assert sigs[..k] == sigs;
  }

  method CountAll(v: Verify, pubs: seq<Option<bytes>>, sigs: seq<bytes>) returns (n: nat)
    ensures n == Count(v, pubs, sigs)
  {
    n := 0;
    var i := 0;
    assert pubs[0..] == pubs;
    while i < |pubs|
      invariant i <= |pubs| && n + Count(v, pubs[i..], sigs) == Count(v, pubs, sigs)
    {
      assert pubs[i..][0] == pubs[i] && pubs[i..][1..] == pubs[i + 1..];
      n := CountOne(v, pubs[i], sigs, n);
      i := i + 1;
    }
  }

  /** One token of the validator's loop. */
  method CheckToken(v: Verify, ts: seq<Token>, j: nat, sigs: seq<bytes>) returns (ok: bool)
    requires j < |ts|
    ensures ok == Passed(v, ts, j, sigs)
  {
    if IsCheckSig(ts[j].op) {
      var pubKey := if j > 0 then ts[j - 1].data else None;
      ok := AnyVerifies(v, pubKey, sigs);
      return;
    }
    if IsMultisig(ts[j].op) {
      if j < 1 {
        return false;
      }
      var numPubKeys := 1 + ts[j - 1].op - OP_1;
      if numPubKeys < 1 || numPubKeys > 16 || j - 2 - numPubKeys - 1 < 0 {
        return false;
      }
      var numSigs := 1 + ts[j - 2 - numPubKeys].op - OP_1;
      if numSigs < 1 || numSigs > 16 {
        return false;
      }
      var validSignatures := CountAll(v, Datas(ts, j - 1 - numPubKeys, j - 1), sigs);
      return validSignatures == numSigs;
    }
    ok := true;
  }

  /** `TransactionValidateSignature`, for the stack of one input. */
  method ValidateSignature(w: Verify, v: Verify, stack: seq<bytes>) returns (ok: bool)
    ensures ok == Validates(w, v, stack)
  {
    if |stack| == 2 {
      if w(stack[0], Some(stack[1])) {
        return true;
      }
    }
    if stack == [] {
      return true;
    }
    var ts := ScriptToTokens(stack[|stack| - 1]);
    var sigs := stack[..|stack| - 1];
    var j := 0;
    while j < |ts|
      invariant j <= |ts| && forall i :: 0 <= i < j ==> Passed(v, ts, i, sigs)
    {
      var one := CheckToken(v, ts, j, sigs);
      if !one {
        return false;
      }
      j := j + 1;
    }
    ok := true;
  }

  // ----- Vaults -----

  /** Exactly a quorum of member signatures and one master signature, in any order: every signature
      verifies under one key, and no key has two. */
  predicate Signed(v: Verify, master: bytes, keys: seq<bytes>, sigs: seq<bytes>)
  {
    var pubs := Somes(keys) + [Some(master)];
    && |sigs| == Quorum(|keys|) + 1
    && Matched(v, pubs, sigs) && Covered(v, pubs, sigs) && SomeVerifies(v, Some(master), sigs)
  }

  lemma {:induction false} OrderAppend(v: Verify, a: seq<Option<bytes>>, b: seq<Option<bytes>>, sigs: seq<bytes>)
    ensures InKeyOrder(v, a + b, sigs) == InKeyOrder(v, a, sigs) + InKeyOrder(v, b, sigs)
  {
    if a == [] {
      assert a + b == b;
    } else {
      var s := a + b;
      assert s[0] == a[0] && s[1..] == a[1..] + b;
      OrderAppend(v, a[1..], b, sigs);
    }
  }

  lemma {:induction false} CountIsLength(v: Verify, pubs: seq<Option<bytes>>, sigs: seq<bytes>)
    ensures Count(v, pubs, sigs) == |InKeyOrder(v, pubs, sigs)|
  {
    if pubs != [] {
      CountIsLength(v, pubs[1..], sigs);
    }
  }

  lemma {:induction false} MatchingAll(v: Verify, pub: Option<bytes>, sigs: seq<bytes>)
    ensures forall s :: s in Matching(v, pub, sigs) ==> v(s, pub)
    ensures SomeVerifies(v, pub, sigs) ==> |Matching(v, pub, sigs)| >= 1
    ensures Single(v, pub, sigs) ==> |Matching(v, pub, sigs)| <= 1
  {
    if sigs != [] {
      var rest := sigs[1..];
      MatchingAll(v, pub, rest);
      if Single(v, pub, sigs) {
        SingleTail(v, pub, sigs);
        if v(sigs[0], pub) {
          NoneMatching(v, pub, rest);
        }
      }
      if SomeVerifies(v, pub, sigs) && !v(sigs[0], pub) {
        var k :| 0 <= k < |sigs| && v(sigs[k], pub);
        assert rest[k - 1] == sigs[k];
      }
    }
  }

  lemma SingleTail(v: Verify, pub: Option<bytes>, sigs: seq<bytes>)
    requires sigs != [] && Single(v, pub, sigs)
    ensures Single(v, pub, sigs[1..])
    ensures v(sigs[0], pub) ==> forall i :: 0 <= i < |sigs[1..]| ==> !v(sigs[1..][i], pub)
  {
    var rest := sigs[1..];
    forall i | 0 <= i < |rest| ensures rest[i] == sigs[i + 1] {
    }
  }
}
