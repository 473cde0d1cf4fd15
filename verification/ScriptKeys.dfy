/** The keys and the signature checks of a script (code/BTCUtil.c:1509-1593). */
module ScriptKeys {
  import opened Bytes
  import opened Script

  // ----- Keys -----

  predicate SmallNumber(op: byte)
  {
    OP_1 <= op <= OP_16
  }

  /** The data of the tokens before `i`, from `lo` on. */
  function Datas(ts: seq<Token>, lo: nat, i: nat): (ds: seq<Option<bytes>>)
    requires lo <= i <= |ts|
  {
    seq(i - lo, k requires 0 <= k < i - lo => ts[lo + k].data)
  }

  /** Where the keys of a multisig check at `i` begin: there may be fewer tokens than it announces. */
  function KeysFrom(i: nat, n: nat): (lo: nat)
    requires i >= 1
  {
    if n + 1 <= i then i - 1 - n else 0
  }

  function KeysStep(ts: seq<Token>, i: nat, acc: seq<Option<bytes>>): (r: seq<Option<bytes>>)
    requires i < |ts|
  {
    if IsCheckSig(ts[i].op) && i > 0 && ts[i - 1].data.Some? then [ts[i - 1].data] + acc
    else if IsMultisig(ts[i].op) && i > 0 && SmallNumber(ts[i - 1].op) then
      Datas(ts, KeysFrom(i, 1 + ts[i - 1].op - OP_1), i - 1) + acc
    else acc
  }

  /** The keys found in the first `i` tokens, each find put in front of the ones before. */
  function Keys(ts: seq<Token>, i: nat): (r: seq<Option<bytes>>)
    requires i <= |ts|
  {
    if i == 0 then [] else KeysStep(ts, i - 1, Keys(ts, i - 1))
  }

  /** The inner loop: keys go in front one by one, the last one first. */
  method PutInFront(ts: seq<Token>, i: nat, n: nat, acc: seq<Option<bytes>>) returns (r: seq<Option<bytes>>)
    requires 1 <= i < |ts|
    ensures r == Datas(ts, KeysFrom(i, n), i - 1) + acc
  {
    r := acc;
    var j := 0;
    assert Datas(ts, i - 1, i - 1) + acc == acc;
    while j < n
      invariant j <= n && r == Datas(ts, KeysFrom(i, j), i - 1) + acc
    {
      if i - j - 2 >= 0 {
        assert Datas(ts, KeysFrom(i, j + 1), i - 1) == [ts[i - j - 2].data] + Datas(ts, KeysFrom(i, j), i - 1);
        r := [ts[i - j - 2].data] + r;
      }
      j := j + 1;
    }
  }

  /** `allPubKeys`. */
  method AllPubKeys(script: bytes) returns (found: seq<Option<bytes>>)
    ensures found == Keys(Tokens(script), |Tokens(script)|)
  {
    var ts := ScriptToTokens(script);
    found := [];
    var i := 0;
    while i < |ts|
      invariant i <= |ts| && found == Keys(ts, i)
    {
      if IsCheckSig(ts[i].op) {
        if i > 0 && ts[i - 1].data.Some? {
          found := [ts[i - 1].data] + found;
        }
      } else if IsMultisig(ts[i].op) {
        if i > 0 && SmallNumber(ts[i - 1].op) {
          found := PutInFront(ts, i, 1 + ts[i - 1].op - OP_1, found);
        }
      }
      i := i + 1;
    }
  }

  // ----- Signature checks -----

  datatype Check = Check(op: byte, needed: int, keys: seq<bytes>)

  /** The data that is there. */
  function Present(ds: seq<Option<bytes>>): (r: seq<bytes>)
  {
    if ds == [] then [] else (if ds[0].Some? then [ds[0].value] else []) + Present(ds[1..])
  }

  function ChecksStep(ts: seq<Token>, i: nat, acc: seq<Check>): (r: seq<Check>)
    requires i < |ts|
  {
    if IsCheckSig(ts[i].op) && i > 0 && ts[i - 1].data.Some? then [Check(ts[i].op, 1, [ts[i - 1].data.value])] + acc
    else if IsMultisig(ts[i].op) && i > 0 && SmallNumber(ts[i - 1].op) then
      var n := 1 + ts[i - 1].op - OP_1;
      if i - n - 2 < 0 then acc
      else [Check(ts[i].op, 1 + ts[i - n - 2].op - OP_1, Present(Datas(ts, KeysFrom(i, n), i - 1)))] + acc
    else acc
  }

  function Checks(ts: seq<Token>, i: nat): (r: seq<Check>)
    requires i <= |ts|
  {
    if i == 0 then [] else ChecksStep(ts, i - 1, Checks(ts, i - 1))
  }

  method PresentInFront(ts: seq<Token>, i: nat, n: nat) returns (r: seq<bytes>)
    requires 1 <= i < |ts|
    ensures r == Present(Datas(ts, KeysFrom(i, n), i - 1))
  {
    r := [];
    var j := 0;
    while j < n
      invariant j <= n && r == Present(Datas(ts, KeysFrom(i, j), i - 1))
    {
      if i - j - 2 >= 0 {
        var ds := Datas(ts, KeysFrom(i, j + 1), i - 1);
        assert ds[0] == ts[i - j - 2].data && ds[1..] == Datas(ts, KeysFrom(i, j), i - 1);
        if ts[i - j - 2].data.Some? {
          r := [ts[i - j - 2].data.value] + r;
        }
      }
      j := j + 1;
    }
  }

  /** `allCheckSigs`. */
  method AllCheckSigs(script: bytes) returns (found: seq<Check>)
    ensures found == Checks(Tokens(script), |Tokens(script)|)
  {
    var ts := ScriptToTokens(script);
    found := [];
    var i := 0;
    while i < |ts|
      invariant i <= |ts| && found == Checks(ts, i)
    {
      if IsCheckSig(ts[i].op) {
        if i > 0 && ts[i - 1].data.Some? {
          found := [Check(ts[i].op, 1, [ts[i - 1].data.value])] + found;
        }
      } else if IsMultisig(ts[i].op) {
        if i > 0 && SmallNumber(ts[i - 1].op) {
          var n := 1 + ts[i - 1].op - OP_1;
          var pubs := PresentInFront(ts, i, n);
          if i - n - 2 >= 0 {
            found := [Check(ts[i].op, 1 + ts[i - n - 2].op - OP_1, pubs)] + found;
          }
        }
      }
      i := i + 1;
    }
  }

  // ----- The vault -----

  /** No check among the tokens from `i` to `j`. */
  predicate Quiet(ts: seq<Token>, i: nat, j: nat)
    requires i <= j <= |ts|
  {
    forall k :: i <= k < j ==> !IsCheckSig(ts[k].op) && !IsMultisig(ts[k].op)
  }

  lemma {:induction false} KeysQuiet(ts: seq<Token>, i: nat, j: nat)
    requires i <= j <= |ts| && Quiet(ts, i, j)
    ensures Keys(ts, j) == Keys(ts, i) && Checks(ts, j) == Checks(ts, i)
    decreases j
  {
    if i < j {
      KeysQuiet(ts, i, j - 1);
      assert !IsCheckSig(ts[j - 1].op) && !IsMultisig(ts[j - 1].op);
    }
  }

  function Somes(ks: seq<bytes>): (r: seq<Option<bytes>>)
  {
    seq(|ks|, i requires 0 <= i < |ks| => Some(ks[i]))
  }

  lemma {:induction false} PresentSomes(ks: seq<bytes>)
    ensures Present(Somes(ks)) == ks
  {
    if ks != [] {
      assert Somes(ks)[1..] == Somes(ks[1..]);
      PresentSomes(ks[1..]);
    }
  }

  predicate VaultKeys(master: bytes, keys: seq<bytes>)
  {
    Usable(master) && AllUsable(keys) && 1 <= |keys| <= 16
  }

  lemma VaultShape(master: bytes, keys: seq<bytes>, ts: seq<Token>)
    requires VaultKeys(master, keys) && ts == VaultTokens(master, keys)
    ensures var n := |keys|;
      && |ts| == n + 5 && ts[0] == KeyToken(master) && ts[1] == Token(OP_CHECKSIGVERIFY, None)
      && ts[2] == Token(OP_1 - 1 + Quorum(n), None) && ts[n + 3] == Token(OP_1 - 1 + n, None)
      && ts[n + 4] == Token(OP_CHECKMULTISIG, None) && Datas(ts, 3, n + 3) == Somes(keys)
      && Quiet(ts, 0, 1) && Quiet(ts, 2, n + 4)
  {
    var n := |keys|;
    forall k | 0 <= k < n ensures ts[3 + k] == KeyToken(keys[k]) {
    }
    forall k | 2 <= k < n + 4 ensures !IsCheckSig(ts[k].op) && !IsMultisig(ts[k].op) {
      if 3 <= k < n + 3 {
        assert ts[3 + (k - 3)] == KeyToken(keys[k - 3]);
      }
    }
  }

  /** The keys of a vault are its members in script order, then the master. */
  lemma KeysOfVault(master: bytes, keys: seq<bytes>, ts: seq<Token>)
    requires VaultKeys(master, keys) && ts == VaultTokens(master, keys)
    ensures Keys(ts, |ts|) == Somes(keys) + [Some(master)]
  {
    var n := |keys|;
    VaultShape(master, keys, ts);
    KeysQuiet(ts, 0, 1);
    assert Keys(ts, 1) == [];
    assert Keys(ts, 2) == [Some(master)];
    KeysQuiet(ts, 2, n + 4);
    assert KeysFrom(n + 4, n) == 3;
    assert Keys(ts, n + 5) == KeysStep(ts, n + 4, Keys(ts, n + 4));
  }

  /** Its checks are the multisig check of the members, then the single check of the master. */
  lemma ChecksOfVault(master: bytes, keys: seq<bytes>, ts: seq<Token>)
    requires VaultKeys(master, keys) && ts == VaultTokens(master, keys)
    ensures Checks(ts, |ts|) == [Check(OP_CHECKMULTISIG, Quorum(|keys|), keys), Check(OP_CHECKSIGVERIFY, 1, [master])]
  {
    var n := |keys|;
    VaultShape(master, keys, ts);
    KeysQuiet(ts, 0, 1);
    assert Checks(ts, 1) == [];
    assert Checks(ts, 2) == [Check(OP_CHECKSIGVERIFY, 1, [master])];
    KeysQuiet(ts, 2, n + 4);
    PresentSomes(keys);
    assert KeysFrom(n + 4, n) == 3;
    assert Checks(ts, n + 5) == ChecksStep(ts, n + 4, Checks(ts, n + 4));
  }
}
