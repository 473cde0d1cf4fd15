/** Looking for used addresses with a gap limit (code/TransactionTracker.c:212-250, 349-402, 496-600).
    An address is a number; `keys` gives the push data by which a transaction is known to touch it: the
    two public keys and their hashes for a wallet, the script and its hash for a vault. */
module GapScan {
  import opened Bytes

  /** `HDWALLET_SCANAHEAD_COUNT`. */
  const SCANAHEAD: nat := 10

  /** The push data of an input's script, and of the output it spends. */
  datatype Input = Input(pushes: set<bytes>, funding: set<bytes>)

  /** A transaction that is kept; `id` tells two entries of the list apart. */
  datatype Tx = Tx(id: nat, inputs: seq<Input>, outputs: seq<set<bytes>>)

  type Keys = nat -> set<bytes>

  // ----- What it means to touch an address -----

  predicate Spends(tx: Tx, items: set<bytes>)
  {
    exists k :: 0 <= k < |tx.inputs| && !(tx.inputs[k].pushes !! items && tx.inputs[k].funding !! items)
  }

  predicate Pays(tx: Tx, items: set<bytes>)
  {
    exists k :: 0 <= k < |tx.outputs| && !(tx.outputs[k] !! items)
  }

  predicate Touches(tx: Tx, items: set<bytes>)
  {
    Spends(tx, items) || Pays(tx, items)
  }

  /** A transaction touches an address if some push data of the address stands in one of its scripts or in an
      output that it spends; it pays one if it stands in one of its outputs. */
  lemma TouchesIs(tx: Tx, items: set<bytes>)
    ensures Pays(tx, items) <==> exists x, k :: 0 <= k < |tx.outputs| && x in tx.outputs[k] && x in items
    ensures Touches(tx, items) <==>
            || (exists x, k :: 0 <= k < |tx.inputs| && x in tx.inputs[k].pushes && x in items)
            || (exists x, k :: 0 <= k < |tx.inputs| && x in tx.inputs[k].funding && x in items)
            || (exists x, k :: 0 <= k < |tx.outputs| && x in tx.outputs[k] && x in items)
  {
  }

  predicate Used(txs: seq<Tx>, keys: Keys, i: nat)
  {
    exists k :: 0 <= k < |txs| && Touches(txs[k], keys(i))
  }

  predicate Paid(txs: seq<Tx>, keys: Keys, i: nat)
  {
    exists k :: 0 <= k < |txs| && Pays(txs[k], keys(i))
  }

  /** No two addresses share a key, a script or a hash. */
  ghost predicate Separate(keys: Keys)
  {
    forall i, j :: i != j ==> keys(i) !! keys(j)
  }

  // ----- Only finitely many addresses are used -----

  ghost predicate Below(txs: seq<Tx>, keys: Keys, b: nat)
  {
    forall i: nat {:trigger Used(txs, keys, i)} :: Used(txs, keys, i) ==> i < b
  }

  /** All that the scans need in order to end. Addresses may share keys, as they do where deriving a child
      key has passed over an index. */
  ghost predicate FinitelyUsed(txs: seq<Tx>, keys: Keys)
  {
    exists b: nat :: Below(txs, keys, b)
  }

  function Pushes(tx: Tx): (s: set<bytes>)
  {
    (set k, x | 0 <= k < |tx.inputs| && x in tx.inputs[k].pushes + tx.inputs[k].funding :: x)
    + set k, x | 0 <= k < |tx.outputs| && x in tx.outputs[k] :: x
  }

  /** From `b` on no address has anything in common with `s`. */
  ghost predicate Beyond(keys: Keys, s: set<bytes>, b: nat)
  {
    forall i :: i >= b ==> keys(i) !! s
  }

  lemma {:induction false} SetBounded(keys: Keys, s: set<bytes>) returns (b: nat)
    requires Separate(keys)
    ensures Beyond(keys, s, b)
    decreases |s|
  {
    if s == {} {
      return 0;
    }
    var x :| x in s;
    var rest := SetBounded(keys, s - {x});
    b := rest;
    if i :| i >= 0 && x in keys(i) {
      b := rest + i + 1;
      forall j | j >= b ensures keys(j) !! s {
        assert keys(i) !! keys(j);
      }
    } else {
      forall j | j >= b ensures keys(j) !! s {
        assert keys(j) !! s - {x};
      }
    }
  }

  /** However separate keys are spread, the transactions touch only addresses below some bound. */
  lemma {:induction false} UseBounded(txs: seq<Tx>, keys: Keys) returns (b: nat)
    requires Separate(keys)
    ensures Below(txs, keys, b) && FinitelyUsed(txs, keys)
  {
    if txs == [] {
      assert Below(txs, keys, 0);
      return 0;
    }
    var n := |txs| - 1;
    var one := SetBounded(keys, Pushes(txs[n]));
    var rest := UseBounded(txs[..n], keys);
    b := one + rest;
    forall i: nat | i >= b ensures !Used(txs, keys, i) {
      NotBeyond(txs[n], keys, one, i);
      assert !Used(txs[..n], keys, i);
      forall k | 0 <= k < |txs| ensures !Touches(txs[k], keys(i)) {
        assert k < n ==> txs[..n][k] == txs[k];
      }
    }
  }

  lemma NotBeyond(tx: Tx, keys: Keys, b: nat, i: nat)
    requires Beyond(keys, Pushes(tx), b) && i >= b
    ensures !Touches(tx, keys(i))
  {
    assert keys(i) !! Pushes(tx);
    forall k | 0 <= k < |tx.inputs| ensures tx.inputs[k].pushes !! keys(i) && tx.inputs[k].funding !! keys(i) {
      assert tx.inputs[k].pushes + tx.inputs[k].funding <= Pushes(tx);
    }
    forall k | 0 <= k < |tx.outputs| ensures tx.outputs[k] !! keys(i) {
      assert tx.outputs[k] <= Pushes(tx);
    }
  }

  // ----- The reference: addresses within reach -----

  /** A walk over used addresses from zero on, each less than the gap limit from the one before. */
  ghost predicate Walk(txs: seq<Tx>, keys: Keys, path: seq<nat>)
  {
    && path != [] && path[0] == 0
    && forall k :: 0 < k < |path| ==> path[k - 1] < path[k] < path[k - 1] + SCANAHEAD && Used(txs, keys, path[k])
  }

  ghost predicate Reachable(txs: seq<Tx>, keys: Keys, i: nat)
  {
    exists path :: Walk(txs, keys, path) && path[|path| - 1] == i
  }

  lemma StartReachable(txs: seq<Tx>, keys: Keys)
    ensures Reachable(txs, keys, 0)
  {
    assert Walk(txs, keys, [0]);
  }

  lemma StepReachable(txs: seq<Tx>, keys: Keys, i: nat, j: nat)
    requires Reachable(txs, keys, i) && i < j < i + SCANAHEAD && Used(txs, keys, j)
    ensures Reachable(txs, keys, j)
  {
    var path :| Walk(txs, keys, path) && path[|path| - 1] == i;
    WalkOn(txs, keys, path, j);
    assert (path + [j])[|path + [j]| - 1] == j;
  }

  lemma WalkOn(txs: seq<Tx>, keys: Keys, path: seq<nat>, j: nat)
    requires Walk(txs, keys, path) && Used(txs, keys, j)
    requires path[|path| - 1] < j < path[|path| - 1] + SCANAHEAD
    ensures Walk(txs, keys, path + [j])
  {
    var longer := path + [j];
    forall k | 0 < k < |longer| ensures longer[k - 1] < longer[k] < longer[k - 1] + SCANAHEAD && Used(txs, keys, longer[k]) {
      assert longer[k - 1] == path[k - 1];
      if k < |path| {
        assert longer[k] == path[k];
      }
    }
  }

  lemma LastStep(txs: seq<Tx>, keys: Keys, j: nat) returns (i: nat)
    requires Reachable(txs, keys, j) && j > 0
    ensures Reachable(txs, keys, i) && i < j < i + SCANAHEAD && Used(txs, keys, j)
  {
    var path :| Walk(txs, keys, path) && path[|path| - 1] == j;
    i := path[|path| - 2];
    assert Walk(txs, keys, path[..|path| - 1]);
  }

  /** Nothing used in the nine addresses behind `r`. */
  ghost predicate QuietAfter(txs: seq<Tx>, keys: Keys, r: nat)
  {
    forall j :: r < j < r + SCANAHEAD ==> !Used(txs, keys, j)
  }

  /** No walk crosses a quiet stretch. */
  lemma {:induction false} NoneBehind(txs: seq<Tx>, keys: Keys, r: nat, j: nat)
    requires QuietAfter(txs, keys, r) && Reachable(txs, keys, j)
    ensures j <= r
    decreases j
  {
    if j > 0 {
      var i := LastStep(txs, keys, j);
      NoneBehind(txs, keys, r, i);
    }
  }

  /** The answer of a scan: the last address within reach. */
  ghost predicate LastReach(txs: seq<Tx>, keys: Keys, r: nat)
  {
    && Reachable(txs, keys, r)
    && forall j: nat :: Reachable(txs, keys, j) <==> j == 0 || (Used(txs, keys, j) && j <= r)
  }

  /** It is also the first address, used or zero, with a quiet stretch behind it. */
  lemma LastReachIsFirstQuiet(txs: seq<Tx>, keys: Keys, r: nat)
    ensures LastReach(txs, keys, r) <==>
            && (r == 0 || Used(txs, keys, r)) && QuietAfter(txs, keys, r)
            && forall i :: 0 <= i < r && (i == 0 || Used(txs, keys, i)) ==> !QuietAfter(txs, keys, i)
  {
    if LastReach(txs, keys, r) {
      forall j | r < j < r + SCANAHEAD ensures !Used(txs, keys, j) {
        if Used(txs, keys, j) {
          StepReachable(txs, keys, r, j);
        }
      }
      forall i | 0 <= i < r ensures !QuietAfter(txs, keys, i) {
        if QuietAfter(txs, keys, i) {
          NoneBehind(txs, keys, i, r);
        }
      }
    }
    if (r == 0 || Used(txs, keys, r)) && QuietAfter(txs, keys, r)
       && forall i :: 0 <= i < r && (i == 0 || Used(txs, keys, i)) ==> !QuietAfter(txs, keys, i) {
      StartReachable(txs, keys);
      NoGapBelow(txs, keys, r, r);
      forall j: nat ensures Reachable(txs, keys, j) <==> j == 0 || (Used(txs, keys, j) && j <= r) {
        if Reachable(txs, keys, j) {
          NoneBehind(txs, keys, r, j);
          if j > 0 {
            var i := LastStep(txs, keys, j);
          }
        }
        if j <= r && Used(txs, keys, j) {
          NoGapBelow(txs, keys, r, j);
        }
      }
    }
  }

  /** With no quiet stretch below `r`, every used address up to it is within reach. */
  lemma {:induction false} NoGapBelow(txs: seq<Tx>, keys: Keys, r: nat, j: nat)
    requires j <= r && (j == 0 || Used(txs, keys, j))
    requires forall i :: 0 <= i < r && (i == 0 || Used(txs, keys, i)) ==> !QuietAfter(txs, keys, i)
    ensures Reachable(txs, keys, j)
    decreases j
  {
    if j == 0 {
      StartReachable(txs, keys);
    } else {
      var i := Before(txs, keys, j);
      NoGapBelow(txs, keys, r, i);
      StepReachable(txs, keys, i, j);
    }
  }

  /** The used address before a used one, or zero. */
  lemma Before(txs: seq<Tx>, keys: Keys, j: nat) returns (i: nat)
    requires j > 0 && forall i :: 0 <= i < j && (i == 0 || Used(txs, keys, i)) ==> !QuietAfter(txs, keys, i)
    ensures i < j < i + SCANAHEAD && (i == 0 || Used(txs, keys, i))
  {
    i := j - 1;
    while i > 0 && !Used(txs, keys, i)
      invariant 0 <= i < j && forall k :: i < k < j ==> !Used(txs, keys, k)
    {
      i := i - 1;
    }
    assert !QuietAfter(txs, keys, i);
  }

  // ----- The scans -----

  /** `DictDoesIntersect` over the inputs and then the outputs. */
  method ContainsOneOf(tx: Tx, items: set<bytes>) returns (r: bool)
    ensures r <==> Touches(tx, items)
  {
    var k := 0;
    while k < |tx.inputs|
      invariant k <= |tx.inputs| && forall j :: 0 <= j < k ==> tx.inputs[j].pushes !! items && tx.inputs[j].funding !! items
    {
      if !(tx.inputs[k].pushes !! items) || !(tx.inputs[k].funding !! items) {
        return true;
      }
      k := k + 1;
    }
    r := OutputsContainOneOf(tx, items);
  }

  method OutputsContainOneOf(tx: Tx, items: set<bytes>) returns (r: bool)
    ensures r <==> Pays(tx, items)
  {
    var k := 0;
    while k < |tx.outputs|
      invariant k <= |tx.outputs| && forall j :: 0 <= j < k ==> tx.outputs[j] !! items
    {
      if !(tx.outputs[k] !! items) {
        return true;
      }
      k := k + 1;
    }
    r := false;
  }

  method AnyContainsOneOf(txs: seq<Tx>, items: set<bytes>) returns (r: bool)
    ensures r <==> exists k :: 0 <= k < |txs| && Touches(txs[k], items)
  {
    var k := 0;
    while k < |txs|
      invariant k <= |txs| && forall j :: 0 <= j < k ==> !Touches(txs[j], items)
    {
      var hit := ContainsOneOf(txs[k], items);
      if hit {
        return true;
      }
      k := k + 1;
    }
    r := false;
  }

  /** What every scan knows in front of address `i`. */
  ghost predicate Scanned(txs: seq<Tx>, keys: Keys, last: nat, i: nat)
  {
    && last <= i <= last + SCANAHEAD && Reachable(txs, keys, last)
    && (forall j :: last < j < i ==> !Used(txs, keys, j))
    && forall j :: 0 <= j < i && Used(txs, keys, j) ==> Reachable(txs, keys, j)
  }

  lemma ScanStep(txs: seq<Tx>, keys: Keys, last: nat, i: nat)
    requires Scanned(txs, keys, last, i) && i < last + SCANAHEAD
    ensures Scanned(txs, keys, if Used(txs, keys, i) then i else last, i + 1)
  {
    if Used(txs, keys, i) && last < i {
      StepReachable(txs, keys, last, i);
    }
  }

  lemma ScanDone(txs: seq<Tx>, keys: Keys, last: nat)
    requires Scanned(txs, keys, last, last + SCANAHEAD)
    ensures LastReach(txs, keys, last)
  {
    forall j: nat ensures Reachable(txs, keys, j) <==> j == 0 || (Used(txs, keys, j) && j <= last) {
      if Reachable(txs, keys, j) {
        NoneBehind(txs, keys, last, j);
        if j > 0 {
          var i := LastStep(txs, keys, j);
        }
      }
      StartReachable(txs, keys);
    }
  }

  /** `TTLastUsedAddress`, and `TTLastUsedVaultAddress` for a vault that is always known. */
  method LastUsedAddress(known: bool, txs: seq<Tx>, keys: Keys) returns (r: int)
    requires FinitelyUsed(txs, keys)
    ensures !known ==> r == -1
    ensures known ==> r >= 0 && LastReach(txs, keys, r)
  {
    if !known {
      return -1;
    }
    ghost var bound: nat :| Below(txs, keys, bound);
    var last, i := 0, 0;
    StartReachable(txs, keys);
    while i < last + SCANAHEAD
      invariant Scanned(txs, keys, last, i) && last <= bound
      decreases bound + SCANAHEAD - i
    {
      ScanStep(txs, keys, last, i);
      var hit := AnyContainsOneOf(txs, keys(i));
      if hit {
        last := i;
      }
      i := i + 1;
    }
    ScanDone(txs, keys, last);
    r := last;
  }

  /** One pass over the transactions: those that touch the address and are not yet in the list. */
  method Gather(txs: seq<Tx>, items: set<bytes>, found: seq<Tx>) returns (all: seq<Tx>, hit: bool)
    requires forall a, b :: 0 <= a < b < |found| ==> found[a] != found[b]
    ensures found <= all && forall a, b :: 0 <= a < b < |all| ==> all[a] != all[b]
    ensures forall tx :: tx in all <==> tx in found || (tx in txs && Touches(tx, items))
    ensures hit <==> exists k :: 0 <= k < |txs| && Touches(txs[k], items)
  {
    all, hit := found, false;
    var k := 0;
    while k < |txs|
      invariant k <= |txs| && found <= all && forall a, b :: 0 <= a < b < |all| ==> all[a] != all[b]
      invariant forall tx :: tx in all <==> tx in found || (tx in txs[..k] && Touches(tx, items))
      invariant hit <==> exists j :: 0 <= j < k && Touches(txs[j], items)
    {
      var tx := txs[k];
      assert txs[..k + 1] == txs[..k] + [tx];
      var touches := ContainsOneOf(tx, items);
      if touches {
        hit := true;
        if tx !in all {
          all := all + [tx];
        }
      }
      k := k + 1;
    }
    assert txs[..k] == txs;
  }

  /** The push data of the addresses below `n`. */
  function Watched(keys: Keys, n: nat): (s: set<bytes>)
  {
    set i, x | 0 <= i < n && x in keys(i) :: x
  }

  lemma WatchedMore(keys: Keys, n: nat)
    ensures Watched(keys, n + 1) == Watched(keys, n) + keys(n)
  {
  }

  /** `TTAllTransactionsFor`: exactly the transactions that touch an address within reach, each once, and
      the push data of every address up to nine behind the last of these. */
  method AllTransactionsFor(txs: seq<Tx>, keys: Keys, set0: set<bytes>) returns (all: seq<Tx>, set1: set<bytes>, ghost r: nat)
    requires FinitelyUsed(txs, keys)
    ensures LastReach(txs, keys, r) && set1 == set0 + Watched(keys, r + SCANAHEAD)
    ensures forall a, b :: 0 <= a < b < |all| ==> all[a] != all[b]
    ensures forall tx :: tx in all <==> tx in txs && exists i :: Reachable(txs, keys, i) && Touches(tx, keys(i))
  {
    ghost var bound: nat :| Below(txs, keys, bound);
    var last, i := 0, 0;
    all, set1 := [], set0;
    StartReachable(txs, keys);
    while i < last + SCANAHEAD
      invariant Scanned(txs, keys, last, i) && last <= bound && set1 == set0 + Watched(keys, i)
      invariant forall a, b :: 0 <= a < b < |all| ==> all[a] != all[b]
      invariant forall tx :: tx in all <==> tx in txs && exists j :: 0 <= j < i && Touches(tx, keys(j))
      decreases bound + SCANAHEAD - i
    {
      ScanStep(txs, keys, last, i);
      WatchedMore(keys, i);
      set1 := set1 + keys(i);
      var hit;
      ghost var was := all;
      all, hit := Gather(txs, keys(i), all);
      GatheredMore(txs, keys, was, all, i);
      if hit {
        last := i;
      }
      i := i + 1;
    }
    ScanDone(txs, keys, last);
    r := last;
    GatheredWithinReach(txs, keys, all, last);
  }

  lemma GatheredMore(txs: seq<Tx>, keys: Keys, was: seq<Tx>, all: seq<Tx>, i: nat)
    requires forall tx :: tx in was <==> tx in txs && exists j :: 0 <= j < i && Touches(tx, keys(j))
    requires forall tx :: tx in all <==> tx in was || (tx in txs && Touches(tx, keys(i)))
    ensures forall tx :: tx in all <==> tx in txs && exists j :: 0 <= j < i + 1 && Touches(tx, keys(j))
  {
    forall tx ensures tx in all <==> tx in txs && exists j :: 0 <= j < i + 1 && Touches(tx, keys(j)) {
      if j :| 0 <= j < i + 1 && Touches(tx, keys(j)) {
        assert j < i || j == i;
      }
    }
  }

  lemma GatheredWithinReach(txs: seq<Tx>, keys: Keys, all: seq<Tx>, r: nat)
    requires LastReach(txs, keys, r)
    requires forall tx :: tx in all <==> tx in txs && exists j :: 0 <= j < r + SCANAHEAD && Touches(tx, keys(j))
    ensures forall tx :: tx in all <==> tx in txs && exists i :: Reachable(txs, keys, i) && Touches(tx, keys(i))
  {
    LastReachIsFirstQuiet(txs, keys, r);
    forall tx | tx in txs
      ensures (exists j :: 0 <= j < r + SCANAHEAD && Touches(tx, keys(j))) <==> exists i :: Reachable(txs, keys, i) && Touches(tx, keys(i))
    {
      var k :| 0 <= k < |txs| && txs[k] == tx;
      if j :| 0 <= j < r + SCANAHEAD && Touches(tx, keys(j)) {
        assert Used(txs, keys, j);
        assert Reachable(txs, keys, j);
      }
    }
  }

  // ----- Fresh addresses -----

  /** No output pays the addresses from `i - m` to `i`. */
  ghost predicate Unpaid(txs: seq<Tx>, keys: Keys, m: nat, i: nat)
  {
    m <= i && forall k :: i - m <= k <= i ==> !Paid(txs, keys, k)
  }

  /** The first address with `m` unpaid ones in front of it, itself unpaid. */
  ghost predicate FirstUnpaid(txs: seq<Tx>, keys: Keys, m: nat, i: nat)
  {
    Unpaid(txs, keys, m, i) && forall j :: 0 <= j < i ==> !Unpaid(txs, keys, m, j)
  }

  method AnyPays(txs: seq<Tx>, items: set<bytes>) returns (r: bool)
    ensures r <==> exists k :: 0 <= k < |txs| && Pays(txs[k], items)
  {
    var k := 0;
    r := false;
    while k < |txs| && !r
      invariant k <= |txs| && (r ==> exists j :: 0 <= j < |txs| && Pays(txs[j], items))
      invariant !r ==> forall j :: 0 <= j < k ==> !Pays(txs[j], items)
    {
      r := OutputsContainOneOf(txs[k], items);
      k := k + 1;
    }
  }

  /** `TTUnusedWallet` and `TTUnusedVaultScript`: the number of the address that is handed out. The loop
      never runs out. */
  method UnusedWallet(txs: seq<Tx>, keys: Keys, n: nat) returns (r: Option<nat>)
    requires FinitelyUsed(txs, keys)
    ensures r.Some? && FirstUnpaid(txs, keys, n % SCANAHEAD, r.value)
  {
    ghost var bound: nat :| Below(txs, keys, bound);
    var m := n % SCANAHEAD;
    var last, i := 0, 0;
    r := None;
    while r.None? && i < last + SCANAHEAD
      invariant last <= i <= last + m && last <= bound && (last > 0 ==> Paid(txs, keys, last - 1))
      invariant forall k :: last <= k < i ==> !Paid(txs, keys, k)
      invariant forall j :: 0 <= j < i ==> !Unpaid(txs, keys, m, j)
      invariant r.Some? ==> r.value == i && Unpaid(txs, keys, m, i)
      decreases bound + SCANAHEAD - i, if r.Some? then 0 else 1
    {
      var hit := AnyPays(txs, keys(i));
      if hit {
        assert Paid(txs, keys, i);
        PaidIsUsed(txs, keys, i);
        assert !Unpaid(txs, keys, m, i);
        last := i + 1;
        i := i + 1;
      } else if i - last == m {
        r := Some(i);
      } else {
        TooShort(txs, keys, m, i, last);
        i := i + 1;
      }
    }
  }

  lemma TooShort(txs: seq<Tx>, keys: Keys, m: nat, i: nat, last: nat)
    requires last <= i < last + m && (last > 0 ==> Paid(txs, keys, last - 1))
    ensures !Unpaid(txs, keys, m, i)
  {
  }

  // ----- Will a payment to the address be seen? -----

  /** Payments that leave no gap of more than `m` are within reach. */
  lemma {:induction false} PaidReachable(txs: seq<Tx>, keys: Keys, m: nat, i: nat, j: nat)
    requires m + 1 < SCANAHEAD && j < i && Paid(txs, keys, j)
    requires forall k :: 0 <= k < i ==> !Unpaid(txs, keys, m, k)
    ensures Reachable(txs, keys, j)
    decreases j
  {
    PaidIsUsed(txs, keys, j);
    var p := PaidBefore(txs, keys, m, j);
    StartReachable(txs, keys);
    if p >= 0 {
      PaidReachable(txs, keys, m, i, p);
      StepReachable(txs, keys, p, j);
    } else if j > 0 {
      StepReachable(txs, keys, 0, j);
    }
  }

  lemma PaidIsUsed(txs: seq<Tx>, keys: Keys, j: nat)
    requires Paid(txs, keys, j)
    ensures Used(txs, keys, j)
  {
    var k :| 0 <= k < |txs| && Pays(txs[k], keys(j));
    assert Touches(txs[k], keys(j));
  }

  /** The paid address before `j`, at most `m` unpaid ones away; -1 if there is none. */
  lemma PaidBefore(txs: seq<Tx>, keys: Keys, m: nat, j: nat) returns (p: int)
    requires forall k :: 0 <= k < j ==> !Unpaid(txs, keys, m, k)
    ensures -1 <= p < j <= p + m + 1 && (p >= 0 ==> Paid(txs, keys, p)) && forall k :: p < k < j ==> !Paid(txs, keys, k)
  {
    p := j - 1;
    while p >= 0 && !Paid(txs, keys, p)
      invariant -1 <= p < j && forall k :: p < k < j ==> !Paid(txs, keys, k)
    {
      p := p - 1;
    }
    if j > p + m + 1 {
      assert Unpaid(txs, keys, m, p + m + 1);
    }
  }

  lemma {:induction false} MoreReachable(txs: seq<Tx>, keys: Keys, tx: Tx, j: nat)
    requires Reachable(txs, keys, j)
    ensures Reachable(txs + [tx], keys, j)
    decreases j
  {
    if j == 0 {
      StartReachable(txs + [tx], keys);
    } else {
      var i := LastStep(txs, keys, j);
      MoreReachable(txs, keys, tx, i);
      var k :| 0 <= k < |txs| && Touches(txs[k], keys(j));
      assert (txs + [tx])[k] == txs[k];
      StepReachable(txs + [tx], keys, i, j);
    }
  }

  /** An address closer than the gap limit to the last one within reach has one within reach in front of
      it that is closer than the limit. */
  lemma {:induction false} CloseBefore(txs: seq<Tx>, keys: Keys, r: nat, i: nat) returns (k: nat)
    requires Reachable(txs, keys, r) && 0 < i < r + SCANAHEAD
    ensures Reachable(txs, keys, k) && k < i < k + SCANAHEAD
    decreases r
  {
    if r < i {
      k := r;
    } else {
      var before := LastStep(txs, keys, r);
      k := CloseBefore(txs, keys, before, i);
    }
  }

  /** What another transaction does not touch below `i` it does not bring within reach. */
  lemma {:induction false} FewerReachable(txs: seq<Tx>, keys: Keys, tx: Tx, i: nat, j: nat)
    requires j < i && Reachable(txs + [tx], keys, j) && forall k :: 0 <= k < i ==> !Touches(tx, keys(k))
    ensures Reachable(txs, keys, j)
    decreases j
  {
    StartReachable(txs, keys);
    if j > 0 {
      var before := LastStep(txs + [tx], keys, j);
      FewerReachable(txs, keys, tx, i, before);
      var k :| 0 <= k < |txs + [tx]| && Touches((txs + [tx])[k], keys(j));
      assert k < |txs| && Touches(txs[k], keys(j));
      StepReachable(txs, keys, before, j);
    }
  }

  /** A payment to any address, which touches none below it, is seen by the next scan exactly if the address
      is closer than the gap limit to the last one that the scan before could reach. */
  lemma SeenIffClose(txs: seq<Tx>, keys: Keys, r: nat, i: nat, tx: Tx)
    requires LastReach(txs, keys, r) && Pays(tx, keys(i))
    ensures i < r + SCANAHEAD ==> Reachable(txs + [tx], keys, i)
    ensures (forall k :: 0 <= k < i ==> !Touches(tx, keys(k))) ==> (Reachable(txs + [tx], keys, i) <==> i < r + SCANAHEAD)
  {
    var more := txs + [tx];
    assert more[|txs|] == tx && Touches(tx, keys(i));
    assert Used(more, keys, i);
    StartReachable(more, keys);
    if 0 < i < r + SCANAHEAD {
      var k := CloseBefore(txs, keys, r, i);
      MoreReachable(txs, keys, tx, k);
      StepReachable(more, keys, k, i);
    }
    if i > 0 && Reachable(more, keys, i) && forall k :: 0 <= k < i ==> !Touches(tx, keys(k)) {
      var j := LastStep(more, keys, i);
      FewerReachable(txs, keys, tx, i, j);
    }
  }

  /** The addresses handed out for n up to 8 are that close, and so is address number nine. */
  lemma HandedOutClose(txs: seq<Tx>, keys: Keys, n: nat, r: nat, i: nat)
    requires FirstUnpaid(txs, keys, n % SCANAHEAD, i) && LastReach(txs, keys, r)
    ensures n % SCANAHEAD <= 8 || i == 9 ==> i < r + SCANAHEAD
  {
    var m := n % SCANAHEAD;
    if m <= 8 {
      var p := PaidBefore(txs, keys, m, i);
      if p >= 0 {
        PaidReachable(txs, keys, m, i, p);
      }
    }
  }

  /** A payment to an address that was handed out for n up to 8 is seen by the next scan. For n = 9 it is seen
      exactly if the address is closer than the gap limit to the last one within reach; with nothing used
      in the nine places in front of it, only if it is number nine. */
  lemma PaymentSeenIff(txs: seq<Tx>, keys: Keys, n: nat, r: nat, i: nat, tx: Tx)
    requires FirstUnpaid(txs, keys, n % SCANAHEAD, i) && LastReach(txs, keys, r) && Pays(tx, keys(i))
    ensures n % SCANAHEAD <= 8 || i < r + SCANAHEAD ==> Reachable(txs + [tx], keys, i)
    ensures (forall k :: 0 <= k < i ==> !Touches(tx, keys(k))) ==>
              (Reachable(txs + [tx], keys, i) <==> n % SCANAHEAD <= 8 || i < r + SCANAHEAD)
    ensures n % SCANAHEAD == 9 && (forall k :: i - 9 <= k < i ==> !Used(txs, keys, k)) ==> (i < r + SCANAHEAD <==> i == 9)
  {
    HandedOutClose(txs, keys, n, r, i);
    SeenIffClose(txs, keys, r, i, tx);
    if n % SCANAHEAD == 9 && i < r + SCANAHEAD && i > 9 {
      var k := CloseBefore(txs, keys, r, i);
      var before := LastStep(txs, keys, k);
    }
  }

  lemma OnlyFirstPaid(txs: seq<Tx>, keys: Keys)
    requires (forall k: nat :: Paid(txs, keys, k) ==> k == 0) && Paid(txs, keys, 0)
    ensures FirstUnpaid(txs, keys, 9, 10)
  {
    forall j: nat | 0 <= j < 10 ensures !Unpaid(txs, keys, 9, j) {
      assert j == 9 ==> !Unpaid(txs, keys, 9, j);
    }
  }

  lemma OnlyFirstUsed(txs: seq<Tx>, keys: Keys)
    requires forall k: nat :: Used(txs, keys, k) ==> k == 0
    ensures LastReach(txs, keys, 0)
  {
    LastReachIsFirstQuiet(txs, keys, 0);
  }

  /** The tenth unused address of a wallet whose first one is used: a payment to it is not seen. */
  lemma TenthUnseen(txs: seq<Tx>, keys: Keys, tx: Tx)
    requires (forall k: nat :: Used(txs, keys, k) ==> k == 0) && Paid(txs, keys, 0)
    requires forall k: nat :: Touches(tx, keys(k)) <==> k == 10
    requires Pays(tx, keys(10))
    ensures FirstUnpaid(txs, keys, 9, 10) && !Reachable(txs + [tx], keys, 10)
  {
    forall k: nat | Paid(txs, keys, k) ensures k == 0 {
      PaidIsUsed(txs, keys, k);
    }
    OnlyFirstPaid(txs, keys);
    OnlyFirstUsed(txs, keys);
    SeenIffClose(txs, keys, 0, 10, tx);
  }

  /** Keys of different lengths. */
  function Unary(i: nat): (s: set<bytes>)
  {
    {ZeroBytes(i)}
  }

  lemma TenthUnseenExample()
    ensures Separate(Unary)
    ensures FirstUnpaid([Tx(0, [], [Unary(0)])], Unary, 9, 10)
    ensures !Reachable([Tx(0, [], [Unary(0)]), Tx(1, [], [Unary(10)])], Unary, 10)
  {
    var first, tx := Tx(0, [], [Unary(0)]), Tx(1, [], [Unary(10)]);
    UnaryPayment(first, 0);
    UnaryPayment(tx, 10);
    assert [first][0] == first;
    assert Paid([first], Unary, 0);
    TenthUnseen([first], Unary, tx);
    assert [first] + [tx] == [first, tx];
  }

  lemma UnaryPayment(tx: Tx, i: nat)
    requires tx.inputs == [] && tx.outputs == [Unary(i)]
    ensures Pays(tx, Unary(i))
    ensures forall k: nat :: Touches(tx, Unary(k)) <==> k == i
  {
    assert ZeroBytes(i) in tx.outputs[0] && ZeroBytes(i) in Unary(i);
    forall k: nat | k != i ensures !Touches(tx, Unary(k)) {
      assert |ZeroBytes(k)| != |ZeroBytes(i)|;
    }
  }
}
