/** The guard against repeated last hashes (code/MerkleBlock.c:43-44): which honest proofs it refuses. */
module MerkleGuard {
  import opened Bytes
  import opened Arithmetic
  import opened MerkleTree
  import opened MerkleDecoder
  import opened MerkleBlock

  /** The nodes whose hashes a proof carries, left to right. */
  function Frontier(t: Tree): (ts: seq<Tree>)
  {
    if t.Leaf? || !Covers(t) then [t]
    else if t.Only? then Frontier(t.left)
    else Frontier(t.left) + Frontier(t.right)
  }

  function AllIds(ts: seq<Tree>): (ids: seq<bytes>)
  {
    if ts == [] then [] else AllIds(ts[..|ts| - 1]) + Ids(ts[|ts| - 1])
  }

  lemma {:induction false} AllIdsAppend(a: seq<Tree>, b: seq<Tree>)
    ensures AllIds(a + b) == AllIds(a) + AllIds(b)
    decreases |b|
  {
    if b == [] {
      assert a + b == a;
    } else {
      var b', t := b[..|b| - 1], b[|b| - 1];
      AllIdsAppend(a, b');
      var s := a + b;
      assert s[..|s| - 1] == a + b' && s[|s| - 1] == t;
      Regroup(AllIds(a), AllIds(b'), Ids(t));
    }
  }

  lemma Regroup(a: seq<bytes>, b: seq<bytes>, c: seq<bytes>)
    ensures (a + b) + c == a + (b + c)
  {
  }

  lemma AllIdsOne(t: Tree)
    ensures AllIds([t]) == Ids(t)
  {
    assert [t][..0] == [];
  }

  lemma {:induction false} FrontierHashes(hash256: bytes -> bytes, t: Tree)
    ensures |Hashes(hash256, t)| == |Frontier(t)|
    ensures forall i :: 0 <= i < |Frontier(t)| ==> Hashes(hash256, t)[i] == Hash(hash256, Frontier(t)[i])
  {
    if !t.Leaf? && Covers(t) {
      FrontierHashes(hash256, t.left);
      if t.Both? {
        FrontierHashes(hash256, t.right);
      }
    }
  }

  /** Its nodes divide the leaves among them. */
  lemma {:induction false} FrontierIds(t: Tree)
    ensures AllIds(Frontier(t)) == Ids(t)
  {
    if t.Leaf? || !Covers(t) {
      AllIdsOne(t);
    } else {
      FrontierIds(t.left);
      if t.Both? {
        FrontierIds(t.right);
        AllIdsAppend(Frontier(t.left), Frontier(t.right));
      }
    }
  }

  predicate Within(a: seq<bytes>, b: seq<bytes>)
  {
    forall x :: x in a ==> x in b
  }

  lemma {:induction false} FrontierInputs(hash256: bytes -> bytes, t: Tree, i: nat)
    requires i < |Frontier(t)|
    ensures Within(TreeInputs(hash256, Frontier(t)[i]), TreeInputs(hash256, t))
  {
    if !t.Leaf? && Covers(t) {
      if t.Only? || i < |Frontier(t.left)| {
        FrontierInputs(hash256, t.left, i);
      } else {
        FrontierInputs(hash256, t.right, i - |Frontier(t.left)|);
      }
    }
  }

  // ----- Two nodes with the same hash -----

  ghost predicate Shared(a: seq<bytes>, b: seq<bytes>)
  {
    exists x :: x in a && x in b
  }

  /** A transaction id that is the hash of an inner node. */
  ghost predicate Disguised(hash256: bytes -> bytes, ids: seq<bytes>, inputs: seq<bytes>)
  {
    exists x, y :: x in ids && y in inputs && hash256(y) == x
  }

  /** Why two nodes with leaves `ia`, `ib` and inputs `a`, `b` could have the same hash. */
  ghost predicate Explained(hash256: bytes -> bytes, ia: seq<bytes>, ib: seq<bytes>, a: seq<bytes>, b: seq<bytes>)
  {
    Shared(ia, ib) || Collision(hash256, a, b) || Disguised(hash256, ia, b) || Disguised(hash256, ib, a)
  }

  lemma ExplainedMore(hash256: bytes -> bytes, ia: seq<bytes>, ib: seq<bytes>, a: seq<bytes>, b: seq<bytes>,
                      ia': seq<bytes>, ib': seq<bytes>, a': seq<bytes>, b': seq<bytes>)
    requires Explained(hash256, ia, ib, a, b) && Within(ia, ia') && Within(ib, ib') && Within(a, a') && Within(b, b')
    ensures Explained(hash256, ia', ib', a', b')
  {
  }

  /** The string hashed for an inner node. */
  function Input(hash256: bytes -> bytes, t: Tree): (s: bytes)
    requires !t.Leaf?
  {
    Hash(hash256, t.left) + Hash(hash256, if t.Only? then t.left else t.right)
  }

  lemma BelowNode(hash256: bytes -> bytes, t: Tree)
    requires !t.Leaf?
    ensures Input(hash256, t) in TreeInputs(hash256, t) && Hash(hash256, t) == hash256(Input(hash256, t))
    ensures Within(Ids(t.left), Ids(t)) && Within(TreeInputs(hash256, t.left), TreeInputs(hash256, t))
  {
  }

  lemma {:induction false} EqualHashes(hash256: bytes -> bytes, s: Tree, t: Tree)
    requires Digest32(hash256) && AllOf32(Ids(s)) && AllOf32(Ids(t)) && Hash(hash256, s) == Hash(hash256, t)
    ensures Explained(hash256, Ids(s), Ids(t), TreeInputs(hash256, s), TreeInputs(hash256, t))
    decreases s
  {
    if s.Leaf? && t.Leaf? {
      assert s.id in Ids(s) && s.id in Ids(t);
    } else if s.Leaf? {
      BelowNode(hash256, t);
      assert s.id in Ids(s);
    } else if t.Leaf? {
      BelowNode(hash256, s);
      assert t.id in Ids(t);
    } else {
      BelowNode(hash256, s);
      BelowNode(hash256, t);
      if Input(hash256, s) == Input(hash256, t) {
        BelowIs32(s);
        BelowIs32(t);
        HashIs32(hash256, s.left);
        HashIs32(hash256, t.left);
        assert Hash(hash256, s.left) == Input(hash256, s)[..32] == Input(hash256, t)[..32] == Hash(hash256, t.left);
        EqualHashes(hash256, s.left, t.left);
        ExplainedMore(hash256, Ids(s.left), Ids(t.left), TreeInputs(hash256, s.left), TreeInputs(hash256, t.left),
                      Ids(s), Ids(t), TreeInputs(hash256, s), TreeInputs(hash256, t));
      }
    }
  }

  // ----- What the guard refuses -----

  predicate Distinct(ids: seq<bytes>)
  {
    forall i, j :: 0 <= i < j < |ids| ==> ids[i] != ids[j]
  }

  lemma NoneShared(front: seq<bytes>, a: seq<bytes>, b: seq<bytes>, ids: seq<bytes>)
    requires ids == front + a + b && Distinct(ids)
    ensures !Shared(a, b)
  {
    forall x | x in a ensures x !in b {
      var i :| 0 <= i < |a| && a[i] == x;
      forall j | 0 <= j < |b| ensures b[j] != x {
        assert ids[|front| + i] == x && ids[|front| + |a| + j] == b[j];
      }
    }
  }

  lemma LastTwo(ts: seq<Tree>)
    requires |ts| >= 2
    ensures AllIds(ts) == AllIds(ts[..|ts| - 2]) + Ids(ts[|ts| - 2]) + Ids(ts[|ts| - 1])
  {
    var front := ts[..|ts| - 1];
    assert front[..|front| - 1] == ts[..|ts| - 2];
  }

  lemma SplitOf32(front: seq<bytes>, a: seq<bytes>, b: seq<bytes>, ids: seq<bytes>)
    requires ids == front + a + b && AllOf32(ids)
    ensures AllOf32(a) && AllOf32(b) && Within(a, ids) && Within(b, ids)
  {
    forall i | 0 <= i < |a| ensures |a[i]| == 32 {
      assert ids[|front| + i] == a[i];
    }
    forall i | 0 <= i < |b| ensures |b[i]| == 32 {
      assert ids[|front| + |a| + i] == b[i];
    }
  }

  /** In a block without repeated ids, the guard refuses an honest proof only if the block itself exhibits a
      collision or has an id that is the hash of an inner node. */
  lemma GuardPasses(hash256: bytes -> bytes, txids: seq<bytes>, matched: seq<bool>)
    requires Digest32(hash256) && AllOf32(txids) && 1 <= |txids| == |matched| && Distinct(txids)
    ensures var t := BlockTree(txids, matched);
      || LastTwoDiffer(Hashes(hash256, t))
      || Collision(hash256, TreeInputs(hash256, t), TreeInputs(hash256, t))
      || Disguised(hash256, txids, TreeInputs(hash256, t))
  {
    var t := BlockTree(txids, matched);
    BuildShape(txids, matched, Height(|txids|));
    FrontierHashes(hash256, t);
    FrontierIds(t);
    if !LastTwoDiffer(Hashes(hash256, t)) {
      RepeatExplained(hash256, txids, t, Frontier(t));
    }
  }

  lemma RepeatExplained(hash256: bytes -> bytes, txids: seq<bytes>, t: Tree, ts: seq<Tree>)
    requires Digest32(hash256) && AllOf32(txids) && Distinct(txids) && ts == Frontier(t) && AllIds(ts) == txids
    requires |ts| >= 2 && Hash(hash256, ts[|ts| - 2]) == Hash(hash256, ts[|ts| - 1])
    ensures Collision(hash256, TreeInputs(hash256, t), TreeInputs(hash256, t)) || Disguised(hash256, txids, TreeInputs(hash256, t))
  {
    var n := |ts| - 2;
    var a, b := ts[n], ts[n + 1];
    LastTwo(ts);
    SplitOf32(AllIds(ts[..n]), Ids(a), Ids(b), txids);
    NoneShared(AllIds(ts[..n]), Ids(a), Ids(b), txids);
    EqualHashes(hash256, a, b);
    FrontierInputs(hash256, t, n);
    FrontierInputs(hash256, t, n + 1);
  }

  lemma TwoHashes(hash256: bytes -> bytes, x: bytes)
    ensures Hashes(hash256, BlockTree([x, x], [true, true])) == [x, x] && Flags(BlockTree([x, x], [true, true])) == [true, true, true]
  {
    HeightOfTwo();
    var t := BlockTree([x, x], [true, true]);
    assert [x, x][..1] == [x] && [x, x][1..] == [x] && [true, true][..1] == [true] && [true, true][1..] == [true];
    assert t == Both(Leaf(x, true), Leaf(x, true));
    assert Covers(t.left) && Covers(t);
    assert Hashes(hash256, t.left) == [x] && Hashes(hash256, t.right) == [x];
  }

  lemma HeightOfTwo()
    ensures Height(2) == 1 && Pow(2, 0) == 1
  {
    assert Pow(2, 1) == 2;
  }

  /** A block of one id twice, both asked for: the honest proof is refused. */
  lemma RepeatedIdRefused(hash256: bytes -> bytes, header: bytes, x: bytes)
    requires Digest32(hash256) && |x| == 32
    requires |header| == 80 && header[36..68] == MerkleRoot(hash256, [x, x])
    ensures ProofFits(hash256, [x, x], [true, true]) && Readable(HonestMessage(hash256, header, [x, x], [true, true]))
    ensures MatchingTxIds(hash256, HonestMessage(hash256, header, [x, x], [true, true])) == []
  {
    TwoHashes(hash256, x);
    SmallMessage(header, x);
    Completeness(hash256, header, [x, x], [true, true]);
  }

  lemma SmallMessage(header: bytes, x: bytes)
    requires |header| == 80 && |x| == 32
    ensures |PackFlags([true, true, true])| == 1 && |Message(header, 2, [x, x], PackFlags([true, true, true]))| <= MAX_BACKLOG
  {
    var flags := PackFlags([true, true, true]);
    SlicesOfConcat([x, x], []);
  }
}
