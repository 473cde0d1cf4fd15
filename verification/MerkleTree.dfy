/** Transaction Merkle trees, and the partial-tree flags and hashes that section
    "Partial Merkle branch format" of BIP 37 builds from them. */
module MerkleTree {
  import opened Arithmetic
  import opened Bytes

  /** A tree over transaction ids, each marked as matched or not. `Only` is an inner node whose
      right child is missing; its hash repeats the left child. */
  datatype Tree = Leaf(id: bytes, matched: bool) | Only(left: Tree) | Both(left: Tree, right: Tree)

  /** Every leaf sits at depth `height` and no child is missing. */
  predicate Perfect(t: Tree, height: nat)
  {
    match t
    case Leaf(_, _) => height == 0
    case Only(_) => false
    case Both(l, r) => height > 0 && Perfect(l, height - 1) && Perfect(r, height - 1)
  }

  /** Every leaf sits at depth `height` and children are missing only along the right edge. */
  predicate Fits(t: Tree, height: nat)
  {
    match t
    case Leaf(_, _) => height == 0
    case Only(l) => height > 0 && Fits(l, height - 1)
    case Both(l, r) => height > 0 && Perfect(l, height - 1) && Fits(r, height - 1)
  }

  lemma PerfectFits(t: Tree, height: nat)
    requires Perfect(t, height)
    ensures Fits(t, height)
  {
  }

  function Hash(hash256: bytes -> bytes, t: Tree): (h: bytes)
  {
    match t
    case Leaf(id, _) => id
    case Only(l) => hash256(Hash(hash256, l) + Hash(hash256, l))
    case Both(l, r) => hash256(Hash(hash256, l) + Hash(hash256, r))
  }

  /** Every string hashed at or below the node. */
  function TreeInputs(hash256: bytes -> bytes, t: Tree): (s: seq<bytes>)
  {
    match t
    case Leaf(_, _) => []
    case Only(l) => [Hash(hash256, l) + Hash(hash256, l)] + TreeInputs(hash256, l)
    case Both(l, r) => [Hash(hash256, l) + Hash(hash256, r)] + TreeInputs(hash256, l) + TreeInputs(hash256, r)
  }

  /** The leaves, left to right. */
  function Ids(t: Tree): (ids: seq<bytes>)
  {
    match t
    case Leaf(id, _) => [id]
    case Only(l) => Ids(l)
    case Both(l, r) => Ids(l) + Ids(r)
  }

  /** The matched leaves, left to right. */
  function Picked(t: Tree): (ids: seq<bytes>)
  {
    match t
    case Leaf(id, m) => if m then [id] else []
    case Only(l) => Picked(l)
    case Both(l, r) => Picked(l) + Picked(r)
  }

  /** A match, or the parent of a match. */
  predicate Covers(t: Tree)
  {
    match t
    case Leaf(_, m) => m
    case Only(l) => Covers(l)
    case Both(l, r) => Covers(l) || Covers(r)
  }

  /** The flag bits, depth first. */
  function Flags(t: Tree): (bits: seq<bool>)
  {
    if t.Leaf? || !Covers(t) then [Covers(t)]
    else if t.Only? then [true] + Flags(t.left)
    else [true] + Flags(t.left) + Flags(t.right)
  }

  /** The hashes, depth first. */
  function Hashes(hash256: bytes -> bytes, t: Tree): (hs: seq<bytes>)
  {
    if t.Leaf? || !Covers(t) then [Hash(hash256, t)]
    else if t.Only? then Hashes(hash256, t.left)
    else Hashes(hash256, t.left) + Hashes(hash256, t.right)
  }

  lemma UncoveredPicksNothing(t: Tree)
    requires !Covers(t)
    ensures Picked(t) == []
  {
  }

  // ----- The tree of a block -----

  /** Height of the root over `n` leaves: the least h with n <= 2^h. */
  function Height(n: nat): (h: nat)
    ensures n <= Pow(2, h)
    ensures h > 0 ==> Pow(2, h - 1) < n
  {
    HeightFrom(n, 0)
  }

  function HeightFrom(n: nat, h: nat): (r: nat)
    requires h > 0 ==> Pow(2, h - 1) < n
    ensures r >= h && n <= Pow(2, r)
    ensures r > 0 ==> Pow(2, r - 1) < n
    decreases n - Pow(2, h)
  {
    if n <= Pow(2, h) then h else HeightFrom(n, h + 1)
  }

  /** The tree over `ids`: the left child takes the first 2^(height-1) leaves. */
  function Build(ids: seq<bytes>, matched: seq<bool>, height: nat): (t: Tree)
    requires 1 <= |ids| == |matched| <= Pow(2, height)
    decreases height
  {
    if height == 0 then Leaf(ids[0], matched[0])
    else
      var half := Pow(2, height - 1);
      if |ids| <= half then Only(Build(ids, matched, height - 1))
      else Both(Build(ids[..half], matched[..half], height - 1), Build(ids[half..], matched[half..], height - 1))
  }

  /** The tree of a block with the given transaction ids. */
  function BlockTree(ids: seq<bytes>, matched: seq<bool>): (t: Tree)
    requires 1 <= |ids| == |matched|
  {
    Build(ids, matched, Height(|ids|))
  }

  /** The matched ids, in their order in the block. */
  function Selected(ids: seq<bytes>, matched: seq<bool>): (s: seq<bytes>)
    requires |matched| == |ids|
  {
    if ids == [] then []
    else (if matched[0] then [ids[0]] else []) + Selected(ids[1..], matched[1..])
  }

  lemma {:induction false} SelectedAppend(a: seq<bytes>, ma: seq<bool>, b: seq<bytes>, mb: seq<bool>)
    requires |a| == |ma| && |b| == |mb|
    ensures Selected(a + b, ma + mb) == Selected(a, ma) + Selected(b, mb)
  {
    if a == [] {
      assert a + b == b && ma + mb == mb;
    } else {
      var s, m := a + b, ma + mb;
      assert s[0] == a[0] && s[1..] == a[1..] + b;
      assert m[0] == ma[0] && m[1..] == ma[1..] + mb;
      SelectedAppend(a[1..], ma[1..], b, mb);
    }
  }

  /** Build puts the ids at the leaves in order, with missing children only on the right edge. */
  lemma {:induction false} BuildShape(ids: seq<bytes>, matched: seq<bool>, height: nat)
    requires 1 <= |ids| == |matched| <= Pow(2, height)
    ensures var t := Build(ids, matched, height);
            Fits(t, height) && Ids(t) == ids && Picked(t) == Selected(ids, matched)
    ensures |ids| == Pow(2, height) ==> Perfect(Build(ids, matched, height), height)
    decreases height
  {
    if height == 0 {
      assert Selected(ids[1..], matched[1..]) == [];
    } else {
      var half := Pow(2, height - 1);
      if |ids| <= half {
        BuildShape(ids, matched, height - 1);
      } else {
        BuildShape(ids[..half], matched[..half], height - 1);
        BuildShape(ids[half..], matched[half..], height - 1);
        SelectedAppend(ids[..half], matched[..half], ids[half..], matched[half..]);
        assert ids == ids[..half] + ids[half..] && matched == matched[..half] + matched[half..];
      }
    }
  }

  // ----- The level-by-level definition of the root -----

  /** One level up: pairs are hashed, an odd last node with itself. */
  function Level(hash256: bytes -> bytes, nodes: seq<bytes>): (up: seq<bytes>)
    ensures |up| == (|nodes| + 1) / 2
  {
    if nodes == [] then []
    else if |nodes| == 1 then [hash256(nodes[0] + nodes[0])]
    else [hash256(nodes[0] + nodes[1])] + Level(hash256, nodes[2..])
  }

  /** The root as a miner computes it, level by level, until one node is left. */
  function MerkleRoot(hash256: bytes -> bytes, nodes: seq<bytes>): (root: bytes)
    requires nodes != []
    decreases |nodes|
  {
    if |nodes| == 1 then nodes[0] else MerkleRoot(hash256, Level(hash256, nodes))
  }

  lemma {:induction false} LevelAppend(hash256: bytes -> bytes, a: seq<bytes>, b: seq<bytes>)
    requires |a| % 2 == 0
    ensures Level(hash256, a + b) == Level(hash256, a) + Level(hash256, b)
  {
    if a == [] {
      assert a + b == b;
    } else {
      var s := a + b;
      assert s[0] == a[0] && s[1] == a[1] && s[2..] == a[2..] + b;
      LevelAppend(hash256, a[2..], b);
    }
  }

  /** The root of the tree over `ids`, top down. */
  function Root(hash256: bytes -> bytes, ids: seq<bytes>, height: nat): (h: bytes)
    requires 1 <= |ids| <= Pow(2, height)
    decreases height
  {
    if height == 0 then ids[0]
    else
      var half := Pow(2, height - 1);
      if |ids| <= half then hash256(Root(hash256, ids, height - 1) + Root(hash256, ids, height - 1))
      else hash256(Root(hash256, ids[..half], height - 1) + Root(hash256, ids[half..], height - 1))
  }

  lemma {:induction false} HashOfBuild(hash256: bytes -> bytes, ids: seq<bytes>, matched: seq<bool>, height: nat)
    requires 1 <= |ids| == |matched| <= Pow(2, height)
    ensures Hash(hash256, Build(ids, matched, height)) == Root(hash256, ids, height)
    decreases height
  {
    if height > 0 {
      var half := Pow(2, height - 1);
      if |ids| <= half {
        HashOfBuild(hash256, ids, matched, height - 1);
      } else {
        HashOfBuild(hash256, ids[..half], matched[..half], height - 1);
        HashOfBuild(hash256, ids[half..], matched[half..], height - 1);
      }
    }
  }

  lemma LevelFits(hash256: bytes -> bytes, ids: seq<bytes>, height: nat)
    requires height > 0 && 1 <= |ids| <= Pow(2, height)
    ensures 1 <= |Level(hash256, ids)| <= Pow(2, height - 1)
  {
  }

  lemma RootOfPair(hash256: bytes -> bytes, ids: seq<bytes>)
    requires 1 <= |ids| <= 2
    ensures Pow(2, 0) == 1 && Pow(2, 1) == 2
    ensures Root(hash256, Level(hash256, ids), 0) == Root(hash256, ids, 1)
  {
    assert Pow(2, 1) == 2 * Pow(2, 0);
  }

  /** Going up one level first and building the lower tree above it gives the same root. */
  lemma {:induction false} RootOfLevel(hash256: bytes -> bytes, ids: seq<bytes>, height: nat)
    requires height > 0 && 1 <= |ids| <= Pow(2, height)
    ensures |Level(hash256, ids)| <= Pow(2, height - 1)
    ensures Root(hash256, Level(hash256, ids), height - 1) == Root(hash256, ids, height)
    decreases height
  {
    LevelFits(hash256, ids, height);
    if height == 1 {
      assert Pow(2, 1) == 2 * Pow(2, 0);
      RootOfPair(hash256, ids);
    } else {
      var half := Pow(2, height - 1);
      if |ids| <= half {
        RootOfLevel(hash256, ids, height - 1);
        RootRepeat(hash256, Level(hash256, ids), height - 1);
        RootRepeat(hash256, ids, height);
      } else {
        assert ids == ids[..half] + ids[half..];
        RootOfLevelFork(hash256, ids[..half], ids[half..], height);
      }
    }
  }

  lemma {:induction false} RootOfLevelFork(hash256: bytes -> bytes, l: seq<bytes>, r: seq<bytes>, height: nat)
    requires height > 1 && |l| == Pow(2, height - 1) && 1 <= |r| <= Pow(2, height - 1)
    ensures |Level(hash256, l + r)| <= Pow(2, height - 1)
    ensures Root(hash256, Level(hash256, l + r), height - 1) == Root(hash256, l + r, height)
    decreases height, 0
  {
    LevelAppend(hash256, l, r);
    RootOfLevel(hash256, l, height - 1);
    RootOfLevel(hash256, r, height - 1);
    RootForkOfLevel(hash256, l, r, Level(hash256, l), Level(hash256, r), height);
  }

  lemma RootRepeat(hash256: bytes -> bytes, ids: seq<bytes>, height: nat)
    requires height > 0 && 1 <= |ids| <= Pow(2, height - 1)
    ensures Root(hash256, ids, height) == hash256(Root(hash256, ids, height - 1) + Root(hash256, ids, height - 1))
  {
  }

  lemma RootForkOfLevel(hash256: bytes -> bytes, l: seq<bytes>, r: seq<bytes>, ul: seq<bytes>, ur: seq<bytes>, height: nat)
    requires height > 1 && |l| == Pow(2, height - 1) && |ul| == Pow(2, height - 2)
    requires 1 <= |r| <= Pow(2, height - 1) && 1 <= |ur| <= Pow(2, height - 2)
    requires Root(hash256, ul, height - 2) == Root(hash256, l, height - 1)
    requires Root(hash256, ur, height - 2) == Root(hash256, r, height - 1)
    ensures Root(hash256, ul + ur, height - 1) == Root(hash256, l + r, height)
  {
    RootFork(hash256, l, r, height);
    RootFork(hash256, ul, ur, height - 1);
  }

  lemma RootFork(hash256: bytes -> bytes, l: seq<bytes>, r: seq<bytes>, height: nat)
    requires height > 0 && |l| == Pow(2, height - 1) && 1 <= |r| <= Pow(2, height - 1)
    ensures Root(hash256, l + r, height) == hash256(Root(hash256, l, height - 1) + Root(hash256, r, height - 1))
  {
    assert (l + r)[..|l|] == l && (l + r)[|l|..] == r;
  }

  lemma {:induction false} RootIsMerkleRoot(hash256: bytes -> bytes, ids: seq<bytes>, height: nat)
    requires 1 <= |ids| <= Pow(2, height)
    requires height > 0 ==> Pow(2, height - 1) < |ids|
    ensures Root(hash256, ids, height) == MerkleRoot(hash256, ids)
    decreases height
  {
    if height > 0 {
      RootOfLevel(hash256, ids, height);
      RootIsMerkleRoot(hash256, Level(hash256, ids), height - 1);
    }
  }

  /** The tree of a block hashes to the level-by-level root. */
  lemma BlockTreeRoot(hash256: bytes -> bytes, ids: seq<bytes>, matched: seq<bool>)
    requires 1 <= |ids| == |matched|
    ensures Hash(hash256, BlockTree(ids, matched)) == MerkleRoot(hash256, ids)
  {
    HashOfBuild(hash256, ids, matched, Height(|ids|));
    RootIsMerkleRoot(hash256, ids, Height(|ids|));
  }
}
