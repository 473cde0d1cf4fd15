/** The position-free decoder of code/MerkleBlock.c:202-248. It keeps neither position nor
    width: it always looks for a right child and takes "nothing came back" to mean that the
    left child is repeated. */
module MerkleDecoder {
  import opened Arithmetic
  import opened Bytes
  import opened MerkleTree

  /** The shape of one run of the decoder. The hash list may run dry, hence the options. */
  datatype Proof =
    | Absent                         // the flags were used up
    | Skipped(hash: Option<bytes>)   // flag 0
    | Matched(hash: Option<bytes>)   // flag 1 at height 0
    | Inner(left: Proof, right: Proof)

  /** What a call leaves behind: what it saw, the unread flag bits and the unused hashes. */
  datatype Run = Run(proof: Proof, bits: seq<bool>, hashes: seq<bytes>)

  function First(hashes: seq<bytes>): (h: Option<bytes>)
  {
    if hashes == [] then None else Some(hashes[0])
  }

  function Rest(hashes: seq<bytes>): (hs: seq<bytes>)
  {
    if hashes == [] then [] else hashes[1..]
  }

  function Decode(bits: seq<bool>, hashes: seq<bytes>, height: nat): (run: Run)
    decreases height
  {
    if bits == [] then Run(Absent, bits, hashes)
    else if !bits[0] then Run(Skipped(First(hashes)), bits[1..], Rest(hashes))
    else if height == 0 then Run(Matched(First(hashes)), bits[1..], Rest(hashes))
    else
      var left := Decode(bits[1..], hashes, height - 1);
      var right := Decode(left.bits, left.hashes, height - 1);
      Run(Inner(left.proof, right.proof), right.bits, right.hashes)
  }

  /** The bytes that a copy of a possibly null object contributes. */
  function Contents(d: Option<bytes>): (s: bytes)
  {
    if d.Some? then d.value else []
  }

  /** The string hashed for a flagged inner node. */
  function Pair(left: Option<bytes>, right: Option<bytes>): (s: bytes)
  {
    Contents(left) + Contents(if right.None? then left else right)
  }

  /** What the decoder returns. */
  function Result(hash256: bytes -> bytes, p: Proof): (root: Option<bytes>)
  {
    match p
    case Absent => None
    case Skipped(h) => h
    case Matched(h) => h
    case Inner(l, r) => Some(hash256(Pair(Result(hash256, l), Result(hash256, r))))
  }

  /** What the decoder appends to its list of matches. */
  function Matches(p: Proof): (m: seq<Option<bytes>>)
  {
    match p
    case Absent => []
    case Skipped(_) => []
    case Matched(h) => [h]
    case Inner(l, r) => Matches(l) + Matches(r)
  }

  /** Every string that the decoder hashes. */
  function Inputs(hash256: bytes -> bytes, p: Proof): (s: seq<bytes>)
  {
    if p.Inner?
    then [Pair(Result(hash256, p.left), Result(hash256, p.right))] + Inputs(hash256, p.left) + Inputs(hash256, p.right)
    else []
  }

  // ----- Completeness -----

  predicate AllClear(bits: seq<bool>)
  {
    forall i :: 0 <= i < |bits| ==> !bits[i]
  }

  function Wrap(ids: seq<bytes>): (s: seq<Option<bytes>>)
    ensures |s| == |ids|
    ensures forall i :: 0 <= i < |ids| ==> s[i] == Some(ids[i])
  {
    seq(|ids|, i requires 0 <= i < |ids| => Some(ids[i]))
  }

  /** Once only padding is left, looking for a right child finds nothing. */
  lemma DecodePadding(hash256: bytes -> bytes, bits: seq<bool>, height: nat)
    requires AllClear(bits)
    ensures var run := Decode(bits, [], height);
            && Result(hash256, run.proof) == None && Matches(run.proof) == []
            && run.hashes == [] && AllClear(run.bits)
  {
  }

  /** An honest proof of `t`. */
  ghost predicate Proves(hash256: bytes -> bytes, p: Proof, t: Tree)
  {
    Result(hash256, p) == Some(Hash(hash256, t)) && Matches(p) == Wrap(Picked(t))
  }

  /** The run over an honest proof of `t`, when `bits` and `hashes` follow it. */
  ghost predicate Honest(run: Run, hash256: bytes -> bytes, t: Tree, height: nat, bits: seq<bool>, hashes: seq<bytes>)
  {
    && Proves(hash256, run.proof, t)
    && run.hashes == hashes
    && (Perfect(t, height) ==> run.bits == bits)
    && (AllClear(bits) ==> AllClear(run.bits))
  }

  /** On the flags and hashes that BIP 37 builds for a tree, the decoder returns the hash of the
      tree and the matched ids in order, and stops where the tree stops. A tree with missing
      children must end the stream: only padding may follow it. */
  lemma {:induction false} DecodeHonest(hash256: bytes -> bytes, t: Tree, height: nat, bits: seq<bool>, hashes: seq<bytes>)
    requires Fits(t, height)
    requires Perfect(t, height) || (hashes == [] && AllClear(bits))
    ensures Honest(Decode(Flags(t) + bits, Hashes(hash256, t) + hashes, height), hash256, t, height, bits, hashes)
    decreases t
  {
    if t.Leaf? || !Covers(t) {
      DecodeStop(hash256, t, height, bits, hashes);
    } else if t.Only? {
      var lf := Flags(t.left) + bits;
      DecodeHonest(hash256, t.left, height - 1, bits, hashes);
      assert Flags(t) + bits == [true] + lf;
      DecodeOnly(hash256, t, height, bits, lf, Hashes(hash256, t.left) + hashes);
    } else {
      PerfectFits(t.left, height - 1);
      var rf, rh := Flags(t.right) + bits, Hashes(hash256, t.right) + hashes;
      var lf, lh := Flags(t.left) + rf, Hashes(hash256, t.left) + rh;
      DecodeHonest(hash256, t.right, height - 1, bits, hashes);
      DecodeHonest(hash256, t.left, height - 1, rf, rh);
      DecodeBoth(hash256, t, height, bits, hashes, lf, lh, rf, rh);
      StreamBoth(hash256, t, bits, hashes);
    }
  }

  lemma DecodeStop(hash256: bytes -> bytes, t: Tree, height: nat, bits: seq<bool>, hashes: seq<bytes>)
    requires Fits(t, height) && (t.Leaf? || !Covers(t))
    ensures Honest(Decode(Flags(t) + bits, Hashes(hash256, t) + hashes, height), hash256, t, height, bits, hashes)
  {
    var fs, hs := Flags(t) + bits, Hashes(hash256, t) + hashes;
    assert fs[1..] == bits && hs[1..] == hashes;
    UncoveredUnlessLeaf(t);
  }

  lemma StreamBoth(hash256: bytes -> bytes, t: Tree, bits: seq<bool>, hashes: seq<bytes>)
    requires t.Both? && Covers(t)
    ensures Flags(t) + bits == [true] + (Flags(t.left) + (Flags(t.right) + bits))
    ensures Hashes(hash256, t) + hashes == Hashes(hash256, t.left) + (Hashes(hash256, t.right) + hashes)
  {
  }

  /** A missing right child costs at most one padding bit. */
  lemma DecodeOnly(hash256: bytes -> bytes, t: Tree, height: nat, bits: seq<bool>, lf: seq<bool>, lh: seq<bytes>)
    requires t.Only? && height > 0 && AllClear(bits)
    requires Honest(Decode(lf, lh, height - 1), hash256, t.left, height - 1, bits, [])
    ensures Honest(Decode([true] + lf, lh, height), hash256, t, height, bits, [])
  {
    var left := Decode(lf, lh, height - 1);
    var right := Decode(left.bits, left.hashes, height - 1);
    DecodePadding(hash256, left.bits, height - 1);
    assert ([true] + lf)[1..] == lf;
    assert Decode([true] + lf, lh, height) == Run(Inner(left.proof, right.proof), right.bits, right.hashes);
  }

  lemma DecodeBoth(hash256: bytes -> bytes, t: Tree, height: nat, bits: seq<bool>, hashes: seq<bytes>,
                   lf: seq<bool>, lh: seq<bytes>, rf: seq<bool>, rh: seq<bytes>)
    requires t.Both? && height > 0 && Perfect(t.left, height - 1)
    requires Honest(Decode(lf, lh, height - 1), hash256, t.left, height - 1, rf, rh)
    requires Honest(Decode(rf, rh, height - 1), hash256, t.right, height - 1, bits, hashes)
    ensures Honest(Decode([true] + lf, lh, height), hash256, t, height, bits, hashes)
  {
    var left, right := Decode(lf, lh, height - 1), Decode(rf, rh, height - 1);
    ProvesBoth(hash256, left.proof, right.proof, t);
    assert ([true] + lf)[1..] == lf;
    assert Decode([true] + lf, lh, height) == Run(Inner(left.proof, right.proof), right.bits, right.hashes);
  }

  lemma ProvesBoth(hash256: bytes -> bytes, left: Proof, right: Proof, t: Tree)
    requires t.Both? && Proves(hash256, left, t.left) && Proves(hash256, right, t.right)
    ensures Proves(hash256, Inner(left, right), t)
  {
    assert Wrap(Picked(t)) == Wrap(Picked(t.left)) + Wrap(Picked(t.right));
  }

  lemma UncoveredUnlessLeaf(t: Tree)
    ensures t.Leaf? || !Covers(t) ==> Picked(t) == if Covers(t) then [t.id] else []
  {
    if !Covers(t) {
      UncoveredPicksNothing(t);
    }
  }

  // ----- Soundness -----

  ghost predicate AllOf32(hs: seq<bytes>)
  {
    forall i :: 0 <= i < |hs| ==> |hs[i]| == 32
  }

  ghost predicate Digest32(hash256: bytes -> bytes)
  {
    forall s: bytes :: |hash256(s)| == 32
  }

  predicate Is32(d: Option<bytes>)
  {
    d.Some? ==> |d.value| == 32
  }

  /** A run at `height` over 32-byte hashes: matches are reported at height 0 only. */
  predicate Shaped(p: Proof, height: nat)
  {
    match p
    case Absent => true
    case Skipped(h) => Is32(h)
    case Matched(h) => height == 0 && Is32(h)
    case Inner(l, r) => height > 0 && Shaped(l, height - 1) && Shaped(r, height - 1)
  }

  lemma {:induction false} DecodeShaped(bits: seq<bool>, hashes: seq<bytes>, height: nat)
    requires AllOf32(hashes)
    ensures Shaped(Decode(bits, hashes, height).proof, height)
    ensures AllOf32(Decode(bits, hashes, height).hashes)
    decreases height
  {
    if bits != [] && bits[0] && height > 0 {
      var left := Decode(bits[1..], hashes, height - 1);
      DecodeShaped(bits[1..], hashes, height - 1);
      DecodeShaped(left.bits, left.hashes, height - 1);
    }
  }

  /** Two different strings, one hashed by the decoder and one by the real tree, with equal hashes. */
  ghost predicate Collision(hash256: bytes -> bytes, a: seq<bytes>, b: seq<bytes>)
  {
    exists x, y :: x in a && y in b && x != y && hash256(x) == hash256(y)
  }

  ghost predicate Genuine(matches: seq<Option<bytes>>, ids: seq<bytes>)
  {
    forall m :: Some(m) in matches ==> m in ids
  }

  lemma HashIs32(hash256: bytes -> bytes, t: Tree)
    requires Digest32(hash256) && AllOf32(Ids(t))
    ensures |Hash(hash256, t)| == 32
  {
    match t
    case Leaf(id, _) => assert Ids(t)[0] == id;
    case Only(_) =>
    case Both(_, _) =>
  }

  lemma ResultIs32(hash256: bytes -> bytes, p: Proof, height: nat)
    requires Digest32(hash256) && Shaped(p, height)
    ensures Is32(Result(hash256, p))
    ensures Result(hash256, p).None? ==> Genuine(Matches(p), [])
  {
  }

  /** Whatever the flags and hashes are: if the decoder arrives at the hash of the real tree, then
      each id that it reports is a leaf of that tree, or it has hashed one half of a collision
      whose other half is in the tree. */
  lemma {:induction false} ResultSound(hash256: bytes -> bytes, p: Proof, t: Tree, height: nat)
    requires Digest32(hash256) && AllOf32(Ids(t)) && Shaped(p, height) && Fits(t, height)
    requires Result(hash256, p) == Some(Hash(hash256, t))
    ensures Genuine(Matches(p), Ids(t)) || Collision(hash256, Inputs(hash256, p), TreeInputs(hash256, t))
    decreases p
  {
    if p.Inner? {
      // Where the right child is missing, the second call is measured against the left one.
      var l, r := t.left, if t.Only? then t.left else t.right;
      BelowIs32(t);
      if t.Both? {
        PerfectFits(l, height - 1);
      }
      HashIs32(hash256, l);
      HashIs32(hash256, r);
      ResultIs32(hash256, p.left, height - 1);
      ResultIs32(hash256, p.right, height - 1);
      var x, y := Pair(Result(hash256, p.left), Result(hash256, p.right)), Hash(hash256, l) + Hash(hash256, r);
      if x == y {
        SplitPair(Result(hash256, p.left), Result(hash256, p.right), Hash(hash256, l), Hash(hash256, r));
        ResultSound(hash256, p.left, l, height - 1);
        if Result(hash256, p.right).Some? {
          ResultSound(hash256, p.right, r, height - 1);
        }
      }
      SoundJoin(hash256, p, t, l, r);
    }
  }

  lemma BelowIs32(t: Tree)
    requires AllOf32(Ids(t))
    ensures !t.Leaf? ==> AllOf32(Ids(t.left))
    ensures t.Both? ==> AllOf32(Ids(t.right))
  {
    if t.Both? {
      var a, b := Ids(t.left), Ids(t.right);
      assert forall i :: 0 <= i < |a| ==> a[i] == Ids(t)[i];
      assert forall i :: 0 <= i < |b| ==> b[i] == Ids(t)[|a| + i];
    }
  }

  lemma SoundJoin(hash256: bytes -> bytes, p: Proof, t: Tree, l: Tree, r: Tree)
    requires p.Inner? && !t.Leaf? && l == t.left && r == if t.Only? then t.left else t.right
    requires Result(hash256, p) == Some(Hash(hash256, t))
    requires Pair(Result(hash256, p.left), Result(hash256, p.right)) == Hash(hash256, l) + Hash(hash256, r) ==>
               && (Genuine(Matches(p.left), Ids(l)) || Collision(hash256, Inputs(hash256, p.left), TreeInputs(hash256, l)))
               && (|| Genuine(Matches(p.right), [])
                   || Genuine(Matches(p.right), Ids(r))
                   || Collision(hash256, Inputs(hash256, p.right), TreeInputs(hash256, r)))
    ensures Genuine(Matches(p), Ids(t)) || Collision(hash256, Inputs(hash256, p), TreeInputs(hash256, t))
  {
    var x, y := Pair(Result(hash256, p.left), Result(hash256, p.right)), Hash(hash256, l) + Hash(hash256, r);
    var mine, tree := Inputs(hash256, p), TreeInputs(hash256, t);
    if x != y {
      assert x in mine && y in tree;
    } else if Collision(hash256, Inputs(hash256, p.left), TreeInputs(hash256, l)) {
      CollisionIn(hash256, Inputs(hash256, p.left), TreeInputs(hash256, l), mine, tree);
    } else if Collision(hash256, Inputs(hash256, p.right), TreeInputs(hash256, r)) {
      CollisionIn(hash256, Inputs(hash256, p.right), TreeInputs(hash256, r), mine, tree);
    }
  }

  lemma CollisionIn(hash256: bytes -> bytes, a: seq<bytes>, b: seq<bytes>, a': seq<bytes>, b': seq<bytes>)
    requires Collision(hash256, a, b)
    requires forall x :: x in a ==> x in a'
    requires forall y :: y in b ==> y in b'
    ensures Collision(hash256, a', b')
  {
  }

  /** A 64-byte pair determines both halves. */
  lemma SplitPair(left: Option<bytes>, right: Option<bytes>, a: bytes, b: bytes)
    requires |a| == 32 && |b| == 32 && Is32(left) && Is32(right)
    requires Pair(left, right) == a + b
    ensures left == Some(a)
    ensures right.Some? ==> right == Some(b)
  {
    var s := Pair(left, right);
    assert |s| == 64;
    assert s[..32] == a && s[32..] == b;
  }
}
