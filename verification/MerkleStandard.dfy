/** What section "Partial Merkle branch format" of BIP 37 says of the bytes: how a root is computed, how flags are
    packed and what a message carries (code/MerkleBlock.c:85-195). */
module MerkleStandard {
  import opened Bytes
  import opened Wire
  import opened Arithmetic
  import opened MerkleTree
  import opened MerkleDecoder
  import opened MerkleBlock

  // ----- Roots -----

  /** Each node of the next level is the hash of two neighbours, the last one of an odd level of itself twice. */
  lemma {:induction false} LevelNode(hash256: bytes -> bytes, nodes: seq<bytes>, i: nat)
    requires 2 * i < |nodes|
    ensures Level(hash256, nodes)[i] == hash256(nodes[2 * i] + if 2 * i + 1 < |nodes| then nodes[2 * i + 1] else nodes[2 * i])
    decreases |nodes|
  {
    if i > 0 {
      LevelNode(hash256, nodes[2..], i - 1);
    }
  }

  lemma RootOfOne(hash256: bytes -> bytes, a: bytes)
    ensures MerkleRoot(hash256, [a]) == a
  {
  }

  lemma RootOfThree(hash256: bytes -> bytes, a: bytes, b: bytes, c: bytes)
    ensures MerkleRoot(hash256, [a, b, c]) == hash256(hash256(a + b) + hash256(c + c))
  {
    var up := [hash256(a + b), hash256(c + c)];
    LevelNode(hash256, [a, b, c], 0);
    LevelNode(hash256, [a, b, c], 1);
    assert Level(hash256, [a, b, c]) == up;
    LevelNode(hash256, up, 0);
    var top := [hash256(up[0] + up[1])];
    assert Level(hash256, up) == top;
    RootStep(hash256, [a, b, c], up);
    RootStep(hash256, up, top);
    RootOfOne(hash256, top[0]);
  }

  lemma RootStep(hash256: bytes -> bytes, nodes: seq<bytes>, up: seq<bytes>)
    requires |nodes| > 1 && up == Level(hash256, nodes)
    ensures up != [] && MerkleRoot(hash256, nodes) == MerkleRoot(hash256, up)
  {
  }

  // ----- Proofs -----

  /** Of three transactions, the second one matched: the flags of the root, its left child and the two leaves below
      it, and of the right child; the hashes of these leaves and of that child. */
  lemma ProofOfThree(hash256: bytes -> bytes, a: bytes, b: bytes, c: bytes, t: Tree)
    requires t == Both(Both(Leaf(a, false), Leaf(b, true)), Only(Leaf(c, false)))
    ensures Flags(t) == [true, true, false, true, false] && Hashes(hash256, t) == [a, b, hash256(c + c)]
  {
    var l := t.left;
    assert Covers(l.right) && Covers(l) && Covers(t) && !Covers(t.right.left) && !Covers(t.right);
    assert Hash(hash256, t.right.left) == c && Hash(hash256, t.right) == hash256(c + c);
    assert Flags(l) == [true] + Flags(l.left) + Flags(l.right) == [true, false, true];
    assert Hashes(hash256, l) == Hashes(hash256, l.left) + Hashes(hash256, l.right) == [a, b];
    assert Hashes(hash256, t.right) == [hash256(c + c)] && Flags(t.right) == [false];
    assert Flags(t) == [true] + Flags(l) + Flags(t.right);
    assert Hashes(hash256, t) == Hashes(hash256, l) + Hashes(hash256, t.right);
  }

  // ----- Flags -----

  /** Flag `i` is the bit of weight 2^(i % 8) of byte i / 8; there are zeros behind the last one. */
  lemma PackedFlag(bits: seq<bool>, i: nat)
    requires i < 8 * |PackFlags(bits)|
    ensures (PackFlags(bits)[i / 8] / Pow(2, i % 8) % 2 == 1) <==> i < |bits| && bits[i]
  {
    FlagBitsOfPack(bits);
    BitIsPlace(PackFlags(bits)[i / 8], i % 8);
    assert FlagBits(PackFlags(bits))[i] == FlagAt(PackFlags(bits), i);
  }

  lemma {:induction false} BitIsPlace(b: nat, k: nat)
    ensures BitAt(b, k) <==> b / Pow(2, k) % 2 == 1
    decreases k
  {
    if k > 0 {
      BitIsPlace(b / 2, k - 1);
      Halved(b, Pow(2, k - 1));
    }
  }

  lemma Halved(v: nat, p: nat)
    requires p > 0
    ensures v / 2 / p == v / (2 * p)
  {
    var q, r := v / 2 / p, v / 2 % p;
    assert v / 2 == p * q + r;
    assert 2 * (p * q) == (2 * p) * q;
    DivModUnique(v, 2 * p, q, 2 * r + v % 2);
  }

  // ----- Messages -----

  /** Header, number of transactions, and hashes and flag bytes behind their numbers. */
  lemma MessageBytes(header: bytes, n: nat, hashes: seq<bytes>, flags: bytes)
    requires |header| == 80 && n < 0x1_0000_0000 && |hashes| < 0x1_0000_0000 && |flags| < 0x1_0000_0000
    ensures var s := Message(header, n, hashes, flags);
      && |s| >= 84 && s[..80] == header && LittleValue(s[80..84]) == n
      && s[84..] == CompactSize(|hashes|) + Concat(hashes) + CompactSize(|flags|) + flags
  {
    RangeValues();
    LittleRoundTrip(n, 4);
    var a, b, c, d := CompactSize(|hashes|), Concat(hashes), CompactSize(|flags|), flags;
    TwoFronts(header, Little(n, 4), a + (b + (c + d)));
    FourParts(a, b, c, d);
  }

  lemma TwoFronts(h: bytes, n: bytes, rest: bytes)
    requires |h| == 80 && |n| == 4
    ensures var s := h + n + rest; |s| >= 84 && s[..80] == h && s[80..84] == n && s[84..] == rest
  {
  }

  lemma FourParts(a: bytes, b: bytes, c: bytes, d: bytes)
    ensures a + (b + (c + d)) == a + b + c + d
  {
  }
}
