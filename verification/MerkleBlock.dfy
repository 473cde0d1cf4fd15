/** Filtered blocks (code/MerkleBlock.c): the byte-level parser, the tree height, the decoder as
    the library runs it in place, and what a caller gets from a block message. */
module MerkleBlock {
  import opened Arithmetic
  import opened Bytes
  import opened Wire
  import opened MerkleTree
  import opened MerkleDecoder

  // ----- Flag bits -----

  /** `b & (1 << k)` */
  predicate BitAt(b: nat, k: nat)
  {
    if k == 0 then b % 2 == 1 else BitAt(b / 2, k - 1)
  }

  /** `flags[i / 8] & (1 << i % 8)` */
  predicate FlagAt(flags: bytes, i: nat)
    requires i < 8 * |flags|
  {
    BitAt(flags[i / 8], i % 8)
  }

  function FlagBits(flags: bytes): (bits: seq<bool>)
    ensures |bits| == 8 * |flags|
  {
    seq(8 * |flags|, i requires 0 <= i < 8 * |flags| => FlagAt(flags, i))
  }

  ghost predicate Unpacked(flags: bytes, bits: seq<bool>)
  {
    && |bits| == 8 * |flags|
    && forall i: nat {:trigger FlagAt(flags, i)} :: i < 8 * |flags| ==> FlagAt(flags, i) == bits[i]
  }

  function Pack(bits: seq<bool>): (b: nat)
    ensures b < Pow(2, |bits|)
  {
    if bits == [] then 0 else (if bits[0] then 1 else 0) + 2 * Pack(bits[1..])
  }

  lemma {:induction false} BitAtPack(bits: seq<bool>, k: nat)
    ensures BitAt(Pack(bits), k) == (k < |bits| && bits[k])
    decreases k
  {
    if bits == [] {
      ZeroBits(k);
    } else if k > 0 {
      BitAtPack(bits[1..], k - 1);
    }
  }

  lemma ZeroBits(k: nat)
    ensures !BitAt(0, k)
  {
  }

  /** Flags as BIP 37 sends them: eight to a byte, low bit first, padded with zero bits. */
  function PackFlags(bits: seq<bool>): (s: bytes)
    ensures |s| == (|bits| + 7) / 8
  {
    seq((|bits| + 7) / 8, j requires 0 <= j < (|bits| + 7) / 8 => PackByte(bits, j))
  }

  function PackByte(bits: seq<bool>, j: nat): (b: byte)
    requires 8 * j < |bits|
  {
    var part := bits[8 * j..if 8 * j + 8 <= |bits| then 8 * j + 8 else |bits|];
    PowMonotone(2, |part|, 8);
    PowersOfTwo();
    Pack(part)
  }

  lemma FlagBitsOfPack(bits: seq<bool>)
    ensures |bits| <= |FlagBits(PackFlags(bits))|
    ensures FlagBits(PackFlags(bits))[..|bits|] == bits
    ensures AllClear(FlagBits(PackFlags(bits))[|bits|..])
  {
    var packed := PackFlags(bits);
    forall i | 0 <= i < 8 * |packed|
      ensures FlagBits(packed)[i] == (i < |bits| && bits[i])
    {
      var j := i / 8;
      BitAtPack(bits[8 * j..if 8 * j + 8 <= |bits| then 8 * j + 8 else |bits|], i % 8);
    }
  }

  // ----- The message -----

  /** A block reaches the library through a node's input buffer, which is dropped beyond this
      size (code/NodeConstants.h:7, code/Node.c:303). */
  const MAX_BACKLOG := 10 * 1024 * 1024

  /** Sizes the accessors read within: below 80 bytes they refuse, between 80 and 83 the flag
      reader starts past the end of the buffer. */
  predicate Readable(data: bytes)
  {
    |data| <= MAX_BACKLOG && (|data| < 80 || |data| >= 84)
  }

  function TransactionCount(data: bytes): (n: nat)
    ensures n < 0x1_0000_0000
  {
    if |data| < 84 then 0 else RangeValues(); LittleValueBound(data[80..84]); LittleValue(data[80..84])
  }

  function Slices(s: bytes, count: nat): (hs: seq<bytes>)
    requires 32 * count <= |s|
    ensures |hs| == count && AllOf32(hs)
  {
    seq(count, i requires 0 <= i < count => s[32 * i..32 * i + 32])
  }

  function HashList(data: bytes): (hs: seq<bytes>)
    ensures AllOf32(hs)
  {
    if |data| < 85 then []
    else
      var count := ReadVarInt(data[84..]);
      if 32 * count.value <= |count.rest| then Slices(count.rest, count.value) else []
  }

  /** The flags; the byte count of the hashes is computed in 64 bits. */
  function FlagField(data: bytes): (flags: Option<bytes>)
    requires |data| >= 84
  {
    var count := ReadVarInt(data[84..]);
    var skip := count.value * 32 % 0x1_0000_0000_0000_0000;
    if |count.rest| < skip then None else SizedField(ReadVarInt(count.rest[skip..]))
  }

  /** A field whose size must be all that is left. */
  function SizedField(size: Read<nat>): (field: Option<bytes>)
  {
    if |size.rest| != size.value then None else Some(size.rest)
  }

  /** The malleability guard of code/MerkleBlock.c:43-44. */
  predicate LastTwoDiffer(hs: seq<bytes>)
  {
    |hs| > 1 ==> hs[|hs| - 1] != hs[|hs| - 2]
  }

  // ----- Height -----

  /** The width formula in the machine's arithmetic: an unsigned 32-bit sum read as an `int`. */
  function TreeWidth(n: nat, height: nat): (w: int)
  {
    WidthBy(n, Pow(2, height))
  }

  function WidthBy(n: nat, p: nat): (w: int)
    requires p > 0
  {
    Signed(((n + p - 1) % 0x1_0000_0000) / p)
  }

  function Signed(u: nat): (w: int)
  {
    if u < 0x8000_0000 then u else u - 0x1_0000_0000
  }

  /** Up to 2^31 - 1 transactions, "more than one node" is "more than 2^height leaves". */
  lemma TreeWidthExceedsOne(n: nat, height: nat)
    requires n < 0x8000_0000 && height <= 31
    ensures TreeWidth(n, height) > 1 <==> n > Pow(2, height)
  {
    PowersOfTwo();
    PowMonotone(2, height, 31);
    WidthExceedsOne(n, Pow(2, height));
  }

  lemma WidthExceedsOne(n: nat, p: nat)
    requires n < 0x8000_0000 && 1 <= p <= 0x8000_0000
    ensures WidthBy(n, p) > 1 <==> n > p
  {
    CeilingDivision(n, p);
  }

  /** The loop finds the height of the tree exactly for counts below 2^31; from there on the
      width of the bottom level already looks negative. */
  method TreeHeight(n: nat) returns (height: nat)
    requires n < 0x1_0000_0000
    ensures n < 0x8000_0000 ==> height == Height(n)
    ensures n >= 0x8000_0000 ==> height == 0 && Height(n) > 0
  {
    height := 0;
    PowersOfTwo();
    if n < 0x8000_0000 {
      TreeWidthExceedsOne(n, 0);
    }
    while TreeWidth(n, height) > 1
      invariant height <= 31
      invariant n >= 0x8000_0000 ==> height == 0 && TreeWidth(n, 0) < 0
      invariant n < 0x8000_0000 ==> height > 0 ==> n > Pow(2, height - 1)
      decreases 31 - height
    {
      TreeWidthExceedsOne(n, height);
      height := height + 1;
      if height == 31 {
        TreeWidthExceedsOne(n, 31);
      }
    }
    if n < 0x8000_0000 {
      TreeWidthExceedsOne(n, height);
      HeightUnique(n, height, Height(n));
    }
  }

  lemma HeightUnique(n: nat, a: nat, b: nat)
    requires n <= Pow(2, a) && (a > 0 ==> Pow(2, a - 1) < n)
    requires n <= Pow(2, b) && (b > 0 ==> Pow(2, b - 1) < n)
    ensures a == b
  {
    if a < b {
      PowMonotone(2, a, b - 1);
    } else if b < a {
      PowMonotone(2, b, a - 1);
    }
  }

  function HeightFor(n: nat): (h: nat)
  {
    if n < 0x8000_0000 then Height(n) else 0
  }

  // ----- What a caller gets -----

  /** The decoder's run over the fields of a block message. */
  function ProofIn(n: nat, hs: seq<bytes>, flags: bytes): (p: Proof)
  {
    Decode(FlagBits(flags), hs, HeightFor(n)).proof
  }

  /** The ids reported for the fields of a message: none unless they yield the header's root. */
  function Report(hash256: bytes -> bytes, root: bytes, n: nat, hs: seq<bytes>, flags: bytes): (ids: seq<Option<bytes>>)
  {
    if LastTwoDiffer(hs) && Result(hash256, ProofIn(n, hs, flags)) == Some(root) then Matches(ProofIn(n, hs, flags)) else []
  }

  /** The ids reported for a block message. */
  function MatchingTxIds(hash256: bytes -> bytes, data: bytes): (ids: seq<Option<bytes>>)
    requires Readable(data)
  {
    if |data| < 80 then []
    else Report(hash256, data[36..68], TransactionCount(data), HashList(data), Contents(FlagField(data)))
  }

  // ----- The library's own form -----

  method NextElement(hashes: seq<bytes>) returns (element: Option<bytes>, rest: seq<bytes>)
    ensures element == First(hashes) && rest == Rest(hashes)
  {
    if hashes == [] {
      return None, hashes;
    }
    return Some(hashes[0]), hashes[1..];
  }

  /** One run as the cursor `*i` sees it: `next` is where it stops. */
  datatype CursorRun = CursorRun(proof: Proof, next: nat, hashes: seq<bytes>)

  function DecodeAt(bits: seq<bool>, i: nat, hashes: seq<bytes>, height: nat): (run: CursorRun)
    requires i <= |bits|
    ensures run.next <= |bits|
    decreases height
  {
    if i == |bits| then CursorRun(Absent, i, hashes)
    else if !bits[i] then CursorRun(Skipped(First(hashes)), i + 1, Rest(hashes))
    else if height == 0 then CursorRun(Matched(First(hashes)), i + 1, Rest(hashes))
    else
      var left := DecodeAt(bits, i + 1, hashes, height - 1);
      var right := DecodeAt(bits, left.next, left.hashes, height - 1);
      CursorRun(Inner(left.proof, right.proof), right.next, right.hashes)
  }

  /** The cursor form and the form that consumes the flags agree. */
  lemma {:induction false} DecodeAtIsDecode(bits: seq<bool>, i: nat, hashes: seq<bytes>, height: nat)
    requires i <= |bits|
    ensures var run := DecodeAt(bits, i, hashes, height);
            Decode(bits[i..], hashes, height) == Run(run.proof, bits[run.next..], run.hashes)
    decreases height
  {
    if i < |bits| {
      assert bits[i..][0] == bits[i] && bits[i..][1..] == bits[i + 1..];
      if bits[i] && height > 0 {
        var left := DecodeAt(bits, i + 1, hashes, height - 1);
        DecodeAtIsDecode(bits, i + 1, hashes, height - 1);
        DecodeAtIsDecode(bits, left.next, left.hashes, height - 1);
      }
    }
  }

  /** The recursive calls share the cursor `*i` into the flags, the hash list that is popped from
      the front and the match list that grows: each is handed in and handed back. */
  method CalculatedMerkleRootFlexible(hash256: bytes -> bytes, flags: bytes, i: nat, hashes: seq<bytes>, height: nat,
                                      matches: seq<Option<bytes>>, ghost bits: seq<bool>)
    returns (root: Option<bytes>, i': nat, hashes': seq<bytes>, matches': seq<Option<bytes>>)
    requires Unpacked(flags, bits) && i <= |bits|
    ensures var run := DecodeAt(bits, i, hashes, height);
            && i' == run.next && hashes' == run.hashes
            && matches' == matches + Matches(run.proof)
            && root == Result(hash256, run.proof)
    decreases height
  {
    i', hashes', matches' := i, hashes, matches;
    if i >= |flags| * 8 {
      return None, i', hashes', matches';
    }
    var flag := FlagAt(flags, i);
    i' := i + 1;
    if flag {
      if height == 0 {
        root, hashes' := NextElement(hashes);
        matches' := matches + [root];
        return;
      }
      var left, right;
      left, i', hashes', matches' := CalculatedMerkleRootFlexible(hash256, flags, i', hashes', height - 1, matches', bits);
      right, i', hashes', matches' := CalculatedMerkleRootFlexible(hash256, flags, i', hashes', height - 1, matches', bits);
      ghost var l := DecodeAt(bits, i + 1, hashes, height - 1);
      DecodeAtFork(hash256, bits, i, hashes, height, l, DecodeAt(bits, l.next, l.hashes, height - 1), matches);
      if right.None? {
        right := left;
      }
      root := Some(hash256(Contents(left) + Contents(right)));
    } else {
      root, hashes' := NextElement(hashes);
    }
  }

  lemma DecodeAtFork(hash256: bytes -> bytes, bits: seq<bool>, i: nat, hashes: seq<bytes>, height: nat,
                     left: CursorRun, right: CursorRun, before: seq<Option<bytes>>)
    requires i < |bits| && bits[i] && height > 0
    requires left == DecodeAt(bits, i + 1, hashes, height - 1) && right == DecodeAt(bits, left.next, left.hashes, height - 1)
    ensures DecodeAt(bits, i, hashes, height) == CursorRun(Inner(left.proof, right.proof), right.next, right.hashes)
    ensures before + Matches(Inner(left.proof, right.proof)) == before + Matches(left.proof) + Matches(right.proof)
  {
  }

  method MerkleHashes(data: bytes) returns (hs: seq<bytes>)
    requires |data| <= MAX_BACKLOG
    ensures hs == HashList(data)
  {
    if |data| < 85 {
      return [];
    }
    var cursor := new Cursor(data[84..]);
    var count := cursor.VarInt();
    var rest := cursor.Rest();
    hs := [];
    var ptr := 0;
    while |hs| < count
      invariant ptr == 32 * |hs| <= |rest| && |hs| <= count
      invariant hs == Slices(rest, |hs|)
      decreases count - |hs|
    {
      if |rest| - ptr < 32 {
        return [];
      }
      hs := hs + [rest[ptr..ptr + 32]];
      ptr := ptr + 32;
    }
  }

  method MatchingTxIdsIfValidRoot(hash256: bytes -> bytes, data: bytes) returns (ids: seq<Option<bytes>>)
    requires Readable(data)
    ensures ids == MatchingTxIds(hash256, data)
  {
    var hashes := MerkleHashes(data);
    if |data| < 80 {
      return [];
    }
    if |hashes| > 1 && hashes[|hashes| - 1] == hashes[|hashes| - 2] {
      return [];
    }
    var flags := Contents(FlagField(data));
    var height := TreeHeight(TransactionCount(data));
    ghost var bits := FlagBits(flags);
    DecodeAtIsDecode(bits, 0, hashes, height);
    assert bits[0..] == bits;
    var root, i, unused, matches := CalculatedMerkleRootFlexible(hash256, flags, 0, hashes, height, [], bits);
    if root.None? || root.value != data[36..68] {
      return [];
    }
    return matches;
  }

  // ----- Completeness and soundness of the whole pipeline -----

  /** The filtered block that a BIP 37 peer sends. */
  function Message(header: bytes, n: nat, hashes: seq<bytes>, flags: bytes): (data: bytes)
    requires |header| == 80 && |hashes| < 0x1_0000_0000 && |flags| < 0x1_0000_0000
  {
    header + Little(n, 4) + (CompactSize(|hashes|) + (Concat(hashes) + (CompactSize(|flags|) + flags)))
  }

  lemma {:induction false} SlicesOfConcat(hashes: seq<bytes>, rest: bytes)
    requires AllOf32(hashes)
    ensures |Concat(hashes)| == 32 * |hashes|
    ensures Slices(Concat(hashes) + rest, |hashes|) == hashes
  {
    if hashes != [] {
      SlicesOfConcat(hashes[1..], rest);
      SlicesShift(hashes[0], Concat(hashes[1..]) + rest, |hashes| - 1);
      assert Concat(hashes) + rest == hashes[0] + (Concat(hashes[1..]) + rest);
    }
  }

  lemma SlicesShift(first: bytes, s: bytes, count: nat)
    requires |first| == 32 && 32 * count <= |s|
    ensures Slices(first + s, count + 1) == [first] + Slices(s, count)
  {
    forall i | 0 <= i < count
      ensures (first + s)[32 * (i + 1)..32 * (i + 1) + 32] == s[32 * i..32 * i + 32]
    {
    }
  }

  /** The parser gives back the fields of a message. */
  lemma MessageFields(header: bytes, n: nat, hashes: seq<bytes>, flags: bytes)
    requires |header| == 80 && n < 0x1_0000_0000 && |flags| < 0x1_0000_0000
    requires AllOf32(hashes) && |hashes| < 0x1_0000_0000
    ensures var data := Message(header, n, hashes, flags);
            && |data| >= 84 && data[..80] == header
            && TransactionCount(data) == n && HashList(data) == hashes && FlagField(data) == Some(flags)
  {
    var tail := CompactSize(|flags|) + flags;
    var body := Concat(hashes) + tail;
    var data, rest := Message(header, n, hashes, flags), CompactSize(|hashes|) + body;
    RangeValues();
    LittleRoundTrip(n, 4);
    assert data[..80] == header && data[80..84] == Little(n, 4) && data[84..] == rest;
    ReadCompactSize(|hashes|, body);
    SlicesOfConcat(hashes, tail);
    SkipHashes(data, body, hashes, tail, flags);
  }

  lemma SkipHashes(data: bytes, body: bytes, hashes: seq<bytes>, tail: bytes, flags: bytes)
    requires |data| >= 84 && ReadVarInt(data[84..]) == Read(|hashes|, body)
    requires body == Concat(hashes) + tail && |Concat(hashes)| == 32 * |hashes|
    requires |hashes| < 0x1_0000_0000 && |flags| < 0x1_0000_0000
    requires tail == CompactSize(|flags|) + flags
    ensures FlagField(data) == Some(flags)
  {
    ModSmall(|hashes| * 32, 0x1_0000_0000_0000_0000);
    assert body[|Concat(hashes)|..] == tail;
    ReadCompactSize(|flags|, flags);
    assert SizedField(ReadVarInt(tail)) == Some(flags);
  }

  /** The honest message for a block and a choice of matched transactions. */
  function HonestMessage(hash256: bytes -> bytes, header: bytes, txids: seq<bytes>, matched: seq<bool>): (data: bytes)
    requires |header| == 80 && 1 <= |txids| == |matched|
    requires ProofFits(hash256, txids, matched)
  {
    var t := BlockTree(txids, matched);
    Message(header, |txids|, Hashes(hash256, t), PackFlags(Flags(t)))
  }

  predicate ProofFits(hash256: bytes -> bytes, txids: seq<bytes>, matched: seq<bool>)
    requires 1 <= |txids| == |matched|
  {
    var t := BlockTree(txids, matched);
    |Hashes(hash256, t)| < 0x1_0000_0000 && |PackFlags(Flags(t))| < 0x1_0000_0000
  }

  lemma {:induction false} HashesAre32(hash256: bytes -> bytes, t: Tree)
    requires Digest32(hash256) && AllOf32(Ids(t))
    ensures AllOf32(Hashes(hash256, t))
  {
    HashIs32(hash256, t);
    if !t.Leaf? {
      BelowIs32(t);
      HashesAre32(hash256, t.left);
      if t.Both? {
        HashesAre32(hash256, t.right);
      }
    }
  }

  /** An honest proof yields exactly the matched ids in block order, unless its last two hashes
      are equal, in which case it yields nothing. */
  lemma Completeness(hash256: bytes -> bytes, header: bytes, txids: seq<bytes>, matched: seq<bool>)
    requires Digest32(hash256) && AllOf32(txids)
    requires 1 <= |txids| == |matched| < 0x8000_0000
    requires ProofFits(hash256, txids, matched)
    requires |header| == 80 && header[36..68] == MerkleRoot(hash256, txids)
    requires |HonestMessage(hash256, header, txids, matched)| <= MAX_BACKLOG
    ensures Readable(HonestMessage(hash256, header, txids, matched))
    ensures MatchingTxIds(hash256, HonestMessage(hash256, header, txids, matched))
         == if LastTwoDiffer(Hashes(hash256, BlockTree(txids, matched))) then Wrap(Selected(txids, matched)) else []
  {
    var t := BlockTree(txids, matched);
    BuildShape(txids, matched, Height(|txids|));
    HashesAre32(hash256, t);
    MessageReport(hash256, header, |txids|, Hashes(hash256, t), PackFlags(Flags(t)));
    HonestReport(hash256, txids, matched);
  }

  /** What is reported for a message depends on its fields only. */
  lemma MessageReport(hash256: bytes -> bytes, header: bytes, n: nat, hs: seq<bytes>, flags: bytes)
    requires |header| == 80 && n < 0x1_0000_0000
    requires AllOf32(hs) && |hs| < 0x1_0000_0000 && |flags| < 0x1_0000_0000
    requires |Message(header, n, hs, flags)| <= MAX_BACKLOG
    ensures Readable(Message(header, n, hs, flags))
    ensures MatchingTxIds(hash256, Message(header, n, hs, flags)) == Report(hash256, header[36..68], n, hs, flags)
  {
    var data := Message(header, n, hs, flags);
    MessageFields(header, n, hs, flags);
    assert data[36..68] == data[..80][36..68];
  }

  lemma HonestReport(hash256: bytes -> bytes, txids: seq<bytes>, matched: seq<bool>)
    requires 1 <= |txids| == |matched| < 0x8000_0000
    ensures var t := BlockTree(txids, matched);
            Report(hash256, MerkleRoot(hash256, txids), |txids|, Hashes(hash256, t), PackFlags(Flags(t))) ==
            if LastTwoDiffer(Hashes(hash256, t)) then Wrap(Selected(txids, matched)) else []
  {
    BuildShape(txids, matched, Height(|txids|));
    BlockTreeRoot(hash256, txids, matched);
    HonestDecoded(hash256, BlockTree(txids, matched), Height(|txids|));
  }

  lemma HonestDecoded(hash256: bytes -> bytes, t: Tree, h: nat)
    requires Fits(t, h)
    ensures Proves(hash256, Decode(FlagBits(PackFlags(Flags(t))), Hashes(hash256, t), h).proof, t)
  {
    var bits, n := FlagBits(PackFlags(Flags(t))), |Flags(t)|;
    FlagBitsOfPack(Flags(t));
    assert bits == Flags(t) + bits[n..];
    assert Hashes(hash256, t) + [] == Hashes(hash256, t);
    DecodeHonest(hash256, t, h, bits[n..], []);
  }

  /** For any message whatever that carries the root and the size of a real block: every id it
      makes the library report belongs to that block, or the library has met a collision. */
  lemma Soundness(hash256: bytes -> bytes, data: bytes, txids: seq<bytes>, marks: seq<bool>)
    requires Digest32(hash256) && AllOf32(txids)
    requires 1 <= |txids| == |marks| < 0x8000_0000
    requires Readable(data) && |data| >= 84
    requires TransactionCount(data) == |txids| && data[36..68] == MerkleRoot(hash256, txids)
    ensures || Genuine(MatchingTxIds(hash256, data), txids)
            || Collision(hash256, Inputs(hash256, ProofIn(|txids|, HashList(data), Contents(FlagField(data)))),
                         TreeInputs(hash256, BlockTree(txids, marks)))
  {
    SoundReport(hash256, HashList(data), Contents(FlagField(data)), txids, marks);
  }

  lemma SoundReport(hash256: bytes -> bytes, hs: seq<bytes>, flags: bytes, txids: seq<bytes>, marks: seq<bool>)
    requires Digest32(hash256) && AllOf32(txids) && AllOf32(hs)
    requires 1 <= |txids| == |marks| < 0x8000_0000
    ensures || Genuine(Report(hash256, MerkleRoot(hash256, txids), |txids|, hs, flags), txids)
            || Collision(hash256, Inputs(hash256, ProofIn(|txids|, hs, flags)), TreeInputs(hash256, BlockTree(txids, marks)))
  {
    var t, h := BlockTree(txids, marks), Height(|txids|);
    BuildShape(txids, marks, h);
    BlockTreeRoot(hash256, txids, marks);
    DecodeShaped(FlagBits(flags), hs, h);
    if Result(hash256, ProofIn(|txids|, hs, flags)) == Some(MerkleRoot(hash256, txids)) {
      ResultSound(hash256, ProofIn(|txids|, hs, flags), t, h);
    }
  }
}
