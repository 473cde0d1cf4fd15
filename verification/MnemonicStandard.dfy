/** The checksum and the words of a sentence, bit by bit (section "Generating the mnemonic" of BIP 39;
    code/BTCUtil.c:1966-2000, libraries/mnemonic/mnemonic.c:35-66). */
module MnemonicStandard {
  import opened Bytes
  import opened Arithmetic
  import opened Bits
  import opened ConvertBits
  import opened BitPlaces
  import opened Mnemonic

  // ----- The checksum -----

  function ByteBit(b: byte, j: nat): (r: nat)
    requires j < 8
  {
    b / Weight(j) % 2
  }

  /** The bits that a mask of `n` leading ones keeps. */
  predicate KeepsFront(b: byte, m: byte, n: nat)
  {
    forall j :: 0 <= j < 8 ==> ByteBit(m, j) == if j < n then ByteBit(b, j) else 0
  }

  lemma KeptBit(b: nat, p: nat, q: nat)
    requires p > 0 && q > 0
    ensures p * q > 0 && b / p * p / (p * q) == b / (p * q)
  {
    var x := b / p;
    var (y, t) := DivMod(x, q);
    Below(p, q, t, b % p);
    assert p * q * y == p * (q * y);
    assert b == p * x + b % p && p * x == p * (q * y) + p * t;
    DivModUnique(p * x, p * q, y, p * t);
    DivModUnique(b, p * q, y, p * t + b % p);
  }

  lemma Below(p: nat, q: nat, t: nat, r: nat)
    requires t < q && r < p
    ensures p * q > 0 && p * t + r < p * q
  {
    MulLe(t + 1, q, p);
    assert (t + 1) * p == p * t + p;
  }

  lemma DroppedBit(x: nat, w: nat, q: nat)
    requires w > 0
    ensures x * (w * (2 * q)) / w % 2 == 0
  {
    assert x * (w * (2 * q)) == w * (2 * (x * q));
    DivModUnique(x * (w * (2 * q)), w, 2 * (x * q), 0);
  }

  /** Rounding down to a power of two keeps the bits above it and clears the others. */
  lemma RoundedBit(b: byte, n: nat, j: nat)
    requires 1 <= n <= 8 && j < 8
    ensures b / Weight(n - 1) * Weight(n - 1) / Weight(j) % 2 == if j < n then ByteBit(b, j) else 0
  {
    WeightIsPower(j);
    WeightIsPower(n - 1);
    var p := Weight(n - 1);
    if j < n {
      PowAdd(2, 8 - n, n - 1 - j);
      KeptBit(b, p, Pow(2, n - 1 - j));
    } else {
      PowAdd(2, 7 - j, j - n + 1);
      DroppedBit(b / p, Weight(j), Pow(2, j - n));
    }
  }

  lemma FrontOf(n: nat, b: byte)
    requires Standard(n) && n <= 32
    ensures KeepsFront(b, Masked(b, Mask(n)), n / 4)
  {
    var m := Masked(b, Mask(n));
    assert m == b / Weight(n / 4 - 1) * Weight(n / 4 - 1);
    forall j: nat | j < 8 ensures ByteBit(m, j) == if j < n / 4 then ByteBit(b, j) else 0 {
      RoundedBit(b, n / 4, j);
    }
  }

  lemma BytePlace(s: bytes, i: nat, j: nat, pos: nat)
    requires i < |s| && j < 8 && pos == 8 * i + j
    ensures BitAt(s, pos) == ByteBit(s[i], j)
  {
    assert pos / 8 == i && pos % 8 == j;
  }

  /** Up to 32 bytes of entropy are followed by the leading bits of their hash, one for each four bytes, and by
      zeros up to the end of the byte. */
  lemma ChecksumBits(sha256: bytes -> bytes, e: bytes, k: nat)
    requires Standard(|e|) && |e| <= 32 && |sha256(e)| == 32 && k < 8
    ensures var d := WithChecksum(sha256, e);
      |d| == |e| + 1 && d[..|e|] == e && BitAt(d, 8 * |e| + k) == if k < |e| / 4 then BitAt(sha256(e), k) else 0
  {
    var d, h := WithChecksum(sha256, e), sha256(e);
    BytePlace(d, |e|, k, 8 * |e| + k);
    BytePlace(h, 0, k, k);
    FrontOf(|e|, h[0]);
  }

  /** Longer ones by the whole first byte of their hash and then by its leading bits again, which are all set
      if the first one is: the byte is read as a signed number. */
  lemma LongChecksumBits(sha256: bytes -> bytes, e: bytes, k: nat)
    requires Standard(|e|) && |e| > 32 && |sha256(e)| == 32 && k < 16
    ensures var d := WithChecksum(sha256, e);
      && |d| == |e| + 2 && d[..|e|] == e
      && BitAt(d, 8 * |e| + k) == if k < 8 then BitAt(sha256(e), k)
                                       else if k < |e| / 4 then (if BitAt(sha256(e), 0) == 1 then 1 else BitAt(sha256(e), k - 8)) else 0
  {
    var d, h := WithChecksum(sha256, e), sha256(e);
    BytePlace(h, 0, 0, 0);
    if k < 8 {
      BytePlace(d, |e|, k, 8 * |e| + k);
      BytePlace(h, 0, k, k);
    } else {
      BytePlace(d, |e| + 1, k - 8, 8 * |e| + k);
      BytePlace(h, 0, k - 8, k - 8);
      SignBits(h[0], k - 8);
    }
  }

  lemma SignBits(b: byte, j: nat)
    requires j < 8
    ensures ByteBit(Masked(if b >= 128 then 255 else b, 0x80), j) == if j < 1 then (if ByteBit(b, 0) == 1 then 1 else ByteBit(b, j)) else 0
    ensures ByteBit(Masked(if b >= 128 then 255 else b, 0xC0), j) == if j < 2 then (if ByteBit(b, 0) == 1 then 1 else ByteBit(b, j)) else 0
  {
    var x: byte := if b >= 128 then 255 else b;
    RoundedBit(x, 1, j);
    RoundedBit(x, 2, j);
    assert Masked(x, 0x80) == x / Weight(0) * Weight(0) && Masked(x, 0xC0) == x / Weight(1) * Weight(1);
    assert ByteBit(b, 0) == 1 <==> b >= 128;
    assert ByteBit(255, 0) == 1 && ByteBit(255, 1) == 1;
  }

  // ----- The words -----

  /** The sentence has a word for every eleven bits; its number has these bits, the first one on top. */
  lemma SentenceBits(list: seq<bytes>, d: bytes) returns (numbers: seq<nat>, words: seq<bytes>)
    requires |list| == 2048 && 8 * |d| >= 11
    ensures |numbers| == |words| == 8 * |d| / 11
    ensures forall i :: 0 <= i < |numbers| ==> numbers[i] < 2048 && words[i] == list[numbers[i]]
    ensures forall i, k :: 0 <= i < |numbers| && 0 <= k < 11 ==> NumberBit(numbers[i], 11, k) == BitAt(d, 11 * i + k)
    ensures words != [] && FromBytes(list, d) == Some(Join(words))
  {
    numbers := Indices(d);
    IndicesFit(d);
    NumbersOf(d);
    words := seq(|numbers|, i requires 0 <= i < |numbers| => list[numbers[i]]);
    forall i: nat, k: nat | i < |numbers| && k < 11 ensures NumberBit(numbers[i], 11, k) == BitAt(d, 11 * i + k) {
      IndexBit(d, 11, 8, i, k);
    }
  }

  /** Single spaces between the words and nothing around them. */
  lemma {:induction false} JoinSpaces(ws: seq<bytes>, i: nat) returns (front: bytes, back: bytes)
    requires i + 1 < |ws|
    ensures Join(ws) == front + [0x20] + back && front == Join(ws[..i + 1]) && back == Join(ws[i + 1..])
    decreases i
  {
    if i == 0 {
      front, back := ws[0], Join(ws[1..]);
      assert ws[..1][0] == ws[0];
    } else {
      var inner;
      inner, back := JoinSpaces(ws[1..], i - 1);
      front := ws[0] + [0x20] + inner;
      assert ws[..i + 1][1..] == ws[1..][..i] && ws[1..][i..] == ws[i + 1..] && ws[..i + 1][0] == ws[0];
      assert front + [0x20] + back == ws[0] + [0x20] + (inner + [0x20] + back);
    }
  }

  lemma IndexBit(d: bytes, w: nat, b: nat, i: nat, k: nat)
    requires w == 11 && b == 8 && i < |Chunks(Spread(d, b), w)| && k < w
    ensures w * i + k < 8 * |d| && NumberBit(Chunks(Spread(d, b), w)[i], w, k) == BitAt(d, w * i + k)
  {
    GroupBit(d, b, w, i, k, i * w);
  }

  lemma NumbersOf(d: bytes)
    ensures |Indices(d)| == 8 * |d| / 11
  {
    SpreadLength(d, 8);
    ChunkCount(Spread(d, 8), 11);
  }
}
