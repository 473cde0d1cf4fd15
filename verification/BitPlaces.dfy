/** Which bit of which byte a regrouped number takes: the most significant ones come first
    (libraries/segwit_addr/segwit_addr.c:143-163, libraries/mnemonic/mnemonic.c:11-33). */
module BitPlaces {
  import opened Arithmetic
  import opened Bytes
  import opened Bits
  import opened ConvertBits
  import opened MnemonicBits

  /** 128, 64, ..., 1. */
  function Weight(j: nat): (w: nat)
    requires j < 8
    ensures w > 0
  {
    [128, 64, 32, 16, 8, 4, 2, 1][j]
  }

  /** A bit of a byte string, counted from the most significant bit of the first byte. */
  function BitAt(s: bytes, pos: nat): (b: nat)
    requires pos < 8 * |s|
  {
    s[pos / 8] / Weight(pos % 8) % 2
  }

  /** A bit of a number of `w` bits, counted from the most significant one. */
  function NumberBit(v: nat, w: nat, k: nat): (b: nat)
    requires k < w
  {
    v / Pow(2, w - 1 - k) % 2
  }

  lemma WeightIsPower(j: nat)
    requires j < 8
    ensures Pow(2, 7 - j) == Weight(j)
  {
    PowersOfTwo();
    assert Pow(2, 1) == 2 && Pow(2, 2) == 4 && Pow(2, 3) == 8 && Pow(2, 4) == 16;
    PowAdd(2, 4, 1);
    PowAdd(2, 4, 2);
    PowAdd(2, 4, 3);
  }

  lemma BitOfIsAt(b: byte, j: nat)
    requires j < 8
    ensures BitOf(b, j) == b / Weight(j) % 2
  {
    ShiftIsDivision(b, 7 - j);
    WeightIsPower(j);
  }

  lemma SpreadBit(s: bytes, pos: nat, w: nat)
    requires w == 8 && pos < w * |s|
    ensures |Spread(s, w)| == 8 * |s| && Spread(s, w)[pos] == BitAt(s, pos)
  {
    BufferBit(s, pos, w);
    BitOfIsAt(s[pos / 8], pos % 8);
  }

  lemma NumberBitIs(v: nat, w: nat, k: nat)
    requires k < w
    ensures ToBits(v, w)[k] == NumberBit(v, w, k)
  {
    ToBitsAt(v, w, k);
    ShiftIsDivision(v, w - 1 - k);
  }

  lemma {:induction false} ChunkIs(s: seq<bit>, w: nat, i: nat, at: nat)
    requires w > 0 && i < |Chunks(s, w)| && at == i * w
    ensures at + w <= |s| && Chunks(s, w)[i] == FromBits(s[at..at + w])
    decreases |s|
  {
    if i == 0 {
      assert s[0..w] == s[..w];
    } else {
      Before(i, w);
      ChunkIs(s[w..], w, i - 1, at - w);
      Sliced(s, w, at - w);
    }
  }

  lemma Before(i: nat, w: nat)
    requires i > 0
    ensures i * w - w == (i - 1) * w && i * w >= w
  {
    MulLe(1, i, w);
  }

  lemma Sliced(s: seq<bit>, w: nat, a: nat)
    requires w + a + w <= |s|
    ensures s[w..][a..a + w] == s[a + w..a + w + w]
  {
  }

  lemma ChunkBit(s: seq<bit>, w: nat, i: nat, k: nat, at: nat)
    requires w > 0 && i < |Chunks(s, w)| && k < w && at == i * w
    ensures at + k < |s| && NumberBit(Chunks(s, w)[i], w, k) == s[at + k]
  {
    ChunkIs(s, w, i, at);
    var x := s[at..at + w];
    ToFromBits(x);
    NumberBitIs(FromBits(x), w, k);
  }

  /** A bit of a number cut out of bytes. */
  lemma GroupBit(s: bytes, b: nat, w: nat, i: nat, k: nat, at: nat)
    requires b == 8 && w > 0 && i < |Chunks(Spread(s, b), w)| && k < w && at == i * w
    ensures at + k < 8 * |s| && NumberBit(Chunks(Spread(s, b), w)[i], w, k) == BitAt(s, at + k)
  {
    ChunkBit(Spread(s, b), w, i, k, at);
    SpreadLength(s, b);
    SpreadBit(s, at + k, b);
  }

  /** A bit of a number of the padded groups: behind the last byte there are zeros. */
  lemma CoveringBit(s: bytes, b: nat, w: nat, i: nat, k: nat, at: nat)
    requires b == 8 && w > 0 && i < |Covering(s, b, w)| && k < w && at == i * w
    ensures NumberBit(Covering(s, b, w)[i], w, k) == if at + k < 8 * |s| then BitAt(s, at + k) else 0
  {
    var out := Covering(s, b, w);
    var p := CoveringSpread(s, b, w);
    SpreadLength(s, b);
    SpreadAt(out, w, i, k);
    NumberBitIs(out[i], w, k);
    InZeros(Spread(s, b), p, at + k);
    if at + k < 8 * |s| {
      SpreadBit(s, at + k, b);
    }
  }

  lemma InZeros(x: seq<bit>, p: nat, i: nat)
    requires i < |x| + p
    ensures (x + Zeros(p))[i] == if i < |x| then x[i] else 0
  {
  }
}
