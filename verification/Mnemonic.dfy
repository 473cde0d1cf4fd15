/** Sentences for entropy (BIP 39; code/BTCUtil.c:1966-2025, libraries/mnemonic/mnemonic.c:35-103,
    libraries/mnemonic/wordlist.c:44-90). Words and sentences are byte strings without zero bytes. */
module Mnemonic {
  import opened Bytes
  import opened Arithmetic
  import opened Bits
  import opened ConvertBits
  import opened MnemonicBits
  import opened BitPlaces
  import opened DataOrder

  const SPACE: byte := 32

  // ----- Words -----

  /** The words of a sentence: one more than it has spaces. */
  function Split(s: bytes): (ws: seq<bytes>)
    ensures |ws| >= 1
  {
    if s == [] then [[]]
    else if s[0] == SPACE then [[]] + Split(s[1..])
    else
      var r := Split(s[1..]);
      [[s[0]] + r[0]] + r[1..]
  }

  function Join(ws: seq<bytes>): (s: bytes)
    requires ws != []
  {
    if |ws| == 1 then ws[0] else ws[0] + [SPACE] + Join(ws[1..])
  }

  predicate IsWord(w: bytes)
  {
    w != [] && SPACE !in w
  }

  lemma {:induction false} SplitWord(w: bytes)
    requires SPACE !in w
    ensures Split(w) == [w]
  {
    if w != [] {
      SplitWord(w[1..]);
      assert w == [w[0]] + w[1..];
    }
  }

  lemma {:induction false} SplitFirst(w: bytes, rest: bytes)
    requires SPACE !in w
    ensures Split(w + [SPACE] + rest) == [w] + Split(rest)
  {
    var s := w + [SPACE] + rest;
    if w == [] {
      assert s[0] == SPACE && s[1..] == rest;
    } else {
      assert s[0] == w[0] && s[1..] == w[1..] + [SPACE] + rest;
      SplitFirst(w[1..], rest);
      assert w == [w[0]] + w[1..];
    }
  }

  lemma {:induction false} SplitJoin(ws: seq<bytes>)
    requires ws != [] && forall i :: 0 <= i < |ws| ==> SPACE !in ws[i]
    ensures Split(Join(ws)) == ws
  {
    if |ws| == 1 {
      SplitWord(ws[0]);
    } else {
      SplitJoin(ws[1..]);
      SplitFirst(ws[0], Join(ws[1..]));
    }
  }

  lemma {:induction false} JoinLength(ws: seq<bytes>)
    requires ws != [] && forall i :: 0 <= i < |ws| ==> IsWord(ws[i])
    ensures |Join(ws)| + 1 >= 2 * |ws|
  {
    if |ws| > 1 {
      JoinLength(ws[1..]);
    }
  }

  /** `wordlist_count`. */
  method WordsIn(s: bytes) returns (n: nat)
    ensures n == |Split(s)|
  {
    n := 1;
    var p := 0;
    assert s[0..] == s;
    while p < |s|
      invariant p <= |s| && n + |Split(s[p..])| == |Split(s)| + 1
    {
      assert s[p..][0] == s[p] && s[p..][1..] == s[p + 1..];
      if s[p] == SPACE {
        n := n + 1;
      }
      p := p + 1;
    }
  }

  /** The words from a position on; none behind the end of the sentence. */
  function SplitFrom(s: bytes, p: nat): (ws: seq<bytes>)
  {
    if p <= |s| then Split(s[p..]) else []
  }

  /** The tokenising loop of `wordlist_init`: as many words as were counted. */
  method Tokenise(s: bytes) returns (words: seq<bytes>)
    ensures words == Split(s)
  {
    var n := WordsIn(s);
    words := [];
    var p := 0;
    ghost var all, left := Split(s), SplitFrom(s, 0);
    assert s[0..] == s;
    while |words| < n
      invariant words + left == all && n == |all| && left == SplitFrom(s, p)
      decreases |left|
    {
      var q := WordEnd(s, p);
      words := words + [s[p..q]];
      p := q + 1;
      left := left[1..];
    }
  }

  method WordEnd(s: bytes, p: nat) returns (q: nat)
    requires p <= |s|
    ensures p <= q <= |s| && SplitFrom(s, p) == [s[p..q]] + SplitFrom(s, q + 1)
  {
    q := p;
    while q < |s| && s[q] != SPACE
      invariant p <= q <= |s| && SPACE !in s[p..q]
    {
      q := q + 1;
    }
    NextWord(s, p, q);
  }

  lemma NextWord(s: bytes, p: nat, q: nat)
    requires p <= q <= |s| && SPACE !in s[p..q] && (q < |s| ==> s[q] == SPACE)
    ensures SplitFrom(s, p) == [s[p..q]] + SplitFrom(s, q + 1)
  {
    if q < |s| {
      assert s[p..] == s[p..q] + [SPACE] + s[q + 1..];
      SplitFirst(s[p..q], s[q + 1..]);
    } else {
      assert s[p..] == s[p..q];
      SplitWord(s[p..q]);
    }
  }

  // ----- The word list -----

  /** 2048 different words. */
  predicate IsList(list: seq<bytes>)
  {
    && |list| == 2048 && (forall i :: 0 <= i < |list| ==> IsWord(list[i]))
    && forall i, j :: 0 <= i < j < |list| ==> list[i] != list[j]
  }

  /** The last step of `wordlist_init`: whether the words are in order. */
  method IsSorted(list: seq<bytes>) returns (sorted: bool)
    ensures sorted <==> Ascending(list)
  {
    sorted := true;
    var i := 1;
    while i < |list| && sorted
      invariant 1 <= i && (i <= |list| || |list| == 0) && (sorted ==> i <= |list| ==> Ascending(list[..i])) && (Ascending(list) ==> sorted)
    {
      if Lex(list[i - 1], list[i]) > 0 {
        sorted := false;
      } else {
        AscendingSnoc(list[..i], list[i]);
        assert list[..i] + [list[i]] == list[..i + 1];
      }
      i := i + 1;
    }
    if sorted && |list| > 0 {
      assert list[..i] == list;
    }
  }

  lemma AscendingSnoc(ks: seq<bytes>, x: bytes)
    requires ks != [] && Ascending(ks) && Lex(ks[|ks| - 1], x) <= 0
    ensures Ascending(ks + [x])
  {
    var r := ks + [x];
    forall i, j | 0 <= i < j < |r| ensures Lex(r[i], r[j]) <= 0 {
      if j == |ks| {
        if i < |ks| - 1 {
          LexAtMost(ks[i], ks[|ks| - 1], x);
        }
      } else {
        assert r[i] == ks[i] && r[j] == ks[j];
      }
    }
  }

  /** Where a word is, plus one; zero if it is nowhere. */
  predicate Located(list: seq<bytes>, word: bytes, found: nat)
  {
    if found == 0 then word !in list else found <= |list| && list[found - 1] == word
  }

  lemma BelowProbe(list: seq<bytes>, word: bytes, i: nat)
    requires Ascending(list) && i < |list| && Lex(list[i], word) < 0
    ensures forall j :: 0 <= j <= i ==> list[j] != word
  {
    forall j | 0 <= j <= i ensures list[j] != word {
      if j < i {
        LexTotal(list[j], list[i]);
        LexTotal(list[i], word);
      } else {
        LexTotal(list[i], word);
      }
    }
  }

  lemma AboveProbe(list: seq<bytes>, word: bytes, i: nat)
    requires Ascending(list) && i < |list| && Lex(word, list[i]) < 0
    ensures forall j :: i <= j < |list| ==> list[j] != word
  {
    forall j | i <= j < |list| ensures list[j] != word {
      LexTotal(list[i], list[j]);
      LexTotal(word, list[i]);
    }
  }

  /** `wordlist_lookup_word`: by halving if the list is in order, else one by one. Both find the word. */
  method LookupWord(list: seq<bytes>, sorted: bool, word: bytes) returns (found: nat)
    requires sorted ==> Ascending(list)
    ensures Located(list, word, found)
  {
    found := 0;
    if sorted {
      var l, u := 0, |list|;
      while l < u
        invariant l <= u <= |list| && (forall j :: 0 <= j < l ==> list[j] != word) && (forall j :: u <= j < |list| ==> list[j] != word)
        decreases u - l
      {
        var i := Probe(l, u);
        LexTotal(word, list[i]);
        if Lex(word, list[i]) < 0 {
          AboveProbe(list, word, i);
          u := i;
        } else if Lex(word, list[i]) > 0 {
          BelowProbe(list, word, i);
          l := i + 1;
        } else {
          return i + 1;
        }
      }
    } else {
      var i := 0;
      while i < |list| && found == 0
        invariant i <= |list| && (found == 0 ==> forall j :: 0 <= j < i ==> list[j] != word) && (found > 0 ==> Located(list, word, found))
      {
        if word == list[i] {
          found := i + 1;
        }
        i := i + 1;
      }
    }
  }

  // ----- Entropy and checksum -----

  function Mask(n: nat): (low: nat)
  {
    match n
    case 16 => 0xf0
    case 20 => 0xf8
    case 24 => 0xfc
    case 28 => 0xfe
    case 32 => 0xff
    case 36 => 0x80ff
    case 40 => 0xC0ff
    case _ => 0
  }

  predicate Standard(n: nat)
  {
    n == 16 || n == 20 || n == 24 || n == 28 || n == 32 || n == 36 || n == 40
  }

  /** The bits of a byte that a mask of leading ones keeps. */
  function Masked(b: byte, mask: nat): (r: byte)
    ensures r <= b
  {
    if mask == 0xf0 then b / 16 * 16 else if mask == 0xf8 then b / 8 * 8 else if mask == 0xfc then b / 4 * 4
    else if mask == 0xfe then b / 2 * 2 else if mask == 0xff then b
    else if mask == 0x80 then b / 128 * 128 else if mask == 0xC0 then b / 64 * 64 else 0
  }

  /** The checksum bytes come from the first byte of the hash alone; it is read as a signed number, so
      that its sign fills the second one. */
  function WithChecksum(sha256: bytes -> bytes, e: bytes): (d: bytes)
    requires |sha256(e)| == 32
  {
    var first := sha256(e)[0];
    var mask := Mask(|e|);
    if mask <= 0xff then e + [Masked(first, mask)]
    else e + [Masked(first, mask % 256), Masked(if first >= 128 then 255 else first, mask / 256)]
  }

  function Sentence(list: seq<bytes>, indices: seq<nat>): (s: bytes)
    requires |list| == 2048 && indices != [] && forall i :: 0 <= i < |indices| ==> indices[i] < 2048
  {
    Join(seq(|indices|, i requires 0 <= i < |indices| => list[indices[i]]))
  }

  function Indices(d: bytes): (ix: seq<nat>)
  {
    Chunks(Spread(d, 8), 11)
  }

  lemma IndicesFit(d: bytes)
    ensures forall i :: 0 <= i < |Indices(d)| ==> Indices(d)[i] < 2048
  {
    ChunksSpread(Spread(d, 8), 11);
    assert Pow(2, 11) == 2048 by {
      PowersOfTwo();
      PowAdd(2, 8, 3);
    }
  }

  /** `mnemonic_from_bytes`. */
  function FromBytes(list: seq<bytes>, d: bytes): (r: Option<bytes>)
    requires |list| == 2048
  {
    IndicesFit(d);
    if Indices(d) == [] then None else Some(Sentence(list, Indices(d)))
  }

  /** `toMnemonic`. */
  function ToMnemonic(list: seq<bytes>, sha256: bytes -> bytes, e: bytes): (r: Option<bytes>)
    requires |list| == 2048 && |sha256(e)| == 32
  {
    FromBytes(list, WithChecksum(sha256, e))
  }

  // ----- Why the padding is zero -----

  /** Zero bits behind the last whole number, fewer than a byte: regrouping loses nothing. */
  lemma TailZero(d: bytes, k: nat, t: nat, w: nat)
    requires w == 8 && d != [] && w * |d| == 11 * k + t && t < 8 && d[|d| - 1] % Pow(2, t) == 0
    ensures Exact(d, w, 11)
  {
    var n := |d| - 1;
    var x, front := d[n], Spread(d[..n], w);
    var s := Spread(d, w);
    assert s == front + ToBits(x, w);
    SplitBits(x, w - t, t);
    SpreadLength(d, w);
    var cut := front + ToBits(Shift(x, t), w - t);
    assert s == cut + ToBits(x, t);
    ChunksSpread(s, 11);
    SpreadLength(Chunks(s, 11), 11);
    DivModUnique(|s|, 11, |Chunks(s, 11)|, |Tail(s, 11)|);
    DivModUnique(|s|, 11, k, t);
    SuffixEqual(Spread(Chunks(s, 11), 11), Tail(s, 11), cut, ToBits(x, t));
    ZeroBits(x, t);
  }

  lemma SmallPowers()
    ensures Pow(2, 0) == 1 && Pow(2, 1) == 2 && Pow(2, 2) == 4 && Pow(2, 3) == 8 && Pow(2, 4) == 16 && Pow(2, 6) == 64 && Pow(2, 7) == 128
  {
    PowersOfTwo();
    assert Pow(2, 1) == 2 && Pow(2, 2) == 4 && Pow(2, 3) == 8 && Pow(2, 4) == 16;
    PowAdd(2, 4, 2);
    PowAdd(2, 4, 3);
  }

  /** Bits of the last byte behind the last whole word, and the number of words. */
  function Spare(n: nat): (t: nat)
    requires Standard(n)
    ensures t < 8
  {
    if n == 16 then 4 else if n == 20 then 3 else if n == 24 then 2 else if n == 28 then 1 else if n == 32 then 0 else if n == 36 then 7 else 6
  }

  function WordCount(n: nat): (k: nat)
    requires Standard(n)
  {
    3 * n / 4
  }

  function SparePower(n: nat): (p: nat)
    requires Standard(n)
    ensures p > 0
  {
    if n == 16 then 16 else if n == 20 then 8 else if n == 24 then 4 else if n == 28 then 2 else if n == 32 then 1 else if n == 36 then 128 else 64
  }

  lemma SparePowers(n: nat, t: nat)
    requires Standard(n) && t == Spare(n)
    ensures Pow(2, t) == SparePower(n)
  {
    SmallPowers();
  }

  lemma MaskedMultiple(b: byte)
    ensures Masked(b, 0xf0) % 16 == 0 && Masked(b, 0xf8) % 8 == 0 && Masked(b, 0xfc) % 4 == 0 && Masked(b, 0xfe) % 2 == 0
    ensures Masked(b, 0x80) % 128 == 0 && Masked(b, 0xC0) % 64 == 0
  {
  }

  lemma LastByte(sha256: bytes -> bytes, e: bytes, d: bytes)
    requires Standard(|e|) && |sha256(e)| == 32 && d == WithChecksum(sha256, e)
    ensures d != [] && 8 * |d| == 11 * WordCount(|e|) + Spare(|e|) && d[|d| - 1] % SparePower(|e|) == 0
  {
    var first := sha256(e)[0];
    MaskedMultiple(first);
    MaskedMultiple(255);
  }

  /** For every standard length the checksum ends with the last word. */
  lemma ChecksumExact(sha256: bytes -> bytes, e: bytes)
    requires Standard(|e|) && |sha256(e)| == 32
    ensures Exact(WithChecksum(sha256, e), 8, 11)
  {
    var d := WithChecksum(sha256, e);
    LastByte(sha256, e, d);
    SparePowers(|e|, Spare(|e|));
    TailZero(d, WordCount(|e|), Spare(|e|), 8);
  }

  // ----- There and back -----

  /** The word numbers of a sentence, if it has nothing but words of the list. */
  ghost predicate Numbered(list: seq<bytes>, ws: seq<bytes>, ix: seq<nat>)
  {
    |ix| == |ws| && forall i :: 0 <= i < |ws| ==> ix[i] < |list| && list[ix[i]] == ws[i]
  }

  lemma NumbersUnique(list: seq<bytes>, ws: seq<bytes>, a: seq<nat>, b: seq<nat>)
    requires IsList(list) && Numbered(list, ws, a) && Numbered(list, ws, b)
    ensures a == b
  {
    forall i | 0 <= i < |a| ensures a[i] == b[i] {
      assert list[a[i]] == ws[i] == list[b[i]];
    }
  }

  lemma SentenceWords(list: seq<bytes>, ix: seq<nat>)
    requires IsList(list) && ix != [] && forall i :: 0 <= i < |ix| ==> ix[i] < 2048
    ensures Numbered(list, Split(Sentence(list, ix)), ix) && |Sentence(list, ix)| + 1 >= 2 * |ix|
  {
    var ws := seq(|ix|, i requires 0 <= i < |ix| => list[ix[i]]);
    SplitJoin(ws);
    JoinLength(ws);
  }

  /** The entropy in what was stored: without the checksum byte, or the two of a long one. */
  function Entropy(d: bytes): (e: bytes)
    requires d != []
  {
    var n := |d| - 1;
    if n > 32 then d[..n - 1] else d[..n]
  }

  lemma EntropyOf(sha256: bytes -> bytes, e: bytes)
    requires Standard(|e|) && |sha256(e)| == 32
    ensures WithChecksum(sha256, e) != [] && Entropy(WithChecksum(sha256, e)) == e
  {
  }

  /** What `mnemonic_to_bytes` stores for given word numbers. */
  function Stored(ix: seq<nat>): (d: seq<nat>)
  {
    Covering(ix, 11, 8)
  }

  /** Storing the word numbers of entropy and checksum gives these bytes back. */
  lemma StoredIndices(sha256: bytes -> bytes, e: bytes)
    requires Standard(|e|) && |sha256(e)| == 32
    ensures Stored(Indices(WithChecksum(sha256, e))) == WithChecksum(sha256, e)
  {
    var d := WithChecksum(sha256, e);
    ChecksumExact(sha256, e);
    assert Fit(d, 8) by {
      PowersOfTwo();
    }
    RegroupBack(d, 11, 8);
  }

  lemma StoredBytes(ix: seq<nat>)
    ensures forall i :: 0 <= i < |Stored(ix)| ==> Stored(ix)[i] < 256
  {
    var p := CoveringSpread(ix, 11, 8);
    PowersOfTwo();
  }

  /** `fromMnemonic`, once the words have their numbers: the sentence must be the one that the entropy
      found in it has. */
  function Accepted(list: seq<bytes>, sha256: bytes -> bytes, s: bytes, ix: seq<nat>): (r: Option<bytes>)
    requires |list| == 2048 && (forall m :: |sha256(m)| == 32) && Stored(ix) != []
  {
    StoredBytes(ix);
    var e := Entropy(Stored(ix));
    if ToMnemonic(list, sha256, e) == Some(s) then Some(e) else None
  }

  /** Every entropy of a standard length has a sentence, and comes back from it. */
  lemma MnemonicRoundTrip(list: seq<bytes>, sha256: bytes -> bytes, e: bytes, ix: seq<nat>)
    requires IsList(list) && (forall m :: |sha256(m)| == 32) && Standard(|e|)
    ensures ToMnemonic(list, sha256, e).Some?
    ensures Needed(|Split(ToMnemonic(list, sha256, e).value)|) <= |ToMnemonic(list, sha256, e).value| + 1
    ensures Numbered(list, Split(ToMnemonic(list, sha256, e).value), ix) ==>
              Stored(ix) != [] && Accepted(list, sha256, ToMnemonic(list, sha256, e).value, ix) == Some(e)
    ensures exists jx :: Numbered(list, Split(ToMnemonic(list, sha256, e).value), jx)
  {
    var d := WithChecksum(sha256, e);
    var jx := Indices(d);
    StoredIndices(sha256, e);
    EntropyOf(sha256, e);
    NoWordsNoBytes(jx);
    IndicesFit(d);
    SentenceWords(list, jx);
    if Numbered(list, Split(ToMnemonic(list, sha256, e).value), ix) {
      NumbersUnique(list, Split(ToMnemonic(list, sha256, e).value), ix, jx);
    }
  }

  lemma NoWordsNoBytes(ix: seq<nat>)
    ensures ix == [] ==> Stored(ix) == []
  {
  }

  /** And a sentence that is accepted is the one its entropy has. */
  lemma AcceptedReencodes(list: seq<bytes>, sha256: bytes -> bytes, s: bytes, ix: seq<nat>)
    requires |list| == 2048 && (forall m :: |sha256(m)| == 32) && Stored(ix) != [] && Accepted(list, sha256, s, ix).Some?
    ensures ToMnemonic(list, sha256, Accepted(list, sha256, s, ix).value) == Some(s)
  {
  }

  // ----- The library's functions -----

  /** Bytes for `n` words. */
  function Needed(n: nat): (k: nat)
  {
    (n * 11 + 7) / 8
  }

  /** A buffer that holds the word numbers and zeros behind them. */
  ghost predicate Packed(buf: bytes, ix: seq<nat>, w: nat)
  {
    Leads(Spread(ix, 11), Spread(buf, w))
  }

  predicate Leads(front: seq<bit>, all: seq<bit>)
  {
    |front| <= |all| && all == front + Zeros(|all| - |front|)
  }

  lemma {:induction false} ClearBuffer(buf: bytes, w: nat)
    requires forall i :: 0 <= i < |buf| ==> buf[i] == 0
    ensures Spread(buf, w) == Zeros(|Spread(buf, w)|)
  {
    if buf != [] {
      ClearBuffer(buf[..|buf| - 1], w);
      ZerosAreBits(w);
    }
  }

  /** One more number behind the others. */
  lemma OverwrittenZeros(now: seq<bit>, was: seq<bit>, a: seq<bit>, x: seq<bit>)
    requires |a| + |x| <= |was| && Leads(a, was) && Overwritten(now, was, |a|, x)
    ensures |now| == |was| && Leads(a + x, now)
  {
    assert was[..|a|] == a;
    assert was[|a| + |x|..] == Zeros(|was| - |a| - |x|);
  }

  lemma PackedMore(now: seq<bit>, was: seq<bit>, ix: seq<nat>, v: nat, w: nat)
    requires |Spread(ix, w)| + w <= |was| && Leads(Spread(ix, w), was)
    requires Overwritten(now, was, |Spread(ix, w)|, ToBits(v, w))
    ensures |now| == |was| && Leads(Spread(ix + [v], w), now)
  {
    SpreadSnoc(ix, v, w);
    OverwrittenZeros(now, was, Spread(ix, w), ToBits(v, w));
  }

  lemma ClearBehind(was: seq<bit>, a: seq<bit>)
    requires Leads(a, was)
    ensures forall k :: |a| <= k < |was| ==> was[k] == 0
  {
  }

  method StoreOne(w: nat, b: nat, buf: array<byte>, i: nat, v: nat, ghost ix: seq<nat>)
    requires b == 8 && i == |ix| && i * w + w <= 8 * buf.Length && |Spread(buf[..], b)| == 8 * buf.Length
    requires Leads(Spread(ix, w), Spread(buf[..], b))
    modifies buf
    ensures |Spread(buf[..], b)| == 8 * buf.Length && Leads(Spread(ix + [v], w), Spread(buf[..], b))
  {
    SpreadLength(ix, w);
    ghost var was := Spread(buf[..], b);
    ClearBehind(was, Spread(ix, w));
    StoreIndex(w, buf, i, v);
    PackedMore(Spread(buf[..], b), was, ix, v, w);
  }

  lemma PackedIsStored(buf: bytes, ix: seq<nat>, written: nat, w: nat)
    requires w == 8 && written == Needed(|ix|) <= |buf| && Packed(buf, ix, w)
    ensures buf[..written] == Stored(ix)
  {
    var front := buf[..written];
    var q := PackedFront(buf, ix, front, buf[written..], w);
    var p := CoveringSpread(ix, 11, w);
    SpreadLength(ix, 11);
    SpreadLength(front, w);
    SpreadLength(Stored(ix), w);
    SameLength(w, 11 * |ix|, |Stored(ix)|, p, written, q);
    assert Fit(front, 8) by {
      PowersOfTwo();
    }
    SpreadInjective(front, Stored(ix), w);
  }

  /** The bytes that are written hold the numbers and fewer than eight zero bits. */
  lemma PackedFront(buf: bytes, ix: seq<nat>, front: bytes, back: bytes, w: nat) returns (q: nat)
    requires w == 8 && |front| == Needed(|ix|) && buf == front + back && Packed(buf, ix, w)
    ensures q == 8 * |front| - 11 * |ix| && q < 8 && Spread(front, w) == Spread(ix, 11) + Zeros(q)
  {
    SpreadLength(ix, 11);
    SpreadLength(front, w);
    SpreadAppend(front, back, w);
    q := 8 * |front| - 11 * |ix|;
    FrontOfPacked(Spread(front, w), Spread(back, w), Spread(ix, 11), q);
  }

  lemma FrontOfPacked(f: seq<bit>, g: seq<bit>, x: seq<bit>, q: nat)
    requires |f| == |x| + q && f + g == x + Zeros(|f + g| - |x|)
    ensures f == x + Zeros(q)
  {
    assert f == (f + g)[..|f|];
  }

  lemma RoomLeft(n: nat, i: nat, len: nat)
    requires i < n && Needed(n) <= len
    ensures i * 11 + 11 <= 8 * len
  {
  }

  /** The loop of `mnemonic_to_bytes`: every word is looked up and its number stored. */
  method StoreWords(list: seq<bytes>, sorted: bool, words: seq<bytes>, buf: array<byte>) returns (ok: bool, ghost ix: seq<nat>)
    requires |list| == 2048 && (sorted ==> Ascending(list)) && Needed(|words|) <= buf.Length
    requires forall i :: 0 <= i < buf.Length ==> buf[i] == 0
    modifies buf
    ensures ok ==> Numbered(list, words, ix) && Packed(buf[..], ix, 8)
    ensures !ok ==> exists i :: 0 <= i < |words| && words[i] !in list
  {
    ok, ix := true, [];
    ClearBuffer(buf[..], 8);
    SpreadLength(buf[..], 8);
    var i := 0;
    while i < |words|
      invariant i <= |words| && Numbered(list, words[..i], ix) && Packed(buf[..], ix, 8) && |Spread(buf[..], 8)| == 8 * buf.Length
    {
      var idx := LookupWord(list, sorted, words[i]);
      if idx == 0 {
        return false, ix;
      }
      RoomLeft(|words|, i, buf.Length);
      StoreOne(11, 8, buf, i, idx - 1, ix);
      NumberedMore(list, words, i, ix, idx - 1);
      ix := ix + [idx - 1];
      i := i + 1;
    }
    assert words[..i] == words;
  }

  lemma NumberedMore(list: seq<bytes>, words: seq<bytes>, i: nat, ix: seq<nat>, v: nat)
    requires i < |words| && Numbered(list, words[..i], ix) && v < |list| && list[v] == words[i]
    ensures Numbered(list, words[..i + 1], ix + [v])
  {
    assert words[..i + 1] == words[..i] + [words[i]];
  }

  lemma AllListed(list: seq<bytes>, words: seq<bytes>)
    requires exists jx :: Numbered(list, words, jx)
    ensures forall i :: 0 <= i < |words| ==> words[i] in list
  {
  }

  /** The sentence is accepted or not, according to the numbers of its words. */
  method ReadSentence(list: seq<bytes>, sorted: bool, sha256: bytes -> bytes, s: bytes) returns (r: Option<bytes>, ghost ix: seq<nat>)
    requires IsList(list) && (sorted ==> Ascending(list)) && (forall m :: |sha256(m)| == 32) && Needed(|Split(s)|) <= |s| + 1
    ensures (exists i :: 0 <= i < |Split(s)| && Split(s)[i] !in list) ==> r == None
    ensures r.Some? || (forall i :: 0 <= i < |Split(s)| ==> Split(s)[i] in list) ==>
              Numbered(list, Split(s), ix) && Stored(ix) != [] && r == Accepted(list, sha256, s, ix)
  {
    var words := Tokenise(s);
    var buf := new byte[|s| + 1](_ => 0);
    var ok;
    ok, ix := StoreWords(list, sorted, words, buf);
    if !ok {
      return None, ix;
    }
    var written := Needed(|words|);
    PackedIsStored(buf[..], ix, written, 8);
    var e := Entropy(buf[..written]);
    var again := ToMnemonic(list, sha256, e);
    r := if again == Some(s) then Some(e) else None;
  }

  lemma Recovers(list: seq<bytes>, sha256: bytes -> bytes, s: bytes, e: bytes, r: Option<bytes>, ix: seq<nat>)
    requires IsList(list) && (forall m :: |sha256(m)| == 32) && Standard(|e|) && ToMnemonic(list, sha256, e) == Some(s)
    requires (forall i :: 0 <= i < |Split(s)| ==> Split(s)[i] in list) ==>
               Numbered(list, Split(s), ix) && Stored(ix) != [] && r == Accepted(list, sha256, s, ix)
    ensures r == Some(e)
  {
    MnemonicRoundTrip(list, sha256, e, ix);
    AllListed(list, Split(s));
  }

  /** `fromMnemonic`: what it accepts is the sentence of what it returns, and it returns the entropy of
      every sentence of a standard length. A sentence of so many empty words that its length does not
      cover the bytes they stand for would be read beyond the buffer. */
  method FromMnemonic(list: seq<bytes>, sorted: bool, sha256: bytes -> bytes, s: bytes) returns (r: Option<bytes>)
    requires IsList(list) && (sorted ==> Ascending(list)) && (forall m :: |sha256(m)| == 32) && Needed(|Split(s)|) <= |s| + 1
    ensures (exists i :: 0 <= i < |Split(s)| && Split(s)[i] !in list) ==> r == None
    ensures r.Some? ==> ToMnemonic(list, sha256, r.value) == Some(s)
    ensures forall e: bytes {:trigger Standard(|e|)} :: Standard(|e|) && ToMnemonic(list, sha256, e) == Some(s) ==> r == Some(e)
  {
    ghost var ix;
    r, ix := ReadSentence(list, sorted, sha256, s);
    if r.Some? {
      AcceptedReencodes(list, sha256, s, ix);
    }
    forall e: bytes | Standard(|e|) && ToMnemonic(list, sha256, e) == Some(s) ensures r == Some(e) {
      Recovers(list, sha256, s, e, r, ix);
    }
  }

  lemma {:induction false} ChunkCount(s: seq<bit>, w: nat)
    requires w > 0
    ensures |Chunks(s, w)| == |s| / w
  {
    ChunksSpread(s, w);
    SpreadLength(Chunks(s, w), w);
    DivModUnique(|s|, w, |Chunks(s, w)|, |Tail(s, w)|);
  }

  /** `mnemonic_from_bytes`: the words of the numbers, one after the other. */
  method MnemonicFromBytes(list: seq<bytes>, d: bytes) returns (r: Option<bytes>)
    requires |list| == 2048
    ensures r == FromBytes(list, d)
  {
    SpreadLength(d, 8);
    ChunkCount(Spread(d, 8), 11);
    IndicesFit(d);
    var total := 8 * |d| / 11;
    ghost var ix := Indices(d);
    var words: seq<bytes> := [];
    var i := 0;
    while i < total
      invariant i <= total && |words| == i && forall k :: 0 <= k < i ==> words[k] == list[ix[k]]
    {
      ChunkIs(Spread(d, 8), 11, i, i * 11);
      var idx := ExtractIndex(11, d, i);
      words := words + [list[idx]];
      i := i + 1;
    }
    if total == 0 {
      return None;
    }
    assert words == seq(|ix|, k requires 0 <= k < |ix| => list[ix[k]]);
    r := Some(Join(words));
  }
}
