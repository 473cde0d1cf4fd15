/** The two hash functions of the library as instances: eight words of state, written most significant
    byte first (libraries/hmac_and_pbkdf/hmac_and_pbkdf.h:11-31, 192-286). The compression functions
    and the initial states stay parameters. */
module ShaWords {
  import opened Bytes
  import opened HashSpec
  import opened Hmac
  import opened Sha256Stream
  import opened Sha512Stream
  import opened Pbkdf2

  datatype State<W> = State(h0: W, h1: W, h2: W, h3: W, h4: W, h5: W, h6: W, h7: W)

  /** Words that are added without carry and written as bytes. */
  datatype Word<!W> = Word(xor: (W, W) -> W, write: W -> bytes, width: nat, xorByte: (byte, byte) -> byte)

  function XorByte(a: byte, b: byte): (c: byte)
  {
    ((a as bv8) ^ (b as bv8)) as int
  }

  function Pair(f: (byte, byte) -> byte, x: byte, y: byte): (z: byte)
  {
    f(x, y)
  }

  function Zip(f: (byte, byte) -> byte, x: bytes, y: bytes): (z: bytes)
  {
    var n := if |x| <= |y| then |x| else |y|;
    seq(n, i requires 0 <= i < n => Pair(f, x[i], y[i]))
  }

  function Words<W>(s: State<W>): (ws: seq<W>)
    ensures |ws| == 8
  {
    [s.h0, s.h1, s.h2, s.h3, s.h4, s.h5, s.h6, s.h7]
  }

  function Written<W>(w: Word<W>, ws: seq<W>): (s: bytes)
  {
    if ws == [] then [] else w.write(ws[0]) + Written(w, ws[1..])
  }

  function XorState<W>(w: Word<W>, s: State<W>, t: State<W>): (r: State<W>)
  {
    State(w.xor(s.h0, t.h0), w.xor(s.h1, t.h1), w.xor(s.h2, t.h2), w.xor(s.h3, t.h3),
          w.xor(s.h4, t.h4), w.xor(s.h5, t.h5), w.xor(s.h6, t.h6), w.xor(s.h7, t.h7))
  }

  /** Adding words adds the bytes they are written as. */
  ghost predicate Writes<W(!new)>(w: Word<W>)
  {
    && (forall x {:trigger w.write(x)} :: |w.write(x)| == w.width)
    && forall x, y {:trigger w.xor(x, y)} :: w.write(w.xor(x, y)) == Zip(w.xorByte, w.write(x), w.write(y))
  }

  lemma {:induction false} WrittenLength<W(!new)>(w: Word<W>, ws: seq<W>)
    requires Writes(w)
    ensures |Written(w, ws)| == |ws| * w.width
  {
    if ws != [] {
      WrittenLength(w, ws[1..]);
      assert |ws| * w.width == w.width + (|ws| - 1) * w.width;
    }
  }

  lemma ZipAppend(f: (byte, byte) -> byte, a: bytes, b: bytes, c: bytes, d: bytes)
    requires |a| == |c| && |b| == |d|
    ensures Zip(f, a + b, c + d) == Zip(f, a, c) + Zip(f, b, d)
  {
  }

  lemma {:induction false} WrittenXor<W(!new)>(w: Word<W>, x: seq<W>, y: seq<W>, z: seq<W>)
    requires Writes(w) && |x| == |y| == |z| && forall i :: 0 <= i < |x| ==> z[i] == w.xor(x[i], y[i])
    ensures |Written(w, x)| == |Written(w, y)| && Written(w, z) == Zip(w.xorByte, Written(w, x), Written(w, y))
  {
    WrittenLength(w, x);
    WrittenLength(w, y);
    if x != [] {
      WrittenLength(w, x[1..]);
      WrittenLength(w, y[1..]);
      WrittenXor(w, x[1..], y[1..], z[1..]);
      ZipAppend(w.xorByte, w.write(x[0]), Written(w, x[1..]), w.write(y[0]), Written(w, y[1..]));
    }
  }

  function Sha<W>(w: Word<W>, init: State<W>, compress: (State<W>, bytes) -> State<W>, block: nat, field: nat): (a: Alg<State<W>>)
  {
    Alg(init, compress, (s: State<W>) => Written(w, Words(s)), (s, t) => XorState(w, s, t), w.xorByte, block, 8 * w.width, field)
  }

  lemma ShaSound<W(!new)>(w: Word<W>, init: State<W>, compress: (State<W>, bytes) -> State<W>, block: nat, field: nat)
    requires Writes(w) && Sized(Sha(w, init, compress, block, field))
    ensures Sound(Sha(w, init, compress, block, field))
  {
    var a := Sha(w, init, compress, block, field);
    forall s ensures |a.extract(s)| == a.digest {
      WrittenLength(w, Words(s));
    }
    forall s, t ensures a.extract(a.xor(s, t)) == XorBytes(a, a.extract(s), a.extract(t)) {
      WrittenXor(w, Words(s), Words(t), Words(XorState(w, s, t)));
    }
  }

  // ----- Words, byte by byte -----

  /** A 32-bit word, most significant byte first. */
  datatype Word32 = Word32(b0: byte, b1: byte, b2: byte, b3: byte)

  datatype Word64 = Word64(high: Word32, low: Word32)

  function Xor32(f: (byte, byte) -> byte, x: Word32, y: Word32): (z: Word32)
  {
    Word32(Pair(f, x.b0, y.b0), Pair(f, x.b1, y.b1), Pair(f, x.b2, y.b2), Pair(f, x.b3, y.b3))
  }

  function Xor64(f: (byte, byte) -> byte, x: Word64, y: Word64): (z: Word64)
  {
    Word64(Xor32(f, x.high, y.high), Xor32(f, x.low, y.low))
  }

  /** `write32_be`. */
  function Write32(x: Word32): (s: bytes)
    ensures |s| == 4
  {
    [x.b0, x.b1, x.b2, x.b3]
  }

  /** `write64_be`. */
  function Write64(x: Word64): (s: bytes)
    ensures |s| == 8
  {
    Write32(x.high) + Write32(x.low)
  }

  function Words32(f: (byte, byte) -> byte): (w: Word<Word32>)
  {
    Word((x, y) => Xor32(f, x, y), Write32, 4, f)
  }

  function Words64(f: (byte, byte) -> byte): (w: Word<Word64>)
  {
    Word((x, y) => Xor64(f, x, y), Write64, 8, f)
  }

  lemma Write32Xor(f: (byte, byte) -> byte, x: Word32, y: Word32)
    ensures Write32(Xor32(f, x, y)) == Zip(f, Write32(x), Write32(y))
  {
  }

  lemma Words32Writes(f: (byte, byte) -> byte)
    ensures Writes(Words32(f))
  {
    var w := Words32(f);
    forall x, y ensures w.write(w.xor(x, y)) == Zip(w.xorByte, w.write(x), w.write(y)) {
      Write32Xor(f, x, y);
    }
  }

  lemma Words64Writes(f: (byte, byte) -> byte)
    ensures Writes(Words64(f))
  {
    var w := Words64(f);
    forall x, y ensures w.write(w.xor(x, y)) == Zip(w.xorByte, w.write(x), w.write(y)) {
      Write32Xor(f, x.high, y.high);
      Write32Xor(f, x.low, y.low);
      ZipAppend(f, Write32(x.high), Write32(x.low), Write32(y.high), Write32(y.low));
    }
  }

  // ----- The instances -----

  function Sha256(init: State<Word32>, compress: (State<Word32>, bytes) -> State<Word32>): (a: Alg<State<Word32>>)
  {
    Sha(Words32(XorByte), init, compress, 64, 8)
  }

  function Sha512(init: State<Word64>, compress: (State<Word64>, bytes) -> State<Word64>): (a: Alg<State<Word64>>)
  {
    Sha(Words64(XorByte), init, compress, 128, 16)
  }

  /** SHA-256 meets what the streaming form, HMAC and PBKDF2 ask of a hash function, whatever its
      compression function. */
  lemma Sha256Sound(init: State<Word32>, compress: (State<Word32>, bytes) -> State<Word32>)
    ensures var a := Sha256(init, compress);
      Sound(a) && Sha256Sizes(a) && a.digest == 32
  {
    Words32Writes(XorByte);
    ShaSound(Words32(XorByte), init, compress, 64, 8);
  }

  /** And so does SHA-512. */
  lemma Sha512Sound(init: State<Word64>, compress: (State<Word64>, bytes) -> State<Word64>)
    ensures var a := Sha512(init, compress);
      Sound(a) && Sha512Sizes(a) && a.digest == 64
  {
    Words64Writes(XorByte);
    ShaSound(Words64(XorByte), init, compress, 128, 16);
  }
}
