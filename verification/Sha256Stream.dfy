/** Streaming SHA-256 (libraries/sha256/sha256.c:99-158): one byte at a time into a 64-byte buffer. */
module Sha256Stream {
  import opened Bytes
  import opened Arithmetic
  import opened HashSpec

  const MOD64: nat := 0x1_0000_0000_0000_0000

  lemma Mod64IsRange()
    ensures MOD64 == Range(8)
  {
    RangeValues();
  }

  /** Only the low bytes are written. */
  lemma {:induction false} BigMod(n: nat, width: nat)
    ensures Big(n % Range(width), width) == Big(n, width)
  {
    if width > 0 {
      LowBytes(n, Range(width - 1));
      BigMod(n / 256, width - 1);
    }
  }

  lemma LowBytes(n: nat, r: nat)
    requires r > 0
    ensures n % (256 * r) / 256 == n / 256 % r && n % (256 * r) % 256 == n % 256
  {
    var q, t := (n / 256) / r, (n / 256) % r;
    assert n / 256 == r * q + t;
    assert 256 * (r * q) == (256 * r) * q;
    DivModUnique(n, 256 * r, q, 256 * t + n % 256);
  }

  /** The eight bytes that the shifts pick out. */
  lemma EightBytes(v: nat, s: bytes)
    requires |s| == 8
    requires s[7] == v % 256 && s[6] == v / 256 % 256 && s[5] == v / 256 / 256 % 256
    requires s[4] == v / 256 / 256 / 256 % 256 && s[3] == v / 256 / 256 / 256 / 256 % 256
    requires s[2] == v / 256 / 256 / 256 / 256 / 256 % 256
    requires s[1] == v / 256 / 256 / 256 / 256 / 256 / 256 % 256
    requires s[0] == v / 256 / 256 / 256 / 256 / 256 / 256 / 256 % 256
    ensures s == Big(v, 8)
  {
    BigByte(v, 8, s);
    var v1 := v / 256;
    BigByte(v1, 7, s[..7]);
    BigByte(v1 / 256, 6, s[..6]);
    BigByte(v1 / 256 / 256, 5, s[..5]);
    BigByte(v1 / 256 / 256 / 256, 4, s[..4]);
    BigByte(v1 / 256 / 256 / 256 / 256, 3, s[..3]);
    BigByte(v1 / 256 / 256 / 256 / 256 / 256, 2, s[..2]);
    BigByte(v1 / 256 / 256 / 256 / 256 / 256 / 256, 1, s[..1]);
  }

  lemma BigByte(v: nat, width: nat, s: bytes)
    requires width > 0 && |s| == width && s[width - 1] == v % 256
    ensures s[..width - 1] == Big(v / 256, width - 1) ==> s == Big(v, width)
  {
    assert s == s[..width - 1] + [s[width - 1]];
  }

  lemma CountBlock(n: nat)
    ensures (512 * n % MOD64 + 512) % MOD64 == 512 * (n + 1) % MOD64
  {
  }

  lemma CountTail(n: nat, t: nat, bitlen: nat)
    requires bitlen == (512 * n % MOD64 + 8 * t) % MOD64
    ensures bitlen == (8 * (64 * n + t)) % MOD64
  {
  }

  predicate Sha256Sizes<S>(a: Alg<S>)
  {
    Sized(a) && a.block == 64 && a.field == 8
  }

  class Context<S> {
    const alg: Alg<S>
    const data: array<byte>
    var datalen: nat
    var bitlen: nat
    var state: S
    ghost var message: bytes
    ghost var blocks: nat

    ghost predicate Valid()
      reads this, data
    {
      && Sha256Sizes(alg) && data.Length == 64 && datalen < 64
      && Reached(alg, message, state, data[..datalen], blocks)
      && bitlen == 512 * blocks % MOD64
    }

    /** `sha256_init`. */
    constructor (alg: Alg<S>)
      requires Sha256Sizes(alg)
      ensures Valid() && message == [] && this.alg == alg && fresh(data)
    {
      this.alg := alg;
      data := new byte[64](_ => 0);
      datalen, bitlen, state := 0, 0, alg.init;
      message, blocks := [], 0;
      new;
      ReachedEmpty(alg);
      assert data[..0] == [];
    }

    /** One byte. */
    method Put(b: byte)
      requires Valid()
      modifies this, data
      ensures Valid() && message == old(message) + [b]
    {
      ghost var tail, m := data[..datalen], message;
      data[datalen] := b;
      datalen := datalen + 1;
      assert data[..datalen] == tail + [b];
      message := message + [b];
      if datalen == 64 {
        ReachedBlock(alg, m, state, tail, blocks, [b]);
        assert data[..] == tail + [b];
        state := alg.compress(state, data[..]);
        CountBlock(blocks);
        bitlen := (bitlen + 512) % MOD64;
        datalen := 0;
        blocks := blocks + 1;
        assert data[..0] == [];
      } else {
        ReachedMore(alg, m, state, tail, blocks, [b]);
      }
    }

    /** `sha256_update`. The index is 32 bits wide: longer inputs would never end. */
    method Update(input: bytes)
      requires Valid() && |input| < 0x1_0000_0000
      modifies this, data
      ensures Valid() && message == old(message) + input
    {
      var i := 0;
      while i < |input|
        invariant i <= |input| && Valid() && message == old(message) + input[..i]
      {
        Put(input[i]);
        assert input[..i + 1] == input[..i] + [input[i]];
        i := i + 1;
      }
      assert input[..i] == input;
    }

    method Fill(from: nat, to: nat)
      requires from <= to <= data.Length
      modifies data
      ensures data[..from] == old(data[..from]) && data[from..to] == ZeroBytes(to - from) && data[to..] == old(data[to..])
    {
      var i := from;
      while i < to
        invariant from <= i <= to && data[..from] == old(data[..from]) && data[to..] == old(data[to..])
        invariant forall k :: from <= k < i ==> data[k] == 0
      {
        data[i] := 0;
        i := i + 1;
      }
    }

    method PutLength()
      requires data.Length == 64
      modifies data
      ensures data[..56] == old(data[..56]) && data[56..] == Big(bitlen, 8)
    {
      data[63] := bitlen % 256;
      data[62] := bitlen / 256 % 256;
      data[61] := bitlen / 256 / 256 % 256;
      data[60] := bitlen / 256 / 256 / 256 % 256;
      data[59] := bitlen / 256 / 256 / 256 / 256 % 256;
      data[58] := bitlen / 256 / 256 / 256 / 256 / 256 % 256;
      data[57] := bitlen / 256 / 256 / 256 / 256 / 256 / 256 % 256;
      data[56] := bitlen / 256 / 256 / 256 / 256 / 256 / 256 / 256 % 256;
      EightBytes(bitlen, data[56..]);
    }

    /** The marker and zeros up to the length. */
    method PadShort(ghost tail: bytes)
      requires data.Length == 64 && datalen < 56 && data[..datalen] == tail
      modifies data
      ensures data[..56] == tail + ([0x80] + ZeroBytes(55 - |tail|))
    {
      data[datalen] := 0x80;
      Fill(datalen + 1, 56);
    }

    /** Without room for the length: the marker and zeros to the end, one compression, and zeros again. */
    method PadLong(ghost tail: bytes, ghost more: bytes)
      requires data.Length == 64 && 56 <= datalen < 64 && data[..datalen] == tail && more == [0x80] + ZeroBytes(63 - |tail|)
      modifies this`state, data
      ensures state == alg.compress(old(state), tail + more) && data[..56] == ZeroBytes(56)
    {
      data[datalen] := 0x80;
      Fill(datalen + 1, 64);
      assert data[..] == tail + more;
      state := alg.compress(state, data[..]);
      Fill(0, 56);
    }

    /** The length, and the last compression. */
    method PutLast(ghost front: bytes, ghost n: nat)
      requires data.Length == 64 && data[..56] == front && bitlen == 512 * blocks % MOD64 && n == 64 * blocks + datalen
      modifies this`state, this`bitlen, data
      ensures state == alg.compress(old(state), front + Big(8 * n, 8))
    {
      bitlen := (bitlen + datalen * 8) % MOD64;
      LengthField(blocks, datalen, n, bitlen);
      PutLength();
      assert data[..] == data[..56] + data[56..];
      state := alg.compress(state, data[..]);
    }

    /** `sha256_final`. */
    method Final() returns (hash: bytes)
      requires Valid()
      modifies this, data
      ensures state == Fold(alg, alg.init, Padded(alg, old(message)))
      ensures hash == Hash(alg, old(message))
    {
      ghost var m, tail, n, start := message, data[..datalen], blocks, state;
      ghost var field := Big(8 * |m|, 8);
      if datalen < 56 {
        PadShort(tail);
        ghost var mark := [0x80] + ZeroBytes(55 - |tail|);
        FinalShort(alg, m, start, tail, n);
        PutLast(tail + mark, |m|);
        assert tail + mark + field == tail + (mark + field);
      } else {
        ghost var more := [0x80] + ZeroBytes(63 - |tail|);
        PadLong(tail, more);
        FinalLong(alg, m, start, tail, n, more, ZeroBytes(56) + field);
        PutLast(ZeroBytes(56), |m|);
      }
      hash := alg.extract(state);
    }
  }

  lemma LengthField(n: nat, t: nat, total: nat, bitlen: nat)
    requires bitlen == (512 * n % MOD64 + t * 8) % MOD64 && total == 64 * n + t
    ensures Big(bitlen, 8) == Big(8 * total, 8)
  {
    CountTail(n, t, bitlen);
    Mod64IsRange();
    BigMod(8 * total, 8);
  }
}
