/** Streaming SHA-512 (libraries/sha512/sha512.c:243-311): whole blocks are compressed straight from
    the input, and only what is left over is buffered. */
module Sha512Stream {
  import opened Bytes
  import opened Arithmetic
  import opened HashSpec
  import opened Sha256Stream

  // ----- The 128-bit byte counter in two words -----

  const MOD128: nat := 0x1_0000_0000_0000_0000_0000_0000_0000_0000

  predicate Counts(low: nat, high: nat, n: nat)
  {
    low < MOD64 && high < MOD64 && low + MOD64 * high == n % MOD128
  }

  /** A wrapped sum is smaller than what was added. */
  lemma CountMore(low: nat, high: nat, n: nat, k: nat)
    requires Counts(low, high, n) && k < MOD64
    ensures var low' := (low + k) % MOD64;
      Counts(low', if low' < k then (high + 1) % MOD64 else high, n + k)
  {
    var m := n % MOD128;
    assert (n + k) % MOD128 == (m + k) % MOD128;
    if low + k < MOD64 {
      assert (low + k) % MOD64 == low + k;
      assert m + k < MOD128;
    } else {
      assert (low + k) % MOD64 == low + k - MOD64;
      if high + 1 < MOD64 {
        assert m + k < MOD128;
      }
    }
  }

  lemma CountLow(low: nat, high: nat, n: nat, blocks: nat, t: nat)
    requires Counts(low, high, n) && n == 128 * blocks + t && t < 128
    ensures low % 128 == t
  {
  }

  /** `v` without its last `k` bytes. */
  function Drop(v: nat, k: nat): (r: nat)
  {
    if k == 0 then v else Drop(v / 256, k - 1)
  }

  lemma {:induction false} DropIsDivision(v: nat, k: nat)
    ensures Drop(v, k) == v / Range(k)
  {
    if k > 0 {
      DropIsDivision(v / 256, k - 1);
      DivideTwice(v, Range(k - 1));
    }
  }

  lemma {:induction false} BigSplit(v: nat, j: nat, k: nat)
    ensures Big(v, j + k) == Big(Drop(v, k), j) + Big(v, k)
  {
    if k > 0 {
      BigSplit(v / 256, j, k - 1);
      MoveByte(v, j + k, k, Big(Drop(v, k), j));
    }
  }

  lemma MoveByte(v: nat, m: nat, k: nat, s: bytes)
    requires 0 < k && 0 < m && Big(v / 256, m - 1) == s + Big(v / 256, k - 1)
    ensures Big(v, m) == s + Big(v, k)
  {
    assert s + (Big(v / 256, k - 1) + [v % 256]) == s + Big(v / 256, k - 1) + [v % 256];
  }

  lemma DivideTwice(v: nat, r: nat)
    requires r > 0
    ensures (v / 256) / r == v / (256 * r)
  {
    var q, t := (v / 256) / r, (v / 256) % r;
    assert v / 256 == r * q + t;
    assert 256 * (r * q) == (256 * r) * q;
    DivModUnique(v, 256 * r, q, 256 * t + v % 256);
  }

  lemma LengthLow(low: nat, high: nat, n: nat)
    requires Counts(low, high, n)
    ensures low * 8 % MOD64 == 8 * n % MOD64
  {
    assert n == low + MOD64 * (high + MOD64 * (n / MOD128));
  }

  lemma LengthHigh(low: nat, high: nat, n: nat)
    requires Counts(low, high, n)
    ensures 8 * n / MOD64 == low / 0x2000_0000_0000_0000 + high * 8 + MOD64 * (8 * (n / MOD128))
  {
    var q, t, r := n / MOD128, low / 0x2000_0000_0000_0000, low % 0x2000_0000_0000_0000;
    assert n == low + MOD64 * high + MOD128 * q;
    DivModUnique(8 * n, MOD64, t + high * 8 + MOD64 * (8 * q), 8 * r);
  }

  lemma DropMultiple(x: nat, k: nat)
    ensures (x + MOD64 * k) % MOD64 == x % MOD64
  {
  }

  /** The two words of the length in bits, from the two words of the length in bytes. */
  lemma LengthWords(low: nat, high: nat, n: nat)
    requires Counts(low, high, n)
    ensures low * 8 % MOD64 == 8 * n % MOD64
    ensures (low / 0x2000_0000_0000_0000 + high * 8) % MOD64 == 8 * n / MOD64 % MOD64
  {
    LengthLow(low, high, n);
    LengthHigh(low, high, n);
    DropMultiple(low / 0x2000_0000_0000_0000 + high * 8, 8 * (n / MOD128));
  }

  lemma LengthBytes(low: nat, high: nat, n: nat)
    requires Counts(low, high, n)
    ensures Big((low / 0x2000_0000_0000_0000 + high * 8) % MOD64, 8) + Big(low * 8 % MOD64, 8) == Big(8 * n, 16)
  {
    LengthWords(low, high, n);
    Mod64IsRange();
    BigSplit(8 * n, 8, 8);
    DropIsDivision(8 * n, 8);
    BigMod(8 * n, 8);
    BigMod(8 * n / MOD64, 8);
  }

  predicate Sha512Sizes<S>(a: Alg<S>)
  {
    Sized(a) && a.block == 128 && a.field == 16
  }

  class Context<S> {
    const alg: Alg<S>
    const buffer: array<byte>
    var low: nat
    var high: nat
    var state: S
    ghost var message: bytes
    ghost var blocks: nat

    ghost predicate Valid()
      reads this, buffer
    {
      && Sha512Sizes(alg) && buffer.Length == 128 && Counts(low, high, |message|)
      && Reached(alg, message, state, buffer[..low % 128], blocks)
    }

    /** `mbedtls_sha512_init_and_start`. */
    constructor (alg: Alg<S>)
      requires Sha512Sizes(alg)
      ensures Valid() && message == [] && this.alg == alg && fresh(buffer)
    {
      this.alg := alg;
      buffer := new byte[128](_ => 0);
      low, high, state := 0, 0, alg.init;
      message, blocks := [], 0;
      new;
      ReachedEmpty(alg);
      assert buffer[..0] == [];
    }

    /** `memcpy` into the buffer. */
    method Copy(at: nat, x: bytes)
      requires at + |x| <= buffer.Length
      modifies buffer
      ensures buffer[..at + |x|] == old(buffer[..at]) + x
    {
      forall i | 0 <= i < |x| {
        buffer[at + i] := x[i];
      }
    }

    /** A partly filled buffer is completed first, if there is enough to complete it. */
    method Complete(left0: nat, input: bytes) returns (left: nat, rest: bytes)
      requires Sha512Sizes(alg) && buffer.Length == 128
      requires left0 < 128 && Reached(alg, message, state, buffer[..left0], blocks)
      modifies this`state, this`message, this`blocks, buffer
      ensures left < 128 && Reached(alg, message, state, buffer[..left], blocks)
      ensures message + rest == old(message) + input && (left > 0 ==> left + |rest| < 128)
    {
      left, rest := left0, input;
      var fill := 128 - left;
      if left > 0 && |rest| >= fill {
        ghost var tail := buffer[..left];
        Copy(left, rest[..fill]);
        assert buffer[..] == tail + rest[..fill];
        ReachedBlock(alg, message, state, tail, blocks, rest[..fill]);
        state := alg.compress(state, buffer[..]);
        message, blocks := message + rest[..fill], blocks + 1;
        rest := rest[fill..];
        left := 0;
        assert buffer[..0] == [];
        assert input == input[..fill] + input[fill..];
      }
    }

    /** Whole blocks, straight from the input. */
    method Direct(left: nat, input: bytes) returns (rest: bytes)
      requires Sha512Sizes(alg) && buffer.Length == 128 && left < 128
      requires Reached(alg, message, state, buffer[..left], blocks) && (left > 0 ==> left + |input| < 128)
      modifies this`state, this`message, this`blocks
      ensures Reached(alg, message, state, buffer[..left], blocks) && left + |rest| < 128
      ensures message + rest == old(message) + input
    {
      rest := input;
      while |rest| >= 128
        invariant Reached(alg, message, state, buffer[..left], blocks) && (left > 0 ==> left + |rest| < 128)
        invariant message + rest == old(message) + input
      {
        ghost var b := rest[..128];
        assert [] + b == b && buffer[..0] == [];
        assert rest == b + rest[128..];
        ReachedBlock(alg, message, state, [], blocks, b);
        state := alg.compress(state, rest[..128]);
        message, blocks := message + b, blocks + 1;
        rest := rest[128..];
      }
    }

    /** The counter, which is ahead of what has been taken in. */
    method Count(n: nat)
      requires Counts(low, high, |message|) && n < MOD64
      modifies this`low, this`high
      ensures Counts(low, high, |message| + n)
    {
      CountMore(low, high, |message|, n);
      low := (low + n) % MOD64;
      if low < n {
        high := (high + 1) % MOD64;
      }
    }

    /** What does not fill a block is kept. */
    method Keep(left: nat, rest: bytes)
      requires Sha512Sizes(alg) && buffer.Length == 128 && left + |rest| < 128
      requires Reached(alg, message, state, buffer[..left], blocks) && Counts(low, high, |message| + |rest|)
      modifies this`message, buffer
      ensures Valid() && message == old(message) + rest
    {
      ghost var tail := buffer[..left];
      ReachedMore(alg, message, state, tail, blocks, rest);
      if |rest| > 0 {
        Copy(left, rest);
      }
      message := message + rest;
      assert buffer[..left + |rest|] == tail + rest;
      CountLow(low, high, |message|, blocks, left + |rest|);
    }

    /** `mbedtls_sha512_update`. */
    method Update(input: bytes)
      requires Valid() && |input| < MOD64
      modifies this, buffer
      ensures Valid() && message == old(message) + input
    {
      if |input| == 0 {
        assert message == message + input;
        return;
      }
      var left := low % 128;
      Count(|input|);
      var rest;
      left, rest := Complete(left, input);
      rest := Direct(left, rest);
      assert |message + rest| == |old(message) + input|;
      Keep(left, rest);
    }

    /** The length in bits, as the two words write it. */
    method LengthField() returns (msglen: bytes)
      requires Counts(low, high, |message|)
      ensures msglen == Big(8 * |message|, 16)
    {
      var lengthHigh := (low / 0x2000_0000_0000_0000 + high * 8) % MOD64;
      var lengthLow := low * 8 % MOD64;
      msglen := Big(lengthHigh, 8) + Big(lengthLow, 8);
      LengthBytes(low, high, |message|);
    }

    /** `mbedtls_sha512_finish`. */
    method Finish() returns (output: bytes)
      requires Valid()
      modifies this, buffer
      ensures state == Fold(alg, alg.init, Padded(alg, old(message)))
      ensures output == Hash(alg, old(message))
    {
      ghost var m := message;
      var msglen := LengthField();
      var last := low % 128;
      ReachedLength(alg, m, state, buffer[..last], blocks);
      var padn := if last < 112 then 112 - last else 240 - last;
      var padding := [0x80] + ZeroBytes(127);
      MarkerAndZeros(padding, padn);
      Update(padding[..padn]);
      Update(msglen);
      PaddedBy(alg, m, padding[..padn], msglen);
      NothingLeft(alg, m, state, buffer[..low % 128], blocks);
      output := alg.extract(state);
    }
  }

  lemma MarkerAndZeros(padding: bytes, n: nat)
    requires padding == [0x80] + ZeroBytes(127) && 1 <= n <= 128
    ensures padding[..n] == [0x80] + ZeroBytes(n - 1)
  {
  }

  lemma PaddedBy<S>(a: Alg<S>, m: bytes, front: bytes, field: bytes)
    requires Sized(a) && front == [0x80] + ZeroBytes(PadZeros(a, |m|)) && field == Big(8 * |m|, a.field)
    ensures m + front + field == Padded(a, m)
  {
    assert m + (front + field) == m + front + field;
  }

  lemma NothingLeft<S>(a: Alg<S>, m: bytes, state: S, tail: bytes, n: nat)
    requires Sized(a) && Reached(a, Padded(a, m), state, tail, n)
    ensures state == Fold(a, a.init, Padded(a, m))
  {
    ReachedLength(a, Padded(a, m), state, tail, n);
    PadZerosLeast(a, |m|, 0);
    assert |Padded(a, m)| == |m| + 1 + a.field + PadZeros(a, |m|);
    assert tail == [];
    ReachedFinal(a, m, state, n);
  }
}
