/** Base58 (libraries/base58/base58.cpp): base conversion by repeated multiply-and-add on a
    fixed-size digit buffer, in both directions. */
module Base58 {
  import opened Arithmetic
  import opened Bytes
  import opened Numerals

  // ----- Alphabet -----

  /** `pszBase58[d]` */
  function CharOf(d: nat): (c: char)
    requires d < 58
  {
    if d < 9 then (d + 49) as char
    else if d < 17 then (d + 56) as char
    else if d < 22 then (d + 57) as char
    else if d < 33 then (d + 58) as char
    else if d < 44 then (d + 64) as char
    else (d + 65) as char
  }

  /** `mapBase58[c]`, or -1 for a character outside the alphabet. */
  function DigitOf(c: char): (d: int)
    ensures -1 <= d < 58
  {
    if '1' <= c <= '9' then c as int - 49
    else if 'A' <= c <= 'H' then c as int - 56
    else if 'J' <= c <= 'N' then c as int - 57
    else if 'P' <= c <= 'Z' then c as int - 58
    else if 'a' <= c <= 'k' then c as int - 64
    else if 'm' <= c <= 'z' then c as int - 65
    else -1
  }

  lemma CharsAndDigits()
    ensures forall d: nat :: d < 58 ==> DigitOf(CharOf(d)) == d && !IsSpace(CharOf(d)) && CharOf(d) != '\0'
    ensures forall c :: DigitOf(c) >= 0 ==> CharOf(DigitOf(c)) == c && !IsSpace(c)
    ensures CharOf(0) == '1'
  {
  }

  predicate IsSpace(c: char)
  {
    c == ' ' || 9 <= c as int <= 13
  }

  predicate InAlphabet(s: string)
  {
    forall i :: 0 <= i < |s| ==> DigitOf(s[i]) >= 0
  }

  function Text(ds: seq<nat>): (s: string)
    requires Digits(ds, 58)
    ensures |s| == |ds|
  {
    seq(|ds|, i requires 0 <= i < |ds| => CharOf(ds[i]))
  }

  function DigitsOf(s: string): (ds: seq<nat>)
    requires InAlphabet(s)
    ensures |ds| == |s| && Digits(ds, 58)
    ensures forall i :: 0 <= i < |s| ==> ds[i] == DigitOf(s[i])
  {
    seq(|s|, i requires 0 <= i < |s| => DigitOf(s[i]))
  }

  lemma TextDigits(ds: seq<nat>)
    requires Digits(ds, 58)
    ensures InAlphabet(Text(ds)) && DigitsOf(Text(ds)) == ds
  {
    CharsAndDigits();
  }

  lemma DigitsText(s: string)
    requires InAlphabet(s)
    ensures Text(DigitsOf(s)) == s
  {
    CharsAndDigits();
  }

  // ----- What the two functions compute -----

  function Encoded(b: bytes): (s: string)
  {
    Text(Rebase(b, 256, 58))
  }

  /** The end of the run of spaces at `i`. */
  function SpaceEnd(s: string, i: nat): (k: nat)
    requires i <= |s|
    ensures i <= k <= |s|
    decreases |s| - i
  {
    if i < |s| && IsSpace(s[i]) then SpaceEnd(s, i + 1) else i
  }

  /** The end of the word at `i`. */
  function WordEnd(s: string, i: nat): (k: nat)
    requires i <= |s|
    ensures i <= k <= |s|
    decreases |s| - i
  {
    if i < |s| && !IsSpace(s[i]) then WordEnd(s, i + 1) else i
  }

  function ToBytes(ds: seq<nat>): (b: bytes)
    requires Digits(ds, 256)
    ensures b == ds
  {
    ds
  }

  function DecodedWord(word: string): (b: Option<bytes>)
  {
    if InAlphabet(word) then Some(ToBytes(Rebase(DigitsOf(word), 58, 256))) else None
  }

  /** One word of the alphabet, with nothing but spaces around it. */
  function Decoded(s: string): (b: Option<bytes>)
  {
    var i := SpaceEnd(s, 0);
    var k := WordEnd(s, i);
    if SpaceEnd(s, k) == |s| then DecodedWord(s[i..k]) else None
  }

  lemma {:induction false} WordEndOfWord(w: string, i: nat)
    requires InAlphabet(w) && i <= |w|
    ensures WordEnd(w, i) == |w|
    decreases |w| - i
  {
    if i < |w| {
      CharsAndDigits();
      assert DigitOf(w[i]) >= 0;
      WordEndOfWord(w, i + 1);
    }
  }

  lemma DecodedBareWord(w: string)
    requires InAlphabet(w)
    ensures Decoded(w) == Some(ToBytes(Rebase(DigitsOf(w), 58, 256)))
  {
    CharsAndDigits();
    WordEndOfWord(w, 0);
    assert w != [] ==> DigitOf(w[0]) >= 0;
    assert w[0..|w|] == w;
  }

  /** Every byte string comes back from its encoding. */
  lemma DecodeAfterEncode(b: bytes)
    ensures Decoded(Encoded(b)) == Some(b)
  {
    var ds := Rebase(b, 256, 58);
    TextDigits(ds);
    DecodedBareWord(Text(ds));
    RebaseInverse(b, 256, 58);
  }

  /** Every string over the alphabet is the encoding of what it decodes to. */
  lemma EncodeAfterDecode(w: string)
    requires InAlphabet(w)
    ensures Decoded(w).Some? && Encoded(Decoded(w).value) == w
  {
    DecodedBareWord(w);
    RebaseInverse(DigitsOf(w), 58, 256);
    DigitsText(w);
  }

  // ----- Buffer sizes -----

  lemma Doubled(b: nat, e: nat, v: nat)
    requires Pow(b, e) == v
    ensures Pow(b, 2 * e) == v * v
  {
    PowAdd(b, e, e);
  }

  lemma Next(b: nat, e: nat, v: nat)
    requires Pow(b, e) == v
    ensures Pow(b, e + 1) == b * v
  {
  }

  /** 58^71, by squaring. */
  lemma Pow58(b: nat, e: nat)
    requires b == 58 && e == 8
    ensures Pow(b, 2 * (2 * (2 * e + 1) + 1) + 1) == 159730386663078066345306447337161584696769904898410078913243029577507397293846405390982563136983769384625594118558891106107392
  {
    assert Pow(b, e) == 128063081718016 by {
      assert Pow(58, 8) == 128063081718016;
    }
    Doubled(b, e, 128063081718016);
    Next(b, 2 * e, 16400152899115243850138976256);
    Doubled(b, 2 * e + 1, 951208868148684143308060622848);
    Next(b, 2 * (2 * e + 1), 904798310844700775313327215140493940623303545877497699631104);
    Doubled(b, 2 * (2 * e + 1) + 1, 52478302028992644968172978478148648556151605660894866578604032);
    Next(b, 2 * (2 * (2 * e + 1) + 1), 2753972183846173557677697367882096287875343187903622050228328096163920642997351817085906260982478782493544726182049846657024);
  }

  /** 256^52, by squaring. */
  lemma Pow256(b: nat, e: nat)
    requires b == 256 && e == 6
    ensures Pow(b, 2 * (2 * (2 * e + 1))) == 169230328010303641331690318856389386196071598838855992136870091590247882556495704531248437872567112920983350278405979725889536
  {
    assert Pow(b, e) == 281474976710656 by {
      assert Pow(256, 6) == 281474976710656;
    }
    Doubled(b, e, 281474976710656);
    Next(b, 2 * e, 79228162514264337593543950336);
    Doubled(b, 2 * e + 1, 20282409603651670423947251286016);
    Doubled(b, 2 * (2 * e + 1), 411376139330301510538742295639337626245683966408394965837152256);
  }

  /** 138/100 digits of base 58 per byte, plus one, hold any string of bytes. */
  lemma EncodeBuffer(n: nat)
    ensures Pow(256, n) <= Pow(58, n * 138 / 100 + 1)
  {
    assert Pow(256, 8) <= Pow(58, 11);
    PowRatio(256, 58, 8, 11, n, n * 138 / 100 + 1);
  }

  function DecodeSize(n: nat): (size: nat)
  {
    n * 733 / 1000 + 1
  }

  /** 733/1000 bytes per digit of base 58, plus one, hold any string of digits. */
  lemma DecodeBuffer(n: nat)
    ensures Pow(58, n) <= Pow(256, DecodeSize(n))
  {
    DecodeBufferRatio(58, 256, 8, 6, n, n * 733 / 1000 + 1);
  }

  lemma DecodeBufferRatio(p: nat, q: nat, e: nat, f: nat, n: nat, size: nat)
    requires p == 58 && q == 256 && e == 8 && f == 6 && 1000 * size > 733 * n
    ensures Pow(p, n) <= Pow(q, size)
  {
    Pow58(p, e);
    Pow256(q, f);
    PowRatio(p, q, 2 * (2 * (2 * e + 1) + 1) + 1, 2 * (2 * (2 * f + 1)), n, size);
  }

  // ----- Multiply and add, in place -----

  /** One digit further: the carry equation moves up by one power of the base. */
  lemma CarryStep(carry: nat, mult: nat, d: nat, base: nat, p: nat, done: nat, was: nat, digit: nat, q: nat, r: nat)
    requires done + carry * p == was * mult + digit
    requires MulPlus(carry, mult, d) == base * q + r
    ensures r * p + done + q * (base * p) == (d * p + was) * mult + digit
  {
    var c := carry + mult * d;
    assert q * (base * p) == (base * q) * p;
    assert r * p + (base * q) * p == c * p;
    assert c * p == carry * p + (mult * d) * p;
    assert (mult * d) * p == (d * p) * mult;
    assert (d * p + was) * mult == (d * p) * mult + was * mult;
  }

  lemma CarryInvariant(rest: seq<nat>, done: seq<nat>, d: nat, carry: nat, mult: nat, base: nat, digit: nat, q: nat, r: nat)
    requires |rest| == |done| && MulPlus(carry, mult, d) == base * q + r
    requires Value(done, base) + carry * Pow(base, |done|) == Value(rest, base) * mult + digit
    ensures Value([r] + done, base) + q * Pow(base, |done| + 1) == Value([d] + rest, base) * mult + digit
  {
    var p := Pow(base, |done|);
    CarryStep(carry, mult, d, base, p, Value(done, base), Value(rest, base), digit, q, r);
    ValueCons(r, done, base);
    ValueCons(d, rest, base);
  }

  /** From place `k` on, the digits and the carry together are the multiple of the old digits. */
  ghost predicate Carried(now: seq<nat>, was: seq<nat>, k: nat, carry: nat, mult: nat, base: nat, digit: nat)
  {
    && k <= |now| == |was| && now[..k] == was[..k] && Digits(now[k..], base)
    && Value(now[k..], base) + carry * Pow(base, |now| - k) == Value(was[k..], base) * mult + digit
  }

  lemma CarriedStep(now: seq<nat>, was: seq<nat>, k: nat, carry: nat, mult: nat, base: nat, digit: nat, q: nat, r: nat)
    requires k < |now| && Carried(now, was, k + 1, carry, mult, base, digit)
    requires MulPlus(carry, mult, now[k]) == base * q + r && r < base
    ensures Carried(now[k := r], was, k, q, mult, base, digit)
  {
    var next, done, rest, d := now[k := r], now[k + 1..], was[k + 1..], was[k];
    assert now[k] == now[..k + 1][k] == was[..k + 1][k] == d;
    assert next[k..] == [r] + done && was[k..] == [d] + rest;
    assert next[..k] == now[..k + 1][..k] && was[..k] == was[..k + 1][..k];
    CarryInvariant(rest, done, d, carry, mult, base, digit, q, r);
  }

  /** `digits = digits * mult + digit`, least significant digit last; stops early once the carry
      is gone and the digits in use have been passed. */
  method MulAdd(a: array<nat>, length: nat, mult: nat, base: nat, digit: nat) returns (carry: nat, i: nat)
    requires base >= 2 && length <= a.Length && Digits(a[..], base)
    requires forall k :: 0 <= k < a.Length - length ==> a[k] == 0
    modifies a
    ensures i <= a.Length && Digits(a[..], base)
    ensures forall k :: 0 <= k < a.Length - i ==> a[k] == 0
    ensures Value(a[..], base) + carry * Pow(base, a.Length) == old(Value(a[..], base)) * mult + digit
  {
    ghost var was := a[..];
    carry := digit;
    i := 0;
    var k := a.Length;
    while (carry != 0 || i < length) && k != 0
      invariant 0 <= k <= a.Length && i == a.Length - k
      invariant Carried(a[..], was, k, carry, mult, base, digit)
    {
      k := k - 1;
      ghost var now := a[..];
      var (quotient, remainder) := DivMod(MulPlus(carry, mult, a[k]), base);
      CarriedStep(now, was, k, carry, mult, base, digit, quotient, remainder);
      a[k] := remainder;
      assert a[..] == now[k := remainder];
      carry := quotient;
      i := i + 1;
    }
    WholeValue(a[..], was, k, base, carry, mult, digit);
  }

  /** The digits that the loop did not reach are zero on both sides. */
  lemma WholeValue(now: seq<nat>, was: seq<nat>, k: nat, base: nat, carry: nat, mult: nat, digit: nat)
    requires Carried(now, was, k, carry, mult, base, digit) && base > 0
    requires k == 0 || (carry == 0 && forall i :: 0 <= i < k ==> was[i] == 0)
    ensures Digits(now, base)
    ensures Value(now, base) + carry * Pow(base, |now|) == Value(was, base) * mult + digit
    ensures forall i :: 0 <= i < k ==> now[i] == 0
  {
    if k == 0 {
      assert now[0..] == now && was[0..] == was;
    } else {
      assert forall i :: 0 <= i < k ==> now[i] == now[..k][i] == was[..k][i];
      assert now == Zeros(k) + now[k..] && was == Zeros(k) + was[k..];
      ValueZerosPrefix(k, now[k..], base);
      ValueZerosPrefix(k, was[k..], base);
    }
  }

  /** The `carry == 0` assertions hold: the new value still fits the buffer. */
  lemma NoCarry(v: nat, carry: nat, w: nat, mult: nat, digit: nat, k: nat, n: nat, capacity: nat)
    requires v + carry * capacity == w * mult + digit && w < Pow(mult, k) && digit < mult
    requires k < n && Pow(mult, n) <= capacity
    ensures carry == 0
  {
    HornerBound(w, Pow(mult, k), mult, digit);
    PowMonotone(mult, k + 1, n);
    if carry > 0 {
      MulLe(1, carry, capacity);
    }
  }

  // ----- The library's functions -----

  lemma StripAt(ds: seq<nat>, k: nat)
    requires k <= |ds| && (forall i :: 0 <= i < k ==> ds[i] == 0) && (k < |ds| ==> ds[k] != 0)
    ensures Strip(ds) == ds[k..] && Leading(ds) == k
  {
    assert Leading(ds) == k;
  }

  /** The buffer holds `v`; digits in front of the last `length` are zero. */
  ghost predicate Holds(a: array<nat>, length: nat, base: nat, v: nat)
    reads a
  {
    && length <= a.Length && Digits(a[..], base) && Value(a[..], base) == v
    && forall k :: 0 <= k < a.Length - length ==> a[k] == 0
  }

  /** A fresh buffer of `size` zero digits. */
  method ZeroBuffer(size: nat, base: nat) returns (a: array<nat>)
    requires base >= 2
    ensures fresh(a) && a.Length == size && Holds(a, 0, base, 0)
  {
    a := new nat[size](_ => 0);
    assert a[..] == Zeros(size);
    ValueOfZeros(size, base);
  }

  /** The digits in use, without leading zeros. */
  method Significant(a: array<nat>, length: nat, base: nat, ghost v: nat) returns (ds: seq<nat>)
    requires base >= 2 && Holds(a, length, base, v)
    ensures ds == Canonical(v, base)
  {
    var it := a.Length - length;
    while it != a.Length && a[it] == 0
      invariant a.Length - length <= it <= a.Length
      invariant forall k :: 0 <= k < it ==> a[k] == 0
    {
      it := it + 1;
    }
    StripAt(a[..], it);
    StripIsCanonical(a[..], base);
    ds := a[it..];
  }

  /** One more digit of the input enters the buffer; no carry is left, because the buffer has room. */
  method TakeIn(a: array<nat>, length: nat, from: nat, to: nat, digit: nat, ghost v: nat, ghost k: nat, ghost room: nat)
    returns (i: nat)
    requires from >= 2 && to >= 2 && digit < from && Holds(a, length, to, v) && v < Pow(from, k)
    requires k < room && Pow(from, room) <= Pow(to, a.Length)
    modifies a
    ensures Holds(a, i, to, v * from + digit)
  {
    var carry;
    carry, i := MulAdd(a, length, from, to, digit);
    NoCarry(Value(a[..], to), carry, v, from, digit, k, room, Pow(to, a.Length));
    assert carry == 0;
  }

  method EncodeBase58(b: bytes) returns (str: string)
    ensures str == Encoded(b)
  {
    var zeroes := 0;
    while zeroes < |b| && b[zeroes] == 0
      invariant 0 <= zeroes <= |b|
      invariant forall i :: 0 <= i < zeroes ==> b[i] == 0
    {
      zeroes := zeroes + 1;
    }
    var digits := EncodeDigits(b[zeroes..]);
    str := seq(zeroes, _ => '1') + Text(digits);
    TextOfZeros(zeroes, digits);
    RebaseZeros(b, zeroes, b[zeroes..], 256, 58);
  }

  /** The bytes after the leading zeros. */
  method EncodeDigits(rest: bytes) returns (digits: seq<nat>)
    ensures digits == Canonical(Value(rest, 256), 58)
  {
    var size := |rest| * 138 / 100 + 1;
    var b58 := ZeroBuffer(size, 58);
    EncodeBuffer(|rest|);
    var length, k := 0, 0;
    while k < |rest|
      invariant 0 <= k <= |rest| && Holds(b58, length, 58, Value(rest[..k], 256))
    {
      ValueBound(rest[..k], 256);
      length := TakeIn(b58, length, 256, 58, rest[k], Value(rest[..k], 256), k, |rest|);
      ValueSnoc(rest[..k], rest[k], 256);
      assert rest[..k] + [rest[k]] == rest[..k + 1];
      k := k + 1;
    }
    assert rest[..k] == rest;
    digits := Significant(b58, length, 58, Value(rest, 256));
  }

  /** Leading zeros are carried over, the rest is a number. */
  lemma RebaseZeros(ds: seq<nat>, zeroes: nat, rest: seq<nat>, from: nat, to: nat)
    requires to >= 2 && zeroes <= |ds| && rest == ds[zeroes..] && (forall i :: 0 <= i < zeroes ==> ds[i] == 0)
    requires rest != [] ==> rest[0] != 0
    ensures Rebase(ds, from, to) == Zeros(zeroes) + Canonical(Value(rest, from), to)
  {
    StripAt(ds, zeroes);
    StripSplit(ds);
    ValueZerosPrefix(zeroes, rest, from);
  }

  lemma TextOfZeros(zeroes: nat, digits: seq<nat>)
    requires Digits(digits, 58)
    ensures Digits(Zeros(zeroes) + digits, 58)
    ensures seq(zeroes, _ => '1') + Text(digits) == Text(Zeros(zeroes) + digits)
  {
    CharsAndDigits();
  }

  method DecodeBase58(s: string) returns (b: Option<bytes>)
    requires '\0' !in s
    ensures b == Decoded(s)
  {
    var start := PassSpaces(s, 0);
    var from := PassOnes(s, start);
    var ok, end, digits := DecodeDigits(s, start, from);
    AlphabetWord(s, start, WordEnd(s, start));
    if !ok {
      return None;
    }
    var last := PassSpaces(s, end);
    WordResult(s, start, from, end, digits, s[start..end]);
    b := if last != |s| then None else Some(ToBytes(Zeros(from - start) + digits));
  }

  method PassSpaces(s: string, from: nat) returns (end: nat)
    requires from <= |s|
    ensures end == SpaceEnd(s, from)
  {
    end := from;
    while end < |s| && IsSpace(s[end])
      invariant from <= end <= |s| && SpaceEnd(s, from) == SpaceEnd(s, end)
    {
      end := end + 1;
    }
  }

  predicate Ones(s: string, i: nat, k: nat)
    requires i <= k <= |s|
  {
    forall j :: i <= j < k ==> s[j] == '1'
  }

  method PassOnes(s: string, start: nat) returns (k: nat)
    requires start <= |s|
    ensures start <= k <= |s| && Ones(s, start, k) && (k < |s| ==> s[k] != '1')
    ensures WordEnd(s, start) == WordEnd(s, k)
  {
    k := start;
    while k < |s| && s[k] == '1'
      invariant start <= k <= |s| && Ones(s, start, k) && WordEnd(s, start) == WordEnd(s, k)
    {
      k := k + 1;
    }
  }

  predicate Alphabet(s: string, i: nat, k: nat)
    requires i <= k <= |s|
  {
    forall j :: i <= j < k ==> DigitOf(s[j]) >= 0
  }

  /** The number that the characters from `i` to `k` write in base 58. */
  function Number(s: string, i: nat, k: nat): (v: nat)
    requires i <= k <= |s| && Alphabet(s, i, k)
  {
    if i == k then 0 else Number(s, i, k - 1) * 58 + DigitOf(s[k - 1])
  }

  lemma {:induction false} NumberBound(s: string, i: nat, k: nat)
    requires i <= k <= |s| && Alphabet(s, i, k)
    ensures Number(s, i, k) < Pow(58, k - i)
  {
    if i < k {
      NumberBound(s, i, k - 1);
      HornerBound(Number(s, i, k - 1), Pow(58, k - 1 - i), 58, DigitOf(s[k - 1]));
    }
  }

  lemma {:induction false} NumberIsValue(s: string, i: nat, k: nat, ds: seq<nat>)
    requires i <= k <= |s| && Alphabet(s, i, k) && |ds| == k - i
    requires forall j :: 0 <= j < |ds| ==> ds[j] == DigitOf(s[i + j])
    ensures Number(s, i, k) == Value(ds, 58)
  {
    if i < k {
      NumberIsValue(s, i, k - 1, ds[..|ds| - 1]);
    }
  }

  /** The digits after the leading ones; the buffer is sized by all that is left of the string. */
  method DecodeDigits(s: string, start: nat, from: nat) returns (ok: bool, end: nat, digits: seq<nat>)
    requires start <= from <= |s| && WordEnd(s, start) == WordEnd(s, from)
    ensures !ok ==> !Alphabet(s, start, WordEnd(s, start))
    ensures ok ==> end == WordEnd(s, start) && from <= end && Alphabet(s, from, end)
    ensures ok ==> digits == Canonical(Number(s, from, end), 256)
  {
    var b256 := ZeroBuffer(DecodeSize(|s| - from), 256);
    DecodeBuffer(|s| - from);
    var length := 0;
    end := from;
    while end < |s| && !IsSpace(s[end])
      invariant from <= end <= |s| && fresh(b256) && b256.Length == DecodeSize(|s| - from)
      invariant WordEnd(s, start) == WordEnd(s, end) && Alphabet(s, from, end)
      invariant Holds(b256, length, 256, Number(s, from, end))
    {
      var digit := DigitOf(s[end]);
      if digit == -1 {
        assert WordEnd(s, start) == WordEnd(s, end + 1);
        return false, end, [];
      }
      NumberBound(s, from, end);
      length := TakeIn(b256, length, 58, 256, digit, Number(s, from, end), end - from, |s| - from);
      end := end + 1;
    }
    digits := Significant(b256, length, 256, Number(s, from, end));
    ok := true;
  }

  lemma AlphabetWord(s: string, i: nat, k: nat)
    requires i <= k <= |s|
    ensures InAlphabet(s[i..k]) <==> Alphabet(s, i, k)
  {
    if InAlphabet(s[i..k]) {
      forall j | i <= j < k ensures DigitOf(s[j]) >= 0 {
        assert s[j] == s[i..k][j - i];
      }
    }
  }

  lemma OneIsZero(c: char)
    ensures DigitOf(c) == 0 <==> c == '1'
  {
  }

  /** Leading ones are leading zeros. */
  lemma WordResult(s: string, start: nat, from: nat, end: nat, digits: seq<nat>, word: string)
    requires start <= from <= end <= |s| && Ones(s, start, from) && (from < |s| ==> s[from] != '1')
    requires Alphabet(s, from, end) && digits == Canonical(Number(s, from, end), 256)
    requires word == s[start..end]
    ensures DecodedWord(word) == Some(ToBytes(Zeros(from - start) + digits))
  {
    AlphabetWord(s, start, end);
    var ds, zeroes := DigitsOf(word), from - start;
    var rest := ds[zeroes..];
    assert forall j :: 0 <= j < |rest| ==> rest[j] == DigitOf(word[zeroes + j]);
    NumberIsValue(s, from, end, rest);
    if from < end {
      OneIsZero(s[from]);
    }
    RebaseZeros(ds, zeroes, rest, 58, 256);
  }
}
