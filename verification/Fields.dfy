/** Serialised records as lists of fields, and when a reader of such a list recovers what a writer wrote.
    The writer's variable-length integers are ambiguous for 253, 254 and 255 (code/BTCUtil.c:52-66,
    1829-1854), and nothing after such a field can make up for it. */
module Fields {
  import opened Bytes
  import opened Wire

  /** A fixed-width integer, a count or length, or bytes whose number the reader knows. */
  datatype Field = Uint(width: nat, n: nat) | Count(n: nat) | Raw(b: bytes)

  predicate Fits(f: Field)
  {
    match f
    case Uint(w, n) => n < Range(w)
    case Count(n) => n < 0x1_0000_0000
    case Raw(_) => true
  }

  predicate AllFit(fs: seq<Field>)
  {
    forall i :: 0 <= i < |fs| ==> Fits(fs[i])
  }

  function Written(f: Field): (s: bytes)
    requires Fits(f)
  {
    match f
    case Uint(w, n) => Little(n, w)
    case Count(n) => VarInt(n)
    case Raw(b) => b
  }

  function WrittenAll(fs: seq<Field>): (s: bytes)
    requires AllFit(fs)
  {
    if fs == [] then [] else Written(fs[0]) + WrittenAll(fs[1..])
  }

  /** What is left when the reader finds the field, with its value, at the front. */
  function Match(f: Field, s: bytes): (r: Option<bytes>)
  {
    match f
    case Uint(w, n) => (var r := ReadUint(w, s); if r.value == n then Some(r.rest) else None)
    case Count(n) => (var r := ReadVarInt(s); if r.value == n then Some(r.rest) else None)
    case Raw(b) => (var r := ReadBytes(|b|, s); if r.value == Some(b) then Some(r.rest) else None)
  }

  function MatchAll(fs: seq<Field>, s: bytes): (r: Option<bytes>)
  {
    if fs == [] then Some(s) else
    match Match(fs[0], s)
    case None => None
    case Some(rest) => MatchAll(fs[1..], rest)
  }

  predicate Clear(f: Field)
  {
    f.Count? ==> !Ambiguous(f.n)
  }

  predicate AllClear(fs: seq<Field>)
  {
    forall i :: 0 <= i < |fs| ==> Clear(fs[i])
  }

  lemma MatchWritten(f: Field, rest: bytes)
    requires Fits(f) && Clear(f)
    ensures Match(f, Written(f) + rest) == Some(rest)
  {
    match f
    case Uint(w, n) => ReadUintLittle(n, w, rest);
    case Count(n) => VarIntRoundTrip(n, rest);
    case Raw(b) => ReadBytesPrefix(b, rest);
  }

  /** Without an ambiguous field, everything is read back. */
  lemma {:induction false} ClearMatches(fs: seq<Field>, rest: bytes)
    requires AllFit(fs) && AllClear(fs)
    ensures MatchAll(fs, WrittenAll(fs) + rest) == Some(rest)
  {
    if fs == [] {
      assert WrittenAll(fs) + rest == rest;
    } else {
      var more := WrittenAll(fs[1..]) + rest;
      MatchWritten(fs[0], more);
      ClearMatches(fs[1..], rest);
      assert WrittenAll(fs) + rest == Written(fs[0]) + more;
    }
  }

  // ----- A reader that is ahead of the writer -----

  predicate AllZero(s: bytes)
  {
    forall i :: 0 <= i < |s| ==> s[i] == 0
  }

  lemma {:induction false} ZeroValue(s: bytes)
    ensures AllZero(s) <==> LittleValue(s) == 0
  {
    if s != [] {
      ZeroValue(s[1..]);
      if AllZero(s[1..]) && s[0] == 0 {
        forall i | 0 <= i < |s| ensures s[i] == 0 {
          if i > 0 {
            assert s[i] == s[1..][i - 1];
          }
        }
      }
    }
  }

  /** Bytes that reappear `k` places later, before nothing but zeros, are zeros. */
  lemma {:induction false} ShiftedZero(x: bytes, z: bytes, k: nat, i: nat)
    requires AllZero(z) && 1 <= k && i <= |x| && k + |x| <= |x| + |z| && (x + z)[k..k + |x|] == x
    ensures forall j :: i <= j < |x| ==> x[j] == 0
    decreases |x| - i
  {
    if i < |x| {
      ShiftedZero(x, z, k, i + 1);
      var s := x + z;
      assert x[i] == s[k..k + |x|][i] == s[k + i];
      if k + i >= |x| {
        assert s[k + i] == z[k + i - |x|];
      } else {
        assert s[k + i] == x[k + i];
      }
    }
  }

  /** Where the reader stands after a field, when it was `k` bytes ahead before it: still ahead. */
  lemma StaysAhead(f: Field, w: bytes, more: bytes, k: nat)
    requires Fits(f) && w == Written(f) && 1 <= k <= |w + more| && more != []
    requires Match(f, (w + more)[k..]).Some?
    ensures exists k' :: 1 <= k' <= |more| && Match(f, (w + more)[k..]).value == more[k'..]
  {
    var s := (w + more)[k..];
    var rest := Match(f, s).value;
    if rest == [] {
      assert more[|more|..] == rest;
    } else {
      ConsumedAtLeast(f, s);
      var c := |s| - |rest|;
      var k' := k + c - |w|;
      SuffixOf(f, s);
      assert rest == (w + more)[k + c..];
      assert (w + more)[k + c..] == more[k'..];
    }
  }

  lemma SuffixOf(f: Field, s: bytes)
    requires Match(f, s).Some?
    ensures var rest := Match(f, s).value;
      |rest| <= |s| && rest == s[|s| - |rest|..]
  {
  }

  /** A field that was read in full took at least as many bytes as writing it does. */
  lemma ConsumedAtLeast(f: Field, s: bytes)
    requires Fits(f) && Match(f, s).Some? && Match(f, s).value != []
    ensures |s| - |Match(f, s).value| >= |Written(f)|
  {
    if f.Count? {
      RangeValues();
      var first := ReadUint(1, s);
      if first.value == 253 {
        LittleValueBound(first.rest[..2]);
      } else if first.value == 254 {
        LittleValueBound(first.rest[..4]);
      }
    }
  }

  lemma {:induction false} LittlePrefix(n: nat, j: nat, m: nat)
    requires j <= m
    ensures Little(n, m)[..j] == Little(n, j)
  {
    if j > 0 {
      LittlePrefix(n / 256, j - 1, m - 1);
    }
  }

  /** The digits of a number, read again `k` places further on before zeros, are zeros. */
  lemma DigitsAhead(n: nat, j: nat, m: nat, x: bytes, z: bytes, k: nat)
    requires x == Little(n, j) && j <= m && AllZero(z) && 1 <= k && k + m <= |x| + |z|
    requires LittleValue((x + z)[k..k + m]) == n
    ensures AllZero(x)
  {
    var b := (x + z)[k..k + m];
    LittleValueInverse(b);
    LittlePrefix(n, j, m);
    assert (x + z)[k..k + j] == b[..j];
    ShiftedZero(x, z, k, 0);
  }

  lemma UintAhead(n: nat, width: nat, more: bytes, k: nat)
    requires n < Range(width) && AllZero(more) && 1 <= k <= width + |more|
    requires ReadUint(width, (Little(n, width) + more)[k..]).value == n
    ensures AllZero(Little(n, width))
  {
    var w := Little(n, width);
    var s := (w + more)[k..];
    if |s| >= width {
      assert s[..width] == (w + more)[k..k + width];
      DigitsAhead(n, width, width, w, more, k);
    } else {
      LittleRoundTrip(n, width);
      ZeroValue(w);
    }
  }

  /** The width of the number behind the first byte of a variable-length integer. */
  function Behind(first: byte): (m: nat)
    requires first >= 253
  {
    if first == 253 then 2 else if first == 254 then 4 else 8
  }

  lemma ReadBehind(s: bytes)
    requires s != [] && s[0] >= 253
    ensures ReadVarInt(s).value == ReadUint(Behind(s[0]), s[1..]).value
  {
    ReadPrefixByte(s[0], s[1..]);
    assert s == [s[0]] + s[1..];
  }

  lemma ReadSmall(s: bytes)
    requires s == [] || s[0] < 253
    ensures ReadVarInt(s).value == if s == [] then 0 else s[0]
  {
    if s != [] {
      ReadPrefixByte(s[0], s[1..]);
      assert s == [s[0]] + s[1..];
    }
  }

  lemma WideAhead(n: nat, x: bytes, j: nat, more: bytes, k: nat, s: bytes)
    requires (j == 2 && 0x100 <= n < 0x1_0000) || (j == 4 && 0x1_0000 <= n < 0x1_0000_0000)
    requires x == Little(n, j) && AllZero(more) && 1 <= k <= 1 + |x + more| && s == (x + more)[k - 1..]
    ensures ReadVarInt(s).value != n
  {
    RangeValues();
    if s == [] || s[0] < 253 {
      ReadSmall(s);
    } else {
      ReadBehind(s);
      var m := Behind(s[0]);
      if |s[1..]| >= m {
        var b := s[1..][..m];
        LittleValueBound(b);
        assert b == (x + more)[k..k + m];
        LittleRoundTrip(n, j);
        ZeroValue(x);
        if LittleValue(b) == n {
          DigitsAhead(n, j, m, x, more, k);
        }
      }
    }
  }

  lemma WithFirst(first: byte, x: bytes, more: bytes, k: nat)
    requires 1 <= k <= |[first] + x + more|
    ensures ([first] + x + more)[k..] == (x + more)[k - 1..]
  {
  }

  lemma CountAhead(n: nat, more: bytes, k: nat)
    requires n < 0x1_0000_0000 && AllZero(more) && 1 <= k <= |VarInt(n) + more|
    requires ReadVarInt((VarInt(n) + more)[k..]).value == n
    ensures n == 0
  {
    if n < 0x100 {
      WithFirst(n, [], more, k);
      assert [n] + [] == [n] && [] + more == more;
      ReadSmall(more[k - 1..]);
    } else if n < 0x1_0000 {
      WithFirst(0xfd, Little(n, 2), more, k);
      WideAhead(n, Little(n, 2), 2, more, k, (Little(n, 2) + more)[k - 1..]);
    } else {
      WithFirst(0xfe, Little(n, 4), more, k);
      WideAhead(n, Little(n, 4), 4, more, k, (Little(n, 4) + more)[k - 1..]);
    }
  }

  lemma RawAhead(b: bytes, more: bytes, k: nat)
    requires AllZero(more) && 1 <= k <= |b + more| && ReadBytes(|b|, (b + more)[k..]).value == Some(b)
    ensures AllZero(b)
  {
    assert (b + more)[k..][..|b|] == (b + more)[k..k + |b|];
    ShiftedZero(b, more, k, 0);
  }

  lemma FieldAhead(f: Field, more: bytes, k: nat)
    requires Fits(f) && AllZero(more) && 1 <= k <= |Written(f) + more| && Match(f, (Written(f) + more)[k..]).Some?
    ensures AllZero(Written(f))
  {
    match f
    case Uint(w, n) => UintAhead(n, w, more, k);
    case Count(n) => CountAhead(n, more, k);
    case Raw(b) => RawAhead(b, more, k);
  }

  /** The list ends with an integer, so that something is written after every other field. */
  predicate Closed(fs: seq<Field>)
  {
    fs != [] && fs[|fs| - 1].Uint? && fs[|fs| - 1].width >= 1
  }

  lemma {:induction false} ClosedNonEmpty(fs: seq<Field>)
    requires AllFit(fs) && Closed(fs)
    ensures WrittenAll(fs) != []
  {
    if |fs| > 1 {
      ClosedNonEmpty(fs[1..]);
    }
  }

  lemma ZeroJoin(a: bytes, b: bytes)
    requires AllZero(a) && AllZero(b)
    ensures AllZero(a + b)
  {
  }

  /** A reader that is ahead and still finds every field as written is reading nothing but zeros. */
  lemma {:induction false} AheadZero(fs: seq<Field>, k: nat)
    requires AllFit(fs) && Closed(fs) && 1 <= k <= |WrittenAll(fs)| && MatchAll(fs, WrittenAll(fs)[k..]).Some?
    ensures AllZero(WrittenAll(fs))
  {
    var w, more := Written(fs[0]), WrittenAll(fs[1..]);
    if |fs| > 1 {
      ClosedNonEmpty(fs[1..]);
      StaysAhead(fs[0], w, more, k);
      var k' :| 1 <= k' <= |more| && Match(fs[0], (w + more)[k..]).value == more[k'..];
      AheadZero(fs[1..], k');
    }
    FieldAhead(fs[0], more, k);
    ZeroJoin(w, more);
  }

  /** An ambiguous count puts the reader ahead; it would have to find the count again in what follows. */
  lemma AmbiguousFails(n: nat, gs: seq<Field>, more: bytes)
    requires Ambiguous(n) && AllFit(gs) && Closed(gs) && more == WrittenAll(gs)
    ensures var r := ReadVarInt([n] + more);
      r.value == n ==> MatchAll(gs, r.rest).None?
  {
    var m := Behind(n);
    ReadPrefixByte(n, more);
    if |more| >= m {
      ZeroValue(more[..m]);
      if MatchAll(gs, more[m..]).Some? {
        AheadZero(gs, m);
      }
    }
  }

  /** Reading back what was written succeeds exactly when no count is ambiguous. */
  lemma {:induction false} MatchesIffClear(fs: seq<Field>)
    requires AllFit(fs) && Closed(fs)
    ensures MatchAll(fs, WrittenAll(fs)).Some? <==> AllClear(fs)
    ensures AllClear(fs) ==> MatchAll(fs, WrittenAll(fs)) == Some([])
  {
    if AllClear(fs) {
      ClearMatches(fs, []);
      assert WrittenAll(fs) + [] == WrittenAll(fs);
    } else if !Clear(fs[0]) {
      AmbiguousFails(fs[0].n, fs[1..], WrittenAll(fs[1..]));
    } else {
      MatchWritten(fs[0], WrittenAll(fs[1..]));
      assert !AllClear(fs[1..]) by {
        var i :| 0 <= i < |fs| && !Clear(fs[i]);
        assert fs[1..][i - 1] == fs[i];
      }
      MatchesIffClear(fs[1..]);
    }
  }
}
