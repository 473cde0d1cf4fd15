/** Bech32 strings (libraries/segwit_addr/segwit_addr.c:50-141). */
module Bech32 {
  import opened Bytes
  import opened FeedbackRegister
  import opened Polymod
  import opened Bech32Charset

  // ----- Characters and symbols -----

  predicate Printable(c: char)
  {
    33 <= c as int <= 126
  }

  predicate AllPrintable(s: string)
  {
    forall i :: 0 <= i < |s| ==> Printable(s[i])
  }

  predicate HasUpper(s: string)
  {
    s != [] && (HasUpper(s[..|s| - 1]) || IsUpper(s[|s| - 1]))
  }

  predicate HasLower(s: string)
  {
    s != [] && (HasLower(s[..|s| - 1]) || IsLower(s[|s| - 1]))
  }

  lemma {:induction false} UpperSomewhere(s: string)
    ensures HasUpper(s) <==> exists i :: 0 <= i < |s| && IsUpper(s[i])
  {
    if s != [] {
      UpperSomewhere(s[..|s| - 1]);
    }
  }

  lemma {:induction false} LowerSomewhere(s: string)
    ensures HasLower(s) <==> exists i :: 0 <= i < |s| && IsLower(s[i])
  {
    if s != [] {
      LowerSomewhere(s[..|s| - 1]);
    }
  }

  function Lowered(s: string): (r: string)
  {
    seq(|s|, i requires 0 <= i < |s| => Lower(s[i]))
  }

  function Uppered(s: string): (r: string)
  {
    seq(|s|, i requires 0 <= i < |s| => Upper(s[i]))
  }

  function High(c: char): (v: bv5)
    requires Printable(c)
  {
    (c as int / 32) as bv5
  }

  function Low(c: char): (v: bv5)
  {
    (c as int % 32) as bv5
  }

  function Highs(s: string): (vs: seq<bv5>)
    requires AllPrintable(s)
  {
    seq(|s|, i requires 0 <= i < |s| => High(s[i]))
  }

  function Lows(s: string): (vs: seq<bv5>)
  {
    seq(|s|, i requires 0 <= i < |s| => Low(s[i]))
  }

  /** The human-readable part as the checksum sees it. */
  function Expand(hrp: string): (vs: seq<bv5>)
    requires AllPrintable(hrp)
  {
    Highs(hrp) + [0] + Lows(hrp)
  }

  function Chars(vs: seq<bv5>): (s: string)
  {
    seq(|vs|, i requires 0 <= i < |vs| => CharOf(vs[i] as int))
  }

  predicate AllSymbols(s: string)
  {
    forall i :: 0 <= i < |s| ==> Rank(s[i]) != -1
  }

  function Symbol(c: char): (v: bv5)
    requires Rank(c) != -1
  {
    RankBound(c);
    Rank(c) as bv5
  }

  function Values(s: string): (vs: seq<bv5>)
    requires AllSymbols(s)
  {
    seq(|s|, i requires 0 <= i < |s| => Symbol(s[i]))
  }

  // ----- The codec -----

  datatype Text = Text(hrp: string, data: seq<bv5>)

  function Register(vs: seq<bv5>): (r: Word)
  {
    Run(WORDS, 1, vs)
  }

  function WithChecksum(hrp: string, data: seq<bv5>): (vs: seq<bv5>)
    requires AllPrintable(hrp)
  {
    data + Checksum(WORDS, Register(Expand(hrp) + data))
  }

  predicate Fits(hrp: string, data: seq<bv5>)
  {
    AllPrintable(hrp) && !HasUpper(hrp) && |hrp| + 7 + |data| <= 90
  }

  function Encoded(hrp: string, data: seq<bv5>): (s: string)
    requires AllPrintable(hrp)
  {
    hrp + ['1'] + Chars(WithChecksum(hrp, data))
  }

  /** The position of the last `1`. */
  function Separator(s: string): (k: Option<nat>)
    ensures k.Some? ==> k.value < |s|
  {
    if s == [] then None else if s[|s| - 1] == '1' then Some(|s| - 1) else Separator(s[..|s| - 1])
  }

  /** What is accepted, once the two parts are known. */
  function Parts(hrp: string, rest: string): (r: Option<Text>)
  {
    if |hrp| < 1 || |rest| < 6 || !AllPrintable(hrp) || !AllSymbols(rest) then None
    else if (HasLower(hrp) || HasLower(rest)) && (HasUpper(hrp) || HasUpper(rest)) then None
    else if Register(Expanded(hrp) + Values(rest)) != 1 then None
    else Some(Text(Lowered(hrp), Values(rest)[..|rest| - 6]))
  }

  function Expanded(hrp: string): (vs: seq<bv5>)
    requires AllPrintable(hrp)
  {
    LoweredPrintable(hrp);
    Expand(Lowered(hrp))
  }

  function Decoded(input: string): (r: Option<Text>)
  {
    if |input| < 8 || |input| > 90 then None else
    match Separator(input)
    case None => None
    case Some(k) => Parts(input[..k], input[k + 1..])
  }

  // ----- Facts about the parts -----

  lemma LoweredPrintable(s: string)
    requires AllPrintable(s)
    ensures AllPrintable(Lowered(s))
  {
    forall i | 0 <= i < |s| ensures Printable(Lower(s[i])) {
      assert Printable(s[i]);
    }
  }

  lemma {:induction false} SeparatorAt(front: string, rest: string)
    requires '1' !in rest
    ensures Separator(front + ['1'] + rest) == Some(|front|)
    decreases |rest|
  {
    var s := front + ['1'] + rest;
    if rest == [] {
      assert s[|s| - 1] == '1';
    } else {
      assert s[|s| - 1] == rest[|rest| - 1] && s[..|s| - 1] == front + ['1'] + rest[..|rest| - 1];
      SeparatorAt(front, rest[..|rest| - 1]);
    }
  }

  lemma {:induction false} SeparatorSplits(s: string)
    requires Separator(s).Some?
    ensures var k := Separator(s).value; s == s[..k] + ['1'] + s[k + 1..] && '1' !in s[k + 1..]
  {
    var k := Separator(s).value;
    if s[|s| - 1] != '1' {
      var s' := s[..|s| - 1];
      SeparatorSplits(s');
      assert s[k + 1..] == s'[k + 1..] + [s[|s| - 1]];
    }
  }

  lemma DecodeOfParts(hrp: string, rest: string)
    requires '1' !in rest && 8 <= |hrp| + 1 + |rest| <= 90
    ensures Decoded(hrp + ['1'] + rest) == Parts(hrp, rest)
  {
    var s := hrp + ['1'] + rest;
    SeparatorAt(hrp, rest);
    assert s[..|hrp|] == hrp && s[|hrp| + 1..] == rest;
  }

  lemma CharsAreSymbols(vs: seq<bv5>)
    ensures AllSymbols(Chars(vs)) && Values(Chars(vs)) == vs
    ensures '1' !in Chars(vs) && !HasUpper(Chars(vs))
  {
    forall i | 0 <= i < |vs|
      ensures Rank(Chars(vs)[i]) == vs[i] as int && Chars(vs)[i] != '1' && !IsUpper(Chars(vs)[i])
    {
      RankOfChar(vs[i] as int);
    }
    UpperSomewhere(Chars(vs));
  }

  lemma LoweredSame(s: string)
    requires !HasUpper(s)
    ensures Lowered(s) == s
  {
    UpperSomewhere(s);
  }

  /** Data and checksum close the register. */
  lemma WithChecksumCloses(front: seq<bv5>, data: seq<bv5>)
    ensures Register(front + (data + Checksum(WORDS, Register(front + data)))) == 1
  {
    var c := Checksum(WORDS, Register(front + data));
    RunAppend(WORDS, 1, front + data, c);
    assert front + (data + c) == (front + data) + c;
    ChecksumCloses(Register(front + data));
  }

  lemma PartsOfEncoded(hrp: string, data: seq<bv5>)
    requires Fits(hrp, data) && hrp != ""
    ensures Parts(hrp, Chars(WithChecksum(hrp, data))) == Some(Text(hrp, data))
  {
    var vs := WithChecksum(hrp, data);
    CharsAreSymbols(vs);
    LoweredSame(hrp);
    WithChecksumCloses(Expand(hrp), data);
    assert vs[..|data|] == data;
  }

  /** Encoding and decoding is the identity, for every human-readable part but the empty one, which
      the encoder lets through and the decoder refuses. */
  lemma DecodeEncoded(hrp: string, data: seq<bv5>)
    requires Fits(hrp, data)
    ensures Decoded(Encoded(hrp, data)) == if hrp == "" then None else Some(Text(hrp, data))
  {
    var rest := Chars(WithChecksum(hrp, data));
    CharsAreSymbols(WithChecksum(hrp, data));
    if 8 <= |hrp| + 1 + |rest| {
      DecodeOfParts(hrp, rest);
      if hrp != "" {
        PartsOfEncoded(hrp, data);
      }
    }
  }

  // ----- Case -----

  lemma UpperedParts(s: string)
    ensures Lowered(Uppered(s)) == Lowered(s) && !HasLower(Uppered(s))
    ensures AllPrintable(s) ==> AllPrintable(Uppered(s))
    ensures AllSymbols(s) ==> AllSymbols(Uppered(s)) && Values(Uppered(s)) == Values(s)
  {
    forall i | 0 <= i < |s|
      ensures Lower(Upper(s[i])) == Lower(s[i]) && !IsLower(Upper(s[i])) && Rank(Upper(s[i])) == Rank(s[i])
      ensures Printable(s[i]) ==> Printable(Upper(s[i]))
    {
      LowerUpper(s[i]);
    }
    LowerSomewhere(Uppered(s));
  }

  lemma UpperedSplits(hrp: string, rest: string)
    ensures Uppered(hrp + ['1'] + rest) == Uppered(hrp) + ['1'] + Uppered(rest)
    ensures '1' !in rest ==> '1' !in Uppered(rest)
  {
  }

  lemma PartsUppered(hrp: string, rest: string)
    requires Parts(hrp, rest).Some?
    ensures Parts(Uppered(hrp), Uppered(rest)) == Parts(hrp, rest)
  {
    UpperedParts(hrp);
    UpperedParts(rest);
  }

  /** The upper-case form of an encoding decodes to the same text. */
  lemma DecodeUppered(hrp: string, data: seq<bv5>)
    requires Fits(hrp, data) && hrp != ""
    ensures Decoded(Uppered(Encoded(hrp, data))) == Some(Text(hrp, data))
  {
    var rest := Chars(WithChecksum(hrp, data));
    CharsAreSymbols(WithChecksum(hrp, data));
    UpperedSplits(hrp, rest);
    DecodeOfParts(Uppered(hrp), Uppered(rest));
    PartsOfEncoded(hrp, data);
    PartsUppered(hrp, rest);
  }

  // ----- Nothing else is accepted -----

  /** Only one checksum closes the register. */
  lemma ChecksumUnique(front: seq<bv5>, data: seq<bv5>, c: seq<bv5>)
    requires |c| == 6 && Register(front + (data + c)) == 1
    ensures c == Checksum(WORDS, Register(front + data))
  {
    var d := Checksum(WORDS, Register(front + data));
    WithChecksumCloses(front, data);
    assert (front + data) + c + [] == front + (data + c);
    assert (front + data) + d + [] == front + (data + d);
    if c != d {
      WindowDetected(1, front + data, c, d, []);
    }
  }

  lemma NumberOfSymbol(n: int, v: bv5)
    requires 0 <= n < 32 && v == n as bv5
    ensures v as int == n
  {
  }

  lemma SymbolNumber(c: char, v: bv5)
    requires Rank(c) != -1 && v == Symbol(c)
    ensures v as int == Rank(c)
  {
    RankBound(c);
    NumberOfSymbol(Rank(c), v);
  }

  lemma CharOfSymbol(c: char, v: bv5)
    requires Rank(c) != -1 && v == Symbol(c)
    ensures CharOf(v as int) == Lower(c)
  {
    SymbolNumber(c, v);
    CharOfRank(Lower(c));
  }

  lemma CharsOfValues(s: string)
    requires AllSymbols(s)
    ensures Chars(Values(s)) == Lowered(s)
  {
    forall i | 0 <= i < |s| ensures Chars(Values(s))[i] == Lower(s[i]) {
      CharOfSymbol(s[i], Symbol(s[i]));
    }
  }

  lemma LoweredIsLower(s: string)
    ensures !HasUpper(Lowered(s))
    ensures !HasLower(s) ==> Uppered(Lowered(s)) == s
  {
    forall i | 0 <= i < |s|
      ensures !IsUpper(Lower(s[i])) && (!IsLower(s[i]) ==> Upper(Lower(s[i])) == s[i])
    {
      LowerUpper(s[i]);
    }
    UpperSomewhere(Lowered(s));
    LowerSomewhere(s);
  }

  lemma PartsReencode(hrp: string, rest: string)
    requires Parts(hrp, rest).Some?
    ensures var t := Parts(hrp, rest).value;
      AllPrintable(t.hrp) && !HasUpper(t.hrp) && Encoded(t.hrp, t.data) == Lowered(hrp) + ['1'] + Lowered(rest)
  {
    var h, n := Lowered(hrp), |rest| - 6;
    var vs := Values(rest);
    LoweredPrintable(hrp);
    LoweredIsLower(hrp);
    assert vs == vs[..n] + vs[n..];
    ChecksumUnique(Expand(h), vs[..n], vs[n..]);
    CharsOfValues(rest);
  }

  lemma LoweredSplits(hrp: string, rest: string)
    ensures Lowered(hrp + ['1'] + rest) == Lowered(hrp) + ['1'] + Lowered(rest)
  {
  }

  /** Whatever is accepted is an encoding of what it decodes to, in lower or in upper case. */
  lemma EncodeDecoded(s: string)
    requires Decoded(s).Some?
    ensures var t := Decoded(s).value;
      Fits(t.hrp, t.data) && t.hrp != "" && Lowered(s) == Encoded(t.hrp, t.data)
    ensures s == Lowered(s) || s == Uppered(Lowered(s))
  {
    SeparatorSplits(s);
    var k := Separator(s).value;
    var hrp, rest := s[..k], s[k + 1..];
    PartsReencode(hrp, rest);
    LoweredSplits(hrp, rest);
    OneCase(hrp, rest);
  }

  lemma OneCase(hrp: string, rest: string)
    requires Parts(hrp, rest).Some?
    ensures var s := hrp + ['1'] + rest; s == Lowered(s) || s == Uppered(Lowered(s))
  {
    var s := hrp + ['1'] + rest;
    if HasUpper(hrp) || HasUpper(rest) {
      LowerJoin(hrp, rest);
      LoweredIsLower(s);
    } else {
      UpperJoin(hrp, rest);
      LoweredSame(s);
    }
  }

  lemma LowerJoin(hrp: string, rest: string)
    ensures HasLower(hrp + ['1'] + rest) ==> HasLower(hrp) || HasLower(rest)
  {
    LowerSomewhere(hrp + ['1'] + rest);
    LowerSomewhere(hrp);
    LowerSomewhere(rest);
  }

  lemma UpperJoin(hrp: string, rest: string)
    ensures HasUpper(hrp + ['1'] + rest) ==> HasUpper(hrp) || HasUpper(rest)
  {
    UpperSomewhere(hrp + ['1'] + rest);
    UpperSomewhere(hrp);
    UpperSomewhere(rest);
  }

  // ----- Error detection -----

  /** Two strings of symbols that agree outside six neighbouring places. */
  predicate Near(a: string, b: string, k: nat)
  {
    |a| == |b| && forall i :: 0 <= i < |a| && !(k <= i < k + 6) ==> a[i] == b[i]
  }

  predicate SameValues(a: string, b: string)
    requires |a| == |b|
  {
    forall i :: 0 <= i < |a| ==> Rank(a[i]) == Rank(b[i])
  }

  lemma NearWindows(a: seq<bv5>, b: seq<bv5>, k: nat)
    requires |a| == |b| && k <= |a| && a != b
    requires forall i :: 0 <= i < |a| && !(k <= i < k + 6) ==> a[i] == b[i]
    ensures var n := if k + 6 <= |a| then k + 6 else |a|;
      a == a[..k] + a[k..n] + a[n..] && b == a[..k] + b[k..n] + a[n..] && a[k..n] != b[k..n] && |a[k..n]| <= 6
  {
    var n := if k + 6 <= |a| then k + 6 else |a|;
    assert b == a[..k] + b[k..n] + a[n..];
    assert a == a[..k] + a[k..n] + a[n..];
  }

  lemma RegistersDiffer(front: seq<bv5>, a: seq<bv5>, b: seq<bv5>, k: nat)
    requires |a| == |b| && k <= |a| && a != b
    requires forall i :: 0 <= i < |a| && !(k <= i < k + 6) ==> a[i] == b[i]
    ensures Register(front + a) != Register(front + b)
  {
    NearWindows(a, b, k);
    var n := if k + 6 <= |a| then k + 6 else |a|;
    WindowDetected(1, front + a[..k], a[k..n], b[k..n], a[n..]);
    InThree(front, a[..k], a[k..n], a[n..], a);
    InThree(front, a[..k], b[k..n], a[n..], b);
  }

  lemma InThree(front: seq<bv5>, x: seq<bv5>, y: seq<bv5>, z: seq<bv5>, a: seq<bv5>)
    requires a == x + y + z
    ensures front + a == (front + x) + y + z
  {
  }

  lemma ValuesDiffer(a: string, b: string, k: nat)
    requires Near(a, b, k) && !SameValues(a, b) && AllSymbols(a) && AllSymbols(b)
    ensures |Values(a)| == |Values(b)| && k <= |a| && Values(a) != Values(b)
    ensures forall i :: 0 <= i < |a| && !(k <= i < k + 6) ==> Values(a)[i] == Values(b)[i]
  {
    var i :| 0 <= i < |a| && Rank(a[i]) != Rank(b[i]);
    SymbolNumber(a[i], Values(a)[i]);
    SymbolNumber(b[i], Values(b)[i]);
  }

  lemma PartsRefuse(hrp: string, a: string, b: string, k: nat)
    requires Parts(hrp, a).Some? && Near(a, b, k) && !SameValues(a, b)
    ensures Parts(hrp, b) == None
  {
    if AllSymbols(b) {
      ValuesDiffer(a, b, k);
      RegistersDiffer(Expanded(hrp), Values(a), Values(b), k);
    }
  }

  /** An accepted string, changed in the value of at least one data or checksum symbol and nowhere
      but within six neighbouring places, is always refused, unless the change moves the separator. */
  lemma BurstRefused(hrp: string, a: string, b: string, k: nat)
    requires '1' !in a && '1' !in b && Decoded(hrp + ['1'] + a).Some?
    requires Near(a, b, k) && !SameValues(a, b)
    ensures Decoded(hrp + ['1'] + b) == None
  {
    DecodeOfParts(hrp, a);
    DecodeOfParts(hrp, b);
    PartsRefuse(hrp, a, b, k);
  }
}
