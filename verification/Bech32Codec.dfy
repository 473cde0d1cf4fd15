/** The loops that read and write Bech32 strings (libraries/segwit_addr/segwit_addr.c:50-141),
    against the codec they compute. A C string is a string without a zero character. */
module Bech32Codec {
  import opened Bytes
  import opened FeedbackRegister
  import opened Polymod
  import opened Bech32Charset
  import opened Bech32

  predicate FiveBit(data: bytes)
  {
    forall i :: 0 <= i < |data| ==> data[i] < 32
  }

  function Symbols(data: bytes): (vs: seq<bv5>)
    requires FiveBit(data)
  {
    seq(|data|, i requires 0 <= i < |data| => data[i] as bv5)
  }

  // ----- One symbol of the checksum -----

  /** A symbol enters the register. */
  method Absorb(chk: Word, v: bv5, ghost start: Word, ghost fed: seq<bv5>) returns (r: Word)
    requires chk == Run(WORDS, start, fed)
    ensures r == Run(WORDS, start, fed + [v])
  {
    r := Feed(Step(chk), v);
    RunSnoc(WORDS, start, fed, v);
  }

  lemma FeedZero(w: Word)
    ensures Feed(w, 0) == w
  {
  }

  /** A step without a symbol is a step with symbol zero. */
  method AbsorbNothing(chk: Word, ghost start: Word, ghost fed: seq<bv5>) returns (r: Word)
    requires chk == Run(WORDS, start, fed)
    ensures r == Run(WORDS, start, fed + [0])
  {
    r := Step(chk);
    RunSnoc(WORDS, start, fed, 0);
    FeedZero(r);
  }

  /** The group at a place counted from the left. */
  method Draw(chk: Word, i: nat) returns (v: bv5)
    requires i < 6
    ensures v == Six(Groups(chk))[i]
  {
    var shift := (5 - i) * 5;
    v := Group(chk >> shift);
    SixAt(Groups(chk), i, v);
  }

  lemma SixAt(r: Reg<bv5>, i: nat, v: bv5)
    requires i < 6
    requires v == if i == 0 then r.p0 else if i == 1 then r.p1 else if i == 2 then r.p2
                  else if i == 3 then r.p3 else if i == 4 then r.p4 else r.p5
    ensures v == Six(r)[i]
  {
  }

  // ----- Writing -----

  method WriteHigh(hrp: string) returns (ok: bool, chk: Word)
    ensures ok == (AllPrintable(hrp) && !HasUpper(hrp))
    ensures ok ==> chk == Register(Highs(hrp))
  {
    chk, ok := 1, true;
    var i := 0;
    while i < |hrp|
      invariant i <= |hrp| && AllPrintable(hrp[..i]) && !HasUpper(hrp[..i])
      invariant chk == Register(Highs(hrp[..i]))
    {
      var c := hrp[i];
      assert c == hrp[..i + 1][i];
      CaseSnoc(hrp, i);
      if c as int < 33 || c as int > 126 || IsUpper(c) {
        ClearFront(hrp, i);
        return false, chk;
      }
      PrintableSnoc(hrp, i);
      chk := Absorb(chk, High(c), 1, Highs(hrp[..i]));
      assert Highs(hrp[..i + 1]) == Highs(hrp[..i]) + [High(c)];
      i := i + 1;
    }
    assert hrp[..i] == hrp;
  }

  lemma LowsSnoc(s: string, i: nat, fed: seq<bv5>)
    requires i < |s|
    ensures fed + Lows(s[..i]) + [Low(s[i])] == fed + Lows(s[..i + 1])
  {
    assert s[..i + 1] == s[..i] + [s[i]];
  }

  method WriteOneLow(hrp: string, i: nat, chk0: Word, ghost fed: seq<bv5>) returns (chk: Word)
    requires i < |hrp| && chk0 == Register(fed + Lows(hrp[..i]))
    ensures chk == Register(fed + Lows(hrp[..i + 1]))
  {
    chk := Absorb(chk0, Low(hrp[i]), 1, fed + Lows(hrp[..i]));
    LowsSnoc(hrp, i, fed);
  }

  method WriteLow(hrp: string, chk0: Word, ghost fed: seq<bv5>) returns (chk: Word, output: string)
    requires chk0 == Register(fed)
    ensures chk == Register(fed + Lows(hrp)) && output == hrp
  {
    chk, output := chk0, "";
    assert fed == fed + Lows(hrp[..0]);
    var i := 0;
    while i < |hrp|
      invariant i <= |hrp| && chk == Register(fed + Lows(hrp[..i])) && output == hrp[..i]
    {
      chk := WriteOneLow(hrp, i, chk, fed);
      output := output + [hrp[i]];
      i := i + 1;
    }
    assert hrp[..i] == hrp;
  }

  lemma SymbolsSnoc(data: bytes, i: nat, v: bv5)
    requires i < |data| && FiveBit(data[..i]) && data[i] < 32 && v == data[i] as bv5
    ensures FiveBit(data[..i + 1]) && Symbols(data[..i + 1]) == Symbols(data[..i]) + [v]
    ensures Chars(Symbols(data[..i + 1])) == Chars(Symbols(data[..i])) + [CharOf(data[i])]
  {
    NumberOfSymbol(data[i], v);
    CharsAppend(Symbols(data[..i]), [v]);
    CharsOne(v);
  }

  lemma CharsOne(v: bv5)
    ensures Chars([v]) == [CharOf(v as int)]
  {
  }

  method WriteOne(data: bytes, i: nat, chk0: Word, output0: string, ghost fed: seq<bv5>) returns (chk: Word, output: string)
    requires i < |data| && FiveBit(data[..i]) && data[i] < 32
    requires chk0 == Register(fed + Symbols(data[..i])) && output0 == Chars(Symbols(data[..i]))
    ensures FiveBit(data[..i + 1]) && chk == Register(fed + Symbols(data[..i + 1])) && output == Chars(Symbols(data[..i + 1]))
  {
    var v := data[i] as bv5;
    chk := Absorb(chk0, v, 1, fed + Symbols(data[..i]));
    SymbolsSnoc(data, i, v);
    FedSnoc(fed, Symbols(data[..i]), v, Symbols(data[..i + 1]));
    output := output0 + [CharOf(data[i])];
  }

  lemma FedSnoc(fed: seq<bv5>, x: seq<bv5>, v: bv5, y: seq<bv5>)
    requires y == x + [v]
    ensures fed + x + [v] == fed + y
  {
  }

  method WriteData(data: bytes, chk0: Word, ghost fed: seq<bv5>) returns (ok: bool, chk: Word, output: string)
    requires chk0 == Register(fed)
    ensures ok == FiveBit(data)
    ensures ok ==> chk == Register(fed + Symbols(data)) && output == Chars(Symbols(data))
  {
    ok, chk, output := true, chk0, "";
    assert fed == fed + Symbols(data[..0]);
    var i := 0;
    while i < |data|
      invariant i <= |data| && FiveBit(data[..i])
      invariant chk == Register(fed + Symbols(data[..i])) && output == Chars(Symbols(data[..i]))
    {
      if data[i] >= 32 {
        return false, chk, output;
      }
      chk, output := WriteOne(data, i, chk, output, fed);
      i := i + 1;
    }
    assert data[..i] == data;
  }

  method WriteChecksum(chk0: Word) returns (output: string)
    ensures output == Chars(Checksum(WORDS, chk0))
  {
    var chk := chk0;
    var i := 0;
    while i < 6
      invariant i <= 6 && chk == Run(WORDS, chk0, seq(i, _ => 0))
    {
      chk := AbsorbNothing(chk, chk0, seq(i, _ => 0));
      assert seq(i, _ => 0 as bv5) + [0] == seq(i + 1, _ => 0);
      i := i + 1;
    }
    chk := Feed(chk, 1);
    output := "";
    i := 0;
    while i < 6
      invariant i <= 6 && output == Chars(Six(Groups(chk))[..i])
    {
      var v := Draw(chk, i);
      output := output + [CharOf(v as int)];
      i := i + 1;
    }
  }

  /** `bech32_encode`. */
  method Encode(hrp: string, data: bytes) returns (r: Option<string>)
    requires '\0' !in hrp
    ensures r.Some? == (FiveBit(data) && Fits(hrp, Symbols(data)))
    ensures r.Some? ==> r.value == Encoded(hrp, Symbols(data))
  {
    var ok, chk := WriteHigh(hrp);
    if !ok {
      return None;
    }
    if |hrp| + 7 + |data| > 90 {
      return None;
    }
    chk := AbsorbNothing(chk, 1, Highs(hrp));
    var front, body, tail;
    chk, front := WriteLow(hrp, chk, Highs(hrp) + [0]);
    ok, chk, body := WriteData(data, chk, Expand(hrp));
    if !ok {
      return None;
    }
    tail := WriteChecksum(chk);
    r := Some(front + ['1'] + body + tail);
    CharsAppend(Symbols(data), Checksum(WORDS, chk));
    assert front + ['1'] + (body + tail) == front + ['1'] + body + tail;
  }

  lemma CharsAppend(a: seq<bv5>, b: seq<bv5>)
    ensures Chars(a + b) == Chars(a) + Chars(b)
  {
  }

  // ----- Reading -----

  method FindSeparator(input: string) returns (dataLen: nat)
    ensures dataLen <= |input|
    ensures dataLen == |input| <==> Separator(input) == None
    ensures dataLen < |input| ==> Separator(input) == Some(|input| - 1 - dataLen)
  {
    dataLen := 0;
    while dataLen < |input| && input[|input| - 1 - dataLen] != '1'
      invariant dataLen <= |input| && '1' !in input[|input| - dataLen..]
    {
      dataLen := dataLen + 1;
    }
    if dataLen < |input| {
      var k := |input| - 1 - dataLen;
      SeparatorAt(input[..k], input[k + 1..]);
      assert input == input[..k] + ['1'] + input[k + 1..];
    } else {
      NoSeparator(input);
    }
  }

  lemma NoSeparator(s: string)
    requires '1' !in s
    ensures Separator(s) == None
  {
    if s != [] {
      NoSeparator(s[..|s| - 1]);
    }
  }

  lemma LowOfLower(c: char)
    ensures Low(Lower(c)) == Low(c)
  {
    assert (c as int + 32) % 32 == c as int % 32;
  }

  lemma ClearFront(s: string, i: nat)
    requires i < |s| && (!Printable(s[i]) || IsUpper(s[i]))
    ensures !(AllPrintable(s) && !HasUpper(s))
  {
    UpperSomewhere(s);
  }

  lemma PrintableSnoc(s: string, i: nat)
    requires i < |s| && AllPrintable(s[..i]) && Printable(s[i])
    ensures AllPrintable(s[..i + 1])
  {
  }

  lemma CaseSnoc(s: string, i: nat)
    requires i < |s|
    ensures HasLower(s[..i + 1]) == (HasLower(s[..i]) || IsLower(s[i]))
    ensures HasUpper(s[..i + 1]) == (HasUpper(s[..i]) || IsUpper(s[i]))
  {
    assert s[..i + 1][i] == s[i] && s[..i + 1][..i] == s[..i];
  }

  lemma ValuesSnoc(s: string, i: nat)
    requires i < |s| && AllSymbols(s[..i]) && Rank(s[i]) != -1
    ensures AllSymbols(s[..i + 1]) && Values(s[..i + 1]) == Values(s[..i]) + [Symbol(s[i])]
  {
  }

  lemma LoweredSnoc(s: string, i: nat)
    requires i < |s|
    ensures Lowered(s[..i + 1]) == Lowered(s[..i]) + [Lower(s[i])]
  {
  }

  lemma HighsSnoc(s: string, c: char)
    requires AllPrintable(s) && Printable(c)
    ensures AllPrintable(s + [c]) && Highs(s + [c]) == Highs(s) + [High(c)]
  {
  }

  method ReadHigh(hrp: string) returns (ok: bool, chk: Word, lower: bool, upper: bool, output: string)
    ensures ok == AllPrintable(hrp)
    ensures ok ==> lower == HasLower(hrp) && upper == HasUpper(hrp) && output == Lowered(hrp)
    ensures ok ==> AllPrintable(output) && chk == Register(Highs(output))
  {
    ok, chk, lower, upper, output := true, 1, false, false, "";
    var i := 0;
    while i < |hrp|
      invariant i <= |hrp| && AllPrintable(hrp[..i]) && output == Lowered(hrp[..i])
      invariant lower == HasLower(hrp[..i]) && upper == HasUpper(hrp[..i])
      invariant AllPrintable(output) && chk == Register(Highs(output))
    {
      var c := hrp[i];
      assert c == hrp[..i + 1][i];
      if c as int < 33 || c as int > 126 {
        return false, chk, lower, upper, output;
      }
      PrintableSnoc(hrp, i);
      if IsLower(c) {
        lower := true;
      } else if IsUpper(c) {
        upper := true;
        c := Lower(c);
      }
      LoweredSnoc(hrp, i);
      CaseSnoc(hrp, i);
      HighsSnoc(output, c);
      chk := Absorb(chk, High(c), 1, Highs(output));
      output := output + [c];
      i := i + 1;
    }
    assert hrp[..i] == hrp;
  }

  method ReadLow(hrp: string, chk0: Word, ghost fed: seq<bv5>) returns (chk: Word)
    requires chk0 == Register(fed)
    ensures chk == Register(fed + Lows(Lowered(hrp)))
  {
    chk := chk0;
    assert fed == fed + Lows(Lowered(hrp[..0]));
    var i := 0;
    while i < |hrp|
      invariant i <= |hrp| && chk == Register(fed + Lows(Lowered(hrp[..i])))
    {
      chk := Absorb(chk, Low(hrp[i]), 1, fed + Lows(Lowered(hrp[..i])));
      LoweredSnoc(hrp, i);
      LowOfLower(hrp[i]);
      assert fed + Lows(Lowered(hrp[..i])) + [Low(hrp[i])] == fed + Lows(Lowered(hrp[..i + 1]));
      i := i + 1;
    }
    assert hrp[..i] == hrp;
  }

  /** One character of the data part, after those before `i`. */
  method ReadOne(rest: string, i: nat, chk0: Word, lower0: bool, upper0: bool, ghost fed: seq<bv5>)
    returns (ok: bool, chk: Word, lower: bool, upper: bool, v: bv5)
    requires i < |rest| && AllSymbols(rest[..i]) && chk0 == Register(fed + Values(rest[..i]))
    requires lower0 == HasLower(rest[..i]) && upper0 == HasUpper(rest[..i])
    ensures ok == (Rank(rest[i]) != -1)
    ensures ok ==> AllSymbols(rest[..i + 1]) && Values(rest[..i + 1]) == Values(rest[..i]) + [v]
    ensures ok ==> chk == Register(fed + Values(rest[..i + 1]))
    ensures lower == HasLower(rest[..i + 1]) && upper == HasUpper(rest[..i + 1])
  {
    var c := rest[i];
    CaseSnoc(rest, i);
    chk, lower, upper, v := chk0, lower0, upper0, 0;
    if IsLower(c) {
      lower := true;
    }
    if IsUpper(c) {
      upper := true;
    }
    ok := Rank(c) != -1;
    if ok {
      v := Symbol(c);
      ValuesSnoc(rest, i);
      chk := Absorb(chk, v, 1, fed + Values(rest[..i]));
      FedSnoc(fed, Values(rest[..i]), v, Values(rest[..i + 1]));
    }
  }

  /** The first `n` values are kept. */
  lemma KeptSnoc(vs: seq<bv5>, v: bv5, n: nat, data: seq<bv5>)
    requires data == vs[..if |vs| <= n then |vs| else n]
    ensures (if |vs| < n then data + [v] else data) == (vs + [v])[..if |vs| + 1 <= n then |vs| + 1 else n]
  {
  }

  /** What has been read of the data part, up to `i`. */
  ghost predicate ReadTo(rest: string, i: nat, chk: Word, lower: bool, upper: bool, fed: seq<bv5>)
  {
    && i <= |rest| && AllSymbols(rest[..i]) && chk == Register(fed + Values(rest[..i]))
    && lower == HasLower(rest[..i]) && upper == HasUpper(rest[..i])
  }

  lemma ReadNothing(rest: string, chk: Word, fed: seq<bv5>)
    requires chk == Register(fed)
    ensures ReadTo(rest, 0, chk, false, false, fed) && Values(rest[..0]) == []
  {
    assert fed + Values(rest[..0]) == fed;
  }

  /** The data part with its checksum; the last six values are not kept. */
  method ReadData(rest: string, chk0: Word, ghost fed: seq<bv5>)
    returns (ok: bool, chk: Word, lower: bool, upper: bool, data: seq<bv5>)
    requires chk0 == Register(fed) && 6 <= |rest|
    ensures ok == AllSymbols(rest)
    ensures ok ==> lower == HasLower(rest) && upper == HasUpper(rest)
    ensures ok ==> chk == Register(fed + Values(rest)) && data == Values(rest)[..|rest| - 6]
  {
    ok, chk, lower, upper, data := true, chk0, false, false, [];
    var n := |rest| - 6;
    ReadNothing(rest, chk0, fed);
    var i := 0;
    while i < |rest|
      invariant ReadTo(rest, i, chk, lower, upper, fed) && data == Values(rest[..i])[..if i <= n then i else n]
    {
      ok, chk, lower, upper, data := ReadStep(rest, i, chk, lower, upper, n, data, fed);
      if !ok {
        return;
      }
      i := i + 1;
    }
    ok := true;
    assert rest[..i] == rest;
  }

  method ReadStep(rest: string, i: nat, chk0: Word, lower0: bool, upper0: bool, n: nat, data0: seq<bv5>, ghost fed: seq<bv5>)
    returns (ok: bool, chk: Word, lower: bool, upper: bool, data: seq<bv5>)
    requires i < |rest| && n == |rest| - 6 && ReadTo(rest, i, chk0, lower0, upper0, fed) && data0 == Values(rest[..i])[..if i <= n then i else n]
    ensures ok == (Rank(rest[i]) != -1)
    ensures ok ==> ReadTo(rest, i + 1, chk, lower, upper, fed) && data == Values(rest[..i + 1])[..if i + 1 <= n then i + 1 else n]
  {
    var v;
    data := data0;
    ok, chk, lower, upper, v := ReadOne(rest, i, chk0, lower0, upper0, fed);
    if ok {
      KeptSnoc(Values(rest[..i]), v, n, data);
      if i + 6 < |rest| {
        data := data + [v];
      }
    }
  }

  /** The two sides of the separator. */
  method ReadParts(left: string, right: string) returns (r: Option<Text>)
    ensures r == Parts(left, right)
  {
    if |left| < 1 || |right| < 6 {
      return None;
    }
    var ok, chk, lower, upper, hrp := ReadHigh(left);
    if !ok {
      return None;
    }
    chk := AbsorbNothing(chk, 1, Highs(hrp));
    chk := ReadLow(left, chk, Highs(hrp) + [0]);
    var more, isLower, isUpper, data := false, false, false, [];
    more, chk, isLower, isUpper, data := ReadData(right, chk, Expand(hrp));
    if !more {
      return None;
    }
    if (lower || isLower) && (upper || isUpper) {
      return None;
    }
    r := if chk == 1 then Some(Text(hrp, data)) else None;
  }

  /** `bech32_decode`. Without a separator the library runs on to the end of the string and refuses;
      beyond 84 characters that overruns the caller's buffer. */
  method Decode(input: string) returns (r: Option<Text>)
    requires '\0' !in input && ('1' in input || |input| <= 84)
    ensures r == Decoded(input)
  {
    if |input| < 8 || |input| > 90 {
      return None;
    }
    var dataLen := FindSeparator(input);
    if dataLen == |input| {
      return None;
    }
    var k := |input| - (1 + dataLen);
    r := ReadParts(input[..k], input[k + 1..]);
  }
}
