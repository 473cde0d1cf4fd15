/** When a serialised transaction is read back, exactly. */
module TransactionRoundTrip {
  import opened Bytes
  import opened Wire
  import opened Fields
  import opened TransactionCodec

  // ----- The writer writes the fields -----

  lemma Written3(a: Field, b: Field, c: Field)
    requires Fits(a) && Fits(b) && Fits(c)
    ensures AllFit([a, b, c]) && WrittenAll([a, b, c]) == Written(a) + Written(b) + Written(c)
  {
    WrittenOne(a);
    WrittenOne(b);
    WrittenOne(c);
    WrittenAppend([a], [b]);
    WrittenAppend([a] + [b], [c]);
    assert [a] + [b] + [c] == [a, b, c];
  }

  lemma Written2(a: Field, b: Field)
    requires Fits(a) && Fits(b)
    ensures AllFit([a, b]) && WrittenAll([a, b]) == Written(a) + Written(b)
  {
    WrittenOne(a);
    WrittenOne(b);
    WrittenAppend([a], [b]);
    assert [a] + [b] == [a, b];
  }

  lemma InputWritten(i: Input)
    requires WritableInput(i)
    ensures AllFit(InputFields(i)) && WrittenAll(InputFields(i)) == InputData(i)
  {
    RangeValues();
    var fs := InputFields(i);
    Written3(fs[0], fs[1], fs[2]);
    Written2(fs[3], fs[4]);
    WrittenAppend([fs[0], fs[1], fs[2]], [fs[3], fs[4]]);
    assert [fs[0], fs[1], fs[2]] + [fs[3], fs[4]] == fs;
  }

  lemma {:induction false} InputsWritten(ins: seq<Input>)
    requires forall k :: 0 <= k < |ins| ==> WritableInput(ins[k])
    ensures AllFit(InputsFields(ins)) && WrittenAll(InputsFields(ins)) == InputsData(ins)
  {
    if ins != [] {
      InputWritten(ins[0]);
      InputsWritten(ins[1..]);
      WrittenAppend(InputFields(ins[0]), InputsFields(ins[1..]));
    }
  }

  lemma {:induction false} OutputsWritten(outs: seq<Output>)
    requires forall k :: 0 <= k < |outs| ==> WritableOutput(outs[k])
    ensures AllFit(OutputsFields(outs)) && WrittenAll(OutputsFields(outs)) == OutputsData(outs)
  {
    if outs != [] {
      RangeValues();
      var fs := OutputFields(outs[0]);
      Written3(fs[0], fs[1], fs[2]);
      OutputsWritten(outs[1..]);
      WrittenAppend(fs, OutputsFields(outs[1..]));
    }
  }

  lemma {:induction false} ItemsWritten(ws: seq<Option<bytes>>)
    requires forall k :: 0 <= k < |ws| ==> Short(ws[k])
    ensures AllFit(ItemsFields(ws)) && WrittenAll(ItemsFields(ws)) == ItemsData(ws)
  {
    if ws != [] {
      var fs := ItemFields(ws[0]);
      Written2(fs[0], fs[1]);
      ItemsWritten(ws[1..]);
      WrittenAppend(fs, ItemsFields(ws[1..]));
    }
  }

  lemma {:induction false} StacksWritten(ins: seq<Input>)
    requires forall k :: 0 <= k < |ins| ==> WritableInput(ins[k])
    ensures AllFit(StacksFields(ins)) && WrittenAll(StacksFields(ins)) == WitnessesData(ins)
  {
    if ins != [] {
      var c := Count(|ins[0].stack|);
      WrittenOne(c);
      ItemsWritten(ins[0].stack);
      StacksWritten(ins[1..]);
      WrittenAppend([c], ItemsFields(ins[0].stack));
      WrittenAppend([c] + ItemsFields(ins[0].stack), StacksFields(ins[1..]));
    }
  }

  lemma BodyWritten(t: Tx, segwit: bool)
    requires Writable(t)
    ensures AllFit(BodyFields(t, segwit)) && WrittenAll(BodyFields(t, segwit)) == Body(t, segwit) && Closed(BodyFields(t, segwit))
  {
    RangeValues();
    var a, b, c, d := [Count(|t.inputs|)], InputsFields(t.inputs), [Count(|t.outputs|)], OutputsFields(t.outputs);
    var e := if segwit then StacksFields(t.inputs) else [];
    var f := [Uint(4, t.locktime)];
    WrittenOne(Count(|t.inputs|));
    InputsWritten(t.inputs);
    WrittenOne(Count(|t.outputs|));
    OutputsWritten(t.outputs);
    StacksWritten(t.inputs);
    WrittenOne(Uint(4, t.locktime));
    WrittenAppend(a, b);
    WrittenAppend(a + b, c);
    WrittenAppend(a + b + c, d);
    WrittenAppend(a + b + c + d, e);
    WrittenAppend(a + b + c + d + e, f);
  }

  // ----- The reader recovers a value exactly when it finds its fields -----

  /** An input as it is before its witness is read. */
  function Bare(i: Input): (r: Input)
  {
    i.(stack := [])
  }

  function Bares(ins: seq<Input>): (r: seq<Input>)
  {
    seq(|ins|, k requires 0 <= k < |ins| => Bare(ins[k]))
  }

  function Found<T(==)>(r: Read<T>, x: T): (m: Option<bytes>)
  {
    if r.value == x then Some(r.rest) else None
  }

  lemma Match3(a: Field, b: Field, c: Field, s: bytes)
    ensures MatchAll([a, b, c], s)
         == match Match(a, s) { case None => None case Some(r) => match Match(b, r) { case None => None case Some(q) => Match(c, q) } }
  {
    assert [a, b, c][1..] == [b, c] && [b, c][1..] == [c];
    if Match(a, s).Some? && Match(b, Match(a, s).value).Some? {
      MatchOne(c, Match(b, Match(a, s).value).value);
    }
  }

  lemma Match2(a: Field, b: Field, s: bytes)
    ensures MatchAll([a, b], s) == match Match(a, s) { case None => None case Some(r) => Match(b, r) }
  {
    assert [a, b][1..] == [b];
    if Match(a, s).Some? {
      MatchOne(b, Match(a, s).value);
    }
  }

  lemma ReadLength(n: nat, s: bytes)
    ensures ReadBytes(n, s).value.Some? ==> |ReadBytes(n, s).value.value| == n
  {
  }

  lemma InputMatch(i: Input, s: bytes)
    requires PresentInput(i)
    ensures MatchAll(InputFields(i), s) == Found(ParseInput(s), Bare(i))
  {
    var fs := InputFields(i);
    var h := ReadBytes(32, s);
    var x := ReadUint(4, h.rest);
    var n := ReadVarInt(x.rest);
    assert fs == [fs[0], fs[1], fs[2]] + [fs[3], fs[4]];
    MatchAppend([fs[0], fs[1], fs[2]], [fs[3], fs[4]], s);
    Match3(fs[0], fs[1], fs[2], s);
    Match2(fs[3], fs[4], n.rest);
    ReadLength(n.value, n.rest);
  }

  lemma OutputMatch(o: Output, s: bytes)
    requires o.script.Some?
    ensures MatchAll(OutputFields(o), s) == Found(ParseOutput(s), o)
  {
    var fs := OutputFields(o);
    var v := ReadUint(8, s);
    var n := ReadVarInt(v.rest);
    Match3(fs[0], fs[1], fs[2], s);
    ReadLength(n.value, n.rest);
  }

  lemma SplitHead<T>(x: T, xs: seq<T>, y: T, ys: seq<T>)
    ensures [x] + xs == [y] + ys <==> x == y && xs == ys
  {
    if [x] + xs == [y] + ys {
      assert ([x] + xs)[0] == ([y] + ys)[0] && ([x] + xs)[1..] == ([y] + ys)[1..];
      assert ([x] + xs)[1..] == xs && ([y] + ys)[1..] == ys;
    }
  }

  /** A list is found when its head and its tail are. */
  lemma ListMatch<T>(a: seq<Field>, b: seq<Field>, s: bytes, x: T, xs: seq<T>, first: Read<T>, more: Read<seq<T>>)
    requires MatchAll(a, s) == Found(first, x) && MatchAll(b, first.rest) == Found(more, xs)
    ensures MatchAll(a + b, s) == Found(Read([first.value] + more.value, more.rest), [x] + xs)
  {
    MatchAppend(a, b, s);
    SplitHead(first.value, more.value, x, xs);
  }

  lemma {:induction false} InputsMatch(ins: seq<Input>, s: bytes)
    requires forall k :: 0 <= k < |ins| ==> PresentInput(ins[k])
    ensures MatchAll(InputsFields(ins), s) == Found(ParseInputs(|ins|, s), Bares(ins))
  {
    if ins != [] {
      var first := ParseInput(s);
      InputMatch(ins[0], s);
      InputsMatch(ins[1..], first.rest);
      assert Bares(ins) == [Bare(ins[0])] + Bares(ins[1..]);
      ListMatch(InputFields(ins[0]), InputsFields(ins[1..]), s, Bare(ins[0]), Bares(ins[1..]), first, ParseInputs(|ins| - 1, first.rest));
    }
  }

  lemma {:induction false} OutputsMatch(outs: seq<Output>, s: bytes)
    requires forall k :: 0 <= k < |outs| ==> outs[k].script.Some?
    ensures MatchAll(OutputsFields(outs), s) == Found(ParseOutputs(|outs|, s), outs)
  {
    if outs != [] {
      var first := ParseOutput(s);
      OutputMatch(outs[0], s);
      OutputsMatch(outs[1..], first.rest);
      assert outs == [outs[0]] + outs[1..];
      ListMatch(OutputFields(outs[0]), OutputsFields(outs[1..]), s, outs[0], outs[1..], first, ParseOutputs(|outs| - 1, first.rest));
    }
  }

  lemma {:induction false} ItemsMatch(ws: seq<Option<bytes>>, s: bytes)
    requires forall k :: 0 <= k < |ws| ==> ws[k].Some?
    ensures MatchAll(ItemsFields(ws), s) == Found(ParseItems(|ws|, s), ws)
  {
    if ws != [] {
      var fs := ItemFields(ws[0]);
      var n := ReadVarInt(s);
      var item := ReadBytes(n.value, n.rest);
      Match2(fs[0], fs[1], s);
      ReadLength(n.value, n.rest);
      ItemsMatch(ws[1..], item.rest);
      assert ws == [ws[0]] + ws[1..];
      ListMatch(fs, ItemsFields(ws[1..]), s, ws[0], ws[1..], item, ParseItems(|ws| - 1, item.rest));
    }
  }

  /** One stack: its count and its items. */
  lemma StackMatch(ws: seq<Option<bytes>>, s: bytes)
    requires forall k :: 0 <= k < |ws| ==> ws[k].Some?
    ensures var n := ReadVarInt(s);
      MatchAll([Count(|ws|)] + ItemsFields(ws), s) == Found(ParseItems(n.value, n.rest), ws)
  {
    var n := ReadVarInt(s);
    MatchAppend([Count(|ws|)], ItemsFields(ws), s);
    MatchOne(Count(|ws|), s);
    ItemsMatch(ws, n.rest);
  }

  lemma {:induction false} StacksMatch(ins: seq<Input>, s: bytes)
    requires forall k :: 0 <= k < |ins| ==> PresentInput(ins[k])
    ensures MatchAll(StacksFields(ins), s) == Found(ParseStacks(Bares(ins), s), ins)
  {
    if ins == [] {
      assert Bares(ins) == [];
    } else {
      var n := ReadVarInt(s);
      var items := ParseItems(n.value, n.rest);
      StackMatch(ins[0].stack, s);
      MatchAppend([Count(|ins[0].stack|)] + ItemsFields(ins[0].stack), StacksFields(ins[1..]), s);
      StacksMatch(ins[1..], items.rest);
      assert Bares(ins)[0] == Bare(ins[0]) && Bares(ins)[1..] == Bares(ins[1..]);
      assert ins == [ins[0]] + ins[1..];
      SplitHead(Bares(ins)[0].(stack := items.value), ParseStacks(Bares(ins[1..]), items.rest).value, ins[0], ins[1..]);
    }
  }

  // ----- Whole transactions -----

  lemma {:induction false} ParsedBare(n: nat, s: bytes)
    ensures Bares(ParseInputs(n, s).value) == ParseInputs(n, s).value
  {
    if n > 0 {
      var first := ParseInput(s);
      ParsedBare(n - 1, first.rest);
      var xs := ParseInputs(n - 1, first.rest).value;
      assert Bares([first.value] + xs) == [first.value] + Bares(xs);
    }
  }

  lemma {:induction false} StacksKeep(ins: seq<Input>, s: bytes)
    ensures Bares(ParseStacks(ins, s).value) == Bares(ins)
  {
    if ins != [] {
      var n := ReadVarInt(s);
      var items := ParseItems(n.value, n.rest);
      StacksKeep(ins[1..], items.rest);
      var xs := ParseStacks(ins[1..], items.rest).value;
      assert Bares([ins[0].(stack := items.value)] + xs) == [Bare(ins[0])] + Bares(xs);
      assert Bares(ins) == [Bare(ins[0])] + Bares(ins[1..]);
    }
  }

  /** The front of a body: the inputs and the outputs. */
  function FrontFields(t: Tx): (fs: seq<Field>)
  {
    [Count(|t.inputs|)] + InputsFields(t.inputs) + [Count(|t.outputs|)] + OutputsFields(t.outputs)
  }

  lemma CountedMatch(n: nat, fs: seq<Field>, s: bytes)
    ensures var c := ReadVarInt(s);
      MatchAll([Count(n)] + fs, s) == if c.value == n then MatchAll(fs, c.rest) else None
  {
    MatchAppend([Count(n)], fs, s);
    MatchOne(Count(n), s);
  }

  lemma FrontMatch(t: Tx, s: bytes)
    requires Present(t)
    ensures var c := ReadVarInt(s);
      var ins := ParseInputs(c.value, c.rest);
      var d := ReadVarInt(ins.rest);
      var outs := ParseOutputs(d.value, d.rest);
      MatchAll(FrontFields(t), s) == if ins.value == Bares(t.inputs) && outs.value == t.outputs then Some(outs.rest) else None
  {
    var a, b := [Count(|t.inputs|)] + InputsFields(t.inputs), [Count(|t.outputs|)] + OutputsFields(t.outputs);
    assert FrontFields(t) == a + b;
    MatchAppend(a, b, s);
    var c := ReadVarInt(s);
    CountedMatch(|t.inputs|, InputsFields(t.inputs), s);
    InputsMatch(t.inputs, c.rest);
    var ins := ParseInputs(c.value, c.rest);
    var d := ReadVarInt(ins.rest);
    CountedMatch(|t.outputs|, OutputsFields(t.outputs), ins.rest);
    OutputsMatch(t.outputs, d.rest);
  }

  function TailFields(t: Tx, segwit: bool): (fs: seq<Field>)
  {
    (if segwit then StacksFields(t.inputs) else []) + [Uint(4, t.locktime)]
  }

  lemma TailMatch(t: Tx, segwit: bool, s: bytes)
    requires Present(t) && (!segwit ==> t.inputs == Bares(t.inputs))
    ensures MatchAll(TailFields(t, segwit), s) == Some([]) <==> ParseTail(t.version, segwit, Bares(t.inputs), t.outputs, s) == Some(t)
  {
    var fs := if segwit then StacksFields(t.inputs) else [];
    MatchAppend(fs, [Uint(4, t.locktime)], s);
    StacksMatch(t.inputs, s);
    var stacks := if segwit then ParseStacks(Bares(t.inputs), s) else Read(Bares(t.inputs), s);
    MatchOne(Uint(4, t.locktime), stacks.rest);
  }

  /** Other inputs or outputs do not give the same transaction. */
  lemma TailKeeps(t: Tx, segwit: bool, ins: seq<Input>, outs: seq<Output>, s: bytes)
    requires Bares(ins) == ins && ParseTail(t.version, segwit, ins, outs, s) == Some(t)
    ensures ins == Bares(t.inputs) && outs == t.outputs
  {
    StacksKeep(ins, s);
  }

  /** With the marker the witness stacks are read; without it there must be none. */
  lemma BodyMatch(t: Tx, segwit: bool, s: bytes)
    requires Present(t) && (!segwit ==> t.inputs == Bares(t.inputs))
    ensures MatchAll(BodyFields(t, segwit), s) == Some([]) <==> ParseBody(t.version, segwit, s) == Some(t)
  {
    var c := ReadVarInt(s);
    var ins := ParseInputs(c.value, c.rest);
    var d := ReadVarInt(ins.rest);
    var outs := ParseOutputs(d.value, d.rest);
    FrontMatch(t, s);
    ParsedBare(c.value, c.rest);
    BodyFieldsSplit(t, segwit);
    MatchAppend(FrontFields(t), TailFields(t, segwit), s);
    TailMatch(t, segwit, outs.rest);
    if ParseTail(t.version, segwit, ins.value, outs.value, outs.rest) == Some(t) {
      TailKeeps(t, segwit, ins.value, outs.value, outs.rest);
    }
  }

  lemma BodyFieldsSplit(t: Tx, segwit: bool)
    ensures BodyFields(t, segwit) == FrontFields(t) + TailFields(t, segwit)
  {
  }

  lemma NoWitness(t: Tx)
    requires !HasWitness(t)
    ensures t.inputs == Bares(t.inputs)
  {
    forall k | 0 <= k < |t.inputs| ensures t.inputs[k] == Bare(t.inputs[k]) {
      assert t.inputs[k].stack == [];
    }
  }

  /** No count or length of what is written is 253, 254 or 255. */
  predicate Unambiguous(t: Tx)
  {
    AllClear(BodyFields(t, HasWitness(t)))
  }

  lemma FirstByte(n: nat, rest: bytes)
    requires n < 0x1_0000_0000
    ensures VarInt(n) + rest != [] && ((VarInt(n) + rest)[0] == 0 <==> n == 0)
  {
  }

  lemma VersionRead(version: nat, rest: bytes)
    requires version < 0x1_0000_0000
    ensures ReadUint(4, Little(version, 4) + rest) == Read(version, rest)
  {
    RangeValues();
    ReadUintLittle(version, 4, rest);
  }

  /** The first two bytes of a body without the marker look like the marker exactly when there are
      outputs but no inputs. */
  lemma MarkOfBody(t: Tx, body: bytes)
    requires Writable(t) && body == Body(t, false)
    ensures Marked(body) <==> |t.inputs| == 0 && |t.outputs| > 0
  {
    var rest := OutputsData(t.outputs) + [] + Little(t.locktime, 4);
    var more := InputsData(t.inputs) + (VarInt(|t.outputs|) + rest);
    BodySplit(t, rest);
    FirstByte(|t.inputs|, more);
    FirstByte(|t.outputs|, rest);
    if |t.inputs| == 0 {
      assert more == VarInt(|t.outputs|) + rest;
      assert body[0] == 0 && body[1] == more[0];
    }
  }

  lemma BodySplit(t: Tx, rest: bytes)
    requires Writable(t) && rest == OutputsData(t.outputs) + [] + Little(t.locktime, 4)
    ensures Body(t, false) == VarInt(|t.inputs|) + (InputsData(t.inputs) + (VarInt(|t.outputs|) + rest))
  {
    Five(VarInt(|t.inputs|), InputsData(t.inputs), VarInt(|t.outputs|), OutputsData(t.outputs), [], Little(t.locktime, 4));
  }

  lemma Five(a: bytes, b: bytes, c: bytes, d: bytes, e: bytes, f: bytes)
    ensures a + b + c + d + e + f == a + (b + (c + (d + e + f)))
  {
  }

  /** Read without the marker, the body is found exactly if it is unambiguous. */
  lemma BodyInStep(t: Tx, segwit: bool)
    requires Writable(t) && Present(t) && (!segwit ==> t.inputs == Bares(t.inputs))
    ensures ParseBody(t.version, segwit, Body(t, segwit)) == Some(t) <==> AllClear(BodyFields(t, segwit))
  {
    BodyWritten(t, segwit);
    MatchesIffClear(BodyFields(t, segwit));
    BodyMatch(t, segwit, Body(t, segwit));
  }

  /** Taken for a marker, the first two bytes put the reader ahead, and it does not recover the
      transaction. */
  lemma BodyOutOfStep(t: Tx)
    requires Writable(t) && Present(t) && !HasWitness(t) && |t.inputs| == 0 && |t.outputs| > 0
    ensures |Body(t, false)| >= 2 && ParseBody(t.version, true, Body(t, false)[2..]) != Some(t)
  {
    NoWitness(t);
    var body, fs := Body(t, false), BodyFields(t, false);
    BodyWritten(t, false);
    MarkOfBody(t, body);
    assert BodyFields(t, true) == fs by {
      assert StacksFields(t.inputs) == [];
    }
    BodyMatch(t, true, body[2..]);
    if MatchAll(fs, body[2..]).Some? {
      AheadZero(fs, 2);
    }
  }

  /** A transaction is recovered from its serialisation exactly when no count or length is ambiguous and
      it does not have outputs without inputs. */
  lemma RoundTripIff(t: Tx)
    requires Writable(t) && Present(t)
    ensures Parse(Data(t)) == Some(t) <==> Unambiguous(t) && (|t.inputs| >= 1 || |t.outputs| == 0)
  {
    if HasWitness(t) {
      RoundTripSegwit(t);
      var k :| 0 <= k < |t.inputs| && t.inputs[k].stack != [];
    } else {
      RoundTripPlain(t);
      NoWitness(t);
      if |t.inputs| == 0 && |t.outputs| > 0 {
        BodyOutOfStep(t);
      } else {
        BodyInStep(t, false);
      }
    }
  }

  lemma RoundTripSegwit(t: Tx)
    requires Writable(t) && Present(t) && HasWitness(t)
    ensures Parse(Data(t)) == Some(t) <==> Unambiguous(t)
  {
    var body := Body(t, true);
    var rest := [0, 1] + body;
    assert Data(t) == Little(t.version, 4) + rest;
    VersionRead(t.version, rest);
    assert Marked(rest) && rest[2..] == body;
    BodyInStep(t, true);
  }

  lemma RoundTripPlain(t: Tx)
    requires Writable(t) && !HasWitness(t)
    ensures var body := Body(t, false);
      Parse(Data(t)) == if |t.inputs| == 0 && |t.outputs| > 0 && |body| >= 2 then ParseBody(t.version, true, body[2..])
                        else ParseBody(t.version, false, body)
  {
    var body := Body(t, false);
    assert Data(t) == Little(t.version, 4) + body;
    VersionRead(t.version, body);
    MarkOfBody(t, body);
  }

  /** The serialisation without witnesses is that of the transaction without witnesses. */
  lemma StrippedIsErased(t: Tx)
    requires Writable(t)
    ensures Writable(t.(inputs := Bares(t.inputs))) && Stripped(t) == Data(t.(inputs := Bares(t.inputs)))
  {
    var u := t.(inputs := Bares(t.inputs));
    BaresData(t.inputs);
    assert !HasWitness(u);
    assert Little(t.version, 4) + [] + Body(u, false) == Little(t.version, 4) + Body(u, false);
  }

  lemma {:induction false} BaresData(ins: seq<Input>)
    requires forall k :: 0 <= k < |ins| ==> WritableInput(ins[k])
    ensures forall k :: 0 <= k < |ins| ==> WritableInput(Bares(ins)[k])
    ensures InputsData(Bares(ins)) == InputsData(ins)
  {
    if ins != [] {
      assert Bares(ins)[1..] == Bares(ins[1..]);
      BaresData(ins[1..]);
    }
  }
}
