/** Transactions as bytes (code/Transaction.c:87-195, 277-317, 1535-1602, 1702-1730, 1846-1855; the
    serialisation of BIP 144). */
module TransactionCodec {
  import opened Bytes
  import opened Wire
  import opened Fields

  /** `None` is the null object, which a read past the end yields. */
  datatype Input = Input(previous: Option<bytes>, index: nat, script: Option<bytes>, sequence: nat, stack: seq<Option<bytes>>)

  datatype Output = Output(value: nat, script: Option<bytes>)

  datatype Tx = Tx(version: nat, inputs: seq<Input>, outputs: seq<Output>, locktime: nat)

  // ----- Writing -----

  function Content(b: Option<bytes>): (s: bytes)
  {
    if b.Some? then b.value else []
  }

  predicate Short(b: Option<bytes>)
  {
    |Content(b)| < 0x1_0000_0000
  }

  predicate WritableInput(i: Input)
  {
    i.index < 0x1_0000_0000 && i.sequence < 0x1_0000_0000 && Short(i.script) && |i.stack| < 0x1_0000_0000
    && forall k :: 0 <= k < |i.stack| ==> Short(i.stack[k])
  }

  predicate WritableOutput(o: Output)
  {
    o.value < 0x1_0000_0000_0000_0000 && Short(o.script)
  }

  predicate Writable(t: Tx)
  {
    && t.version < 0x1_0000_0000 && t.locktime < 0x1_0000_0000 && |t.inputs| < 0x1_0000_0000 && |t.outputs| < 0x1_0000_0000
    && (forall k :: 0 <= k < |t.inputs| ==> WritableInput(t.inputs[k]))
    && (forall k :: 0 <= k < |t.outputs| ==> WritableOutput(t.outputs[k]))
  }

  function InputData(i: Input): (s: bytes)
    requires WritableInput(i)
  {
    Content(i.previous) + Little(i.index, 4) + VarInt(|Content(i.script)|) + Content(i.script) + Little(i.sequence, 4)
  }

  function OutputData(o: Output): (s: bytes)
    requires WritableOutput(o)
  {
    Little(o.value, 8) + VarInt(|Content(o.script)|) + Content(o.script)
  }

  function ItemData(b: Option<bytes>): (s: bytes)
    requires Short(b)
  {
    VarInt(|Content(b)|) + Content(b)
  }

  function ItemsData(ws: seq<Option<bytes>>): (s: bytes)
    requires forall k :: 0 <= k < |ws| ==> Short(ws[k])
  {
    if ws == [] then [] else ItemData(ws[0]) + ItemsData(ws[1..])
  }

  function WitnessData(i: Input): (s: bytes)
    requires WritableInput(i)
  {
    VarInt(|i.stack|) + ItemsData(i.stack)
  }

  function InputsData(ins: seq<Input>): (s: bytes)
    requires forall k :: 0 <= k < |ins| ==> WritableInput(ins[k])
  {
    if ins == [] then [] else InputData(ins[0]) + InputsData(ins[1..])
  }

  function OutputsData(outs: seq<Output>): (s: bytes)
    requires forall k :: 0 <= k < |outs| ==> WritableOutput(outs[k])
  {
    if outs == [] then [] else OutputData(outs[0]) + OutputsData(outs[1..])
  }

  function WitnessesData(ins: seq<Input>): (s: bytes)
    requires forall k :: 0 <= k < |ins| ==> WritableInput(ins[k])
  {
    if ins == [] then [] else WitnessData(ins[0]) + WitnessesData(ins[1..])
  }

  predicate HasWitness(t: Tx)
  {
    exists k :: 0 <= k < |t.inputs| && t.inputs[k].stack != []
  }

  /** What follows the version and the marker. */
  function Body(t: Tx, segwit: bool): (s: bytes)
    requires Writable(t)
  {
    VarInt(|t.inputs|) + InputsData(t.inputs) + VarInt(|t.outputs|) + OutputsData(t.outputs)
    + (if segwit then WitnessesData(t.inputs) else []) + Little(t.locktime, 4)
  }

  /** The serialisation with witnesses, if there are any. */
  function Data(t: Tx): (s: bytes)
    requires Writable(t)
  {
    Little(t.version, 4) + (if HasWitness(t) then [0, 1] else []) + Body(t, HasWitness(t))
  }

  /** The serialisation without witnesses. */
  function Stripped(t: Tx): (s: bytes)
    requires Writable(t)
  {
    Little(t.version, 4) + Body(t, false)
  }

  // ----- Reading -----

  function ParseInput(s: bytes): (r: Read<Input>)
  {
    var previous := ReadBytes(32, s);
    var index := ReadUint(4, previous.rest);
    var length := ReadVarInt(index.rest);
    var script := ReadBytes(length.value, length.rest);
    var sequence := ReadUint(4, script.rest);
    Read(Input(previous.value, index.value, script.value, sequence.value, []), sequence.rest)
  }

  function ParseInputs(n: nat, s: bytes): (r: Read<seq<Input>>)
    ensures |r.value| == n
  {
    if n == 0 then Read([], s) else
    var first := ParseInput(s);
    var more := ParseInputs(n - 1, first.rest);
    Read([first.value] + more.value, more.rest)
  }

  function ParseOutput(s: bytes): (r: Read<Output>)
  {
    var value := ReadUint(8, s);
    var length := ReadVarInt(value.rest);
    var script := ReadBytes(length.value, length.rest);
    Read(Output(value.value, script.value), script.rest)
  }

  function ParseOutputs(n: nat, s: bytes): (r: Read<seq<Output>>)
    ensures |r.value| == n
  {
    if n == 0 then Read([], s) else
    var first := ParseOutput(s);
    var more := ParseOutputs(n - 1, first.rest);
    Read([first.value] + more.value, more.rest)
  }

  function ParseItem(s: bytes): (r: Read<Option<bytes>>)
  {
    var length := ReadVarInt(s);
    ReadBytes(length.value, length.rest)
  }

  function ParseItems(n: nat, s: bytes): (r: Read<seq<Option<bytes>>>)
    ensures |r.value| == n
  {
    if n == 0 then Read([], s) else
    var item := ParseItem(s);
    var more := ParseItems(n - 1, item.rest);
    Read([item.value] + more.value, more.rest)
  }

  function ParseStack(s: bytes): (r: Read<seq<Option<bytes>>>)
  {
    var count := ReadVarInt(s);
    ParseItems(count.value, count.rest)
  }

  /** The witness stacks, one for each input. */
  function ParseStacks(ins: seq<Input>, s: bytes): (r: Read<seq<Input>>)
    ensures |r.value| == |ins|
  {
    if ins == [] then Read([], s) else
    var items := ParseStack(s);
    var more := ParseStacks(ins[1..], items.rest);
    Read([ins[0].(stack := items.value)] + more.value, more.rest)
  }

  /** What follows the outputs; leftover bytes make the library abort. */
  function ParseTail(version: nat, segwit: bool, inputs: seq<Input>, outputs: seq<Output>, s: bytes): (r: Option<Tx>)
  {
    var stacks := if segwit then ParseStacks(inputs, s) else Read(inputs, s);
    var locktime := ReadUint(4, stacks.rest);
    if locktime.rest == [] then Some(Tx(version, stacks.value, outputs, locktime.value)) else None
  }

  /** What follows the version and the marker. */
  function ParseBody(version: nat, segwit: bool, s: bytes): (r: Option<Tx>)
  {
    var inputCount := ReadVarInt(s);
    var inputs := ParseInputs(inputCount.value, inputCount.rest);
    var outputCount := ReadVarInt(inputs.rest);
    var outputs := ParseOutputs(outputCount.value, outputCount.rest);
    ParseTail(version, segwit, inputs.value, outputs.value, outputs.rest)
  }

  predicate Marked(s: bytes)
  {
    |s| > 1 && s[0] == 0 && s[1] != 0
  }

  function Parse(data: bytes): (r: Option<Tx>)
  {
    var version := ReadUint(4, data);
    var marked := Marked(version.rest);
    ParseBody(version.value, marked, if marked then version.rest[2..] else version.rest)
  }

  // ----- As fields -----

  /** Nothing is null, and outpoints have 32 bytes. */
  predicate PresentInput(i: Input)
  {
    i.previous.Some? && |i.previous.value| == 32 && i.script.Some? && forall k :: 0 <= k < |i.stack| ==> i.stack[k].Some?
  }

  predicate Present(t: Tx)
  {
    && (forall k :: 0 <= k < |t.inputs| ==> PresentInput(t.inputs[k]))
    && (forall k :: 0 <= k < |t.outputs| ==> t.outputs[k].script.Some?)
  }

  function InputFields(i: Input): (fs: seq<Field>)
  {
    [Raw(Content(i.previous)), Uint(4, i.index), Count(|Content(i.script)|), Raw(Content(i.script)), Uint(4, i.sequence)]
  }

  function OutputFields(o: Output): (fs: seq<Field>)
  {
    [Uint(8, o.value), Count(|Content(o.script)|), Raw(Content(o.script))]
  }

  function ItemFields(b: Option<bytes>): (fs: seq<Field>)
  {
    [Count(|Content(b)|), Raw(Content(b))]
  }

  function ItemsFields(ws: seq<Option<bytes>>): (fs: seq<Field>)
  {
    if ws == [] then [] else ItemFields(ws[0]) + ItemsFields(ws[1..])
  }

  function InputsFields(ins: seq<Input>): (fs: seq<Field>)
  {
    if ins == [] then [] else InputFields(ins[0]) + InputsFields(ins[1..])
  }

  function OutputsFields(outs: seq<Output>): (fs: seq<Field>)
  {
    if outs == [] then [] else OutputFields(outs[0]) + OutputsFields(outs[1..])
  }

  function StacksFields(ins: seq<Input>): (fs: seq<Field>)
  {
    if ins == [] then [] else [Count(|ins[0].stack|)] + ItemsFields(ins[0].stack) + StacksFields(ins[1..])
  }

  function BodyFields(t: Tx, segwit: bool): (fs: seq<Field>)
  {
    [Count(|t.inputs|)] + InputsFields(t.inputs) + [Count(|t.outputs|)] + OutputsFields(t.outputs)
    + (if segwit then StacksFields(t.inputs) else []) + [Uint(4, t.locktime)]
  }

  lemma {:induction false} WrittenAppend(a: seq<Field>, b: seq<Field>)
    requires AllFit(a) && AllFit(b)
    ensures AllFit(a + b) && WrittenAll(a + b) == WrittenAll(a) + WrittenAll(b)
  {
    var all := a + b;
    if a == [] {
      assert all == b;
    } else {
      assert all[0] == a[0] && all[1..] == a[1..] + b;
      WrittenAppend(a[1..], b);
    }
  }

  lemma WrittenOne(f: Field)
    requires Fits(f)
    ensures AllFit([f]) && WrittenAll([f]) == Written(f)
  {
    assert [f][1..] == [] && WrittenAll([f]) == Written(f) + WrittenAll([f][1..]);
  }

  lemma {:induction false} MatchAppend(a: seq<Field>, b: seq<Field>, s: bytes)
    ensures MatchAll(a + b, s) == match MatchAll(a, s) { case None => None case Some(rest) => MatchAll(b, rest) }
  {
    var all := a + b;
    if a == [] {
      assert all == b;
    } else {
      assert all[0] == a[0] && all[1..] == a[1..] + b;
      if Match(a[0], s).Some? {
        MatchAppend(a[1..], b, Match(a[0], s).value);
      }
    }
  }

  lemma MatchOne(f: Field, s: bytes)
    ensures MatchAll([f], s) == Match(f, s)
  {
    assert [f][1..] == [];
  }
}
