/** The loops that read and write transactions (code/Transaction.c:87-195, 277-317, 1535-1602). */
module TransactionIO {
  import opened Bytes
  import opened Wire
  import opened TransactionCodec

  // ----- Writing -----

  lemma Tail(a: bytes, b: bytes, c: bytes)
    ensures a + (b + c) == a + b + c
  {
  }

  method TransactionHasWitnessData(t: Tx) returns (yes: bool)
    ensures yes == HasWitness(t)
  {
    var i := 0;
    while i < |t.inputs|
      invariant i <= |t.inputs| && forall k :: 0 <= k < i ==> t.inputs[k].stack == []
    {
      if |t.inputs[i].stack| > 0 {
        return true;
      }
      i := i + 1;
    }
    yes := false;
  }

  method AddItems(data0: bytes, xs: seq<Option<bytes>>) returns (data: bytes)
    requires forall k :: 0 <= k < |xs| ==> Short(xs[k])
    ensures data == data0 + ItemsData(xs)
  {
    data := data0;
    var rest := xs;
    while rest != []
      invariant (forall k :: 0 <= k < |rest| ==> Short(rest[k])) && data + ItemsData(rest) == data0 + ItemsData(xs)
      decreases |rest|
    {
      Tail(data, ItemData(rest[0]), ItemsData(rest[1..]));
      data := data + ItemData(rest[0]);
      rest := rest[1..];
    }
  }

  method InputWitnessData(i: Input) returns (data: bytes)
    requires WritableInput(i)
    ensures data == WitnessData(i)
  {
    data := AddItems(VarInt(|i.stack|), i.stack);
  }

  method AddInputs(data0: bytes, xs: seq<Input>) returns (data: bytes)
    requires forall k :: 0 <= k < |xs| ==> WritableInput(xs[k])
    ensures data == data0 + InputsData(xs)
  {
    data := data0;
    var rest := xs;
    while rest != []
      invariant (forall k :: 0 <= k < |rest| ==> WritableInput(rest[k])) && data + InputsData(rest) == data0 + InputsData(xs)
      decreases |rest|
    {
      Tail(data, InputData(rest[0]), InputsData(rest[1..]));
      data := data + InputData(rest[0]);
      rest := rest[1..];
    }
  }

  method AddOutputs(data0: bytes, xs: seq<Output>) returns (data: bytes)
    requires forall k :: 0 <= k < |xs| ==> WritableOutput(xs[k])
    ensures data == data0 + OutputsData(xs)
  {
    data := data0;
    var rest := xs;
    while rest != []
      invariant (forall k :: 0 <= k < |rest| ==> WritableOutput(rest[k])) && data + OutputsData(rest) == data0 + OutputsData(xs)
      decreases |rest|
    {
      Tail(data, OutputData(rest[0]), OutputsData(rest[1..]));
      data := data + OutputData(rest[0]);
      rest := rest[1..];
    }
  }

  method AddWitnesses(data0: bytes, xs: seq<Input>) returns (data: bytes)
    requires forall k :: 0 <= k < |xs| ==> WritableInput(xs[k])
    ensures data == data0 + WitnessesData(xs)
  {
    data := data0;
    var rest := xs;
    while rest != []
      invariant (forall k :: 0 <= k < |rest| ==> WritableInput(rest[k])) && data + WitnessesData(rest) == data0 + WitnessesData(xs)
      decreases |rest|
    {
      var w := InputWitnessData(rest[0]);
      Tail(data, WitnessData(rest[0]), WitnessesData(rest[1..]));
      data := data + w;
      rest := rest[1..];
    }
  }

  lemma BodyParts(front: bytes, t: Tx, segwit: bool, data: bytes)
    requires Writable(t)
    requires data == front + VarInt(|t.inputs|) + InputsData(t.inputs) + VarInt(|t.outputs|) + OutputsData(t.outputs)
                     + (if segwit then WitnessesData(t.inputs) else []) + Little(t.locktime, 4)
    ensures data == front + Body(t, segwit)
  {
    Six(front, VarInt(|t.inputs|), InputsData(t.inputs), VarInt(|t.outputs|), OutputsData(t.outputs),
        if segwit then WitnessesData(t.inputs) else [], Little(t.locktime, 4));
  }

  lemma Six(z: bytes, a: bytes, b: bytes, c: bytes, d: bytes, e: bytes, f: bytes)
    ensures z + a + b + c + d + e + f == z + (a + b + c + d + e + f)
  {
  }

  /** `TransactionData` and `TransactionWtx`, which write the marker as one integer or as two bytes. */
  method TransactionData(t: Tx) returns (data: bytes)
    requires Writable(t)
    ensures data == Data(t)
  {
    data := Little(t.version, 4);
    var segwit := TransactionHasWitnessData(t);
    if segwit {
      data := data + [0, 1];
    } else {
      assert data + [] == data;
    }
    ghost var front := data;
    data := data + VarInt(|t.inputs|);
    data := AddInputs(data, t.inputs);
    data := data + VarInt(|t.outputs|);
    data := AddOutputs(data, t.outputs);
    if segwit {
      data := AddWitnesses(data, t.inputs);
    } else {
      assert data + [] == data;
    }
    data := data + Little(t.locktime, 4);
    BodyParts(front, t, segwit, data);
  }

  /** `TransactionTx`. */
  method TransactionTx(t: Tx) returns (data: bytes)
    requires Writable(t)
    ensures data == Stripped(t)
  {
    data := Little(t.version, 4);
    ghost var front := data;
    data := data + VarInt(|t.inputs|);
    data := AddInputs(data, t.inputs);
    data := data + VarInt(|t.outputs|);
    data := AddOutputs(data, t.outputs);
    assert data + [] == data;
    data := data + Little(t.locktime, 4);
    BodyParts(front, t, false, data);
  }

  // ----- Reading -----

  /** What is still to be read completes what has been read. */
  ghost predicate InputsAhead(all: Read<seq<Input>>, n: nat, s: bytes, done: seq<Input>)
  {
    var r := ParseInputs(n, s);
    done + r.value == all.value && r.rest == all.rest
  }

  lemma InputsStep(all: Read<seq<Input>>, n: nat, s: bytes, done: seq<Input>, first: Read<Input>)
    requires n > 0 && InputsAhead(all, n, s, done) && first == ParseInput(s)
    ensures InputsAhead(all, n - 1, first.rest, done + [first.value])
  {
    var more := ParseInputs(n - 1, first.rest);
    assert done + ([first.value] + more.value) == (done + [first.value]) + more.value;
  }

  lemma InputsEnd(all: Read<seq<Input>>, s: bytes, done: seq<Input>)
    requires InputsAhead(all, 0, s, done)
    ensures all == Read(done, s)
  {
    assert done + [] == done;
  }

  method ReadInputs(cursor: Cursor, count: nat) returns (inputs: seq<Input>)
    requires cursor.Valid()
    modifies cursor
    ensures cursor.Valid() && Read(inputs, cursor.Rest()) == ParseInputs(count, old(cursor.Rest()))
  {
    inputs := [];
    var i := 0;
    ghost var all := ParseInputs(count, cursor.Rest());
    assert InputsAhead(all, count, cursor.Rest(), []);
    while i < count
      invariant i <= count && cursor.Valid() && InputsAhead(all, count - i, cursor.Rest(), inputs)
    {
      ghost var s := cursor.Rest();
      var input := ReadInput(cursor);
      InputsStep(all, count - i, s, inputs, Read(input, cursor.Rest()));
      inputs := inputs + [input];
      i := i + 1;
    }
    InputsEnd(all, cursor.Rest(), inputs);
  }

  /** What is still to be read completes what has been read. */
  ghost predicate OutputsAhead(all: Read<seq<Output>>, n: nat, s: bytes, done: seq<Output>)
  {
    var r := ParseOutputs(n, s);
    done + r.value == all.value && r.rest == all.rest
  }

  lemma OutputsStep(all: Read<seq<Output>>, n: nat, s: bytes, done: seq<Output>, first: Read<Output>)
    requires n > 0 && OutputsAhead(all, n, s, done) && first == ParseOutput(s)
    ensures OutputsAhead(all, n - 1, first.rest, done + [first.value])
  {
    var more := ParseOutputs(n - 1, first.rest);
    assert done + ([first.value] + more.value) == (done + [first.value]) + more.value;
  }

  lemma OutputsEnd(all: Read<seq<Output>>, s: bytes, done: seq<Output>)
    requires OutputsAhead(all, 0, s, done)
    ensures all == Read(done, s)
  {
    assert done + [] == done;
  }

  method ReadOutputs(cursor: Cursor, count: nat) returns (outputs: seq<Output>)
    requires cursor.Valid()
    modifies cursor
    ensures cursor.Valid() && Read(outputs, cursor.Rest()) == ParseOutputs(count, old(cursor.Rest()))
  {
    outputs := [];
    var i := 0;
    ghost var all := ParseOutputs(count, cursor.Rest());
    assert OutputsAhead(all, count, cursor.Rest(), []);
    while i < count
      invariant i <= count && cursor.Valid() && OutputsAhead(all, count - i, cursor.Rest(), outputs)
    {
      ghost var s := cursor.Rest();
      var output := ReadOutput(cursor);
      OutputsStep(all, count - i, s, outputs, Read(output, cursor.Rest()));
      outputs := outputs + [output];
      i := i + 1;
    }
    OutputsEnd(all, cursor.Rest(), outputs);
  }

  /** What is still to be read completes what has been read. */
  ghost predicate ItemsAhead(all: Read<seq<Option<bytes>>>, n: nat, s: bytes, done: seq<Option<bytes>>)
  {
    var r := ParseItems(n, s);
    done + r.value == all.value && r.rest == all.rest
  }

  lemma ItemsStep(all: Read<seq<Option<bytes>>>, n: nat, s: bytes, done: seq<Option<bytes>>, first: Read<Option<bytes>>)
    requires n > 0 && ItemsAhead(all, n, s, done) && first == ParseItem(s)
    ensures ItemsAhead(all, n - 1, first.rest, done + [first.value])
  {
    var more := ParseItems(n - 1, first.rest);
    assert done + ([first.value] + more.value) == (done + [first.value]) + more.value;
  }

  lemma ItemsEnd(all: Read<seq<Option<bytes>>>, s: bytes, done: seq<Option<bytes>>)
    requires ItemsAhead(all, 0, s, done)
    ensures all == Read(done, s)
  {
    assert done + [] == done;
  }

  method ReadItems(cursor: Cursor, count: nat) returns (items: seq<Option<bytes>>)
    requires cursor.Valid()
    modifies cursor
    ensures cursor.Valid() && Read(items, cursor.Rest()) == ParseItems(count, old(cursor.Rest()))
  {
    items := [];
    var i := 0;
    ghost var all := ParseItems(count, cursor.Rest());
    assert ItemsAhead(all, count, cursor.Rest(), []);
    while i < count
      invariant i <= count && cursor.Valid() && ItemsAhead(all, count - i, cursor.Rest(), items)
    {
      ghost var s := cursor.Rest();
      var item := ReadItem(cursor);
      ItemsStep(all, count - i, s, items, Read(item, cursor.Rest()));
      items := items + [item];
      i := i + 1;
    }
    ItemsEnd(all, cursor.Rest(), items);
  }

  method ReadInput(cursor: Cursor) returns (input: Input)
    requires cursor.Valid()
    modifies cursor
    ensures cursor.Valid() && Read(input, cursor.Rest()) == ParseInput(old(cursor.Rest()))
  {
    var previous := cursor.Blob(32);
    var index := cursor.Uint(4);
    var length := cursor.VarInt();
    var script := cursor.Blob(length);
    var sequence := cursor.Uint(4);
    input := Input(previous, index, script, sequence, []);
  }

  method ReadOutput(cursor: Cursor) returns (output: Output)
    requires cursor.Valid()
    modifies cursor
    ensures cursor.Valid() && Read(output, cursor.Rest()) == ParseOutput(old(cursor.Rest()))
  {
    var value := cursor.Uint(8);
    var length := cursor.VarInt();
    var script := cursor.Blob(length);
    output := Output(value, script);
  }

  method ReadItem(cursor: Cursor) returns (item: Option<bytes>)
    requires cursor.Valid()
    modifies cursor
    ensures cursor.Valid() && Read(item, cursor.Rest()) == ParseItem(old(cursor.Rest()))
  {
    var length := cursor.VarInt();
    item := cursor.Blob(length);
  }

  method ReadStack(cursor: Cursor) returns (items: seq<Option<bytes>>)
    requires cursor.Valid()
    modifies cursor
    ensures cursor.Valid() && Read(items, cursor.Rest()) == ParseStack(old(cursor.Rest()))
  {
    var count := cursor.VarInt();
    items := ReadItems(cursor, count);
  }

  ghost predicate StacksAhead(all: Read<seq<Input>>, inputs: seq<Input>, s: bytes, done: seq<Input>)
  {
    var r := ParseStacks(inputs, s);
    done + r.value == all.value && r.rest == all.rest
  }

  lemma StacksStep(all: Read<seq<Input>>, inputs: seq<Input>, s: bytes, done: seq<Input>, stack: Read<seq<Option<bytes>>>)
    requires inputs != [] && StacksAhead(all, inputs, s, done) && stack == ParseStack(s)
    ensures StacksAhead(all, inputs[1..], stack.rest, done + [inputs[0].(stack := stack.value)])
  {
    var first, more := inputs[0].(stack := stack.value), ParseStacks(inputs[1..], stack.rest);
    assert done + ([first] + more.value) == (done + [first]) + more.value;
  }

  method ReadStacks(cursor: Cursor, inputs: seq<Input>) returns (r: seq<Input>)
    requires cursor.Valid()
    modifies cursor
    ensures cursor.Valid() && Read(r, cursor.Rest()) == ParseStacks(inputs, old(cursor.Rest()))
  {
    r := [];
    var rest := inputs;
    ghost var all := ParseStacks(inputs, cursor.Rest());
    assert StacksAhead(all, inputs, cursor.Rest(), []);
    while rest != []
      invariant cursor.Valid() && StacksAhead(all, rest, cursor.Rest(), r)
      decreases |rest|
    {
      ghost var s := cursor.Rest();
      var items := ReadStack(cursor);
      StacksStep(all, rest, s, r, Read(items, cursor.Rest()));
      r := r + [rest[0].(stack := items)];
      rest := rest[1..];
    }
    assert r + [] == r;
  }

  /** What follows the version and the marker. */
  method ReadBody(cursor: Cursor, version: nat, segwit: bool) returns (r: Option<Tx>)
    requires cursor.Valid()
    modifies cursor
    ensures r == ParseBody(version, segwit, old(cursor.Rest()))
  {
    var inputCount := cursor.VarInt();
    var inputs := ReadInputs(cursor, inputCount);
    var outputCount := cursor.VarInt();
    var outputs := ReadOutputs(cursor, outputCount);
    r := ReadTail(cursor, version, segwit, inputs, outputs);
  }

  method ReadTail(cursor: Cursor, version: nat, segwit: bool, inputs0: seq<Input>, outputs: seq<Output>) returns (r: Option<Tx>)
    requires cursor.Valid()
    modifies cursor
    ensures r == ParseTail(version, segwit, inputs0, outputs, old(cursor.Rest()))
  {
    var inputs := inputs0;
    if segwit {
      inputs := ReadStacks(cursor, inputs);
    }
    var locktime := cursor.Uint(4);
    if cursor.ptr != |cursor.data| {
      return None;
    }
    r := Some(Tx(version, inputs, outputs, locktime));
  }

  /** `TransactionNew`; `None` is where it aborts. */
  method TransactionNew(data: bytes) returns (r: Option<Tx>)
    ensures r == Parse(data)
  {
    var cursor := new Cursor(data);
    var version := cursor.Uint(4);
    var segwit := |data| - cursor.ptr > 1 && data[cursor.ptr] == 0 && data[cursor.ptr + 1] != 0;
    ghost var s := cursor.Rest();
    assert segwit == Marked(s);
    if segwit {
      cursor.ptr := cursor.ptr + 2;
      assert cursor.Rest() == s[2..];
    }
    r := ReadBody(cursor, version, segwit);
  }
}
