/** Where every field of a serialised transaction stands (code/Transaction.c:277-317, 1535-1602, 1702-1730,
    1846-1855; section "Serialization" of BIP 144). */
module TransactionLayout {
  import opened Bytes
  import opened Wire
  import opened TransactionCodec

  // ----- What the bytes of the parts say -----

  /** Outpoint, index, script behind its length, sequence. */
  predicate InputAt(i: Input, d: bytes)
  {
    var previous, script := Content(i.previous), Content(i.script);
    var p := |previous|;
    && |script| < 0x1_0000_0000 && |d| == p + 8 + |VarInt(|script|)| + |script|
    && d[..p] == previous && LittleValue(d[p..p + 4]) == i.index
    && d[p + 4..|d| - 4] == VarInt(|script|) + script && LittleValue(d[|d| - 4..]) == i.sequence
  }

  /** Value, then the script behind its length. */
  predicate OutputAt(o: Output, d: bytes)
  {
    var script := Content(o.script);
    |script| < 0x1_0000_0000 && |d| >= 8 && LittleValue(d[..8]) == o.value && d[8..] == VarInt(|script|) + script
  }

  /** The number of items of a witness stack, then each item behind its length. */
  predicate StackAt(items: seq<Option<bytes>>, d: bytes)
  {
    && |items| < 0x1_0000_0000 && (forall k :: 0 <= k < |items| ==> |Content(items[k])| < 0x1_0000_0000)
    && d == VarInt(|items|) + Concat(seq(|items|, k requires 0 <= k < |items| => VarInt(|Content(items[k])|) + Content(items[k])))
  }

  lemma InputStands(i: Input)
    requires WritableInput(i)
    ensures InputAt(i, InputData(i))
  {
    var d, previous, script := InputData(i), Content(i.previous), Content(i.script);
    var v, p := VarInt(|script|), |previous|;
    RangeValues();
    LittleRoundTrip(i.index, 4);
    LittleRoundTrip(i.sequence, 4);
    FiveParts(previous, Little(i.index, 4), v, script, Little(i.sequence, 4));
  }

  lemma FiveParts(a: bytes, b: bytes, c: bytes, d: bytes, e: bytes)
    requires |b| == 4 && |e| == 4
    ensures var s := a + b + c + d + e;
      |s| == |a| + 8 + |c| + |d| && s[..|a|] == a && s[|a|..|a| + 4] == b && s[|a| + 4..|s| - 4] == c + d && s[|s| - 4..] == e
  {
  }

  lemma OutputStands(o: Output)
    requires WritableOutput(o)
    ensures OutputAt(o, OutputData(o))
  {
    var script := Content(o.script);
    RangeValues();
    LittleRoundTrip(o.value, 8);
    var v, c := Little(o.value, 8), VarInt(|script|);
    assert OutputData(o) == v + (c + script);
    assert (v + (c + script))[..8] == v;
  }

  lemma {:induction false} ItemsConcat(items: seq<Option<bytes>>)
    requires forall k :: 0 <= k < |items| ==> Short(items[k])
    ensures ItemsData(items) == Concat(seq(|items|, k requires 0 <= k < |items| => VarInt(|Content(items[k])|) + Content(items[k])))
  {
    if items != [] {
      var parts := seq(|items|, k requires 0 <= k < |items| => VarInt(|Content(items[k])|) + Content(items[k]));
      var rest := items[1..];
      ItemsConcat(rest);
      assert parts[1..] == seq(|rest|, k requires 0 <= k < |rest| => VarInt(|Content(rest[k])|) + Content(rest[k]));
    }
  }

  lemma StackStands(i: Input)
    requires WritableInput(i)
    ensures StackAt(i.stack, WitnessData(i))
  {
    ItemsConcat(i.stack);
  }

  // ----- Lists of parts -----

  lemma {:induction false} InputParts(ins: seq<Input>) returns (ds: seq<bytes>)
    requires forall k :: 0 <= k < |ins| ==> WritableInput(ins[k])
    ensures |ds| == |ins| && (forall k :: 0 <= k < |ins| ==> InputAt(ins[k], ds[k])) && InputsData(ins) == Concat(ds)
  {
    if ins == [] {
      ds := [];
    } else {
      InputStands(ins[0]);
      var more := InputParts(ins[1..]);
      ds := [InputData(ins[0])] + more;
      assert ds[1..] == more;
    }
  }

  lemma {:induction false} OutputParts(outs: seq<Output>) returns (ds: seq<bytes>)
    requires forall k :: 0 <= k < |outs| ==> WritableOutput(outs[k])
    ensures |ds| == |outs| && (forall k :: 0 <= k < |outs| ==> OutputAt(outs[k], ds[k])) && OutputsData(outs) == Concat(ds)
  {
    if outs == [] {
      ds := [];
    } else {
      OutputStands(outs[0]);
      var more := OutputParts(outs[1..]);
      ds := [OutputData(outs[0])] + more;
      assert ds[1..] == more;
    }
  }

  lemma {:induction false} WitnessParts(ins: seq<Input>) returns (ds: seq<bytes>)
    requires forall k :: 0 <= k < |ins| ==> WritableInput(ins[k])
    ensures |ds| == |ins| && (forall k :: 0 <= k < |ins| ==> StackAt(ins[k].stack, ds[k])) && WitnessesData(ins) == Concat(ds)
  {
    if ins == [] {
      ds := [];
    } else {
      StackStands(ins[0]);
      var more := WitnessParts(ins[1..]);
      ds := [WitnessData(ins[0])] + more;
      assert ds[1..] == more;
    }
  }

  // ----- The whole -----

  /** The serialisation without witnesses: version, the inputs behind their number, the outputs behind theirs,
      and the lock time. */
  lemma StrippedLayout(t: Tx) returns (ins: seq<bytes>, outs: seq<bytes>)
    requires Writable(t)
    ensures |ins| == |t.inputs| && (forall k :: 0 <= k < |ins| ==> InputAt(t.inputs[k], ins[k]))
    ensures |outs| == |t.outputs| && (forall k :: 0 <= k < |outs| ==> OutputAt(t.outputs[k], outs[k]))
    ensures var s := Stripped(t);
      && |s| >= 8 && LittleValue(s[..4]) == t.version && LittleValue(s[|s| - 4..]) == t.locktime
      && s[4..|s| - 4] == VarInt(|ins|) + Concat(ins) + VarInt(|outs|) + Concat(outs)
  {
    ins := InputParts(t.inputs);
    outs := OutputParts(t.outputs);
    StrippedPlaces(t, VarInt(|ins|) + Concat(ins) + VarInt(|outs|) + Concat(outs));
  }

  lemma StrippedPlaces(t: Tx, middle: bytes)
    requires Writable(t) && middle == Middle(t)
    ensures var s := Stripped(t);
      |s| >= 8 && LittleValue(s[..4]) == t.version && LittleValue(s[|s| - 4..]) == t.locktime && s[4..|s| - 4] == middle
  {
    RangeValues();
    LittleRoundTrip(t.version, 4);
    LittleRoundTrip(t.locktime, 4);
    WholeIs(t, Little(t.version, 4), middle, Little(t.locktime, 4));
    Ends(Little(t.version, 4), middle, Little(t.locktime, 4));
  }

  lemma Ends(a: bytes, m: bytes, b: bytes)
    requires |a| == 4 == |b|
    ensures var s := a + (m + b);
      |s| == |m| + 8 && s[..4] == a && s[4..|s| - 4] == m && s[|s| - 4..] == b
  {
  }

  /** With a witness the marker 00 and the flag 01 stand behind the version, and the stacks, one for each input,
      before the lock time; without one the two serialisations are the same. */
  lemma WitnessLayout(t: Tx) returns (stacks: seq<bytes>)
    requires Writable(t)
    ensures |stacks| == |t.inputs| && (forall k :: 0 <= k < |stacks| ==> StackAt(t.inputs[k].stack, stacks[k]))
    ensures var s := Stripped(t);
      && |s| >= 8
      && Data(t) == if exists k :: 0 <= k < |t.inputs| && t.inputs[k].stack != []
                    then s[..4] + [0x00, 0x01] + s[4..|s| - 4] + Concat(stacks) + s[|s| - 4..]
                    else s
  {
    stacks := WitnessParts(t.inputs);
    WithStacks(t, Concat(stacks));
  }

  lemma WithStacks(t: Tx, w: bytes)
    requires Writable(t) && w == WitnessesData(t.inputs)
    ensures var s := Stripped(t);
      && |s| >= 8
      && Data(t) == if exists k :: 0 <= k < |t.inputs| && t.inputs[k].stack != []
                    then s[..4] + [0x00, 0x01] + s[4..|s| - 4] + w + s[|s| - 4..]
                    else s
  {
    var v, l, middle := Little(t.version, 4), Little(t.locktime, 4), Middle(t);
    WholeIs(t, v, middle, l);
    Spliced(v, [0x00, 0x01], middle, w, l, Stripped(t));
  }

  /** What stands between the version and the witnesses. */
  function Middle(t: Tx): (s: bytes)
    requires Writable(t)
  {
    VarInt(|t.inputs|) + InputsData(t.inputs) + VarInt(|t.outputs|) + OutputsData(t.outputs)
  }

  lemma WholeIs(t: Tx, v: bytes, middle: bytes, l: bytes)
    requires Writable(t) && v == Little(t.version, 4) && l == Little(t.locktime, 4) && middle == Middle(t)
    ensures Stripped(t) == v + (middle + l)
    ensures Data(t) == if HasWitness(t) then v + [0x00, 0x01] + (middle + WitnessesData(t.inputs) + l) else v + (middle + l)
  {
    assert middle + [] == middle && v + [] == v;
  }

  lemma Spliced(v: bytes, m: bytes, middle: bytes, w: bytes, l: bytes, s: bytes)
    requires |v| == 4 == |l| && s == v + (middle + l)
    ensures |s| >= 8 && v + m + (middle + w + l) == s[..4] + m + s[4..|s| - 4] + w + s[|s| - 4..]
  {
    Ends(v, middle, l);
  }
}
