/** Dictionaries kept as sorted arrays (code/Data.c:1081-1105, 1326-1431, 1451-1481) and their
    serialised form (code/Data.c:828-865). */
module Dictionary {
  import opened Bytes
  import opened Wire
  import opened DataOrder

  datatype Entry = Entry(key: bytes, value: bytes)

  // ----- Sorted entries -----

  ghost predicate Strict(es: seq<Entry>)
  {
    forall i, j :: 0 <= i < j < |es| ==> Less(es[i].key, es[j].key)
  }

  predicate SmallKeys(es: seq<Entry>)
  {
    forall i :: 0 <= i < |es| ==> Small(es[i].key)
  }

  ghost predicate HasKey(es: seq<Entry>, k: bytes)
  {
    exists i :: 0 <= i < |es| && es[i].key == k
  }

  /** The entries are those of the map. */
  ghost predicate Represents(es: seq<Entry>, m: map<bytes, bytes>)
  {
    && (forall i :: 0 <= i < |es| ==> es[i].key in m && m[es[i].key] == es[i].value)
    && (forall k :: k in m ==> HasKey(es, k))
  }

  lemma Distinct(es: seq<Entry>, i: nat, j: nat)
    requires Strict(es) && i < |es| && j < |es| && i != j
    ensures es[i].key != es[j].key
  {
    assert i < j ==> Less(es[i].key, es[j].key);
    assert j < i ==> Less(es[j].key, es[i].key);
    LexTotal(es[i].key, es[j].key);
  }

  // ----- Binary search -----

  /** What a search learns: where the key is, and the last entry that it looked at with the sign found
      there. */
  datatype Found = Found(at: Option<nat>, last: Option<nat>, sign: int)

  /** The slot for the key: at the last entry looked at, or behind it if the key is greater. */
  function Slot(f: Found): (i: nat)
  {
    if f.last.None? then 0 else if f.sign > 0 then f.last.value + 1 else f.last.value
  }

  /** Everything before the slot is smaller and everything from it on is greater. */
  ghost predicate Fits(es: seq<Entry>, key: bytes, i: nat)
  {
    && i <= |es| && (forall j :: 0 <= j < i ==> Less(es[j].key, key))
    && (forall j :: i <= j < |es| ==> Less(key, es[j].key))
  }

  lemma ProbeLess(es: seq<Entry>, key: bytes, i: nat)
    requires Strict(es) && i < |es| && Less(es[i].key, key)
    ensures forall j :: 0 <= j <= i ==> Less(es[j].key, key)
  {
    forall j | 0 <= j <= i ensures Less(es[j].key, key) {
      if j < i {
        LexTransitive(es[j].key, es[i].key, key);
      }
    }
  }

  lemma ProbeGreater(es: seq<Entry>, key: bytes, i: nat)
    requires Strict(es) && i < |es| && Less(key, es[i].key)
    ensures forall j :: i <= j < |es| ==> Less(key, es[j].key)
  {
    forall j | i <= j < |es| ensures Less(key, es[j].key) {
      if i < j {
        LexTransitive(key, es[i].key, es[j].key);
      }
    }
  }

  /** `bsearch`, which may look at any entry of the range that is left; the comparison function notes
      the last entry and the result there. */
  method Search(es: seq<Entry>, key: bytes) returns (f: Found)
    requires Strict(es) && SmallKeys(es) && Small(key)
    ensures f.at.Some? ==> f.at.value < |es| && es[f.at.value].key == key && Slot(f) == f.at.value
    ensures f.at.None? ==> Fits(es, key, Slot(f))
  {
    var l, u := 0, |es|;
    f := Found(None, None, 0);
    while l < u
      invariant l <= u <= |es| && f.at.None?
      invariant (forall j :: 0 <= j < l ==> Less(es[j].key, key)) && (forall j :: u <= j < |es| ==> Less(key, es[j].key))
      invariant f.last.None? ==> l == 0 && u == |es|
      invariant f.last.Some? ==> (f.sign > 0 && f.last.value + 1 == l) || (f.sign < 0 && f.last.value == u)
      decreases u - l
    {
      var i := Probe(l, u);
      var result := DataCompare(key, es[i].key);
      CompareIsLex(key, es[i].key);
      LexTotal(key, es[i].key);
      f := Found(None, Some(i), result);
      if result < 0 {
        ProbeGreater(es, key, i);
        u := i;
      } else if result > 0 {
        ProbeLess(es, key, i);
        l := i + 1;
      } else {
        f := Found(Some(i), Some(i), result);
        return;
      }
    }
  }

  // ----- Changes -----

  function Replaced(es: seq<Entry>, i: nat, e: Entry): (r: seq<Entry>)
    requires i < |es|
  {
    es[..i] + [e] + es[i + 1..]
  }

  function InsertedAt(es: seq<Entry>, i: nat, e: Entry): (r: seq<Entry>)
    requires i <= |es|
  {
    es[..i] + [e] + es[i..]
  }

  lemma ReplacedStands(es: seq<Entry>, i: nat, e: Entry, m: map<bytes, bytes>)
    requires Strict(es) && i < |es| && es[i].key == e.key && Represents(es, m)
    ensures Strict(Replaced(es, i, e)) && Represents(Replaced(es, i, e), m[e.key := e.value])
  {
    var r, n := es[i := e], m[e.key := e.value];
    assert Replaced(es, i, e) == r;
    SameKeysStrict(es, r);
    forall j | 0 <= j < |r| ensures r[j].key in n && n[r[j].key] == r[j].value {
      if j != i {
        Distinct(es, i, j);
      }
    }
    forall k | k in n ensures HasKey(r, k) {
      SameKeysHave(es, r, k);
    }
  }

  lemma SameKeysHave(es: seq<Entry>, r: seq<Entry>, k: bytes)
    requires |r| == |es| && HasKey(es, k) && forall j :: 0 <= j < |es| ==> r[j].key == es[j].key
    ensures HasKey(r, k)
  {
    var j :| 0 <= j < |es| && es[j].key == k;
    assert r[j].key == k;
  }

  lemma SameKeysStrict(es: seq<Entry>, r: seq<Entry>)
    requires Strict(es) && |r| == |es| && forall j :: 0 <= j < |es| ==> r[j].key == es[j].key
    ensures Strict(r)
  {
  }

  lemma InsertedStrict(es: seq<Entry>, i: nat, e: Entry)
    requires Strict(es) && Fits(es, e.key, i)
    ensures Strict(InsertedAt(es, i, e))
  {
    var r := InsertedAt(es, i, e);
    forall a, b | 0 <= a < b < |r| ensures Less(r[a].key, r[b].key) {
      if b < i {
        assert r[a] == es[a] && r[b] == es[b];
      } else if b == i {
        assert r[a] == es[a] && r[b] == e;
      } else if a == i {
        assert r[b] == es[b - 1] && r[a] == e;
      } else if a < i {
        assert r[a] == es[a] && r[b] == es[b - 1];
      } else {
        assert r[a] == es[a - 1] && r[b] == es[b - 1];
      }
    }
  }

  lemma FitsAbsent(es: seq<Entry>, key: bytes, i: nat, m: map<bytes, bytes>)
    requires Fits(es, key, i) && Represents(es, m)
    ensures key !in m
  {
    LexTotal(key, key);
    assert !HasKey(es, key);
  }

  lemma InsertedHas(es: seq<Entry>, i: nat, e: Entry, k: bytes)
    requires i <= |es| && (k == e.key || HasKey(es, k))
    ensures HasKey(InsertedAt(es, i, e), k)
  {
    var r := InsertedAt(es, i, e);
    if k == e.key {
      assert r[i].key == k;
    } else {
      var j :| 0 <= j < |es| && es[j].key == k;
      assert r[if j < i then j else j + 1].key == k;
    }
  }

  lemma InsertedStands(es: seq<Entry>, i: nat, e: Entry, m: map<bytes, bytes>)
    requires Strict(es) && Fits(es, e.key, i) && Represents(es, m)
    ensures Strict(InsertedAt(es, i, e)) && Represents(InsertedAt(es, i, e), m[e.key := e.value])
  {
    InsertedStrict(es, i, e);
    FitsAbsent(es, e.key, i, m);
    var r, n := InsertedAt(es, i, e), m[e.key := e.value];
    forall j | 0 <= j < |r| ensures r[j].key in n && n[r[j].key] == r[j].value {
      if j < i {
        assert r[j] == es[j];
      } else if j > i {
        assert r[j] == es[j - 1];
      }
    }
    forall k | k in n ensures HasKey(r, k) {
      InsertedHas(es, i, e, k);
    }
  }

  function RemovedAt(es: seq<Entry>, i: nat): (r: seq<Entry>)
    requires i < |es|
  {
    es[..i] + es[i + 1..]
  }

  /** Where an entry was before the one at `i` was removed. */
  function Old(a: nat, i: nat): (j: nat)
  {
    if a < i then a else a + 1
  }

  lemma RemovedStrict(es: seq<Entry>, i: nat, r: seq<Entry>)
    requires Strict(es) && i < |es| && r == RemovedAt(es, i)
    ensures Strict(r)
  {
    forall a, b | 0 <= a < b < |r| ensures Less(r[a].key, r[b].key) {
      assert r[a] == es[Old(a, i)] && r[b] == es[Old(b, i)];
    }
  }

  lemma RemovedHas(es: seq<Entry>, i: nat, k: bytes)
    requires i < |es| && HasKey(es, k) && k != es[i].key
    ensures HasKey(RemovedAt(es, i), k)
  {
    var j :| 0 <= j < |es| && es[j].key == k;
    assert RemovedAt(es, i)[if j < i then j else j - 1].key == k;
  }

  lemma RemovedStands(es: seq<Entry>, i: nat, m: map<bytes, bytes>)
    requires Strict(es) && i < |es| && Represents(es, m)
    ensures Strict(RemovedAt(es, i)) && Represents(RemovedAt(es, i), m - {es[i].key})
  {
    var r, n := RemovedAt(es, i), m - {es[i].key};
    RemovedStrict(es, i, r);
    forall a | 0 <= a < |r| ensures r[a].key in n && n[r[a].key] == r[a].value {
      assert r[a] == es[Old(a, i)];
      Distinct(es, i, Old(a, i));
    }
    forall k | k in n ensures HasKey(r, k) {
      RemovedHas(es, i, k);
    }
  }

  class Dict {
    var keysAndValues: seq<Entry>
    ghost var contents: map<bytes, bytes>

    ghost predicate Valid()
      reads this
    {
      Strict(keysAndValues) && SmallKeys(keysAndValues) && Represents(keysAndValues, contents)
    }

    constructor ()
      ensures Valid() && contents == map[]
    {
      keysAndValues, contents := [], map[];
    }

    /** `DictionaryAddRef`: the slot comes from the last entry that the search looked at. */
    method Add(key: bytes, value: bytes)
      requires Valid() && Small(key)
      modifies this
      ensures Valid() && contents == old(contents)[key := value]
    {
      var f := Search(keysAndValues, key);
      var index, e := Slot(f), Entry(key, value);
      ghost var es := keysAndValues;
      if f.at.Some? {
        ReplacedStands(es, index, e, contents);
        keysAndValues := RemovedAt(keysAndValues, f.at.value);
        assert InsertedAt(keysAndValues, index, e) == Replaced(es, index, e);
      } else {
        InsertedStands(es, index, e, contents);
      }
      keysAndValues := InsertedAt(keysAndValues, index, e);
      contents := contents[key := value];
    }

    /** `DictionaryRemove`. */
    method Remove(key: bytes)
      requires Valid() && Small(key)
      modifies this
      ensures Valid() && contents == old(contents) - {key}
    {
      var f := Search(keysAndValues, key);
      if f.at.Some? {
        RemovedStands(keysAndValues, f.at.value, contents);
        keysAndValues := RemovedAt(keysAndValues, f.at.value);
      } else {
        FitsAbsent(keysAndValues, key, Slot(f), contents);
        assert contents - {key} == contents;
      }
      contents := contents - {key};
    }

    /** `DictionaryGetValueFlexible`. */
    method Get(key: bytes) returns (value: Option<bytes>)
      requires Valid() && Small(key)
      ensures value == if key in contents then Some(contents[key]) else None
    {
      var f := Search(keysAndValues, key);
      if f.at.None? {
        FitsAbsent(keysAndValues, key, Slot(f), contents);
        return None;
      }
      value := Some(keysAndValues[f.at.value].value);
    }
  }

  // ----- Serialised lists and dictionaries -----

  /** `DatasSerialize`: every element after its length. */
  function Serialized(ds: seq<bytes>): (s: bytes)
  {
    if ds == [] then [] else Little(|ds[0]|, 4) + ds[0] + Serialized(ds[1..])
  }

  /** `DatasDeserialize`: it stops at the first element that is not complete. */
  function Deserialized(s: bytes): (ds: seq<bytes>)
    decreases |s|
  {
    if |s| < 4 then [] else
    var n := LittleValue(s[..4]);
    if n > |s| - 4 then [] else [s[4..4 + n]] + Deserialized(s[4 + n..])
  }

  predicate Lengths(ds: seq<bytes>)
  {
    forall i :: 0 <= i < |ds| ==> |ds[i]| < 0x1_0000_0000
  }

  lemma {:induction false} DeserializeSerialized(ds: seq<bytes>)
    requires Lengths(ds)
    ensures Deserialized(Serialized(ds)) == ds
  {
    if ds != [] {
      var rest := Serialized(ds[1..]);
      var s := Serialized(ds);
      RangeValues();
      LittleRoundTrip(|ds[0]|, 4);
      assert s[..4] == Little(|ds[0]|, 4) && s[4..4 + |ds[0]|] == ds[0] && s[4 + |ds[0]|..] == rest;
      DeserializeSerialized(ds[1..]);
    }
  }

  /** The loop, with its index; the index is a signed 32-bit number. */
  method DatasDeserialize(data: bytes) returns (result: seq<bytes>)
    requires Small(data)
    ensures result == Deserialized(data)
  {
    result := [];
    var rest := data;
    while |rest| > 0
      invariant result + Deserialized(rest) == Deserialized(data)
      decreases |rest|
    {
      if 4 > |rest| {
        break;
      }
      var length := LittleValue(rest[..4]);
      if length > |rest| - 4 {
        break;
      }
      result := result + [rest[4..4 + length]];
      rest := rest[4 + length..];
    }
  }

  function Listed(es: seq<Entry>): (ds: seq<bytes>)
  {
    if es == [] then [] else [es[0].key, es[0].value] + Listed(es[1..])
  }

  function Paired(ds: seq<bytes>): (es: seq<Entry>)
    requires |ds| % 2 == 0
  {
    if ds == [] then [] else [Entry(ds[0], ds[1])] + Paired(ds[2..])
  }

  lemma {:induction false} PairedListed(es: seq<Entry>)
    ensures |Listed(es)| % 2 == 0 && Paired(Listed(es)) == es
  {
    if es != [] {
      var ds := Listed(es);
      PairedListed(es[1..]);
      assert ds[0] == es[0].key && ds[1] == es[0].value && ds[2..] == Listed(es[1..]);
    }
  }

  lemma {:induction false} ListedLengths(es: seq<Entry>)
    requires forall i :: 0 <= i < |es| ==> |es[i].key| < 0x1_0000_0000 && |es[i].value| < 0x1_0000_0000
    ensures Lengths(Listed(es))
  {
    if es != [] {
      ListedLengths(es[1..]);
    }
  }

  /** Every element stands behind its length in four bytes; the elements are keys and values in turn. */
  lemma {:induction false} ListedAt(es: seq<Entry>, i: nat)
    requires i < |es|
    ensures |Listed(es)| == 2 * |es| && Listed(es)[2 * i] == es[i].key && Listed(es)[2 * i + 1] == es[i].value
  {
    if |es| > 1 {
      ListedAt(es[1..], if i > 0 then i - 1 else 0);
    }
  }

  lemma {:induction false} SerializedParts(ds: seq<bytes>) returns (parts: seq<bytes>)
    requires Lengths(ds)
    ensures |parts| == |ds| && Serialized(ds) == Concat(parts)
    ensures forall i :: 0 <= i < |ds| ==> |parts[i]| == 4 + |ds[i]| && LittleValue(parts[i][..4]) == |ds[i]| && parts[i][4..] == ds[i]
  {
    if ds == [] {
      parts := [];
    } else {
      var more := SerializedParts(ds[1..]);
      parts := [Little(|ds[0]|, 4) + ds[0]] + more;
      assert parts[1..] == more;
      RangeValues();
      LittleRoundTrip(|ds[0]|, 4);
      assert (Little(|ds[0]|, 4) + ds[0])[..4] == Little(|ds[0]|, 4);
    }
  }

  /** `DictionaryDeserialize` after `DictionarySerialize`: the same entries, so the same order and the
      same map. */
  lemma DictionaryRoundTrip(es: seq<Entry>)
    requires forall i :: 0 <= i < |es| ==> |es[i].key| < 0x1_0000_0000 && |es[i].value| < 0x1_0000_0000
    ensures var ds := Deserialized(Serialized(Listed(es)));
      |ds| % 2 == 0 && Paired(ds) == es
  {
    ListedLengths(es);
    DeserializeSerialized(Listed(es));
    PairedListed(es);
  }
}
