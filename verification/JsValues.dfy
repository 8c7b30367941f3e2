/** JavaScript values: what JSON.parse yields, what generated samples denote and what materialisation returns. */
module JsValues {
  import opened Wrappers

  datatype Entry<+V> = Entry(key: string, value: V)

  datatype Pair<+V> = Pair(key: V, value: V)

  /** The class an object was constructed with; `Plain` is an object literal. */
  datatype ObjectClass = Plain | DamlUnit | DamlDate | DamlTimestamp | DamlNumeric | DamlParty

  datatype Js =
    | Null
    | Undefined
    | Boolean(b: bool)
    | Number(n: real)
    | BigInt(i: int)
    | Text(s: string)
    | Array(elems: seq<Js>)
    | Object(cls: ObjectClass, members: seq<Entry<Js>>)
    | JsMap(entries: seq<Pair<Js>>)

  /** Index of the own property `key`, or -1. */
  function Find<V>(members: seq<Entry<V>>, key: string): (i: int)
    ensures -1 <= i < |members|
    ensures i == -1 <==> forall j :: 0 <= j < |members| ==> members[j].key != key
    ensures i >= 0 ==> members[i].key == key && forall j :: 0 <= j < i ==> members[j].key != key
  {
    if members == [] then -1
    else if members[0].key == key then 0
    else
      var rest := Find(members[1..], key);
      assert forall j :: 1 <= j < |members| ==> members[j] == members[1..][j - 1];
      if rest == -1 then -1 else rest + 1
  }

  /** Assignment `object[key] = value`: an existing property keeps its place. */
  function Put<V>(members: seq<Entry<V>>, key: string, value: V): seq<Entry<V>> {
    var i := Find(members, key);
    if i == -1 then members + [Entry(key, value)] else members[i := Entry(key, value)]
  }

  /** Assigns the entries in order; what an object literal or a loop of assignments leaves. */
  function PutAll<V>(members: seq<Entry<V>>, entries: seq<Entry<V>>): seq<Entry<V>>
    decreases entries
  {
    if entries == [] then members
    else PutAll(Put(members, entries[0].key, entries[0].value), entries[1..])
  }

  function ObjectLiteral(entries: seq<Entry<Js>>): Js {
    Object(Plain, PutAll([], entries))
  }

  ghost predicate DistinctKeys<V>(entries: seq<Entry<V>>) {
    forall i, j :: 0 <= i < j < |entries| ==> entries[i].key != entries[j].key
  }

  /** An object literal with distinct keys keeps its entries as written. */
  lemma {:induction false} PutAllDistinct<V>(members: seq<Entry<V>>, entries: seq<Entry<V>>)
    requires DistinctKeys(members + entries)
    ensures PutAll(members, entries) == members + entries
    decreases entries
  {
    if entries == [] {
      assert members + entries == members;
    } else {
      var all := members + entries;
      assert all[|members|] == entries[0];
      assert forall j :: 0 <= j < |members| ==> all[j] == members[j];
      var next := members + [Entry(entries[0].key, entries[0].value)];
      assert next + entries[1..] == all;
      PutAllDistinct(next, entries[1..]);
    }
  }

  // ----- what assignments leave -----

  /** The key at this position is written there for the first time. */
  ghost predicate FirstWrite<V>(entries: seq<Entry<V>>, i: nat) {
    i < |entries| && forall j :: 0 <= j < i ==> entries[j].key != entries[i].key
  }

  ghost predicate LastWrite<V>(entries: seq<Entry<V>>, key: string, i: int) {
    0 <= i < |entries| && entries[i].key == key && forall j :: i < j < |entries| ==> entries[j].key != key
  }

  /** One property for each key, in the order of the first writes, with the value of the last one. */
  ghost predicate Assigned<V>(entries: seq<Entry<V>>, members: seq<Entry<V>>, at: seq<nat>) {
    && |at| == |members|
    && (forall i, j :: 0 <= i < j < |at| ==> at[i] < at[j])
    && (forall i: nat :: i in at <==> FirstWrite(entries, i))
    && (forall i :: 0 <= i < |at| ==> AssignedAt(entries, members[i], at[i]))
  }

  ghost predicate AssignedAt<V>(entries: seq<Entry<V>>, member: Entry<V>, first: nat) {
    && first < |entries| && member.key == entries[first].key
    && exists last :: LastWrite(entries, member.key, last) && member.value == entries[last].value
  }

  lemma {:induction false} PutAllAppend<V>(members: seq<Entry<V>>, entries: seq<Entry<V>>, entry: Entry<V>)
    ensures PutAll(members, entries + [entry]) == Put(PutAll(members, entries), entry.key, entry.value)
    decreases entries
  {
    if entries == [] {
      assert [entry][1..] == [];
      assert entries + [entry] == [entry];
    } else {
      PutAllAppend(Put(members, entries[0].key, entries[0].value), entries[1..], entry);
      assert (entries + [entry])[1..] == entries[1..] + [entry];
    }
  }

  lemma {:induction false} PutAllAssigns<V>(entries: seq<Entry<V>>) returns (at: seq<nat>)
    ensures Assigned(entries, PutAll([], entries), at)
    decreases entries
  {
    at := [];
    if entries != [] {
      var n := |entries| - 1;
      var init, last := entries[..n], entries[n];
      assert entries == init + [last];
      PutAllAppend([], init, last);
      at := PutAllAssigns(init);
      AssignedDistinct(init, PutAll([], init), at);
      at := PutAssigns(init, last, PutAll([], init), at);
    }
  }

  /** A key that was written has a property. */
  lemma WrittenIsFound<V>(entries: seq<Entry<V>>, members: seq<Entry<V>>, at: seq<nat>, key: string)
    requires Assigned(entries, members, at)
    ensures Find(members, key) == -1 <==> Find(entries, key) == -1
  {
    var p, i := Find(entries, key), Find(members, key);
    if p >= 0 {
      assert FirstWrite(entries, p);
      var k :| 0 <= k < |at| && at[k] == p;
      assert AssignedAt(entries, members[k], at[k]);
    }
    if i >= 0 {
      assert AssignedAt(entries, members[i], at[i]);
    }
  }

  lemma PutAssignsAt<V>(entries: seq<Entry<V>>, next: Entry<V>, member: Entry<V>, first: nat)
    requires AssignedAt(entries, member, first)
    ensures AssignedAt(entries + [next], if member.key == next.key then next else member, first)
  {
    var all := entries + [next];
    if member.key == next.key {
      assert LastWrite(all, next.key, |entries|);
    } else {
      var last :| LastWrite(entries, member.key, last) && member.value == entries[last].value;
      assert LastWrite(all, member.key, last);
    }
  }

  lemma FirstWriteAppend<V>(entries: seq<Entry<V>>, next: Entry<V>, p: nat)
    ensures FirstWrite(entries + [next], p) <==>
            FirstWrite(entries, p) || (p == |entries| && Find(entries, next.key) == -1)
  {
    var all := entries + [next];
    assert forall j :: 0 <= j < |entries| ==> all[j] == entries[j];
  }

  lemma PutAssigns<V>(entries: seq<Entry<V>>, next: Entry<V>, members: seq<Entry<V>>, before: seq<nat>)
      returns (at: seq<nat>)
    requires Assigned(entries, members, before) && DistinctKeys(members)
    ensures Assigned(entries + [next], Put(members, next.key, next.value), at)
  {
    var all, n, i := entries + [next], |entries|, Find(members, next.key);
    var after := Put(members, next.key, next.value);
    at := if i == -1 then before + [n] else before;
    WrittenIsFound(entries, members, before, next.key);
    forall p: nat
      ensures p in at <==> FirstWrite(all, p)
    {
      FirstWriteAppend(entries, next, p);
    }
    forall k | 0 <= k < |at|
      ensures AssignedAt(all, after[k], at[k])
    {
      if k < |before| {
        PutAssignsAt(entries, next, members[k], before[k]);
      } else {
        assert LastWrite(all, next.key, n);
      }
    }
  }

  lemma AssignedDistinct<V>(entries: seq<Entry<V>>, members: seq<Entry<V>>, at: seq<nat>)
    requires Assigned(entries, members, at)
    ensures DistinctKeys(members)
  {
    forall i, j | 0 <= i < j < |members|
      ensures members[i].key != members[j].key
    {
      assert AssignedAt(entries, members[i], at[i]) && AssignedAt(entries, members[j], at[j]);
      assert at[j] in at && FirstWrite(entries, at[j]);
    }
  }
}
