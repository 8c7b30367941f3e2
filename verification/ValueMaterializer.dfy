/** Conversion of decoded values into the shapes generated TypeScript declarations expose. */
module ValueMaterializer {
  import opened JsValues
  import opened LedgerValues

  /** Map keys compare by value when primitive; distinct objects are distinct keys. */
  predicate SameMapKey(a: Js, b: Js) {
    (a.Null? || a.Undefined? || a.Boolean? || a.Number? || a.BigInt? || a.Text?) && a == b
  }

  function MapSet(entries: seq<Pair<Js>>, key: Js, value: Js): seq<Pair<Js>>
    decreases entries
  {
    if entries == [] then [Pair(key, value)]
    else if SameMapKey(entries[0].key, key) then [Pair(entries[0].key, value)] + entries[1..]
    else [entries[0]] + MapSet(entries[1..], key, value)
  }

  /** `new Map(pairs)`. */
  function MapSetAll(entries: seq<Pair<Js>>, pairs: seq<Pair<Js>>): seq<Pair<Js>>
    decreases pairs
  {
    if pairs == [] then entries
    else MapSetAll(MapSet(entries, pairs[0].key, pairs[0].value), pairs[1..])
  }

  function VariantObject(tag: string, value: Js): Js {
    Object(Plain, [Entry("tag", Text(tag)), Entry("value", value)])
  }

  function DateObject(days: int): Js {
    Object(DamlDate, [Entry("daysSinceEpoch", Number(days as real))])
  }

  function TimestampObject(microseconds: string): Js {
    Object(DamlTimestamp, [Entry("microsecondsSinceEpoch", Text(microseconds))])
  }

  function NumericObject(text: string): Js {
    Object(DamlNumeric, [Entry("value", Text(text))])
  }

  function PartyObject(party: string): Js {
    Object(DamlParty, [Entry("value", Text(party))])
  }

  function Materialize(d: Decoded): Js {
    match d
    case RecordValue(fields) => Object(Plain, PutAll([], MaterializeFields(fields)))
    case VariantValue(name, value) => VariantObject(name, Materialize(value))
    case EnumValue(name) => Text(name)
    case TextMapValue(entries) => JsMap(MapSetAll([], MaterializeEntries(entries)))
    case GenMapValue(pairs) => JsMap(MapSetAll([], MaterializePairs(pairs)))
    case ListValue(elems) => Array(MaterializeAll(elems))
    case UnitValue => Object(DamlUnit, [])
    case BoolValue(b) => Boolean(b)
    case Int64Value(i) => BigInt(i)
    case DateValue(days) => DateObject(days)
    case TimestampValue(microseconds) => TimestampObject(microseconds)
    case NumericValue(text) => NumericObject(text)
    case PartyValue(party) => PartyObject(party)
    case TextValue(s) => Text(s)
    case Absent => Undefined
  }

  function MaterializeAll(elems: seq<Decoded>): (r: seq<Js>)
    ensures |r| == |elems|
  {
    if elems == [] then [] else [Materialize(elems[0])] + MaterializeAll(elems[1..])
  }

  function MaterializeFields(fields: seq<Entry<Decoded>>): (r: seq<Entry<Js>>)
    ensures |r| == |fields|
    ensures forall i :: 0 <= i < |fields| ==> r[i].key == fields[i].key
  {
    if fields == [] then []
    else [Entry(fields[0].key, Materialize(fields[0].value))] + MaterializeFields(fields[1..])
  }

  function MaterializeEntries(entries: seq<Entry<Decoded>>): seq<Pair<Js>> {
    if entries == [] then []
    else [Pair(Text(entries[0].key), Materialize(entries[0].value))] + MaterializeEntries(entries[1..])
  }

  function MaterializePairs(pairs: seq<Pair<Decoded>>): seq<Pair<Js>> {
    if pairs == [] then []
    else [MaterializePair(pairs[0])] + MaterializePairs(pairs[1..])
  }

  function MaterializePair(pair: Pair<Decoded>): Pair<Js> {
    Pair(Materialize(pair.key), Materialize(pair.value))
  }

  // ----- what a Map holds -----

  ghost predicate HasKey(entries: seq<Pair<Js>>, key: Js) {
    exists i :: 0 <= i < |entries| && SameMapKey(entries[i].key, key)
  }

  /** The key at this position is set there for the first time. */
  ghost predicate FirstSet(pairs: seq<Pair<Js>>, i: nat) {
    i < |pairs| && forall j :: 0 <= j < i ==> !SameMapKey(pairs[j].key, pairs[i].key)
  }

  ghost predicate LastSet(pairs: seq<Pair<Js>>, first: nat, last: nat) {
    && first <= last < |pairs| && (last == first || SameMapKey(pairs[last].key, pairs[first].key))
    && forall j :: last < j < |pairs| ==> !SameMapKey(pairs[j].key, pairs[first].key)
  }

  ghost predicate HeldAt(pairs: seq<Pair<Js>>, entry: Pair<Js>, first: nat) {
    && first < |pairs| && entry.key == pairs[first].key
    && exists last: nat :: LastSet(pairs, first, last) && entry.value == pairs[last].value
  }

  /** One entry for each key, in the order in which keys are first set, with the value set last. */
  ghost predicate Held(pairs: seq<Pair<Js>>, entries: seq<Pair<Js>>, at: seq<nat>) {
    && |at| == |entries|
    && (forall i, j :: 0 <= i < j < |at| ==> at[i] < at[j])
    && (forall i: nat :: i in at <==> FirstSet(pairs, i))
    && (forall i :: 0 <= i < |at| ==> HeldAt(pairs, entries[i], at[i]))
  }

  lemma {:induction false} MapSetAllAppend(entries: seq<Pair<Js>>, a: seq<Pair<Js>>, b: seq<Pair<Js>>)
    ensures MapSetAll(entries, a + b) == MapSetAll(MapSetAll(entries, a), b)
    decreases a
  {
    if a == [] {
      assert a + b == b;
    } else {
      assert (a + b)[1..] == a[1..] + b;
      MapSetAllAppend(MapSet(entries, a[0].key, a[0].value), a[1..], b);
    }
  }

  /** Setting a key replaces the value of its first entry, or adds an entry. */
  lemma {:induction false} MapSetStep(entries: seq<Pair<Js>>, key: Js, value: Js) returns (i: nat)
    ensures i <= |entries| && (i < |entries| <==> HasKey(entries, key))
    ensures i < |entries| ==> SameMapKey(entries[i].key, key)
    ensures MapSet(entries, key, value)
         == if i < |entries| then entries[i := Pair(entries[i].key, value)] else entries + [Pair(key, value)]
    decreases entries
  {
    i := 0;
    var same := entries != [] && SameMapKey(entries[0].key, key);
    hide SameMapKey;
    if same {
      assert HasKey(entries, key);
    } else if entries != [] {
      var rest := entries[1..];
      var k := MapSetStep(rest, key, value);
      i := k + 1;
      assert forall j :: 1 <= j < |entries| ==> entries[j] == rest[j - 1];
    }
  }

  lemma HeldHasKey(pairs: seq<Pair<Js>>, entries: seq<Pair<Js>>, at: seq<nat>, key: Js)
    requires Held(pairs, entries, at)
    ensures HasKey(entries, key) <==> HasKey(pairs, key)
  {
    if i :| 0 <= i < |entries| && SameMapKey(entries[i].key, key) {
      assert HeldAt(pairs, entries[i], at[i]);
    }
    if p: nat :| p < |pairs| && SameMapKey(pairs[p].key, key) {
      var first := FirstOf(pairs, p);
      var k :| 0 <= k < |at| && at[k] == first;
      assert HeldAt(pairs, entries[k], at[k]);
    }
  }

  lemma {:induction false} FirstOf(pairs: seq<Pair<Js>>, p: nat) returns (first: nat)
    requires p < |pairs|
    ensures FirstSet(pairs, first) && (first == p || SameMapKey(pairs[first].key, pairs[p].key))
  {
    first := p;
    if j: nat :| j < p && SameMapKey(pairs[j].key, pairs[p].key) {
      first := FirstOf(pairs, j);
    }
  }

  lemma SetHolds(pairs: seq<Pair<Js>>, next: Pair<Js>, entry: Pair<Js>, first: nat)
    requires HeldAt(pairs, entry, first)
    ensures var after := if SameMapKey(entry.key, next.key) then Pair(entry.key, next.value) else entry;
            HeldAt(pairs + [next], after, first)
  {
    var all := pairs + [next];
    if SameMapKey(entry.key, next.key) {
      assert LastSet(all, first, |pairs|);
    } else {
      var last: nat :| LastSet(pairs, first, last) && entry.value == pairs[last].value;
      assert LastSet(all, first, last);
    }
  }

  lemma FirstSetAppend(pairs: seq<Pair<Js>>, next: Pair<Js>, p: nat)
    ensures FirstSet(pairs + [next], p) <==> FirstSet(pairs, p) || (p == |pairs| && !HasKey(pairs, next.key))
  {
    var all := pairs + [next];
    assert forall j :: 0 <= j < |pairs| ==> all[j] == pairs[j];
  }

  lemma HeldKeysDiffer(pairs: seq<Pair<Js>>, entries: seq<Pair<Js>>, at: seq<nat>, i: nat, j: nat)
    requires Held(pairs, entries, at) && i < |entries| && j < |entries| && i != j
    ensures !SameMapKey(entries[i].key, entries[j].key)
  {
    assert HeldAt(pairs, entries[i], at[i]) && HeldAt(pairs, entries[j], at[j]);
    assert at[i] in at && at[j] in at && FirstSet(pairs, at[i]) && FirstSet(pairs, at[j]);
  }

  lemma SameAsBoth(a: Js, b: Js, key: Js)
    requires SameMapKey(b, key)
    ensures SameMapKey(a, key) ==> SameMapKey(a, b)
  {
  }

  lemma MapSetHolds(pairs: seq<Pair<Js>>, next: Pair<Js>, entries: seq<Pair<Js>>, before: seq<nat>)
      returns (at: seq<nat>)
    requires Held(pairs, entries, before)
    ensures Held(pairs + [next], MapSet(entries, next.key, next.value), at)
  {
    var all, n := pairs + [next], |pairs|;
    hide MapSet, SameMapKey;
    var i := MapSetStep(entries, next.key, next.value);
    var after := MapSet(entries, next.key, next.value);
    HeldHasKey(pairs, entries, before, next.key);
    at := if i < |entries| then before else before + [n];
    forall p: nat
      ensures p in at <==> FirstSet(all, p)
    {
      FirstSetAppend(pairs, next, p);
    }
    forall k | 0 <= k < |at|
      ensures HeldAt(all, after[k], at[k])
    {
      if k < |before| {
        SetHolds(pairs, next, entries[k], before[k]);
        if k != i && i < |entries| {
          HeldKeysDiffer(pairs, entries, before, k, i);
          SameAsBoth(entries[k].key, entries[i].key, next.key);
        }
      } else {
        assert LastSet(all, n, n);
      }
    }
  }

  lemma {:induction false} MapSetAllHolds(pairs: seq<Pair<Js>>) returns (at: seq<nat>)
    ensures Held(pairs, MapSetAll([], pairs), at)
    decreases pairs
  {
    at := [];
    if pairs != [] {
      var n := |pairs| - 1;
      var init, last := pairs[..n], pairs[n];
      assert pairs == init + [last];
      MapSetAllAppend([], init, [last]);
      at := MapSetAllHolds(init);
      at := MapSetHolds(init, last, MapSetAll([], init), at);
    }
  }

  // ----- what a decoded value is exposed as -----

  /** What generated declarations expose a decoded value as. */
  ghost predicate Shows(d: Decoded, js: Js)
    decreases d
  {
    match d
    case RecordValue(fields) =>
      exists entries: seq<Entry<Js>>, at: seq<nat> ::
        ShowsFields(fields, entries) && js.Object? && js.cls == Plain && Assigned(entries, js.members, at)
    case VariantValue(name, value) =>
      && js.Object? && js.cls == Plain && |js.members| == 2
      && js.members[0] == Entry("tag", Text(name)) && js.members[1].key == "value" && Shows(value, js.members[1].value)
    case EnumValue(name) => js == Text(name)
    case TextMapValue(entries) =>
      exists pairs: seq<Pair<Js>>, at: seq<nat> ::
        ShowsEntries(entries, pairs) && js.JsMap? && Held(pairs, js.entries, at)
    case GenMapValue(pairs) =>
      exists shown: seq<Pair<Js>>, at: seq<nat> :: ShowsPairs(pairs, shown) && js.JsMap? && Held(shown, js.entries, at)
    case ListValue(elems) =>
      js.Array? && |js.elems| == |elems| && forall i :: 0 <= i < |elems| ==> Shows(elems[i], js.elems[i])
    case UnitValue => js == Object(DamlUnit, [])
    case BoolValue(b) => js == Boolean(b)
    case Int64Value(i) => js == BigInt(i)
    case DateValue(days) => js == Object(DamlDate, [Entry("daysSinceEpoch", Number(days as real))])
    case TimestampValue(text) => js == Object(DamlTimestamp, [Entry("microsecondsSinceEpoch", Text(text))])
    case NumericValue(text) => js == Object(DamlNumeric, [Entry("value", Text(text))])
    case PartyValue(party) => js == Object(DamlParty, [Entry("value", Text(party))])
    case TextValue(s) => js == Text(s)
    case Absent => js == Undefined
  }

  ghost predicate ShowsFields(fields: seq<Entry<Decoded>>, entries: seq<Entry<Js>>) {
    && |entries| == |fields|
    && forall i :: 0 <= i < |fields| ==>
         entries[i].key == fields[i].key && Shows(fields[i].value, entries[i].value)
  }

  ghost predicate ShowsEntries(entries: seq<Entry<Decoded>>, pairs: seq<Pair<Js>>) {
    && |pairs| == |entries|
    && forall i :: 0 <= i < |entries| ==>
         pairs[i].key == Text(entries[i].key) && Shows(entries[i].value, pairs[i].value)
  }

  ghost predicate ShowsPairs(pairs: seq<Pair<Decoded>>, shown: seq<Pair<Js>>) {
    && |shown| == |pairs|
    && forall i :: 0 <= i < |pairs| ==> ShowsPair(pairs[i], shown[i])
  }

  ghost predicate ShowsPair(pair: Pair<Decoded>, shown: Pair<Js>) {
    Shows(pair.key, shown.key) && Shows(pair.value, shown.value)
  }

  lemma {:induction false} MaterializeShows(d: Decoded)
    ensures Shows(d, Materialize(d))
    decreases d
  {
    match d
    case RecordValue(fields) =>
      FieldsShow(fields);
      var at := PutAllAssigns(MaterializeFields(fields));
    case VariantValue(_, value) => MaterializeShows(value);
    case TextMapValue(entries) =>
      EntriesShow(entries);
      var at := MapSetAllHolds(MaterializeEntries(entries));
    case GenMapValue(pairs) =>
      PairsShow(pairs);
      var at := MapSetAllHolds(MaterializePairs(pairs));
    case ListValue(elems) => AllShow(elems);
    case _ =>
  }

  lemma {:induction false} AllShow(elems: seq<Decoded>)
    ensures forall i :: 0 <= i < |elems| ==> Shows(elems[i], MaterializeAll(elems)[i])
    decreases elems
  {
    if elems != [] {
      MaterializeShows(elems[0]);
      AllShow(elems[1..]);
    }
  }

  lemma {:induction false} FieldsShow(fields: seq<Entry<Decoded>>)
    ensures ShowsFields(fields, MaterializeFields(fields))
    decreases fields
  {
    if fields != [] {
      MaterializeShows(fields[0].value);
      FieldsShow(fields[1..]);
    }
  }

  lemma {:induction false} EntriesShow(entries: seq<Entry<Decoded>>)
    ensures ShowsEntries(entries, MaterializeEntries(entries))
    decreases entries
  {
    if entries != [] {
      MaterializeShows(entries[0].value);
      EntriesShow(entries[1..]);
    }
  }

  lemma {:induction false} PairsShow(pairs: seq<Pair<Decoded>>)
    ensures ShowsPairs(pairs, MaterializePairs(pairs))
    decreases pairs
  {
    if pairs != [] {
      PairShows(pairs[0]);
      PairsShow(pairs[1..]);
    }
  }

  lemma {:induction false} PairShows(pair: Pair<Decoded>)
    ensures ShowsPair(pair, MaterializePair(pair))
    decreases pair
  {
    MaterializeShows(pair.key);
    MaterializeShows(pair.value);
  }
}
