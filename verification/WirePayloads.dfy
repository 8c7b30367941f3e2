/** The protobuf JSON mapping of ledger values: what a transport writes is recognised and read back. */
module WirePayloads {
  import opened Wrappers
  import opened JsValues
  import opened DamlTypes
  import opened LedgerValues
  import opened ProtobufConverter
  import opened EventSources
  import opened LedgerTyping

  function Tagged(kind: string, content: Js): Js {
    Object(Plain, [Entry(kind, content)])
  }

  /** A ledger value as the protobuf JSON mapping writes it. */
  function ValueJson(v: PValue): Js
    decreases v
  {
    match v
    case PAbsent => Object(Plain, [])
    case PUnit => Tagged("unit", Object(Plain, []))
    case PBool(b) => Tagged("bool", Boolean(b))
    case PInt64(text) => Tagged("int64", Js.Text(text))
    case PDate(days) => Tagged("date", Number(days as real))
    case PTimestamp(text) => Tagged("timestamp", Js.Text(text))
    case PNumeric(text) => Tagged("numeric", Js.Text(text))
    case PParty(text) => Tagged("party", Js.Text(text))
    case PText(text) => Tagged("text", Js.Text(text))
    case PContractId(text) => Tagged("contractId", Js.Text(text))
    case POptional(value) => Tagged("optional", Object(Plain, ContentJson(value)))
    case PList(elems) => Tagged("list", Tagged("elements", Array(ValuesJson(elems))))
    case PTextMap(entries) => Tagged("textMap", Tagged("entries", Array(EntriesJson(entries, "key"))))
    case PGenMap(pairs) => Tagged("genMap", Tagged("entries", Array(PairsJson(pairs))))
    case PRecord(fields) => Tagged("record", RecordJson(fields))
    case PVariant(name, payload) =>
      Tagged("variant", Object(Plain, [Entry("constructor", Js.Text(name))] + ContentJson(payload)))
    case PEnum(name) => Tagged("enum", Tagged("constructor", Js.Text(name)))
  }

  function RecordJson(fields: seq<PEntry>): Js
    decreases fields, 1
  {
    Tagged("fields", Array(EntriesJson(fields, "label")))
  }

  function ContentJson(value: Option<PValue>): seq<Entry<Js>>
    decreases value
  {
    if value.None? then [] else [Entry("value", ValueJson(value.value))]
  }

  function ValuesJson(elems: seq<PValue>): seq<Js>
    decreases elems
  {
    if elems == [] then [] else [ValueJson(elems[0])] + ValuesJson(elems[1..])
  }

  function EntryJson(entry: PEntry, nameKey: string): Js
    decreases entry
  {
    Object(Plain, [Entry(nameKey, Js.Text(entry.key))] + ContentJson(entry.value))
  }

  function EntriesJson(entries: seq<PEntry>, nameKey: string): seq<Js>
    decreases entries, 0
  {
    if entries == [] then [] else [EntryJson(entries[0], nameKey)] + EntriesJson(entries[1..], nameKey)
  }

  function PairJson(pair: PPair): Js
    decreases pair
  {
    Object(Plain, (if pair.key.None? then [] else [Entry("key", ValueJson(pair.key.value))]) + ContentJson(pair.value))
  }

  function PairsJson(pairs: seq<PPair>): seq<Js>
    decreases pairs
  {
    if pairs == [] then [] else [PairJson(pairs[0])] + PairsJson(pairs[1..])
  }

  /** Nothing is absent, days have 32 bits, and 64-bit integers are in the form the runtime reads back. */
  ghost predicate Complete(v: PValue, parse: Parse64)
    decreases v
  {
    match v
    case PAbsent => false
    case PInt64(text) => parse(text) == Some(text)
    case PTimestamp(text) => parse(text) == Some(text)
    case PDate(days) => -0x8000_0000 <= days < 0x8000_0000
    case POptional(value) => value.Some? ==> Complete(value.value, parse)
    case PList(elems) => forall i :: 0 <= i < |elems| ==> Complete(elems[i], parse)
    case PTextMap(entries) => forall i :: 0 <= i < |entries| ==> CompleteEntry(entries[i], parse)
    case PGenMap(pairs) => forall i :: 0 <= i < |pairs| ==> CompletePair(pairs[i], parse)
    case PRecord(fields) => forall i :: 0 <= i < |fields| ==> CompleteEntry(fields[i], parse)
    case PVariant(_, payload) => payload.Some? && Complete(payload.value, parse)
    case _ => true
  }

  ghost predicate CompleteEntry(entry: PEntry, parse: Parse64)
    decreases entry
  {
    entry.value.Some? && Complete(entry.value.value, parse)
  }

  ghost predicate CompletePair(pair: PPair, parse: Parse64)
    decreases pair
  {
    pair.key.Some? && Complete(pair.key.value, parse) && pair.value.Some? && Complete(pair.value.value, parse)
  }

  /** Recognised as a value, and read back as the one it was written from. */
  ghost predicate Survives(v: PValue, parse: Parse64) {
    IsValueJson(ValueJson(v)) && WireValue(ValueJson(v), parse) == Ok(v)
  }

  lemma {:induction false} CompleteSurvives(v: PValue, parse: Parse64)
    requires Complete(v, parse)
    ensures Survives(v, parse)
    decreases v, 1
  {
    match v
    case POptional(value) => OptionalSurvives(value, parse);
    case PList(elems) => ListSurvives(elems, parse);
    case PTextMap(entries) => TextMapSurvives(entries, parse);
    case PGenMap(pairs) => GenMapSurvives(pairs, parse);
    case PRecord(fields) => RecordSurvives(fields, parse);
    case PVariant(name, payload) => VariantSurvives(name, payload.value, parse);
    case _ => LeafSurvives(v, parse);
  }

  lemma LeafSurvives(v: PValue, parse: Parse64)
    requires Complete(v, parse)
    requires !v.POptional? && !v.PList? && !v.PTextMap? && !v.PGenMap? && !v.PRecord? && !v.PVariant?
    ensures Survives(v, parse)
  {
  }

  lemma {:induction false} OptionalSurvives(value: Option<PValue>, parse: Parse64)
    requires value.Some? ==> Complete(value.value, parse)
    ensures Survives(POptional(value), parse)
    decreases value, 1
  {
    if value.Some? {
      CompleteSurvives(value.value, parse);
    }
  }

  lemma FindInTwo<V>(a: Entry<V>, b: Entry<V>)
    requires a.key != b.key
    ensures Find([a, b], a.key) == 0 && Find([a, b], b.key) == 1
  {
  }

  lemma {:induction false} VariantSurvives(name: string, payload: PValue, parse: Parse64)
    requires Complete(payload, parse)
    ensures Survives(PVariant(name, Some(payload)), parse)
    decreases payload, 2
  {
    CompleteSurvives(payload, parse);
    var tag, value := Entry("constructor", Js.Text(name)), Entry("value", ValueJson(payload));
    FindInTwo(tag, value);
    assert [tag] + ContentJson(Some(payload)) == [tag, value];
  }

  lemma {:induction false} ListSurvives(elems: seq<PValue>, parse: Parse64)
    requires forall i :: 0 <= i < |elems| ==> Complete(elems[i], parse)
    ensures Survives(PList(elems), parse)
    decreases elems, 1
  {
    hide ValuesJson, WireAll, AreValues;
    ValuesSurvive(elems, parse);
    var members := [Entry("elements", Array(ValuesJson(elems)))];
    assert ValueJson(PList(elems)) == Tagged("list", Object(Plain, members));
    assert Find(members, "elements") == 0;
    assert AbsentOrValues(members);
  }

  lemma {:induction false} ValuesSurvive(elems: seq<PValue>, parse: Parse64)
    requires forall i :: 0 <= i < |elems| ==> Complete(elems[i], parse)
    ensures AreValues(ValuesJson(elems)) && WireAll(ValuesJson(elems), parse) == Ok(elems)
    decreases elems, 0
  {
    if elems != [] {
      CompleteSurvives(elems[0], parse);
      ValuesSurvive(elems[1..], parse);
      assert elems == [elems[0]] + elems[1..];
    }
  }

  lemma {:induction false} TextMapSurvives(entries: seq<PEntry>, parse: Parse64)
    requires forall i :: 0 <= i < |entries| ==> CompleteEntry(entries[i], parse)
    ensures Survives(PTextMap(entries), parse)
    decreases entries, 1
  {
    hide EntriesJson, WireEntries, AreEntries;
    EntriesSurvive(entries, "key", parse);
    var members := [Entry("entries", Array(EntriesJson(entries, "key")))];
    assert ValueJson(PTextMap(entries)) == Tagged("textMap", Object(Plain, members));
    assert Find(members, "entries") == 0;
    assert AbsentOrEntries(members, true);
  }

  lemma {:induction false} FieldsSurvive(fields: seq<PEntry>, parse: Parse64)
    requires forall i :: 0 <= i < |fields| ==> CompleteEntry(fields[i], parse)
    ensures IsRecordWireJson(RecordJson(fields)) && WireFieldsOf(RecordJson(fields).members, parse) == Ok(fields)
    decreases fields, 1
  {
    hide EntriesJson, WireEntries, AreFields;
    EntriesSurvive(fields, "label", parse);
  }

  lemma {:induction false} RecordSurvives(fields: seq<PEntry>, parse: Parse64)
    requires forall i :: 0 <= i < |fields| ==> CompleteEntry(fields[i], parse)
    ensures Survives(PRecord(fields), parse)
    decreases fields, 2
  {
    hide EntriesJson, WireEntries, AreFields, WireFieldsOf;
    FieldsSurvive(fields, parse);
  }

  /** Record fields and text map entries: named under "label" and under "key". */
  lemma {:induction false} EntriesSurvive(entries: seq<PEntry>, nameKey: string, parse: Parse64)
    requires nameKey == "key" || nameKey == "label"
    requires forall i :: 0 <= i < |entries| ==> CompleteEntry(entries[i], parse)
    ensures WireEntries(EntriesJson(entries, nameKey), nameKey, parse) == Ok(entries)
    ensures nameKey == "key" ==> AreEntries(EntriesJson(entries, nameKey), true)
    ensures nameKey == "label" ==> AreFields(EntriesJson(entries, nameKey))
    decreases entries, 0
  {
    if entries != [] {
      EntrySurvives(entries[0], nameKey, parse);
      EntriesSurvive(entries[1..], nameKey, parse);
      assert entries == [entries[0]] + entries[1..];
    }
  }

  lemma {:induction false} EntrySurvives(entry: PEntry, nameKey: string, parse: Parse64)
    requires (nameKey == "key" || nameKey == "label") && CompleteEntry(entry, parse)
    ensures WireEntry(EntryJson(entry, nameKey), nameKey, parse) == Ok(entry)
    ensures nameKey == "key" ==> IsEntryJson(EntryJson(entry, nameKey), true)
    ensures nameKey == "label" ==> IsRecordFieldJson(EntryJson(entry, nameKey))
    decreases entry
  {
    CompleteSurvives(entry.value.value, parse);
    var name, value := Entry(nameKey, Js.Text(entry.key)), Entry("value", ValueJson(entry.value.value));
    FindInTwo(name, value);
    assert [name] + ContentJson(entry.value) == [name, value];
  }

  lemma {:induction false} GenMapSurvives(pairs: seq<PPair>, parse: Parse64)
    requires forall i :: 0 <= i < |pairs| ==> CompletePair(pairs[i], parse)
    ensures Survives(PGenMap(pairs), parse)
    decreases pairs, 1
  {
    hide PairsJson, WirePairs, AreEntries;
    PairsSurvive(pairs, parse);
    var members := [Entry("entries", Array(PairsJson(pairs)))];
    assert ValueJson(PGenMap(pairs)) == Tagged("genMap", Object(Plain, members));
    assert Find(members, "entries") == 0;
    assert AbsentOrEntries(members, false);
  }

  lemma {:induction false} PairsSurvive(pairs: seq<PPair>, parse: Parse64)
    requires forall i :: 0 <= i < |pairs| ==> CompletePair(pairs[i], parse)
    ensures AreEntries(PairsJson(pairs), false) && WirePairs(PairsJson(pairs), parse) == Ok(pairs)
    decreases pairs, 0
  {
    if pairs != [] {
      PairSurvives(pairs[0], parse);
      PairsSurvive(pairs[1..], parse);
      assert pairs == [pairs[0]] + pairs[1..];
    }
  }

  lemma {:induction false} PairSurvives(pair: PPair, parse: Parse64)
    requires CompletePair(pair, parse)
    ensures IsEntryJson(PairJson(pair), false) && WirePair(PairJson(pair), parse) == Ok(pair)
    decreases pair
  {
    CompleteSurvives(pair.key.value, parse);
    CompleteSurvives(pair.value.value, parse);
    var key, value := Entry("key", ValueJson(pair.key.value)), Entry("value", ValueJson(pair.value.value));
    FindInTwo(key, value);
    assert [key] + ContentJson(pair.value) == [key, value];
  }

  /** A created payload in the protobuf JSON mapping is decoded as the record it was written from. */
  lemma CreatedRecordIsRead(fields: seq<PEntry>, d: Descriptor, project: Project, parse: Parse64)
    requires Complete(PRecord(fields), parse)
    ensures DecodeCreated(RecordJson(fields), d, project, parse) == DecodeProto(PRecord(fields), d, project)
  {
    hide DecodeProto, RecordJson;
    FieldsSurvive(fields, parse);
  }

  // ----- which payloads are taken for records -----

  ghost predicate HoldsText(members: seq<Entry<Js>>, key: string) {
    exists i :: IsFirst(members, key, i) && members[i].value.Text?
  }

  /** An identifier: three texts and nothing else. */
  ghost predicate IsIdentifier(js: Js) {
    && js.Object?
    && (forall m <- js.members :: m.key in {"packageId", "moduleName", "entityName"})
    && HoldsText(js.members, "packageId") && HoldsText(js.members, "moduleName") && HoldsText(js.members, "entityName")
  }

  /** A record field: a value, at most a label, which is a text, and nothing else. */
  ghost predicate IsField(js: Js) {
    && js.Object?
    && (forall m <- js.members :: m.key in {"label", "value"})
    && (exists i :: IsFirst(js.members, "value", i) && IsValueJson(js.members[i].value))
    && (forall i :: IsFirst(js.members, "label", i) ==> js.members[i].value.Text?)
  }

  /**
   * A created payload is taken for a protobuf record if and only if it is an object with a list of record
   * fields under `fields`, at most an identifier under `recordId`, and nothing else.
   */
  lemma RecognisedExactly(js: Js)
    ensures IsRecordWireJson(js) <==>
            && js.Object?
            && (forall m <- js.members :: m.key in {"recordId", "fields"})
            && (exists i :: IsFirst(js.members, "fields", i) && js.members[i].value.Array?
                            && forall field <- js.members[i].value.elems :: IsField(field))
            && (forall i :: IsFirst(js.members, "recordId", i) ==> IsIdentifier(js.members[i].value))
  {
    hide IsField, IsIdentifier, IsIdentifierJson, HasOnlyKeys, AreFields, Find, IsFirst;
    if js.Object? {
      KeysRecognised(js.members, {"recordId", "fields"});
      FirstIsFound(js.members, "fields");
      FirstIsFound(js.members, "recordId");
      var i, r := Find(js.members, "fields"), Find(js.members, "recordId");
      if i >= 0 && js.members[i].value.Array? {
        FieldsRecognised(js.members[i].value.elems);
      }
      if r >= 0 {
        IdentifierRecognised(js.members[r].value);
      }
    }
  }

  lemma KeysRecognised(members: seq<Entry<Js>>, keys: set<string>)
    ensures HasOnlyKeys(members, keys) <==> forall m <- members :: m.key in keys
  {
  }

  lemma FieldsRecognised(elems: seq<Js>)
    ensures AreFields(elems) <==> forall field <- elems :: IsField(field)
  {
    hide IsRecordFieldJson, IsField;
    forall field
      ensures IsRecordFieldJson(field) <==> IsField(field)
    {
      FieldRecognised(field);
    }
  }

  lemma FieldRecognised(js: Js)
    ensures IsRecordFieldJson(js) <==> IsField(js)
  {
    hide IsValueJson;
    if js.Object? {
      FirstIsFound(js.members, "label");
      FirstIsFound(js.members, "value");
    }
  }

  lemma IdentifierRecognised(js: Js)
    ensures IsIdentifierJson(js) <==> IsIdentifier(js)
  {
    if js.Object? {
      FirstIsFound(js.members, "packageId");
      FirstIsFound(js.members, "moduleName");
      FirstIsFound(js.members, "entityName");
    }
  }
}
