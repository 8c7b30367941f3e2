/** Every decoded value has the shape of its descriptor, with all primitives in ledger range. */
module DecodedConformance {
  import opened Wrappers
  import opened Decimals
  import opened JsValues
  import opened DamlTypes
  import opened DescriptorCompiler
  import opened LedgerValues
  import opened ValueConverter
  import opened ProtobufConverter
  import opened ScopedTypes
  import opened DecoderAgreement
  import DamlNumerics

  ghost predicate ConformsPrimitive(x: Decoded, primitive: Primitive, numericScale: Option<int>) {
    match primitive
    case Unit => x.UnitValue?
    case Bool => x.BoolValue?
    case Int64 => x.Int64Value? && MIN_INT64 <= x.i <= MAX_INT64
    case Date => x.DateValue? && MIN_DATE <= x.days <= MAX_DATE
    case Timestamp =>
      && x.TimestampValue? && IsIntegerText(x.microseconds)
      && MIN_TIMESTAMP <= IntegerValue(x.microseconds) <= MAX_TIMESTAMP
    case Numeric =>
      && x.NumericValue? && DamlNumerics.IsDamlNumeric(x.text)
      && DamlNumerics.Precision(x.text) <= DamlNumerics.MAX_PRECISION
      && DamlNumerics.Scale(x.text) <= if numericScale.Some? then numericScale.value else DamlNumerics.MAX_SCALE
    case Party => x.PartyValue? && x.party != ""
    case Text => x.TextValue?
  }

  ghost predicate Conforms(x: Decoded, d: Descriptor, project: Project)
    decreases x, Rank(d)
  {
    match d
    case DRef(identity, arguments) =>
      var resolved := Resolve(project, identity, arguments);
      resolved.Ok? && Conforms(x, resolved.value, project)
    case DPrim(primitive, scale) => ConformsPrimitive(x, primitive, scale)
    case DContractId => x.TextValue?
    case DOptional(element) => x.Absent? || Conforms(x, element, project)
    case DList(element) => x.ListValue? && forall e :: e in x.elems ==> Conforms(e, element, project)
    case DTextMap(element) =>
      x.TextMapValue? && forall i :: 0 <= i < |x.entries| ==> Conforms(x.entries[i].value, element, project)
    case DGenMap(key, element) =>
      x.GenMapValue? && forall i :: 0 <= i < |x.pairs| ==> ConformsPair(x.pairs[i], key, element, project)
    case DRecord(fields) =>
      && x.RecordValue?
      && DistinctKeys(x.fields)
      && (forall i :: 0 <= i < |x.fields| ==>
            exists j :: 0 <= j < |fields| && ConformsField(x.fields[i], fields[j], project))
      && (forall j :: 0 <= j < |fields| ==> HasKey(x.fields, fields[j].propertyName))
    case DVariant(constructors) =>
      && x.VariantValue?
      && var c := FindConstructor(constructors, x.constructor_);
         c >= 0 && Conforms(x.value, constructors[c].payload, project)
    case DEnum(names) => x.EnumValue? && x.name in names
  }

  ghost predicate ConformsPair(pair: Pair<Decoded>, key: Descriptor, element: Descriptor, project: Project)
    decreases pair, 0
  {
    Conforms(pair.key, key, project) && Conforms(pair.value, element, project)
  }

  ghost predicate ConformsField(field: Entry<Decoded>, d: FieldDescriptor, project: Project)
    decreases field, 0
  {
    field.key == d.propertyName && Conforms(field.value, d.ty, project)
  }

  predicate HasKey<V>(members: seq<Entry<V>>, key: string) {
    Find(members, key) >= 0
  }

  /** Assignments leave the last entry of every key, and nothing else. */
  lemma {:induction false} PutAllMembers<V>(members: seq<Entry<V>>, entries: seq<Entry<V>>)
    requires DistinctKeys(members)
    ensures var r := PutAll(members, entries);
            && DistinctKeys(r)
            && (forall i :: 0 <= i < |r| ==> r[i] in members || r[i] in entries)
            && (forall i :: 0 <= i < |members| ==> HasKey(r, members[i].key))
            && (forall i :: 0 <= i < |entries| ==> HasKey(r, entries[i].key))
    decreases entries
  {
    if entries == [] {
      forall i | 0 <= i < |members|
        ensures HasKey(members, members[i].key)
      {
      }
    } else {
      var next := Put(members, entries[0].key, entries[0].value);
      PutMembers(members, entries[0]);
      PutAllMembers(next, entries[1..]);
      var r := PutAll(members, entries);
      forall i | 0 <= i < |r|
        ensures r[i] in members || r[i] in entries
      {
        assert r[i] in next || r[i] in entries[1..];
      }
      forall i | 0 <= i < |entries|
        ensures HasKey(r, entries[i].key)
      {
        if i > 0 {
          assert entries[i] == entries[1..][i - 1];
        } else {
          var k := Find(next, entries[0].key);
          assert next[k].key == entries[0].key;
        }
      }
      forall i | 0 <= i < |members|
        ensures HasKey(r, members[i].key)
      {
        assert next[i].key == members[i].key;
      }
    }
  }

  lemma PutMembers<V>(members: seq<Entry<V>>, entry: Entry<V>)
    requires DistinctKeys(members)
    ensures var next := Put(members, entry.key, entry.value);
            && DistinctKeys(next)
            && HasKey(next, entry.key)
            && |next| >= |members|
            && (forall i :: 0 <= i < |members| ==> next[i].key == members[i].key)
            && (forall i :: 0 <= i < |next| ==> next[i] in members || next[i] == entry)
  {
    var i := Find(members, entry.key);
    var next := Put(members, entry.key, entry.value);
    assert next[if i == -1 then |members| else i].key == entry.key;
  }

  lemma {:induction false} DecodedConforms(js: Js, d: Descriptor, project: Project)
    requires DecodeJson(js, d, project).Ok?
    ensures Conforms(DecodeJson(js, d, project).value, d, project)
    decreases js, Rank(d), 1, 0
  {
    match d
    case DRef(identity, arguments) => DecodedConforms(js, Resolve(project, identity, arguments).value, project);
    case DPrim(primitive, scale) => PrimitiveConforms(js, primitive, scale);
    case DOptional(element) =>
      if !js.Null? {
        DecodedConforms(js, element, project);
      }
    case DList(element) => AllConform(js.elems, element, project);
    case DTextMap(element) =>
      if js.Object? {
        EntriesConform(js.members, element, project);
      }
    case DGenMap(key, element) => PairsConform(js.elems, key, element, project);
    case DRecord(fields) =>
      if js.Array? {
        PositionalConforms(js.elems, fields, project);
        RecordConforms(DecodePositional(js.elems, fields, project).value, fields, project);
      } else {
        LabelledConforms(js, fields, project);
        RecordConforms(DecodeLabelled(js, fields, project).value, fields, project);
      }
    case DVariant(constructors) =>
      var name := js.members[Find(js.members, "tag")].value.s;
      DecodedConforms(js.members[Find(js.members, "value")].value,
                      constructors[FindConstructor(constructors, name)].payload, project);
    case _ =>
  }

  lemma PrimitiveConforms(js: Js, primitive: Primitive, scale: Option<int>)
    requires DecodeJsonPrimitive(js, primitive, scale).Ok?
    ensures ConformsPrimitive(DecodeJsonPrimitive(js, primitive, scale).value, primitive, scale)
  {
    if primitive.Numeric? {
      DamlNumerics.DecodeNumericExact(js.s, scale);
    }
  }

  lemma {:induction false} AllConform(elems: seq<Js>, d: Descriptor, project: Project)
    requires DecodeJsonAll(elems, d, project).Ok?
    ensures forall e :: e in DecodeJsonAll(elems, d, project).value ==> Conforms(e, d, project)
    decreases elems, 0, 0, 0
  {
    if elems != [] {
      DecodedConforms(elems[0], d, project);
      AllConform(elems[1..], d, project);
    }
  }

  lemma {:induction false} EntriesConform(entries: seq<Entry<Js>>, d: Descriptor, project: Project)
    requires DecodeJsonEntries(entries, d, project).Ok?
    ensures var r := DecodeJsonEntries(entries, d, project).value;
            forall i :: 0 <= i < |r| ==> Conforms(r[i].value, d, project)
    decreases entries, 0, 0, 0
  {
    if entries != [] {
      DecodedConforms(entries[0].value, d, project);
      EntriesConform(entries[1..], d, project);
    }
  }

  lemma {:induction false} PairsConform(elems: seq<Js>, key: Descriptor, d: Descriptor, project: Project)
    requires DecodeJsonPairs(elems, key, d, project).Ok?
    ensures var r := DecodeJsonPairs(elems, key, d, project).value;
            forall i :: 0 <= i < |r| ==> ConformsPair(r[i], key, d, project)
    decreases elems, 0, 0, 0
  {
    if elems != [] {
      DecodedConforms(elems[0].elems[0], key, project);
      DecodedConforms(elems[0].elems[1], d, project);
      PairsConform(elems[1..], key, d, project);
    }
  }

  ghost predicate ConformingOutput(output: seq<Entry<Decoded>>, fields: seq<FieldDescriptor>, project: Project) {
    |output| == |fields| && forall i :: 0 <= i < |fields| ==> ConformsField(output[i], fields[i], project)
  }

  lemma {:induction false} PositionalConforms(elems: seq<Js>, fields: seq<FieldDescriptor>, project: Project)
    requires |elems| == |fields| && DecodePositional(elems, fields, project).Ok?
    ensures ConformingOutput(DecodePositional(elems, fields, project).value, fields, project)
    decreases elems, 0, 0, 0
  {
    if elems != [] {
      DecodedConforms(elems[0], fields[0].ty, project);
      PositionalConforms(elems[1..], fields[1..], project);
    }
  }

  lemma {:induction false} LabelledConforms(js: Js, fields: seq<FieldDescriptor>, project: Project)
    requires (js.Object? || js.JsMap?) && DecodeLabelled(js, fields, project).Ok?
    ensures ConformingOutput(DecodeLabelled(js, fields, project).value, fields, project)
    decreases js, 0, 0, |fields|
  {
    if fields != [] {
      DecodedConforms(js.members[Find(js.members, fields[0].damlLabel)].value, fields[0].ty, project);
      LabelledConforms(js, fields[1..], project);
    }
  }

  lemma RecordConforms(output: seq<Entry<Decoded>>, fields: seq<FieldDescriptor>, project: Project)
    requires ConformingOutput(output, fields, project)
    ensures Conforms(RecordValue(PutAll([], output)), DRecord(fields), project)
  {
    PutAllMembers([], output);
    var r := PutAll([], output);
    forall i | 0 <= i < |r|
      ensures exists j :: 0 <= j < |fields| && ConformsField(r[i], fields[j], project)
    {
      assert r[i] in output;
      var j :| 0 <= j < |output| && output[j] == r[i];
      assert ConformsField(r[i], fields[j], project);
    }
    forall j | 0 <= j < |fields|
      ensures HasKey(r, fields[j].propertyName)
    {
      assert ConformsField(output[j], fields[j], project);
      assert HasKey(r, output[j].key);
    }
  }

  // ----- protobuf values -----

  /** The same for protobuf values, text maps that repeat a key included. */
  lemma {:induction false} ProtoConforms(v: PValue, d: Descriptor, project: Project)
    requires DecodeProto(v, d, project).Ok?
    ensures Conforms(DecodeProto(v, d, project).value, d, project)
    decreases v, Rank(d), 1, 0
  {
    hide DamlNumerics.DecodeNumeric, DecodeInt64, DecodeTimestamp, DecodeDate, DecodeParty;
    match d
    case DRef(identity, arguments) => ProtoConforms(v, Resolve(project, identity, arguments).value, project);
    case DPrim(primitive, scale) =>
      AgreePrimitive(v, primitive, scale, project);
      PrimitiveConforms(JsOf(v), primitive, scale);
    case DContractId =>
    case DOptional(element) =>
      if v.value.Some? {
        ProtoConforms(v.value.value, element, project);
      }
    case DList(element) => ProtoAllConform(v.elems, element, project);
    case DTextMap(element) => ProtoEntriesConform(v.entries, element, project);
    case DGenMap(key, element) => ProtoPairsConform(v.pairs, key, element, project);
    case DRecord(fields) => ProtoRecordConforms(v.fields, fields, project);
    case DVariant(constructors) => ProtoVariantConforms(v.name, v.payload, constructors, project);
    case DEnum(_) =>
  }

  lemma {:induction false} ProtoRecordConforms(entries: seq<PEntry>, fields: seq<FieldDescriptor>, project: Project)
    requires DecodeProto(PRecord(entries), DRecord(fields), project).Ok?
    ensures Conforms(DecodeProto(PRecord(entries), DRecord(fields), project).value, DRecord(fields), project)
    decreases entries, 0, 1, 0
  {
    hide Conforms;
    var output := DecodeProtoRecord(entries, fields, project);
    if Labelled(entries) {
      ByLabelConforms(entries, fields, project);
    } else {
      ByPositionConforms(entries, fields, project);
    }
    RecordConforms(output.value, fields, project);
  }

  lemma {:induction false} ProtoVariantConforms(name: string, payload: Option<PValue>,
      constructors: seq<ConstructorDescriptor>, project: Project)
    requires DecodeProto(PVariant(name, payload), DVariant(constructors), project).Ok?
    ensures Conforms(DecodeProto(PVariant(name, payload), DVariant(constructors), project).value,
                     DVariant(constructors), project)
    decreases payload, 0, 0, 0
  {
    ProtoConforms(payload.value, constructors[FindConstructor(constructors, name)].payload, project);
  }

  lemma {:induction false} ProtoAllConform(elems: seq<PValue>, d: Descriptor, project: Project)
    requires DecodeProtoAll(elems, d, project).Ok?
    ensures forall e :: e in DecodeProtoAll(elems, d, project).value ==> Conforms(e, d, project)
    decreases elems, 0, 0, 0
  {
    if elems != [] {
      ProtoConforms(elems[0], d, project);
      ProtoAllConform(elems[1..], d, project);
    }
  }

  lemma {:induction false} ProtoEntryConforms(entry: PEntry, d: Descriptor, project: Project)
    requires DecodeEntry(entry, d, project).Ok?
    ensures Conforms(DecodeEntry(entry, d, project).value, d, project)
    decreases entry, 0, 0, 0
  {
    ProtoConforms(entry.value.value, d, project);
  }

  lemma {:induction false} ProtoEntriesConform(entries: seq<PEntry>, d: Descriptor, project: Project)
    requires DecodeProtoEntries(entries, d, project).Ok?
    ensures var r := DecodeProtoEntries(entries, d, project).value;
            forall i :: 0 <= i < |r| ==> Conforms(r[i].value, d, project)
    decreases entries, 0, 0, 0
  {
    if entries != [] {
      ProtoEntryConforms(entries[0], d, project);
      ProtoEntriesConform(entries[1..], d, project);
    }
  }

  lemma {:induction false} ProtoPairConforms(pair: PPair, key: Descriptor, d: Descriptor, project: Project)
    requires DecodePair(pair, key, d, project).Ok?
    ensures ConformsPair(DecodePair(pair, key, d, project).value, key, d, project)
    decreases pair, 0, 0, 0
  {
    ProtoConforms(pair.key.value, key, project);
    ProtoConforms(pair.value.value, d, project);
  }

  lemma {:induction false} ProtoPairsConform(pairs: seq<PPair>, key: Descriptor, d: Descriptor, project: Project)
    requires DecodeProtoPairs(pairs, key, d, project).Ok?
    ensures var r := DecodeProtoPairs(pairs, key, d, project).value;
            forall i :: 0 <= i < |r| ==> ConformsPair(r[i], key, d, project)
    decreases pairs, 0, 0, 0
  {
    hide DecodeProto, Conforms;
    if pairs != [] {
      ProtoPairConforms(pairs[0], key, d, project);
      ProtoPairsConform(pairs[1..], key, d, project);
    }
  }

  lemma {:induction false} ByLabelConforms(entries: seq<PEntry>, fields: seq<FieldDescriptor>, project: Project)
    requires DecodeByLabel(entries, fields, project).Ok?
    ensures ConformingOutput(DecodeByLabel(entries, fields, project).value, fields, project)
    decreases entries, 0, 0, |fields|
  {
    if fields != [] {
      ProtoEntryConforms(entries[FindLabel(entries, fields[0].damlLabel)], fields[0].ty, project);
      ByLabelConforms(entries, fields[1..], project);
    }
  }

  lemma {:induction false} ByPositionConforms(entries: seq<PEntry>, fields: seq<FieldDescriptor>, project: Project)
    requires |entries| == |fields| && DecodeByPosition(entries, fields, project).Ok?
    ensures ConformingOutput(DecodeByPosition(entries, fields, project).value, fields, project)
    decreases entries, 0, 0, |fields|
  {
    if fields != [] {
      ProtoEntryConforms(entries[0], fields[0].ty, project);
      ByPositionConforms(entries[1..], fields[1..], project);
    }
  }
}
