/**
 * The equation a generated template spec asserts, through the created-event normaliser: the payload
 * of samples is read back as the expected fields unless it passes for a protobuf record.
 */
module TemplateSpecs {
  import opened Wrappers
  import opened JsValues
  import opened DamlTypes
  import opened DescriptorCompiler
  import opened LedgerValues
  import opened ValueConverter
  import opened ValueMaterializer
  import opened ProtobufConverter
  import opened EventSources
  import opened SampleEmitter
  import opened ScopedTypes
  import opened SampleSoundness
  import opened GeneratedSpecs

  /** What a generated template spec asserts: the created event materialises to the expected fields. */
  ghost predicate CreatedRoundTrips(payload: Js, expected: Js, d: Descriptor, project: Project, parse: Parse64) {
    var decoded := DecodeCreated(payload, d, project, parse);
    decoded.Ok? && Materialize(decoded.value) == expected
  }

  // ----- finite ledger samples hold no list elements -----

  predicate Flat(js: Js) {
    match js
    case Array(elems) => elems == []
    case Object(_, members) => FlatMembers(members)
    case _ => true
  }

  predicate FlatMembers(members: seq<Entry<Js>>) {
    forall i :: 0 <= i < |members| ==> Flat(members[i].value)
  }

  lemma {:induction false} PutAllFlat(members: seq<Entry<Js>>, entries: seq<Entry<Js>>)
    requires FlatMembers(members) && FlatMembers(entries)
    ensures FlatMembers(PutAll(members, entries))
    decreases entries
  {
    if entries != [] {
      PutAllFlat(Put(members, entries[0].key, entries[0].value), entries[1..]);
    }
  }

  lemma {:induction false} FiniteIsFlat(t: DamlType, project: Project, bindings: Bindings, visited: set<Fingerprint>,
      fuel: nat)
    ensures var sample := EmitFinite(t, Ledger, project, bindings, visited, fuel);
            sample.Value? ==> Flat(sample.value)
    decreases fuel, t
  {
    match t
    case Record(fields) =>
      FiniteFieldsAreFlat(fields, project, bindings, visited, fuel);
      var entries := EmitFiniteFields(fields, Ledger, project, bindings, visited, fuel);
      if entries.Value? {
        PutAllFlat([], entries.value);
      }
    case Variant(constructors) => FirstFiniteIsFlat(constructors, project, bindings, visited, fuel);
    case Var(variable) =>
      if variable in bindings && fuel > 0 {
        FiniteIsFlat(bindings[variable], project, bindings, visited, fuel - 1);
      }
    case Ref(identity, arguments) =>
      if fuel > 0 && FingerprintsOf(arguments, bindings, fuel).Some? && identity in project.definitions
         && |arguments| == |project.definitions[identity].Parameters()| {
        EnterFinite(identity, arguments, Ledger, project, bindings, visited, fuel);
        var definition := project.definitions[identity];
        FiniteIsFlat(Body(identity, definition, SampleNames(project.files, identity)), project,
                     BindVariables(bindings, definition.Parameters(), ResolveAll(arguments, bindings)),
                     visited + {FRef(identity, FingerprintsOf(arguments, bindings, fuel).value)}, fuel - 1);
      }
    case _ =>
  }

  lemma {:induction false} FiniteFieldsAreFlat(fields: seq<Field>, project: Project, bindings: Bindings,
      visited: set<Fingerprint>, fuel: nat)
    ensures var entries := EmitFiniteFields(fields, Ledger, project, bindings, visited, fuel);
            entries.Value? ==> FlatMembers(entries.value)
    decreases fuel, fields
  {
    if fields != [] {
      FiniteIsFlat(fields[0].ty, project, bindings, visited, fuel);
      FiniteFieldsAreFlat(fields[1..], project, bindings, visited, fuel);
    }
  }

  lemma {:induction false} FirstFiniteIsFlat(constructors: seq<Constructor>, project: Project, bindings: Bindings,
      visited: set<Fingerprint>, fuel: nat)
    ensures var sample := EmitFirstFinite(constructors, Ledger, project, bindings, visited, fuel);
            sample.Value? ==> Flat(sample.value)
    decreases fuel, constructors
  {
    if constructors != [] {
      FiniteIsFlat(constructors[0].payload, project, bindings, visited, fuel);
      FirstFiniteIsFlat(constructors[1..], project, bindings, visited, fuel);
    }
  }

  /** One level above the limit an object sample has finite members. */
  lemma {:induction false} LastLevelIsFlat(t: DamlType, st: State, fuel: nat)
    requires st.depth == 1 && st.representation.Ledger?
    ensures var sample := Emit(t, st, fuel);
            sample.Value? && sample.value.Object? ==> Flat(sample.value)
    decreases fuel, t
  {
    FiniteIsFlat(t, st.project, st.bindings, {}, fuel);
    match t
    case TextMap(value) => FiniteIsFlat(value, st.project, st.bindings, {}, fuel);
    case Record(fields) =>
      BoundaryFieldsAreFlat(fields, st.Descend(), fuel);
      var entries := EmitFields(fields, st.Descend(), fuel);
      if entries.Value? {
        PutAllFlat([], entries.value);
      }
    case Variant(constructors) =>
      if constructors != [] {
        FiniteIsFlat(constructors[0].payload, st.project, st.bindings, {}, fuel);
      }
    case Var(variable) =>
      if variable in st.bindings && fuel > 0 {
        LastLevelIsFlat(st.bindings[variable], st, fuel - 1);
      }
    case _ =>
  }

  lemma {:induction false} BoundaryFieldsAreFlat(fields: seq<Field>, st: State, fuel: nat)
    requires st.depth == 0 && st.representation.Ledger?
    ensures var entries := EmitFields(fields, st, fuel);
            entries.Value? ==> FlatMembers(entries.value)
    decreases fields
  {
    if fields != [] {
      FiniteIsFlat(fields[0].ty, st.project, st.bindings, {}, fuel);
      BoundaryFieldsAreFlat(fields[1..], st, fuel);
    }
  }

  // ----- the sample of a list field -----

  /** At the generator's depth only a list or a map is sampled by an array, and then by one element. */
  lemma ArraySample(t: DamlType, project: Project, fuel: nat)
    requires Scoped(t, map[], project.definitions, true)
    requires Emit(t, Start(project, DEFAULT_DEPTH), fuel).Value?
    requires Emit(t, Start(project, DEFAULT_DEPTH), fuel).value.Array?
    ensures var elems := Emit(t, Start(project, DEFAULT_DEPTH), fuel).value.elems;
            && |elems| == 1
            && (elems[0].Object? ==> t.List? && Flat(elems[0]))
  {
    var st := Start(project, DEFAULT_DEPTH);
    match t
    case List(element) => LastLevelIsFlat(element, st.Descend(), fuel);
    case Ref(identity, arguments) =>
      EmitReferenceCases(identity, arguments, st, fuel);
    case _ =>
  }

  /** A flat object read as a protobuf list value is the empty list. */
  lemma FlatListIsEmpty(js: Js, parse: Parse64)
    requires Flat(js) && js.Object? && WireValue(js, parse).Ok? && WireValue(js, parse).value.PList?
    ensures WireValue(js, parse).value == PList([])
  {
    var value := js.members[0].value;
    assert Flat(value);
    if value.Object? {
      var i := Find(value.members, "elements");
      assert FlatMembers(value.members);
      if i >= 0 {
        assert Flat(value.members[i].value);
      }
    }
  }

  /** The one wire field of a sample payload, whose value reads as the empty list if as a list at all. */
  lemma WireSample(elem: Js, parse: Parse64)
    requires Flat(elem) && IsRecordFieldJson(elem)
    ensures WireEntries([elem], "label", parse).Ok? ==>
              var wire := WireEntries([elem], "label", parse).value;
              && |wire| == 1 && wire[0].value.Some?
              && (wire[0].value.value.PList? ==> wire[0].value.value == PList([]))
  {
    var i := Find(elem.members, "value");
    var value := elem.members[i].value;
    assert Flat(value);
    if WireValue(value, parse).Ok? && WireValue(value, parse).value.PList? {
      FlatListIsEmpty(value, parse);
    }
    var wire := WireEntry(elem, "label", parse);
    assert [elem][1..] == [];
    if wire.Ok? {
      assert WireAt(elem.members, "value", parse).Ok?;
      assert [wire.value] + [] == [wire.value];
    }
  }

  /** A record of one wire field fits one field descriptor only, and decodes there as that field. */
  lemma OneWireField(wire: PEntry, ds: seq<FieldDescriptor>, project: Project)
    requires DecodeProto(PRecord([wire]), DRecord(ds), project).Ok?
    ensures |ds| == 1 && DecodeEntry(wire, ds[0].ty, project).Ok?
    ensures DecodeProto(PRecord([wire]), DRecord(ds), project).value
         == RecordValue([Entry(ds[0].propertyName, DecodeEntry(wire, ds[0].ty, project).value)])
  {
    var output := DecodeProtoRecord([wire], ds, project);
    assert output.Ok? && |ds| == 1;
    assert [wire][1..] == [] && ds[1..] == [];
    if Labelled([wire]) {
      assert output == DecodeByLabel([wire], ds, project);
      assert FindLabel([wire], ds[0].damlLabel) == 0;
      assert DecodeByLabel([wire], ds[1..], project) == Ok([]);
    } else {
      assert output == DecodeByPosition([wire], ds, project);
      assert DecodeByPosition([wire][1..], ds[1..], project) == Ok([]);
    }
    var entries := [Entry(ds[0].propertyName, DecodeEntry(wire, ds[0].ty, project).value)];
    assert entries + [] == entries;
    assert output.value == entries;
    assert [] + entries == entries;
    PutAllDistinct([], entries);
  }

  // ----- template specs -----

  /** A payload that passes for a protobuf record never materialises to the expected fields. */
  lemma WirePayloadFails(fields: seq<Field>, payload: seq<Entry<Js>>, expected: seq<Entry<Js>>, project: Project,
      fuel: nat, parse: Parse64)
    requires WellFormed(project) && DistinctLabels(fields) && ScopedFields(fields, map[], project.definitions)
    requires CompileFields(fields, map[]).Ok?
    requires EmitFields(fields, Start(project, DEFAULT_DEPTH), fuel) == Value(payload)
    requires EmitFields(fields, As(Start(project, DEFAULT_DEPTH), TypeScript), fuel) == Value(expected)
    requires IsRecordWireJson(ObjectLiteral(payload))
    ensures !CreatedRoundTrips(ObjectLiteral(payload), ObjectLiteral(expected),
                               DRecord(CompileFields(fields, map[]).value), project, parse)
  {
    var st := Start(project, DEFAULT_DEPTH);
    var ds := CompileFields(fields, map[]).value;
    PayloadMembers(fields, payload, project, fuel);
    var i := Find(payload, "fields");
    SampleAt(fields, st, fuel, i);
    ScopedFieldAt(fields, project.definitions, i);
    ArraySample(fields[i].ty, project, fuel);
    var elem := payload[i].value.elems[0];
    assert AreFields(payload[i].value.elems) && payload[i].value.elems == [elem];
    WireSample(elem, parse);
    var wire := WireFieldsOf(payload, parse);
    assert wire == WireEntries([elem], "label", parse);
    if DecodeCreated(ObjectLiteral(payload), DRecord(ds), project, parse).Ok? {
      assert wire.value == [wire.value[0]];
      OneWireField(wire.value[0], ds, project);
      SampleAt(fields, As(st, TypeScript), fuel, 0);
      CompiledFieldAt(fields, 0);
      ExpectedListDiffers(wire.value[0], fields[0], ds[0], expected, project);
    }
  }

  /** The decoded field is an empty list where the expected sample has one element. */
  lemma ExpectedListDiffers(wire: PEntry, field: Field, d: FieldDescriptor, expected: seq<Entry<Js>>, project: Project)
    requires wire.value.Some? && (wire.value.value.PList? ==> wire.value.value == PList([]))
    requires d.ty.DList? && DecodeEntry(wire, d.ty, project).Ok?
    requires |expected| == 1 && expected[0].value.Array? && |expected[0].value.elems| == 1
    ensures Materialize(RecordValue([Entry(d.propertyName, DecodeEntry(wire, d.ty, project).value)]))
         != ObjectLiteral(expected)
  {
    var decoded := DecodeEntry(wire, d.ty, project).value;
    assert DecodeProto(wire.value.value, d.ty, project) == Ok(decoded);
    assert wire.value.value.PList?;
    assert DecodeProtoAll([], d.ty.element, project) == Ok([]);
    DistinctLiteral(expected);
    var fields := [Entry(d.propertyName, decoded)];
    assert fields[1..] == [];
    MaterializeFieldsAt(fields, 0);
    DistinctLiteral(MaterializeFields(fields));
  }

  lemma {:induction false} SampleAt(fields: seq<Field>, st: State, fuel: nat, i: nat)
    requires i < |fields| && EmitFields(fields, st, fuel).Value?
    ensures |EmitFields(fields, st, fuel).value| == |fields|
    ensures var entry := EmitFields(fields, st, fuel).value[i];
            entry.key == FieldKey(fields[i], st.representation) && Emit(fields[i].ty, st, fuel) == Value(entry.value)
    decreases fields
  {
    if |fields| > 1 {
      SampleAt(fields[1..], st, fuel, if i > 0 then i - 1 else 0);
    } else {
      assert fields[1..] == [];
    }
  }

  lemma {:induction false} ScopedFieldAt(fields: seq<Field>, definitions: Definitions, i: nat)
    requires ScopedFields(fields, map[], definitions) && i < |fields|
    ensures Scoped(fields[i].ty, map[], definitions, true)
    decreases fields
  {
    if i > 0 {
      ScopedFieldAt(fields[1..], definitions, i - 1);
    }
  }

  /** The payload literal has the create fields' labels as its members. */
  lemma PayloadMembers(fields: seq<Field>, payload: seq<Entry<Js>>, project: Project, fuel: nat)
    requires DistinctLabels(fields)
    requires EmitFields(fields, Start(project, DEFAULT_DEPTH), fuel) == Value(payload)
    ensures |payload| == |fields| && ObjectLiteral(payload) == Object(Plain, payload)
    ensures forall i :: 0 <= i < |fields| ==> payload[i].key == fields[i].damlLabel
  {
    var st := Start(project, DEFAULT_DEPTH);
    if fields != [] {
      SampleAt(fields, st, fuel, 0);
    }
    forall i | 0 <= i < |fields|
      ensures payload[i].key == fields[i].damlLabel
    {
      SampleAt(fields, st, fuel, i);
    }
    DistinctLiteral(payload);
  }

  lemma {:induction false} CompiledFieldAt(fields: seq<Field>, i: nat)
    requires i < |fields| && CompileFields(fields, map[]).Ok?
    ensures Compile(fields[i].ty, map[]) == Ok(CompileFields(fields, map[]).value[i].ty)
    decreases fields
  {
    if i > 0 {
      CompiledFieldAt(fields[1..], i - 1);
    }
  }

  /**
   * A generated template spec passes exactly when its samples meet no enum without constructors and
   * its payload does not pass for a protobuf record, however 64-bit texts are parsed.
   */
  lemma TemplateSpecHolds(fields: seq<Field>, project: Project, fuel: nat, parse: Parse64)
    requires WellFormed(project)
    requires DistinctLabels(fields) && ScopedFields(fields, map[], project.definitions)
    ensures CompileFields(fields, map[]).Ok?
    ensures var st := Start(project, DEFAULT_DEPTH);
            var payload := EmitFields(fields, As(st, Ledger), fuel);
            var expected := EmitFields(fields, As(st, TypeScript), fuel);
            if payload.Value? then
              && expected.Value?
              && (CreatedRoundTrips(ObjectLiteral(payload.value), ObjectLiteral(expected.value),
                                    DRecord(CompileFields(fields, map[]).value), project, parse)
                  <==> !FieldsReachEmptyEnum(fields, st, fuel) && !IsRecordWireJson(ObjectLiteral(payload.value)))
            else expected == payload
  {
    PayloadDecodes(fields, project, fuel);
    var st := Start(project, DEFAULT_DEPTH);
    var payload, expected := EmitFields(fields, As(st, Ledger), fuel), EmitFields(fields, As(st, TypeScript), fuel);
    if payload.Value? && IsRecordWireJson(ObjectLiteral(payload.value)) {
      WirePayloadFails(fields, payload.value, expected.value, project, fuel, parse);
    }
  }

  /** Labels by which a payload can pass for a protobuf record at all. */
  ghost predicate WireLabels(fields: seq<Field>) {
    && (forall i :: 0 <= i < |fields| ==> fields[i].damlLabel in {"recordId", "fields"})
    && exists i :: 0 <= i < |fields| && fields[i].damlLabel == "fields" && fields[i].ty.List?
  }

  /** The check a template's author can make: with any other labels the payload is read as JSON. */
  lemma WirePayloadHasLabels(fields: seq<Field>, project: Project, fuel: nat)
    requires DistinctLabels(fields) && ScopedFields(fields, map[], project.definitions)
    ensures var payload := EmitFields(fields, Start(project, DEFAULT_DEPTH), fuel);
            payload.Value? && IsRecordWireJson(ObjectLiteral(payload.value)) ==> WireLabels(fields)
  {
    var st := Start(project, DEFAULT_DEPTH);
    var payload := EmitFields(fields, st, fuel);
    if payload.Value? && IsRecordWireJson(ObjectLiteral(payload.value)) {
      PayloadMembers(fields, payload.value, project, fuel);
      var i := Find(payload.value, "fields");
      SampleAt(fields, st, fuel, i);
      ScopedFieldAt(fields, project.definitions, i);
      ArraySample(fields[i].ty, project, fuel);
      assert AreFields(payload.value[i].value.elems) && IsRecordFieldJson(payload.value[i].value.elems[0]);
      forall j | 0 <= j < |fields|
        ensures fields[j].damlLabel in {"recordId", "fields"}
      {
        assert payload.value[j].key in {"recordId", "fields"};
      }
      assert fields[i].damlLabel == "fields" && fields[i].ty.List?;
    }
  }

  // ----- the failing input -----

  const ENTRY := Identity("p", "M", "Entry")
  const HOLDER := Identity("p", "M", "Holder")

  /** `data Holder = Holder with party : Party` and `data Entry = Entry with value : Holder`. */
  const LEDGER := Project(map[HOLDER := RecordDefinition([], [Field("party", "party", Prim(Party, None))]),
                              ENTRY := RecordDefinition([], [Field("value", "value", Ref(HOLDER, []))])], [])

  /** `template Journal with fields : [Entry]`. */
  const JOURNAL := [Field("fields", "fields", List(Ref(ENTRY, [])))]

  const HOLDER_SAMPLE := Object(Plain, [Entry("party", JsValues.Text("Alice"))])
  const ENTRY_SAMPLE := Object(Plain, [Entry("value", HOLDER_SAMPLE)])
  const JOURNAL_PAYLOAD := Object(Plain, [Entry("fields", Array([ENTRY_SAMPLE]))])

  /** A well-formed template without enums whose generated spec fails, whatever the stack. */
  lemma JournalSpecFails(fuel: nat, parse: Parse64)
    requires fuel >= 2
    ensures WellFormed(LEDGER) && DistinctLabels(JOURNAL) && ScopedFields(JOURNAL, map[], LEDGER.definitions)
    ensures var payload := EmitFields(JOURNAL, Start(LEDGER, DEFAULT_DEPTH), fuel);
            var expected := EmitFields(JOURNAL, As(Start(LEDGER, DEFAULT_DEPTH), TypeScript), fuel);
            && payload.Value? && expected.Value? && CompileFields(JOURNAL, map[]).Ok?
            && ObjectLiteral(payload.value) == JOURNAL_PAYLOAD
            && !CreatedRoundTrips(JOURNAL_PAYLOAD, ObjectLiteral(expected.value),
                                  DRecord(CompileFields(JOURNAL, map[]).value), LEDGER, parse)
  {
    JournalIsWellFormed();
    JournalSample(fuel);
    JournalIsWire();
    TemplateSpecHolds(JOURNAL, LEDGER, fuel, parse);
  }

  lemma JournalIsWellFormed()
    ensures WellFormed(LEDGER) && DistinctLabels(JOURNAL) && ScopedFields(JOURNAL, map[], LEDGER.definitions)
  {
    var holder := LEDGER.definitions[HOLDER].fields;
    var entry := LEDGER.definitions[ENTRY].fields;
    assert RenameFields(HOLDER, holder, map[]) == holder && RenameFields(ENTRY, entry, map[]) == entry;
    assert ScopedAll([], map[], LEDGER.definitions) && ScopedFields([], map[], LEDGER.definitions);
    assert holder[1..] == [] && entry[1..] == [] && JOURNAL[1..] == [];
    assert ScopedFields(holder, map[], LEDGER.definitions);
    assert Scoped(Ref(HOLDER, []), map[], LEDGER.definitions, true);
    assert ScopedFields(entry, map[], LEDGER.definitions);
    assert ScopedDefinition(HOLDER, LEDGER) && ScopedDefinition(ENTRY, LEDGER);
    assert Scoped(Ref(ENTRY, []), map[], LEDGER.definitions, true);
  }

  /** The finite sample of a record type with one field. */
  lemma OneFieldSample(id: Identity, field: Field, value: Js, project: Project, visited: set<Fingerprint>, fuel: nat)
    requires id in project.definitions && project.definitions[id] == RecordDefinition([], [field])
    requires project.files == [] && FRef(id, []) !in visited && fuel > 0
    requires EmitFinite(field.ty, Ledger, project, map[], visited + {FRef(id, [])}, fuel - 1) == Value(value)
    ensures EmitFinite(Ref(id, []), Ledger, project, map[], visited, fuel)
         == Value(Object(Plain, [Entry(field.damlLabel, value)]))
  {
    assert [field][1..] == [];
    assert RenameFields(id, [field], map[]) == [field];
    var member := Entry(field.damlLabel, value);
    var inside := visited + {FRef(id, [])};
    assert [member] + [] == [member];
    assert EmitFiniteFields([field], Ledger, project, map[], inside, fuel - 1) == Value([member]);
    DistinctLiteral([member]);
    assert EmitFinite(Record([field]), Ledger, project, map[], inside, fuel - 1) == Value(Object(Plain, [member]));
    EnterFinite(id, [], Ledger, project, map[], visited, fuel);
  }

  lemma JournalSample(fuel: nat)
    requires fuel >= 2
    ensures var payload := EmitFields(JOURNAL, Start(LEDGER, DEFAULT_DEPTH), fuel);
            payload.Value? && ObjectLiteral(payload.value) == JOURNAL_PAYLOAD
  {
    var visited: set<Fingerprint> := {} + {FRef(ENTRY, [])};
    OneFieldSample(HOLDER, LEDGER.definitions[HOLDER].fields[0], JsValues.Text("Alice"), LEDGER, visited, fuel - 1);
    OneFieldSample(ENTRY, LEDGER.definitions[ENTRY].fields[0], HOLDER_SAMPLE, LEDGER, {}, fuel);
    var st := Start(LEDGER, DEFAULT_DEPTH);
    EmitReferenceCases(ENTRY, [], st.Descend(), fuel);
    assert Emit(JOURNAL[0].ty, st, fuel) == Value(Array([ENTRY_SAMPLE]));
    var member := Entry("fields", Array([ENTRY_SAMPLE]));
    assert JOURNAL[1..] == [];
    assert [member] + [] == [member];
    assert EmitFields(JOURNAL, st, fuel) == Value([member]);
    DistinctLiteral([member]);
  }

  lemma JournalIsWire()
    ensures IsRecordWireJson(JOURNAL_PAYLOAD)
  {
    assert HOLDER_SAMPLE.members[0].key == "party";
    assert IsValueJson(HOLDER_SAMPLE);
    assert ENTRY_SAMPLE.members[0].key == "value";
    assert IsRecordFieldJson(ENTRY_SAMPLE);
    assert JOURNAL_PAYLOAD.members[0].key == "fields";
    assert AreFields([ENTRY_SAMPLE]);
  }
}
