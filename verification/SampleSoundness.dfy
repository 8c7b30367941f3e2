/**
 * Soundness of generated specs: decoding the ledger sample and materialising the result gives the
 * TypeScript sample, and the two emitters succeed or fail together.
 */
module SampleSoundness {
  import opened Wrappers
  import opened JsValues
  import opened DamlTypes
  import opened DescriptorCompiler
  import opened LedgerValues
  import opened ValueConverter
  import opened ValueMaterializer
  import opened SampleEmitter
  import opened ScopedTypes
  import Decimals
  import DamlNumerics

  /** What a generated spec asserts of one sample. */
  ghost predicate RoundTrips(ledger: Js, typeScript: Js, d: Descriptor, project: Project) {
    var decoded := DecodeJson(ledger, d, project);
    decoded.Ok? && Materialize(decoded.value) == typeScript
  }

  /** Both emitters have the same outcome; samples round trip, or, if `spoiled`, cannot be decoded at all. */
  ghost predicate Tracks(ledger: Outcome<Js>, typeScript: Outcome<Js>, d: Descriptor, project: Project, spoiled: bool) {
    if ledger.Value? then
      && typeScript.Value?
      && (!spoiled ==> RoundTrips(ledger.value, typeScript.value, d, project))
      && (spoiled ==> DecodeJson(ledger.value, d, project).Err?)
    else typeScript == ledger
  }

  ghost predicate FieldsRoundTrip(ledger: seq<Entry<Js>>, typeScript: seq<Entry<Js>>, ds: seq<FieldDescriptor>,
      project: Project)
    requires |ledger| == |typeScript| == |ds|
  {
    forall i :: 0 <= i < |ds| ==> RoundTrips(ledger[i].value, typeScript[i].value, ds[i].ty, project)
  }

  ghost predicate SomeFieldFails(ledger: seq<Entry<Js>>, ds: seq<FieldDescriptor>, project: Project)
    requires |ledger| == |ds|
  {
    exists i :: 0 <= i < |ds| && DecodeJson(ledger[i].value, ds[i].ty, project).Err?
  }

  ghost predicate SameKeys(ledger: seq<Entry<Js>>, typeScript: seq<Entry<Js>>, ds: seq<FieldDescriptor>) {
    && |ledger| == |typeScript| == |ds|
    && forall i :: 0 <= i < |ds| ==> ledger[i].key == ds[i].damlLabel && typeScript[i].key == ds[i].propertyName
  }

  ghost predicate TracksFields(ledger: Outcome<seq<Entry<Js>>>, typeScript: Outcome<seq<Entry<Js>>>,
      ds: seq<FieldDescriptor>, project: Project, spoiled: bool) {
    if ledger.Value? then
      && typeScript.Value?
      && SameKeys(ledger.value, typeScript.value, ds)
      && (!spoiled ==> FieldsRoundTrip(ledger.value, typeScript.value, ds, project))
      && (spoiled ==> SomeFieldFails(ledger.value, ds, project))
    else typeScript == ledger
  }

  // ----- records -----

  lemma {:induction false} PutKeepsDistinct<V>(members: seq<Entry<V>>, entries: seq<Entry<V>>)
    requires DistinctKeys(members)
    ensures DistinctKeys(PutAll(members, entries))
    decreases entries
  {
    if entries != [] {
      PutKeepsDistinct(Put(members, entries[0].key, entries[0].value), entries[1..]);
    }
  }

  lemma {:induction false} FindMaterialized(fields: seq<Entry<Decoded>>, key: string)
    ensures Find(MaterializeFields(fields), key) == Find(fields, key)
  {
    if fields != [] {
      FindMaterialized(fields[1..], key);
      assert MaterializeFields(fields)[1..] == MaterializeFields(fields[1..]);
    }
  }

  lemma {:induction false} MaterializeFieldsAt(fields: seq<Entry<Decoded>>, i: nat)
    requires i < |fields|
    ensures MaterializeFields(fields)[i].value == Materialize(fields[i].value)
  {
    if i > 0 {
      MaterializeFieldsAt(fields[1..], i - 1);
    }
  }

  lemma MaterializePut(members: seq<Entry<Decoded>>, key: string, value: Decoded)
    ensures MaterializeFields(Put(members, key, value)) == Put(MaterializeFields(members), key, Materialize(value))
  {
    FindMaterialized(members, key);
    var after := Put(members, key, value);
    forall i | 0 <= i < |after|
      ensures MaterializeFields(after)[i] == Put(MaterializeFields(members), key, Materialize(value))[i]
    {
      MaterializeFieldsAt(after, i);
      if i < |members| {
        MaterializeFieldsAt(members, i);
      }
    }
  }

  lemma {:induction false} MaterializePutAll(members: seq<Entry<Decoded>>, entries: seq<Entry<Decoded>>)
    ensures MaterializeFields(PutAll(members, entries))
         == PutAll(MaterializeFields(members), MaterializeFields(entries))
    decreases entries
  {
    if entries != [] {
      MaterializePut(members, entries[0].key, entries[0].value);
      MaterializePutAll(Put(members, entries[0].key, entries[0].value), entries[1..]);
      assert MaterializeFields(entries)[1..] == MaterializeFields(entries[1..]);
    }
  }

  lemma DistinctLiteral(entries: seq<Entry<Js>>)
    requires DistinctKeys(entries)
    ensures ObjectLiteral(entries) == Object(Plain, entries)
  {
    assert [] + entries == entries;
    PutAllDistinct([], entries);
  }

  /** A record built by assignments materialises to the object literal of its materialised fields. */
  lemma MaterializeRecord(entries: seq<Entry<Decoded>>)
    ensures Materialize(RecordValue(PutAll([], entries))) == ObjectLiteral(MaterializeFields(entries))
  {
    var literal := PutAll([], MaterializeFields(entries));
    MaterializePutAll([], entries);
    PutKeepsDistinct([], MaterializeFields(entries));
    DistinctLiteral(literal);
  }

  ghost predicate LabelDecodes(value: Js, d: FieldDescriptor, project: Project)
    requires value.Object?
  {
    var j := Find(value.members, d.damlLabel);
    j >= 0 && DecodeJson(value.members[j].value, d.ty, project).Ok?
  }

  ghost function LabelOutput(value: Js, d: FieldDescriptor, project: Project): Entry<Decoded>
    requires value.Object? && LabelDecodes(value, d, project)
  {
    Entry(d.propertyName, DecodeJson(value.members[Find(value.members, d.damlLabel)].value, d.ty, project).value)
  }

  /** A record whose labels all decode is decoded field by field. */
  lemma {:induction false} LabelledOutputs(value: Js, ds: seq<FieldDescriptor>, project: Project)
    requires value.Object? && forall i :: 0 <= i < |ds| ==> LabelDecodes(value, ds[i], project)
    ensures var output := DecodeLabelled(value, ds, project);
            && output.Ok? && |output.value| == |ds|
            && forall i :: 0 <= i < |ds| ==> output.value[i] == LabelOutput(value, ds[i], project)
    decreases ds
  {
    hide DecodeJson;
    if ds != [] {
      LabelledOutputs(value, ds[1..], project);
      var output := DecodeLabelled(value, ds, project);
      assert LabelDecodes(value, ds[0], project);
      assert output.value == [LabelOutput(value, ds[0], project)] + DecodeLabelled(value, ds[1..], project).value;
    }
  }

  lemma {:induction false} LabelledDecodes(value: Js, typeScript: seq<Entry<Js>>, ds: seq<FieldDescriptor>,
      project: Project)
    requires value.Object?
    requires |typeScript| == |ds|
    requires forall i :: 0 <= i < |ds| ==> typeScript[i].key == ds[i].propertyName
    requires forall i :: 0 <= i < |ds| ==>
               var j := Find(value.members, ds[i].damlLabel);
               j >= 0 && RoundTrips(value.members[j].value, typeScript[i].value, ds[i].ty, project)
    ensures var output := DecodeLabelled(value, ds, project);
            output.Ok? && MaterializeFields(output.value) == typeScript
  {
    hide DecodeJson, Materialize, Find, DecodeLabelled, MaterializeFields;
    forall i | 0 <= i < |ds|
      ensures LabelDecodes(value, ds[i], project)
      ensures Materialize(LabelOutput(value, ds[i], project).value) == typeScript[i].value
    {
    }
    LabelledOutputs(value, ds, project);
    var output := DecodeLabelled(value, ds, project).value;
    forall i | 0 <= i < |ds|
      ensures MaterializeFields(output)[i] == typeScript[i]
    {
      MaterializeFieldsAt(output, i);
    }
  }

  lemma {:induction false} LabelledFails(value: Js, ds: seq<FieldDescriptor>, project: Project, i: nat)
    requires value.Object? && i < |ds|
    requires var j := Find(value.members, ds[i].damlLabel);
             j >= 0 ==> DecodeJson(value.members[j].value, ds[i].ty, project).Err?
    ensures DecodeLabelled(value, ds, project).Err?
    decreases ds
  {
    if i > 0 {
      LabelledFails(value, ds[1..], project, i - 1);
    }
  }

  lemma {:induction false} LabelsExpected(ledger: seq<Entry<Js>>, ds: seq<FieldDescriptor>)
    requires |ledger| == |ds|
    requires forall i :: 0 <= i < |ds| ==> ledger[i].key == ds[i].damlLabel
    requires forall i, j :: 0 <= i < j < |ds| ==> ds[i].damlLabel != ds[j].damlLabel
    ensures OnlyExpected(ledger, ds)
    ensures ObjectLiteral(ledger) == Object(Plain, ledger)
    ensures forall i :: 0 <= i < |ds| ==> Find(ledger, ds[i].damlLabel) == i
  {
    hide Find, ObjectLiteral;
    forall j | 0 <= j < |ledger|
      ensures HasLabel(ds, ledger[j].key)
    {
      assert ds[j].damlLabel == ledger[j].key;
    }
    assert DistinctKeys(ledger);
    LiteralAsWritten(ledger);
    forall i | 0 <= i < |ds|
      ensures Find(ledger, ds[i].damlLabel) == i
    {
      FindDistinct(ledger, i);
    }
  }

  lemma LiteralAsWritten(entries: seq<Entry<Js>>)
    requires DistinctKeys(entries)
    ensures ObjectLiteral(entries) == Object(Plain, entries)
  {
    assert [] + entries == entries;
    PutAllDistinct([], entries);
  }

  lemma FindDistinct(entries: seq<Entry<Js>>, i: nat)
    requires DistinctKeys(entries) && i < |entries|
    ensures Find(entries, entries[i].key) == i
  {
    hide Find;
  }

  lemma {:induction false} RecordTracks(ledger: seq<Entry<Js>>, typeScript: seq<Entry<Js>>, ds: seq<FieldDescriptor>,
      project: Project, spoiled: bool)
    requires SameKeys(ledger, typeScript, ds)
    requires forall i, j :: 0 <= i < j < |ds| ==> ds[i].damlLabel != ds[j].damlLabel
    requires !spoiled ==> FieldsRoundTrip(ledger, typeScript, ds, project)
    requires spoiled ==> SomeFieldFails(ledger, ds, project)
    ensures Tracks(Value(ObjectLiteral(ledger)), Value(ObjectLiteral(typeScript)), DRecord(ds), project, spoiled)
  {
    LabelsExpected(ledger, ds);
    var value := Object(Plain, ledger);
    if spoiled {
      var i :| 0 <= i < |ds| && DecodeJson(ledger[i].value, ds[i].ty, project).Err?;
      LabelledFails(value, ds, project, i);
      RecordDecodes(ledger, ds, project);
    } else {
      LabelledDecodes(value, typeScript, ds, project);
      RecordDecodes(ledger, ds, project);
      MaterializeRecord(DecodeLabelled(value, ds, project).value);
    }
  }

  lemma RecordDecodes(members: seq<Entry<Js>>, ds: seq<FieldDescriptor>, project: Project)
    requires OnlyExpected(members, ds)
    ensures var value := Object(Plain, members);
            var output := DecodeLabelled(value, ds, project);
            DecodeJson(value, DRecord(ds), project)
            == if output.Ok? then Ok(RecordValue(PutAll([], output.value))) else Err
  {
  }

  lemma {:induction false} LabelsKept(fields: seq<Field>, substitution: map<int, Descriptor>, i: nat)
    requires CompileFields(fields, substitution).Ok? && i < |fields|
    ensures CompileFields(fields, substitution).value[i].damlLabel == fields[i].damlLabel
    decreases fields
  {
    if i > 0 {
      LabelsKept(fields[1..], substitution, i - 1);
    }
  }

  lemma RecordOutcomeTracks(fields: seq<Field>, substitution: map<int, Descriptor>, ledger: Outcome<seq<Entry<Js>>>,
      typeScript: Outcome<seq<Entry<Js>>>, project: Project, spoiled: bool)
    requires DistinctLabels(fields) && CompileFields(fields, substitution).Ok?
    requires TracksFields(ledger, typeScript, CompileFields(fields, substitution).value, project, spoiled)
    requires ledger.Value?
    ensures Tracks(Value(ObjectLiteral(ledger.value)), Value(ObjectLiteral(typeScript.value)),
                   DRecord(CompileFields(fields, substitution).value), project, spoiled)
  {
    var ds := CompileFields(fields, substitution).value;
    forall i, j | 0 <= i < j < |ds|
      ensures ds[i].damlLabel != ds[j].damlLabel
    {
      LabelsKept(fields, substitution, i);
      LabelsKept(fields, substitution, j);
    }
    RecordTracks(ledger.value, typeScript.value, ds, project, spoiled);
  }

  // ----- primitives and containers -----

  lemma PrimitiveTracks(builtin: Primitive, scale: Option<int>, project: Project)
    requires ValidScale(builtin, scale)
    ensures Tracks(EmitPrimitive(builtin, scale, Ledger), EmitPrimitive(builtin, scale, TypeScript),
                   DPrim(builtin, scale), project, false)
  {
    match builtin
    case Int64 => IntegerSamplesDecode();
    case Timestamp => IntegerSamplesDecode();
    case Numeric => NumericTracks(scale, project);
    case _ =>
  }

  /** What the ledger sample of each primitive type means. */
  lemma PrimitiveSampleMeans(builtin: Primitive, scale: Option<int>, project: Project)
    requires ValidScale(builtin, scale)
    ensures var sample := EmitPrimitive(builtin, scale, Ledger);
            && sample.Value?
            && DecodeJson(sample.value, DPrim(builtin, scale), project) == Ok(
                 match builtin
                 case Unit => UnitValue
                 case Bool => BoolValue(true)
                 case Int64 => Int64Value(1)
                 case Date => DateValue(1)
                 case Timestamp => TimestampValue("1000000")
                 case Numeric =>
                   NumericValue(if scale.None? || scale.value == 0 then "1" else "1." + seq(scale.value, _ => '0'))
                 case Party => PartyValue("Alice")
                 case Text => TextValue("sample text"))
  {
    match builtin
    case Int64 => IntegerSamplesDecode();
    case Timestamp => IntegerSamplesDecode();
    case Numeric =>
      NumericSampleDecodes(scale);
      if scale.Some? {
        ZerosSpelled(scale.value);
      }
    case _ =>
  }

  lemma {:induction false} ZerosSpelled(count: nat)
    ensures DamlNumerics.Zeros(count) == seq(count, _ => '0')
  {
    if count > 0 {
      ZerosSpelled(count - 1);
    }
  }

  lemma IntegerSamplesDecode()
    ensures DecodeInt64("1") == Ok(1)
    ensures DecodeTimestamp("1000000") == Ok("1000000")
  {
    Decimals.IntTextRoundTrip(1);
    assert Decimals.NatText(1) == "1";
    assert Decimals.NatText(10) == "10";
    assert Decimals.NatText(100) == "100";
    assert Decimals.NatText(1000) == "1000";
    assert Decimals.NatText(10000) == "10000";
    assert Decimals.NatText(100000) == "100000";
    assert Decimals.IntText(1000000) == "1000000";
    Decimals.IntTextRoundTrip(1000000);
  }

  lemma NumericTracks(scale: Option<int>, project: Project)
    requires ValidScale(Numeric, scale)
    ensures Tracks(EmitPrimitive(Numeric, scale, Ledger), EmitPrimitive(Numeric, scale, TypeScript),
                   DPrim(Numeric, scale), project, false)
  {
    hide DamlNumerics.DecodeNumeric;
    NumericSampleDecodes(scale);
    NumericTextTracks(NumericSample(scale).value, scale, project);
  }

  lemma NumericTextTracks(text: string, scale: Option<int>, project: Project)
    requires DamlNumerics.DecodeNumeric(text, scale) == Ok(text)
    ensures Tracks(Value(JsValues.Text(text)), Value(NumericObject(text)), DPrim(Numeric, scale), project, false)
  {
    hide DamlNumerics.DecodeNumeric;
  }

  lemma OneWithZeros(n: nat)
    ensures var text := if n == 0 then "1" else "1." + DamlNumerics.Zeros(n);
            && DamlNumerics.IsDamlNumeric(text)
            && DamlNumerics.Precision(text) == n + 1
            && DamlNumerics.Scale(text) == n
  {
    var zeros := DamlNumerics.Zeros(n);
    var text := if n == 0 then "1" else "1." + zeros;
    assert n > 0 ==> "1." + zeros == "1" + "." + zeros;
    assert text == DamlNumerics.Body("1", zeros);
    DamlNumerics.BodyParts("1", zeros);
    assert DamlNumerics.Signed(false, text) == text;
    DamlNumerics.SignedParts(false, text);
  }

  /** The numeric sample of scale s has s fraction digits and is its own canonical form. */
  lemma NumericSampleDecodes(scale: Option<int>)
    requires scale.Some? ==> 0 <= scale.value <= DamlNumerics.MAX_SCALE
    ensures NumericSample(scale).Value?
    ensures DamlNumerics.DecodeNumeric(NumericSample(scale).value, scale) == Ok(NumericSample(scale).value)
  {
    OneWithZeros(if scale.None? then 0 else scale.value);
    CanonicalDecodes(NumericSample(scale).value, scale);
  }

  lemma CanonicalDecodes(text: string, scale: Option<int>)
    requires scale.Some? ==> 0 <= scale.value <= DamlNumerics.MAX_SCALE
    requires DamlNumerics.IsDamlNumeric(text)
    requires DamlNumerics.Scale(text) <= if scale.Some? then scale.value else DamlNumerics.MAX_SCALE
    requires DamlNumerics.Precision(text) <= DamlNumerics.MAX_PRECISION
    ensures DamlNumerics.DecodeNumeric(text, scale) == Ok(text)
  {
    DamlNumerics.DamlNumericIsCanonical(text);
  }

  lemma VariantTracks(name: string, ledger: Js, typeScript: Js, ds: seq<ConstructorDescriptor>, c: nat,
      project: Project, spoiled: bool)
    requires c < |ds| && ds[c].name == name && FindConstructor(ds, name) == c
    requires Tracks(Value(ledger), Value(typeScript), ds[c].payload, project, spoiled)
    ensures Tracks(Value(VariantObject(name, ledger)), Value(VariantObject(name, typeScript)), DVariant(ds), project,
                   spoiled)
  {
    var members := VariantObject(name, ledger).members;
    assert Find(members, "tag") == 0;
    assert members[1].key == "value";
    assert Find(members, "value") == 1;
  }

  lemma {:induction false} ConstructorsKept(constructors: seq<Constructor>, substitution: map<int, Descriptor>, i: nat)
    requires CompileConstructors(constructors, substitution).Ok? && i < |constructors|
    ensures CompileConstructors(constructors, substitution).value[i].name == constructors[i].name
    ensures Compile(constructors[i].payload, substitution)
         == Ok(CompileConstructors(constructors, substitution).value[i].payload)
    decreases constructors
  {
    if i > 0 {
      ConstructorsKept(constructors[1..], substitution, i - 1);
    }
  }

  lemma ConstructorFound(constructors: seq<Constructor>, substitution: map<int, Descriptor>, i: nat)
    requires DistinctNames(constructors) && CompileConstructors(constructors, substitution).Ok? && i < |constructors|
    ensures FindConstructor(CompileConstructors(constructors, substitution).value, constructors[i].name) == i
  {
    var ds := CompileConstructors(constructors, substitution).value;
    forall j | 0 <= j < |ds|
      ensures ds[j].name == constructors[j].name
    {
      ConstructorsKept(constructors, substitution, j);
    }
  }

  lemma TracksFieldsCons(ledger: Outcome<Js>, typeScript: Outcome<Js>, d: FieldDescriptor, spoiled: bool,
      ledgerRest: Outcome<seq<Entry<Js>>>, typeScriptRest: Outcome<seq<Entry<Js>>>, ds: seq<FieldDescriptor>,
      spoiledRest: bool, project: Project)
    requires ledger.Value? && ledgerRest.Value?
    requires Tracks(ledger, typeScript, d.ty, project, spoiled)
    requires TracksFields(ledgerRest, typeScriptRest, ds, project, spoiledRest)
    ensures TracksFields(Value([Entry(d.damlLabel, ledger.value)] + ledgerRest.value),
                         Value([Entry(d.propertyName, typeScript.value)] + typeScriptRest.value),
                         [d] + ds, project, spoiled || spoiledRest)
  {
    var l := [Entry(d.damlLabel, ledger.value)] + ledgerRest.value;
    if spoiled {
      assert DecodeJson(l[0].value, ([d] + ds)[0].ty, project).Err?;
    } else if spoiledRest {
      var i :| 0 <= i < |ds| && DecodeJson(ledgerRest.value[i].value, ds[i].ty, project).Err?;
      assert DecodeJson(l[i + 1].value, ([d] + ds)[i + 1].ty, project).Err?;
    }
  }

  // ----- finite samples -----

  predicate Leaf(t: DamlType) {
    t.ContractId? || t.Optional? || t.List? || t.TextMap? || t.GenMap? || t.Enum?
  }

  /** Absent, empty and constant samples. */
  lemma FiniteLeafTracks(t: DamlType, substitution: map<int, Descriptor>, bindings: Bindings, project: Project,
      visited: set<Fingerprint>, fuel: nat)
    requires Leaf(t) && Compile(t, substitution).Ok?
    ensures Tracks(EmitFinite(t, Ledger, project, bindings, visited, fuel),
                   EmitFinite(t, TypeScript, project, bindings, visited, fuel),
                   Compile(t, substitution).value, project, false)
  {
  }

  lemma {:induction false} FiniteTracks(t: DamlType, scope: Scope, bindings: Bindings,
      substitution: map<int, Descriptor>, project: Project, visited: set<Fingerprint>, fuel: nat)
    requires WellFormed(project)
    requires Scoped(t, scope, project.definitions, true) && Linked(scope, bindings, substitution, project.definitions)
    ensures Compile(t, substitution).Ok?
    ensures Tracks(EmitFinite(t, Ledger, project, bindings, visited, fuel),
                   EmitFinite(t, TypeScript, project, bindings, visited, fuel),
                   Compile(t, substitution).value, project, false)
    decreases fuel, t
  {
    CompileResolved(t, scope, bindings, substitution, project.definitions, true);
    if Leaf(t) {
      FiniteLeafTracks(t, substitution, bindings, project, visited, fuel);
    } else {
      match t
      case Prim(builtin, scale) => PrimitiveTracks(builtin, scale, project);
      case Record(fields) =>
        FiniteFieldsTrack(fields, scope, bindings, substitution, project, visited, fuel);
        var ledger := EmitFiniteFields(fields, Ledger, project, bindings, visited, fuel);
        if ledger.Value? {
          RecordOutcomeTracks(fields, substitution, ledger,
                              EmitFiniteFields(fields, TypeScript, project, bindings, visited, fuel), project, false);
        }
      case Variant(constructors) =>
        FirstFiniteTracks(constructors, 0, scope, bindings, substitution, project, visited, fuel);
      case Var(variable) =>
        assert LinkedAt(variable.index, scope[variable.index], bindings, substitution, project.definitions);
        if fuel > 0 {
          InlineWeaker(bindings[variable], map[], project.definitions);
          FiniteTracks(bindings[variable], map[], bindings, map[], project, visited, fuel - 1);
        }
      case Ref(identity, arguments) =>
        if fuel > 0 {
          FiniteReferenceTracks(identity, arguments, scope, bindings, substitution, project, visited, fuel);
        }
    }
  }

  lemma ReferenceTracks(ledger: Outcome<Js>, typeScript: Outcome<Js>, identity: Identity, compiled: seq<Descriptor>,
      project: Project, spoiled: bool)
    requires Resolve(project, identity, compiled).Ok?
    requires Tracks(ledger, typeScript, Resolve(project, identity, compiled).value, project, spoiled)
    ensures Tracks(ledger, typeScript, DRef(identity, compiled), project, spoiled)
  {
  }

  lemma EnterFinite(identity: Identity, arguments: seq<DamlType>, representation: Representation, project: Project,
      bindings: Bindings, visited: set<Fingerprint>, fuel: nat)
    requires fuel > 0 && FingerprintsOf(arguments, bindings, fuel).Some?
    requires identity in project.definitions && |arguments| == |project.definitions[identity].Parameters()|
    ensures var key := FRef(identity, FingerprintsOf(arguments, bindings, fuel).value);
            var definition := project.definitions[identity];
            EmitFinite(Ref(identity, arguments), representation, project, bindings, visited, fuel) ==
            if key in visited then Missing
            else EmitFinite(Body(identity, definition, SampleNames(project.files, identity)), representation, project,
                            BindVariables(bindings, definition.Parameters(), ResolveAll(arguments, bindings)),
                            visited + {key}, fuel - 1)
  {
  }

  lemma {:induction false} FiniteReferenceTracks(identity: Identity, arguments: seq<DamlType>, scope: Scope,
      bindings: Bindings, substitution: map<int, Descriptor>, project: Project, visited: set<Fingerprint>, fuel: nat)
    requires WellFormed(project) && fuel > 0
    requires Scoped(Ref(identity, arguments), scope, project.definitions, true)
    requires Linked(scope, bindings, substitution, project.definitions)
    ensures Compile(Ref(identity, arguments), substitution).Ok?
    ensures var t := Ref(identity, arguments);
            Tracks(EmitFinite(t, Ledger, project, bindings, visited, fuel),
                   EmitFinite(t, TypeScript, project, bindings, visited, fuel),
                   Compile(t, substitution).value, project, false)
    decreases fuel, arguments
  {
    EnterDefinition(project, identity, arguments, scope, bindings, substitution);
    var fingerprints := FingerprintsOf(arguments, bindings, fuel);
    if fingerprints.Some? {
      var definition := project.definitions[identity];
      var parameters := definition.Parameters();
      var body := Body(identity, definition, SampleNames(project.files, identity));
      var compiled := CompileAll(arguments, substitution).value;
      var extended := BindVariables(bindings, parameters, ResolveAll(arguments, bindings));
      var key := FRef(identity, fingerprints.value);
      FiniteTracks(body, ScopeOf(parameters), extended, BindIndices(map[], parameters, compiled), project,
                   visited + {key}, fuel - 1);
      ReferenceTracks(EmitFinite(body, Ledger, project, extended, visited + {key}, fuel - 1),
                      EmitFinite(body, TypeScript, project, extended, visited + {key}, fuel - 1),
                      identity, compiled, project, false);
      EnterFinite(identity, arguments, Ledger, project, bindings, visited, fuel);
      EnterFinite(identity, arguments, TypeScript, project, bindings, visited, fuel);
    }
  }

  lemma {:induction false} FiniteFieldsTrack(fields: seq<Field>, scope: Scope, bindings: Bindings,
      substitution: map<int, Descriptor>, project: Project, visited: set<Fingerprint>, fuel: nat)
    requires WellFormed(project)
    requires ScopedFields(fields, scope, project.definitions)
    requires Linked(scope, bindings, substitution, project.definitions)
    ensures CompileFields(fields, substitution).Ok?
    ensures TracksFields(EmitFiniteFields(fields, Ledger, project, bindings, visited, fuel),
                         EmitFiniteFields(fields, TypeScript, project, bindings, visited, fuel),
                         CompileFields(fields, substitution).value, project, false)
    decreases fuel, fields
  {
    if fields != [] {
      FiniteTracks(fields[0].ty, scope, bindings, substitution, project, visited, fuel);
      FiniteFieldsTrack(fields[1..], scope, bindings, substitution, project, visited, fuel);
      var ledger := EmitFinite(fields[0].ty, Ledger, project, bindings, visited, fuel);
      var rest := EmitFiniteFields(fields[1..], Ledger, project, bindings, visited, fuel);
      if ledger.Value? && rest.Value? {
        var d := Compile(fields[0].ty, substitution).value;
        TracksFieldsCons(ledger, EmitFinite(fields[0].ty, TypeScript, project, bindings, visited, fuel),
                         FieldDescriptor(fields[0].damlLabel, fields[0].propertyName, d), false,
                         rest, EmitFiniteFields(fields[1..], TypeScript, project, bindings, visited, fuel),
                         CompileFields(fields[1..], substitution).value, false, project);
      }
    }
  }

  /** Constructors are tried in order; the chosen one decodes by its own name. */
  lemma {:induction false} FirstFiniteTracks(constructors: seq<Constructor>, i: nat, scope: Scope, bindings: Bindings,
      substitution: map<int, Descriptor>, project: Project, visited: set<Fingerprint>, fuel: nat)
    requires WellFormed(project) && i <= |constructors|
    requires DistinctNames(constructors) && ScopedConstructors(constructors[i..], scope, project.definitions)
    requires CompileConstructors(constructors, substitution).Ok?
    requires Linked(scope, bindings, substitution, project.definitions)
    ensures Tracks(EmitFirstFinite(constructors[i..], Ledger, project, bindings, visited, fuel),
                   EmitFirstFinite(constructors[i..], TypeScript, project, bindings, visited, fuel),
                   DVariant(CompileConstructors(constructors, substitution).value), project, false)
    decreases fuel, constructors[i..]
  {
    var rest := constructors[i..];
    if rest != [] {
      var c := rest[0];
      FiniteTracks(c.payload, scope, bindings, substitution, project, visited, fuel);
      ConstructorsKept(constructors, substitution, i);
      ConstructorFound(constructors, substitution, i);
      assert rest[1..] == constructors[i + 1..];
      FirstFiniteTracks(constructors, i + 1, scope, bindings, substitution, project, visited, fuel);
      var ledger := EmitFinite(c.payload, Ledger, project, bindings, visited, fuel);
      if ledger.Value? {
        var typeScript := EmitFinite(c.payload, TypeScript, project, bindings, visited, fuel);
        VariantTracks(c.name, ledger.value, typeScript.value, CompileConstructors(constructors, substitution).value, i,
                      project, false);
      }
    }
  }

  // ----- representative samples -----

  /**
   * The one flaw of the emitter above the depth limit: an enum without constructors is emitted as
   * the text of `undefined`. This is where the traversal meets such an enum.
   */
  predicate ReachesEmptyEnum(t: DamlType, st: State, fuel: nat)
    decreases fuel, t
  {
    st.depth > 0 &&
    match t
    case List(element) => ReachesEmptyEnum(element, st.Descend(), fuel)
    case TextMap(value) => ReachesEmptyEnum(value, st.Descend(), fuel)
    case GenMap(key, value) => ReachesEmptyEnum(key, st.Descend(), fuel) || ReachesEmptyEnum(value, st.Descend(), fuel)
    case Record(fields) => FieldsReachEmptyEnum(fields, st.Descend(), fuel)
    case Variant(constructors) => constructors != [] && ReachesEmptyEnum(constructors[0].payload, st.Descend(), fuel)
    case Enum(names) => names == []
    case Var(variable) => variable in st.bindings && fuel > 0 && ReachesEmptyEnum(st.bindings[variable], st, fuel - 1)
    case Ref(identity, arguments) =>
      fuel > 0 && st.depth > 1 && Enters(identity, arguments, st, fuel)
      && ReachesEmptyEnum(Entered(identity, st), Inside(identity, arguments, st, fuel), fuel - 1)
    case _ => false
  }

  predicate FieldsReachEmptyEnum(fields: seq<Field>, st: State, fuel: nat)
    decreases fuel, fields
  {
    fields != [] && (ReachesEmptyEnum(fields[0].ty, st, fuel) || FieldsReachEmptyEnum(fields[1..], st, fuel))
  }

  /** A reference to a definition that is not being emitted already. */
  predicate Enters(identity: Identity, arguments: seq<DamlType>, st: State, fuel: nat) {
    && FingerprintsOf(arguments, st.bindings, fuel).Some?
    && FRef(identity, FingerprintsOf(arguments, st.bindings, fuel).value) !in st.active
    && identity in st.project.definitions
    && |arguments| == |st.project.definitions[identity].Parameters()|
  }

  function Entered(identity: Identity, st: State): DamlType
    requires identity in st.project.definitions
  {
    Body(identity, st.project.definitions[identity], SampleNames(st.project.files, identity))
  }

  function Inside(identity: Identity, arguments: seq<DamlType>, st: State, fuel: nat): State
    requires Enters(identity, arguments, st, fuel)
  {
    st.(depth := st.depth - 1,
        active := st.active + {FRef(identity, FingerprintsOf(arguments, st.bindings, fuel).value)},
        bindings := BindVariables(st.bindings, st.project.definitions[identity].Parameters(),
                                  ResolveAll(arguments, st.bindings)))
  }

  function As(st: State, representation: Representation): State {
    st.(representation := representation)
  }

  lemma FiniteBoundaryTracks(t: DamlType, scope: Scope, substitution: map<int, Descriptor>, st: State, fuel: nat)
    requires WellFormed(st.project)
    requires Scoped(t, scope, st.project.definitions, true)
    requires Linked(scope, st.bindings, substitution, st.project.definitions)
    ensures Compile(t, substitution).Ok?
    ensures Tracks(As(st, Ledger).Finite(t, fuel), As(st, TypeScript).Finite(t, fuel), Compile(t, substitution).value,
                   st.project, false)
  {
    FiniteTracks(t, scope, st.bindings, substitution, st.project, {}, fuel);
  }

  lemma ListTracks(ledger: Js, typeScript: Js, d: Descriptor, project: Project, spoiled: bool)
    requires Tracks(Value(ledger), Value(typeScript), d, project, spoiled)
    ensures Tracks(Value(Array([ledger])), Value(Array([typeScript])), DList(d), project, spoiled)
  {
    var decoded := DecodeJson(ledger, d, project);
    assert [ledger][1..] == [];
    if decoded.Ok? {
      assert [decoded.value] + [] == [decoded.value];
      assert DecodeJsonAll([ledger], d, project) == Ok([decoded.value]);
      assert MaterializeAll([decoded.value]) == [Materialize(decoded.value)];
    }
  }

  lemma TextMapDecodes(entries: seq<Entry<Js>>, d: Descriptor, project: Project)
    ensures var decoded := DecodeJsonEntries(entries, d, project);
            DecodeJson(Object(Plain, entries), DTextMap(d), project)
            == if decoded.Ok? then Ok(TextMapValue(decoded.value)) else Err
  {
  }

  lemma TextMapTracks(ledger: Js, typeScript: Js, d: Descriptor, project: Project, spoiled: bool)
    requires Tracks(Value(ledger), Value(typeScript), d, project, spoiled)
    ensures Tracks(Value(Object(Plain, [Entry(SAMPLE_KEY, ledger)])),
                   Value(JsMap([Pair(JsValues.Text(SAMPLE_KEY), typeScript)])), DTextMap(d), project, spoiled)
  {
    hide DecodeJson;
    var decoded := DecodeJson(ledger, d, project);
    var entries := [Entry(SAMPLE_KEY, ledger)];
    assert entries[1..] == [];
    TextMapDecodes(entries, d, project);
    if decoded.Ok? {
      var output := [Entry(SAMPLE_KEY, decoded.value)];
      assert output + [] == output;
      assert DecodeJsonEntries(entries, d, project) == Ok(output);
      var pair := Pair(JsValues.Text(SAMPLE_KEY), Materialize(decoded.value));
      assert MaterializeEntries(output) == [pair];
      SingletonMap(pair);
    }
  }

  lemma SingletonMap(pair: Pair<Js>)
    ensures MapSetAll([], [pair]) == [pair]
  {
    assert [pair][1..] == [];
  }

  lemma SingletonPairs(ledgerKey: Js, ledger: Js, k: Descriptor, d: Descriptor, project: Project)
    ensures var key, decoded := DecodeJson(ledgerKey, k, project), DecodeJson(ledger, d, project);
            DecodeJson(Array([Array([ledgerKey, ledger])]), DGenMap(k, d), project)
            == if key.Ok? && decoded.Ok? then Ok(GenMapValue([Pair(key.value, decoded.value)])) else Err
  {
    var key, decoded := DecodeJson(ledgerKey, k, project), DecodeJson(ledger, d, project);
    var entry := Array([ledgerKey, ledger]);
    assert [entry][1..] == [];
    if key.Ok? && decoded.Ok? {
      var output := [Pair(key.value, decoded.value)];
      assert output + [] == output;
      assert DecodeJsonPairs([entry], k, d, project) == Ok(output);
    }
  }

  lemma GenMapTracks(ledgerKey: Js, typeScriptKey: Js, k: Descriptor, spoiledKey: bool, ledger: Js, typeScript: Js,
      d: Descriptor, spoiled: bool, project: Project)
    requires Tracks(Value(ledgerKey), Value(typeScriptKey), k, project, spoiledKey)
    requires Tracks(Value(ledger), Value(typeScript), d, project, spoiled)
    ensures Tracks(Value(Array([Array([ledgerKey, ledger])])), Value(JsMap([Pair(typeScriptKey, typeScript)])),
                   DGenMap(k, d), project, spoiledKey || spoiled)
  {
    hide DecodeJson;
    SingletonPairs(ledgerKey, ledger, k, d, project);
    var key, decoded := DecodeJson(ledgerKey, k, project), DecodeJson(ledger, d, project);
    if key.Ok? && decoded.Ok? {
      var pair := Pair(Materialize(key.value), Materialize(decoded.value));
      assert MaterializePairs([Pair(key.value, decoded.value)]) == [pair];
      SingletonMap(pair);
    }
  }

  lemma {:induction false} EmitTracks(t: DamlType, scope: Scope, substitution: map<int, Descriptor>, st: State,
      fuel: nat)
    requires WellFormed(st.project)
    requires Scoped(t, scope, st.project.definitions, true)
    requires Linked(scope, st.bindings, substitution, st.project.definitions)
    ensures Compile(t, substitution).Ok?
    ensures Tracks(Emit(t, As(st, Ledger), fuel), Emit(t, As(st, TypeScript), fuel), Compile(t, substitution).value,
                   st.project, ReachesEmptyEnum(t, st, fuel))
    decreases fuel, t
  {
    hide DecodeJson, Materialize;
    CompileResolved(t, scope, st.bindings, substitution, st.project.definitions, true);
    FiniteBoundaryTracks(t, scope, substitution, st, fuel);
    if st.depth > 0 {
      match t
      case Prim(builtin, scale) => PrimitiveTracks(builtin, scale, st.project);
      case List(element) =>
        EmitTracks(element, scope, substitution, st.Descend(), fuel);
        var ledger := Emit(element, As(st, Ledger).Descend(), fuel);
        var typeScript := Emit(element, As(st, TypeScript).Descend(), fuel);
        if ledger.Value? {
          ListTracks(ledger.value, typeScript.value, Compile(element, substitution).value, st.project,
                     ReachesEmptyEnum(element, st.Descend(), fuel));
        }
      case TextMap(value) =>
        EmitTracks(value, scope, substitution, st.Descend(), fuel);
        var ledger := Emit(value, As(st, Ledger).Descend(), fuel);
        var typeScript := Emit(value, As(st, TypeScript).Descend(), fuel);
        if ledger.Value? {
          TextMapTracks(ledger.value, typeScript.value, Compile(value, substitution).value, st.project,
                        ReachesEmptyEnum(value, st.Descend(), fuel));
        }
      case GenMap(key, value) => EmitGenMapTracks(key, value, scope, substitution, st, fuel);
      case Record(fields) => EmitRecordTracks(fields, scope, substitution, st, fuel);
      case Variant(constructors) => EmitVariantTracks(constructors, scope, substitution, st, fuel);
      case Var(variable) =>
        assert LinkedAt(variable.index, scope[variable.index], st.bindings, substitution, st.project.definitions);
        if fuel > 0 {
          InlineWeaker(st.bindings[variable], map[], st.project.definitions);
          EmitTracks(st.bindings[variable], map[], map[], st, fuel - 1);
        }
      case Ref(identity, arguments) => EmitReferenceTracks(identity, arguments, scope, substitution, st, fuel);
      case _ => EmitLeafTracks(t, substitution, st, fuel);
    }
  }

  lemma EmitLeafTracks(t: DamlType, substitution: map<int, Descriptor>, st: State, fuel: nat)
    requires st.depth > 0 && (t.ContractId? || t.Optional? || t.Enum?) && Compile(t, substitution).Ok?
    ensures Tracks(Emit(t, As(st, Ledger), fuel), Emit(t, As(st, TypeScript), fuel), Compile(t, substitution).value,
                   st.project, ReachesEmptyEnum(t, st, fuel))
  {
  }

  lemma {:induction false} EmitGenMapTracks(key: DamlType, value: DamlType, scope: Scope,
      substitution: map<int, Descriptor>, st: State, fuel: nat)
    requires WellFormed(st.project) && st.depth > 0
    requires Scoped(GenMap(key, value), scope, st.project.definitions, true)
    requires Linked(scope, st.bindings, substitution, st.project.definitions)
    ensures var t := GenMap(key, value);
            && Compile(t, substitution).Ok?
            && Tracks(Emit(t, As(st, Ledger), fuel), Emit(t, As(st, TypeScript), fuel),
                      Compile(t, substitution).value, st.project, ReachesEmptyEnum(t, st, fuel))
    decreases fuel, GenMap(key, value), 0
  {
    hide DecodeJson, Materialize, RoundTrips, EmitFinite, Resolve;
    assert As(st, Ledger).Descend() == As(st.Descend(), Ledger);
    assert As(st, TypeScript).Descend() == As(st.Descend(), TypeScript);
    EmitTracks(key, scope, substitution, st.Descend(), fuel);
    EmitTracks(value, scope, substitution, st.Descend(), fuel);
    var ledgerKey := Emit(key, As(st, Ledger).Descend(), fuel);
    var typeScriptKey := Emit(key, As(st, TypeScript).Descend(), fuel);
    var ledger := Emit(value, As(st, Ledger).Descend(), fuel);
    var typeScript := Emit(value, As(st, TypeScript).Descend(), fuel);
    if ledgerKey.Value? && ledger.Value? {
      GenMapTracks(ledgerKey.value, typeScriptKey.value, Compile(key, substitution).value,
                   ReachesEmptyEnum(key, st.Descend(), fuel),
                   ledger.value, typeScript.value, Compile(value, substitution).value,
                   ReachesEmptyEnum(value, st.Descend(), fuel), st.project);
    }
  }

  lemma {:induction false} EmitRecordTracks(fields: seq<Field>, scope: Scope, substitution: map<int, Descriptor>,
      st: State, fuel: nat)
    requires WellFormed(st.project) && st.depth > 0
    requires Scoped(Record(fields), scope, st.project.definitions, true)
    requires Linked(scope, st.bindings, substitution, st.project.definitions)
    ensures var t := Record(fields);
            && Compile(t, substitution).Ok?
            && Tracks(Emit(t, As(st, Ledger), fuel), Emit(t, As(st, TypeScript), fuel),
                      Compile(t, substitution).value, st.project, ReachesEmptyEnum(t, st, fuel))
    decreases fuel, Record(fields), 0
  {
    EmitFieldsTrack(fields, scope, substitution, st.Descend(), fuel);
    var ledger := EmitFields(fields, As(st, Ledger).Descend(), fuel);
    var typeScript := EmitFields(fields, As(st, TypeScript).Descend(), fuel);
    if ledger.Value? {
      RecordOutcomeTracks(fields, substitution, ledger, typeScript, st.project,
                          FieldsReachEmptyEnum(fields, st.Descend(), fuel));
    }
  }

  lemma {:induction false} EmitFieldsTrack(fields: seq<Field>, scope: Scope, substitution: map<int, Descriptor>,
      st: State, fuel: nat)
    requires WellFormed(st.project)
    requires ScopedFields(fields, scope, st.project.definitions)
    requires Linked(scope, st.bindings, substitution, st.project.definitions)
    ensures CompileFields(fields, substitution).Ok?
    ensures TracksFields(EmitFields(fields, As(st, Ledger), fuel), EmitFields(fields, As(st, TypeScript), fuel),
                         CompileFields(fields, substitution).value, st.project, FieldsReachEmptyEnum(fields, st, fuel))
    decreases fuel, fields
  {
    if fields != [] {
      EmitTracks(fields[0].ty, scope, substitution, st, fuel);
      EmitFieldsTrack(fields[1..], scope, substitution, st, fuel);
      var ledger := Emit(fields[0].ty, As(st, Ledger), fuel);
      var rest := EmitFields(fields[1..], As(st, Ledger), fuel);
      if ledger.Value? && rest.Value? {
        var d := Compile(fields[0].ty, substitution).value;
        TracksFieldsCons(ledger, Emit(fields[0].ty, As(st, TypeScript), fuel),
                         FieldDescriptor(fields[0].damlLabel, fields[0].propertyName, d),
                         ReachesEmptyEnum(fields[0].ty, st, fuel),
                         rest, EmitFields(fields[1..], As(st, TypeScript), fuel),
                         CompileFields(fields[1..], substitution).value,
                         FieldsReachEmptyEnum(fields[1..], st, fuel), st.project);
      }
    }
  }

  lemma {:induction false} EmitVariantTracks(constructors: seq<Constructor>, scope: Scope,
      substitution: map<int, Descriptor>, st: State, fuel: nat)
    requires WellFormed(st.project) && st.depth > 0
    requires Scoped(Variant(constructors), scope, st.project.definitions, true)
    requires Linked(scope, st.bindings, substitution, st.project.definitions)
    ensures var t := Variant(constructors);
            && Compile(t, substitution).Ok?
            && Tracks(Emit(t, As(st, Ledger), fuel), Emit(t, As(st, TypeScript), fuel),
                      Compile(t, substitution).value, st.project, ReachesEmptyEnum(t, st, fuel))
    decreases fuel, Variant(constructors), 0
  {
    hide DecodeJson, Materialize, RoundTrips, FindConstructor, EmitFinite, Resolve;
    assert As(st, Ledger).Descend() == As(st.Descend(), Ledger);
    assert As(st, TypeScript).Descend() == As(st.Descend(), TypeScript);
    CompileResolvedConstructors(constructors, scope, st.bindings, substitution, st.project.definitions);
    if constructors != [] {
      var c := constructors[0];
      EmitTracks(c.payload, scope, substitution, st.Descend(), fuel);
      ConstructorsKept(constructors, substitution, 0);
      ConstructorFound(constructors, substitution, 0);
      var ledger := Emit(c.payload, As(st, Ledger).Descend(), fuel);
      var typeScript := Emit(c.payload, As(st, TypeScript).Descend(), fuel);
      if ledger.Value? {
        VariantTracks(c.name, ledger.value, typeScript.value, CompileConstructors(constructors, substitution).value, 0,
                      st.project, ReachesEmptyEnum(c.payload, st.Descend(), fuel));
      }
    }
  }

  lemma {:induction false} EmitReferenceTracks(identity: Identity, arguments: seq<DamlType>, scope: Scope,
      substitution: map<int, Descriptor>, st: State, fuel: nat)
    requires WellFormed(st.project) && st.depth > 0
    requires Scoped(Ref(identity, arguments), scope, st.project.definitions, true)
    requires Linked(scope, st.bindings, substitution, st.project.definitions)
    ensures var t := Ref(identity, arguments);
            && Compile(t, substitution).Ok?
            && Tracks(Emit(t, As(st, Ledger), fuel), Emit(t, As(st, TypeScript), fuel),
                      Compile(t, substitution).value, st.project, ReachesEmptyEnum(t, st, fuel))
    decreases fuel, Ref(identity, arguments), 0
  {
    hide DecodeJson, Materialize, Resolve;
    EnterDefinition(st.project, identity, arguments, scope, st.bindings, substitution);
    FiniteBoundaryTracks(Ref(identity, arguments), scope, substitution, st, fuel);
    if fuel > 0 && Enters(identity, arguments, st, fuel) && st.depth > 1 {
      var compiled := CompileAll(arguments, substitution).value;
      var parameters := st.project.definitions[identity].Parameters();
      var inside := Inside(identity, arguments, st, fuel);
      EmitTracks(Entered(identity, st), ScopeOf(parameters), BindIndices(map[], parameters, compiled), inside,
                 fuel - 1);
      ReferenceTracks(Emit(Entered(identity, st), As(inside, Ledger), fuel - 1),
                      Emit(Entered(identity, st), As(inside, TypeScript), fuel - 1),
                      identity, compiled, st.project, ReachesEmptyEnum(Entered(identity, st), inside, fuel - 1));
    }
    EmitReferenceCases(identity, arguments, As(st, Ledger), fuel);
    EmitReferenceCases(identity, arguments, As(st, TypeScript), fuel);
  }

  lemma EmitReferenceCases(identity: Identity, arguments: seq<DamlType>, st: State, fuel: nat)
    requires st.depth > 0
    requires identity in st.project.definitions && |arguments| == |st.project.definitions[identity].Parameters()|
    ensures Emit(Ref(identity, arguments), st, fuel) ==
            if fuel == 0 || FingerprintsOf(arguments, st.bindings, fuel).None? then Diverges
            else if Enters(identity, arguments, st, fuel) && st.depth > 1 then
              Emit(Entered(identity, st), Inside(identity, arguments, st, fuel), fuel - 1)
            else st.Finite(Ref(identity, arguments), fuel)
  {
  }
}
