/**
 * What the emitted ledger samples are, said of the descriptors that decode them: constants, first
 * constructors, one element a container above the depth limit and none below it.
 */
module SampleShapes {
  import opened Wrappers
  import opened JsValues
  import opened DamlTypes
  import opened DescriptorCompiler
  import opened SampleEmitter
  import opened ScopedTypes
  import opened SampleSoundness
  import DamlNumerics

  ghost predicate IsPrimitiveSample(js: Js, builtin: Primitive, scale: Option<int>) {
    match builtin
    case Unit => js == Object(Plain, [])
    case Bool => js == Boolean(true)
    case Int64 => js == Js.Text("1")
    case Date => js == Number(1.0)
    case Timestamp => js == Js.Text("1000000")
    case Numeric =>
      js == Js.Text(if scale.None? || scale.value <= 0 then "1" else "1." + seq(scale.value, _ => '0'))
    case Party => js == Js.Text("Alice")
    case Text => js == Js.Text("sample text")
  }

  function Layer(d: Descriptor): nat {
    if d.DRef? then 1 else 0
  }

  /** Below the depth limit: containers are empty, optionals absent, enums their first constructor. */
  ghost predicate Smallest(js: Js, d: Descriptor, project: Project)
    decreases js, Layer(d)
  {
    match d
    case DPrim(builtin, scale) => IsPrimitiveSample(js, builtin, scale)
    case DContractId => js == Js.Text("#sample-contract-id")
    case DOptional(_) => js.Null?
    case DList(_) => js == Array([])
    case DTextMap(_) => js == Object(Plain, [])
    case DGenMap(_, _) => js == Array([])
    case DRecord(ds) =>
      && js.Object? && js.cls == Plain && |js.members| == |ds|
      && forall i :: 0 <= i < |ds| ==>
           js.members[i].key == ds[i].damlLabel && Smallest(js.members[i].value, ds[i].ty, project)
    case DVariant(ds) =>
      && IsVariant(js)
      && exists i :: 0 <= i < |ds| && js.members[0].value == Js.Text(ds[i].name)
                     && Smallest(js.members[1].value, ds[i].payload, project)
    case DEnum(names) => names != [] && js == Js.Text(names[0])
    case DRef(identity, arguments) =>
      var body := Resolve(project, identity, arguments);
      body.Ok? && Smallest(js, body.value, project)
  }

  ghost predicate IsVariant(js: Js) {
    js.Object? && js.cls == Plain && |js.members| == 2 && js.members[0].key == "tag" && js.members[1].key == "value"
  }

  /** How references are told apart: arguments that are containers only by what kind they are. */
  function KeyOf(d: Descriptor): Fingerprint {
    match d
    case DPrim(builtin, scale) => FPrim(builtin, scale)
    case DContractId => FKind(KContractId)
    case DOptional(_) => FKind(KOptional)
    case DList(_) => FKind(KList)
    case DTextMap(_) => FKind(KTextMap)
    case DGenMap(_, _) => FKind(KGenMap)
    case DRecord(_) => FKind(KRecord)
    case DVariant(_) => FKind(KVariant)
    case DEnum(_) => FKind(KEnum)
    case DRef(identity, arguments) => FRef(identity, KeysOf(arguments))
  }

  function KeysOf(ds: seq<Descriptor>): seq<Fingerprint> {
    if ds == [] then [] else [KeyOf(ds[0])] + KeysOf(ds[1..])
  }

  /**
   * Above the depth limit: one element for each container, the first constructor of a variant, and a named
   * type as its definition, unless the limit is reached or the same reference is being emitted.
   */
  ghost predicate Representative(js: Js, d: Descriptor, depth: int, active: set<Fingerprint>, project: Project)
    decreases js, Layer(d)
  {
    if depth <= 0 then Smallest(js, d, project) else
    match d
    case DPrim(builtin, scale) => IsPrimitiveSample(js, builtin, scale)
    case DContractId => js == Js.Text("#sample-contract-id")
    case DOptional(_) => js.Null?
    case DList(element) =>
      js.Array? && |js.elems| == 1 && Representative(js.elems[0], element, depth - 1, active, project)
    case DTextMap(element) =>
      && js.Object? && js.cls == Plain && |js.members| == 1 && js.members[0].key == "sample-key"
      && Representative(js.members[0].value, element, depth - 1, active, project)
    case DGenMap(key, element) =>
      && js.Array? && |js.elems| == 1 && js.elems[0].Array? && |js.elems[0].elems| == 2
      && Representative(js.elems[0].elems[0], key, depth - 1, active, project)
      && Representative(js.elems[0].elems[1], element, depth - 1, active, project)
    case DRecord(ds) =>
      && js.Object? && js.cls == Plain && |js.members| == |ds|
      && forall i :: 0 <= i < |ds| ==>
           && js.members[i].key == ds[i].damlLabel
           && Representative(js.members[i].value, ds[i].ty, depth - 1, active, project)
    case DVariant(ds) =>
      && IsVariant(js) && ds != [] && js.members[0].value == Js.Text(ds[0].name)
      && Representative(js.members[1].value, ds[0].payload, depth - 1, active, project)
    case DEnum(names) => js == if names == [] then Undefined else Js.Text(names[0])
    case DRef(identity, arguments) =>
      var body := Resolve(project, identity, arguments);
      body.Ok? &&
      if depth > 1 && KeyOf(d) !in active then Representative(js, body.value, depth - 1, active + {KeyOf(d)}, project)
      else Smallest(js, body.value, project)
  }

  // ----- finite samples -----

  lemma PrimitiveSample(builtin: Primitive, scale: Option<int>)
    ensures EmitPrimitive(builtin, scale, Ledger).Value? ==>
              IsPrimitiveSample(EmitPrimitive(builtin, scale, Ledger).value, builtin, scale)
  {
    if builtin.Numeric? && scale.Some? && scale.value > 0 {
      ZerosSpelled(scale.value);
    }
  }

  ghost predicate SmallestFields(entries: seq<Entry<Js>>, ds: seq<FieldDescriptor>, project: Project) {
    && |entries| == |ds|
    && forall i :: 0 <= i < |ds| ==> entries[i].key == ds[i].damlLabel && Smallest(entries[i].value, ds[i].ty, project)
  }

  lemma {:induction false} FiniteIsSmallest(t: DamlType, scope: Scope, bindings: Bindings,
      substitution: map<int, Descriptor>, project: Project, visited: set<Fingerprint>, fuel: nat)
    requires WellFormed(project)
    requires Scoped(t, scope, project.definitions, true) && Linked(scope, bindings, substitution, project.definitions)
    ensures Compile(t, substitution).Ok?
    ensures var sample := EmitFinite(t, Ledger, project, bindings, visited, fuel);
            sample.Value? ==> Smallest(sample.value, Compile(t, substitution).value, project)
    decreases fuel, t
  {
    CompileResolved(t, scope, bindings, substitution, project.definitions, true);
    match t
    case Prim(builtin, scale) => PrimitiveSample(builtin, scale);
    case Record(fields) =>
      FiniteFieldsAreSmallest(fields, scope, bindings, substitution, project, visited, fuel);
      var entries := EmitFiniteFields(fields, Ledger, project, bindings, visited, fuel);
      if entries.Value? {
        FieldsLiteral(fields, entries.value, CompileFields(fields, substitution).value, substitution);
      }
    case Variant(constructors) =>
      assert constructors[0..] == constructors;
      FirstFiniteIsSmallest(constructors, 0, scope, bindings, substitution, project, visited, fuel);
    case Var(variable) =>
      assert LinkedAt(variable.index, scope[variable.index], bindings, substitution, project.definitions);
      if fuel > 0 {
        InlineWeaker(bindings[variable], map[], project.definitions);
        FiniteIsSmallest(bindings[variable], map[], bindings, map[], project, visited, fuel - 1);
      }
    case Ref(identity, arguments) =>
      if fuel > 0 {
        FiniteReferenceIsSmallest(identity, arguments, scope, bindings, substitution, project, visited, fuel);
      }
    case _ =>
  }

  /** Distinct labels: the object literal holds the fields as emitted. */
  lemma FieldsLiteral(fields: seq<Field>, entries: seq<Entry<Js>>, ds: seq<FieldDescriptor>,
      substitution: map<int, Descriptor>)
    requires DistinctLabels(fields) && CompileFields(fields, substitution) == Ok(ds) && |entries| == |ds|
    requires forall i :: 0 <= i < |ds| ==> entries[i].key == ds[i].damlLabel
    ensures ObjectLiteral(entries) == Object(Plain, entries)
  {
    forall i, j | 0 <= i < j < |ds|
      ensures ds[i].damlLabel != ds[j].damlLabel
    {
      LabelsKept(fields, substitution, i);
      LabelsKept(fields, substitution, j);
    }
    LabelsExpected(entries, ds);
  }

  lemma {:induction false} FiniteFieldsAreSmallest(fields: seq<Field>, scope: Scope, bindings: Bindings,
      substitution: map<int, Descriptor>, project: Project, visited: set<Fingerprint>, fuel: nat)
    requires WellFormed(project)
    requires ScopedFields(fields, scope, project.definitions)
    requires Linked(scope, bindings, substitution, project.definitions)
    ensures CompileFields(fields, substitution).Ok?
    ensures var entries := EmitFiniteFields(fields, Ledger, project, bindings, visited, fuel);
            entries.Value? ==> SmallestFields(entries.value, CompileFields(fields, substitution).value, project)
    decreases fuel, fields
  {
    if fields != [] {
      hide Smallest, Linked, WellFormed, Scoped, EmitFinite, Compile;
      FiniteIsSmallest(fields[0].ty, scope, bindings, substitution, project, visited, fuel);
      FiniteFieldsAreSmallest(fields[1..], scope, bindings, substitution, project, visited, fuel);
    }
  }

  lemma {:induction false} FirstFiniteIsSmallest(constructors: seq<Constructor>, i: nat, scope: Scope,
      bindings: Bindings, substitution: map<int, Descriptor>, project: Project, visited: set<Fingerprint>, fuel: nat)
    requires WellFormed(project) && i <= |constructors|
    requires ScopedConstructors(constructors[i..], scope, project.definitions)
    requires CompileConstructors(constructors, substitution).Ok?
    requires Linked(scope, bindings, substitution, project.definitions)
    ensures var sample := EmitFirstFinite(constructors[i..], Ledger, project, bindings, visited, fuel);
            sample.Value? ==>
              Smallest(sample.value, DVariant(CompileConstructors(constructors, substitution).value), project)
    decreases fuel, constructors[i..]
  {
    var rest := constructors[i..];
    if rest != [] {
      FiniteIsSmallest(rest[0].payload, scope, bindings, substitution, project, visited, fuel);
      ConstructorsKept(constructors, substitution, i);
      assert rest[1..] == constructors[i + 1..];
      FirstFiniteIsSmallest(constructors, i + 1, scope, bindings, substitution, project, visited, fuel);
    }
  }

  lemma {:induction false} FiniteReferenceIsSmallest(identity: Identity, arguments: seq<DamlType>, scope: Scope,
      bindings: Bindings, substitution: map<int, Descriptor>, project: Project, visited: set<Fingerprint>, fuel: nat)
    requires WellFormed(project) && fuel > 0
    requires Scoped(Ref(identity, arguments), scope, project.definitions, true)
    requires Linked(scope, bindings, substitution, project.definitions)
    ensures Compile(Ref(identity, arguments), substitution).Ok?
    ensures var sample := EmitFinite(Ref(identity, arguments), Ledger, project, bindings, visited, fuel);
            sample.Value? ==> Smallest(sample.value, Compile(Ref(identity, arguments), substitution).value, project)
    decreases fuel, arguments
  {
    hide Resolve, EmitFinite, Body, Smallest, Linked;
    EnterDefinition(project, identity, arguments, scope, bindings, substitution);
    if FingerprintsOf(arguments, bindings, fuel).Some? {
      var definition := project.definitions[identity];
      var parameters := definition.Parameters();
      var compiled := CompileAll(arguments, substitution).value;
      var key := FRef(identity, FingerprintsOf(arguments, bindings, fuel).value);
      FiniteIsSmallest(Body(identity, definition, SampleNames(project.files, identity)), ScopeOf(parameters),
                       BindVariables(bindings, parameters, ResolveAll(arguments, bindings)),
                       BindIndices(map[], parameters, compiled), project, visited + {key}, fuel - 1);
      EnterFinite(identity, arguments, Ledger, project, bindings, visited, fuel);
      ReferenceIsSmallest(EmitFinite(Ref(identity, arguments), Ledger, project, bindings, visited, fuel), identity,
                          compiled, project);
    } else {
      FiniteNeedsFingerprints(identity, arguments, project, bindings, visited, fuel);
    }
  }

  lemma ReferenceIsSmallest(sample: Outcome<Js>, identity: Identity, compiled: seq<Descriptor>, project: Project)
    requires Resolve(project, identity, compiled).Ok?
    ensures sample.Value? ==>
              (Smallest(sample.value, DRef(identity, compiled), project)
               <==> Smallest(sample.value, Resolve(project, identity, compiled).value, project))
  {
    hide Resolve;
  }

  lemma FiniteNeedsFingerprints(identity: Identity, arguments: seq<DamlType>, project: Project, bindings: Bindings,
      visited: set<Fingerprint>, fuel: nat)
    requires FingerprintsOf(arguments, bindings, fuel).None?
    ensures EmitFinite(Ref(identity, arguments), Ledger, project, bindings, visited, fuel).Diverges?
  {
  }

  // ----- representative samples -----

  /** A fingerprint is the key of the descriptor. */
  lemma {:induction false} FingerprintIsKey(t: DamlType, scope: Scope, bindings: Bindings,
      substitution: map<int, Descriptor>, definitions: Definitions, fuel: nat)
    requires Scoped(t, scope, definitions, true) && Linked(scope, bindings, substitution, definitions)
    ensures Compile(t, substitution).Ok?
    ensures FingerprintOf(t, bindings, fuel).Some? ==>
              FingerprintOf(t, bindings, fuel).value == KeyOf(Compile(t, substitution).value)
    decreases fuel, t
  {
    CompileResolved(t, scope, bindings, substitution, definitions, true);
    match t
    case Var(variable) =>
      assert LinkedAt(variable.index, scope[variable.index], bindings, substitution, definitions);
      if fuel > 0 {
        InlineWeaker(bindings[variable], map[], definitions);
        FingerprintIsKey(bindings[variable], map[], bindings, map[], definitions, fuel - 1);
      }
    case Ref(_, arguments) => FingerprintsAreKeys(arguments, scope, bindings, substitution, definitions, fuel);
    case _ =>
  }

  lemma {:induction false} FingerprintsAreKeys(ts: seq<DamlType>, scope: Scope, bindings: Bindings,
      substitution: map<int, Descriptor>, definitions: Definitions, fuel: nat)
    requires ScopedAll(ts, scope, definitions) && Linked(scope, bindings, substitution, definitions)
    ensures CompileAll(ts, substitution).Ok?
    ensures FingerprintsOf(ts, bindings, fuel).Some? ==>
              FingerprintsOf(ts, bindings, fuel).value == KeysOf(CompileAll(ts, substitution).value)
    decreases fuel, ts
  {
    if ts != [] {
      InlineWeaker(ts[0], scope, definitions);
      FingerprintIsKey(ts[0], scope, bindings, substitution, definitions, fuel);
      FingerprintsAreKeys(ts[1..], scope, bindings, substitution, definitions, fuel);
    }
  }

  ghost predicate IsShaped(sample: Outcome<Js>, d: Descriptor, st: State) {
    sample.Value? ==> Representative(sample.value, d, st.depth, st.active, st.project)
  }

  lemma {:induction false} EmitIsRepresentative(t: DamlType, scope: Scope, substitution: map<int, Descriptor>,
      st: State, fuel: nat)
    requires WellFormed(st.project) && st.representation.Ledger?
    requires Scoped(t, scope, st.project.definitions, true)
    requires Linked(scope, st.bindings, substitution, st.project.definitions)
    ensures Compile(t, substitution).Ok?
    ensures IsShaped(Emit(t, st, fuel), Compile(t, substitution).value, st)
    decreases fuel, t
  {
    hide Smallest, EmitFinite, Resolve;
    CompileResolved(t, scope, st.bindings, substitution, st.project.definitions, true);
    if st.depth <= 0 {
      FiniteIsSmallest(t, scope, st.bindings, substitution, st.project, {}, fuel);
    } else {
      match t
      case Prim(builtin, scale) => PrimitiveSample(builtin, scale);
      case List(element) => EmitIsRepresentative(element, scope, substitution, st.Descend(), fuel);
      case TextMap(value) => EmitIsRepresentative(value, scope, substitution, st.Descend(), fuel);
      case GenMap(key, value) => EmitGenMapIsRepresentative(key, value, scope, substitution, st, fuel);
      case Record(fields) => EmitRecordIsRepresentative(fields, scope, substitution, st, fuel);
      case Variant(constructors) => EmitVariantIsRepresentative(constructors, scope, substitution, st, fuel);
      case Var(variable) =>
        assert LinkedAt(variable.index, scope[variable.index], st.bindings, substitution, st.project.definitions);
        if fuel > 0 {
          InlineWeaker(st.bindings[variable], map[], st.project.definitions);
          EmitIsRepresentative(st.bindings[variable], map[], map[], st, fuel - 1);
        }
      case Ref(identity, arguments) =>
        EmitReferenceIsRepresentative(identity, arguments, scope, substitution, st, fuel);
      case _ =>
    }
  }

  lemma {:induction false} EmitGenMapIsRepresentative(key: DamlType, value: DamlType, scope: Scope,
      substitution: map<int, Descriptor>, st: State, fuel: nat)
    requires WellFormed(st.project) && st.representation.Ledger? && st.depth > 0
    requires Scoped(GenMap(key, value), scope, st.project.definitions, true)
    requires Linked(scope, st.bindings, substitution, st.project.definitions)
    ensures Compile(GenMap(key, value), substitution).Ok?
    ensures IsShaped(Emit(GenMap(key, value), st, fuel), Compile(GenMap(key, value), substitution).value, st)
    decreases fuel, GenMap(key, value), 0
  {
    hide Smallest, EmitFinite, Resolve, Linked;
    EmitIsRepresentative(key, scope, substitution, st.Descend(), fuel);
    EmitIsRepresentative(value, scope, substitution, st.Descend(), fuel);
  }

  lemma {:induction false} EmitRecordIsRepresentative(fields: seq<Field>, scope: Scope,
      substitution: map<int, Descriptor>, st: State, fuel: nat)
    requires WellFormed(st.project) && st.representation.Ledger? && st.depth > 0
    requires Scoped(Record(fields), scope, st.project.definitions, true)
    requires Linked(scope, st.bindings, substitution, st.project.definitions)
    ensures Compile(Record(fields), substitution).Ok?
    ensures IsShaped(Emit(Record(fields), st, fuel), Compile(Record(fields), substitution).value, st)
    decreases fuel, Record(fields), 0
  {
    hide Smallest, EmitFinite, Resolve, Linked;
    EmitFieldsAreRepresentative(fields, scope, substitution, st.Descend(), fuel);
    var entries := EmitFields(fields, st.Descend(), fuel);
    if entries.Value? {
      FieldsLiteral(fields, entries.value, CompileFields(fields, substitution).value, substitution);
    }
  }

  lemma {:induction false} EmitVariantIsRepresentative(constructors: seq<Constructor>, scope: Scope,
      substitution: map<int, Descriptor>, st: State, fuel: nat)
    requires WellFormed(st.project) && st.representation.Ledger? && st.depth > 0
    requires Scoped(Variant(constructors), scope, st.project.definitions, true)
    requires Linked(scope, st.bindings, substitution, st.project.definitions)
    ensures Compile(Variant(constructors), substitution).Ok?
    ensures IsShaped(Emit(Variant(constructors), st, fuel), Compile(Variant(constructors), substitution).value, st)
    decreases fuel, Variant(constructors), 0
  {
    hide Smallest, EmitFinite, Resolve, Linked;
    CompileResolvedConstructors(constructors, scope, st.bindings, substitution, st.project.definitions);
    if constructors != [] {
      EmitIsRepresentative(constructors[0].payload, scope, substitution, st.Descend(), fuel);
      ConstructorsKept(constructors, substitution, 0);
    }
  }

  lemma {:induction false} EmitFieldsAreRepresentative(fields: seq<Field>, scope: Scope,
      substitution: map<int, Descriptor>, st: State, fuel: nat)
    requires WellFormed(st.project) && st.representation.Ledger?
    requires ScopedFields(fields, scope, st.project.definitions)
    requires Linked(scope, st.bindings, substitution, st.project.definitions)
    ensures CompileFields(fields, substitution).Ok?
    ensures var entries, ds := EmitFields(fields, st, fuel), CompileFields(fields, substitution).value;
            entries.Value? ==>
              && |entries.value| == |ds|
              && forall i :: 0 <= i < |ds| ==>
                   && entries.value[i].key == ds[i].damlLabel
                   && Representative(entries.value[i].value, ds[i].ty, st.depth, st.active, st.project)
    decreases fuel, fields
  {
    if fields != [] {
      hide Representative, Linked, WellFormed, Scoped, Emit, Compile;
      EmitIsRepresentative(fields[0].ty, scope, substitution, st, fuel);
      EmitFieldsAreRepresentative(fields[1..], scope, substitution, st, fuel);
    }
  }

  lemma {:induction false} EmitReferenceIsRepresentative(identity: Identity, arguments: seq<DamlType>, scope: Scope,
      substitution: map<int, Descriptor>, st: State, fuel: nat)
    requires WellFormed(st.project) && st.representation.Ledger? && st.depth > 0
    requires Scoped(Ref(identity, arguments), scope, st.project.definitions, true)
    requires Linked(scope, st.bindings, substitution, st.project.definitions)
    ensures Compile(Ref(identity, arguments), substitution).Ok?
    ensures var t := Ref(identity, arguments); IsShaped(Emit(t, st, fuel), Compile(t, substitution).value, st)
    decreases fuel, Ref(identity, arguments), 0
  {
    hide Resolve, Emit, EmitFinite, Body, Smallest, Representative;
    EnterDefinition(st.project, identity, arguments, scope, st.bindings, substitution);
    EmitReferenceCases(identity, arguments, st, fuel);
    FingerprintsAreKeys(arguments, scope, st.bindings, substitution, st.project.definitions, fuel);
    FiniteIsSmallest(Ref(identity, arguments), scope, st.bindings, substitution, st.project, {}, fuel);
    if fuel > 0 && Enters(identity, arguments, st, fuel) && st.depth > 1 {
      var parameters := st.project.definitions[identity].Parameters();
      EmitIsRepresentative(Entered(identity, st), ScopeOf(parameters),
                           BindIndices(map[], parameters, CompileAll(arguments, substitution).value),
                           Inside(identity, arguments, st, fuel), fuel - 1);
    }
    var sample, compiled := Emit(Ref(identity, arguments), st, fuel), CompileAll(arguments, substitution).value;
    if sample.Value? {
      ReferenceIsShaped(sample, identity, compiled, st);
      ReferenceIsSmallest(sample, identity, compiled, st.project);
    }
  }

  lemma ReferenceIsShaped(sample: Outcome<Js>, identity: Identity, compiled: seq<Descriptor>, st: State)
    requires st.depth > 0 && Resolve(st.project, identity, compiled).Ok? && sample.Value?
    ensures var body, key := Resolve(st.project, identity, compiled).value, FRef(identity, KeysOf(compiled));
            Representative(sample.value, DRef(identity, compiled), st.depth, st.active, st.project) <==>
            if st.depth > 1 && key !in st.active then
              Representative(sample.value, body, st.depth - 1, st.active + {key}, st.project)
            else Smallest(sample.value, body, st.project)
  {
    hide Resolve, Smallest;
  }

  /** The ledger sample of a closed type, as the spec emitter asks for it: representative to depth two. */
  lemma SamplesAreRepresentative(t: DamlType, project: Project, fuel: nat)
    requires WellFormed(project) && Scoped(t, map[], project.definitions, true)
    ensures Compile(t, map[]).Ok?
    ensures var sample := EmitOrThrow(t, Ledger, project, DEFAULT_DEPTH, map[], fuel);
            sample.Value? ==> Representative(sample.value, Compile(t, map[]).value, 2, {}, project)
  {
    hide Representative, Emit;
    EmitIsRepresentative(t, map[], map[], State(Ledger, project, DEFAULT_DEPTH, map[], {}), fuel);
  }
}
