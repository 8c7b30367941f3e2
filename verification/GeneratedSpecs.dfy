/** The equations generated spec files assert, for every type, template and choice. */
module GeneratedSpecs {
  import opened Wrappers
  import opened JsValues
  import opened DamlTypes
  import opened DescriptorCompiler
  import opened LedgerValues
  import opened ValueConverter
  import opened ValueMaterializer
  import opened SampleEmitter
  import opened ScopedTypes
  import opened SampleSoundness

  function Start(project: Project, depth: int, bindings: Bindings := map[]): State {
    State(Ledger, project, depth, bindings, {})
  }

  /**
   * The two emitters agree on success and failure; a pair of samples round trips through the
   * decoder and the materialiser exactly when the traversal meets no enum without constructors.
   */
  lemma SamplesRoundTrip(t: DamlType, scope: Scope, substitution: map<int, Descriptor>, bindings: Bindings,
      project: Project, depth: int, fuel: nat)
    requires WellFormed(project)
    requires Scoped(t, scope, project.definitions, true) && Linked(scope, bindings, substitution, project.definitions)
    ensures Compile(t, substitution).Ok?
    ensures var ledger := EmitOrThrow(t, Ledger, project, depth, bindings, fuel);
            var typeScript := EmitOrThrow(t, TypeScript, project, depth, bindings, fuel);
            if ledger.Value? then
              && typeScript.Value?
              && (RoundTrips(ledger.value, typeScript.value, Compile(t, substitution).value, project)
                  <==> !ReachesEmptyEnum(t, Start(project, depth, bindings), fuel))
            else typeScript == ledger
  {
    var st := Start(project, depth, bindings);
    EmitTracks(t, scope, substitution, st, fuel);
    assert As(st, Ledger) == State(Ledger, project, depth, bindings, {});
    assert As(st, TypeScript) == State(TypeScript, project, depth, bindings, {});
  }

  /** Choice specs: argument and result are single closed types. */
  lemma ChoiceSpecHolds(parameterType: DamlType, returnType: DamlType, project: Project, fuel: nat)
    requires WellFormed(project) && WithoutEmptyEnums(project)
    requires Scoped(parameterType, map[], project.definitions, false)
    requires Scoped(returnType, map[], project.definitions, false)
    ensures Compile(parameterType, map[]).Ok? && Compile(returnType, map[]).Ok?
    ensures forall t | t in {parameterType, returnType} ::
              var ledger := EmitOrThrow(t, Ledger, project, DEFAULT_DEPTH, map[], fuel);
              var typeScript := EmitOrThrow(t, TypeScript, project, DEFAULT_DEPTH, map[], fuel);
              if ledger.Value? then
                typeScript.Value? && RoundTrips(ledger.value, typeScript.value, Compile(t, map[]).value, project)
              else typeScript == ledger
  {
    hide DecodeJson, Emit;
    forall t | t in {parameterType, returnType}
      ensures Compile(t, map[]).Ok?
      ensures var ledger := EmitOrThrow(t, Ledger, project, DEFAULT_DEPTH, map[], fuel);
              var typeScript := EmitOrThrow(t, TypeScript, project, DEFAULT_DEPTH, map[], fuel);
              if ledger.Value? then
                typeScript.Value? && RoundTrips(ledger.value, typeScript.value, Compile(t, map[]).value, project)
              else typeScript == ledger
    {
      InlineWeaker(t, map[], project.definitions);
      NotInlineHasEnums(t, map[], project.definitions);
      SamplesRoundTrip(t, map[], map[], map[], project, DEFAULT_DEPTH, fuel);
      NeverReachesEmptyEnum(t, Start(project, DEFAULT_DEPTH), fuel);
    }
  }

  /**
   * The payload object built from the ledger samples of the create fields decodes as JSON with the
   * template's descriptor, and materialises to the object of the expected samples.
   */
  lemma PayloadDecodes(fields: seq<Field>, project: Project, fuel: nat)
    requires WellFormed(project)
    requires DistinctLabels(fields) && ScopedFields(fields, map[], project.definitions)
    ensures CompileFields(fields, map[]).Ok?
    ensures var st := Start(project, DEFAULT_DEPTH);
            var payload := EmitFields(fields, As(st, Ledger), fuel);
            var expected := EmitFields(fields, As(st, TypeScript), fuel);
            if payload.Value? then
              && expected.Value?
              && (RoundTrips(ObjectLiteral(payload.value), ObjectLiteral(expected.value),
                             DRecord(CompileFields(fields, map[]).value), project)
                  <==> !FieldsReachEmptyEnum(fields, st, fuel))
            else expected == payload
  {
    var st := Start(project, DEFAULT_DEPTH);
    EmitFieldsTrack(fields, map[], map[], st, fuel);
    var payload, expected := EmitFields(fields, As(st, Ledger), fuel), EmitFields(fields, As(st, TypeScript), fuel);
    if payload.Value? {
      RecordOutcomeTracks(fields, map[], payload, expected, project, FieldsReachEmptyEnum(fields, st, fuel));
    }
  }

  // ----- projects without empty enums -----

  ghost predicate HasNoEmptyEnum(t: DamlType)
    decreases t
  {
    match t
    case Optional(element) => HasNoEmptyEnum(element)
    case List(element) => HasNoEmptyEnum(element)
    case TextMap(value) => HasNoEmptyEnum(value)
    case GenMap(key, value) => HasNoEmptyEnum(key) && HasNoEmptyEnum(value)
    case Record(fields) => forall i :: 0 <= i < |fields| ==> HasNoEmptyEnum(fields[i].ty)
    case Variant(constructors) => forall i :: 0 <= i < |constructors| ==> HasNoEmptyEnum(constructors[i].payload)
    case Enum(names) => names != []
    case Ref(_, arguments) => forall i :: 0 <= i < |arguments| ==> HasNoEmptyEnum(arguments[i])
    case _ => true
  }

  ghost predicate WithoutEmptyEnums(project: Project) {
    forall id <- project.definitions.Keys ::
      HasNoEmptyEnum(Body(id, project.definitions[id], SampleNames(project.files, id)))
  }

  ghost predicate BindingsWithoutEmptyEnums(bindings: Bindings) {
    forall v <- bindings.Keys :: HasNoEmptyEnum(bindings[v])
  }

  lemma {:induction false} NotInlineHasEnums(t: DamlType, scope: Scope, definitions: Definitions)
    requires Scoped(t, scope, definitions, false)
    ensures HasNoEmptyEnum(t)
    decreases t
  {
    match t
    case Optional(element) => NotInlineHasEnums(element, scope, definitions);
    case List(element) => NotInlineHasEnums(element, scope, definitions);
    case TextMap(value) => NotInlineHasEnums(value, scope, definitions);
    case GenMap(key, value) =>
      NotInlineHasEnums(key, scope, definitions);
      NotInlineHasEnums(value, scope, definitions);
    case Ref(_, arguments) =>
      forall i | 0 <= i < |arguments|
        ensures HasNoEmptyEnum(arguments[i])
      {
        ScopedAllAt(arguments, scope, definitions, i);
        NotInlineHasEnums(arguments[i], scope, definitions);
      }
    case _ =>
  }

  lemma {:induction false} ScopedAllAt(ts: seq<DamlType>, scope: Scope, definitions: Definitions, i: nat)
    requires ScopedAll(ts, scope, definitions) && i < |ts|
    ensures Scoped(ts[i], scope, definitions, false)
    decreases ts
  {
    if i > 0 {
      ScopedAllAt(ts[1..], scope, definitions, i - 1);
    }
  }

  lemma {:induction false} ResolvedHasNoEmptyEnum(t: DamlType, bindings: Bindings)
    requires HasNoEmptyEnum(t) && BindingsWithoutEmptyEnums(bindings)
    ensures HasNoEmptyEnum(ResolveVariables(t, bindings))
    decreases t
  {
    match t
    case Optional(element) => ResolvedHasNoEmptyEnum(element, bindings);
    case List(element) => ResolvedHasNoEmptyEnum(element, bindings);
    case TextMap(value) => ResolvedHasNoEmptyEnum(value, bindings);
    case GenMap(key, value) =>
      ResolvedHasNoEmptyEnum(key, bindings);
      ResolvedHasNoEmptyEnum(value, bindings);
    case Record(fields) =>
      forall i | 0 <= i < |fields|
        ensures HasNoEmptyEnum(ResolveFields(fields, bindings)[i].ty)
      {
        ResolvedFieldAt(fields, bindings, i);
        ResolvedHasNoEmptyEnum(fields[i].ty, bindings);
      }
    case Variant(constructors) =>
      forall i | 0 <= i < |constructors|
        ensures HasNoEmptyEnum(ResolveConstructors(constructors, bindings)[i].payload)
      {
        ResolvedConstructorAt(constructors, bindings, i);
        ResolvedHasNoEmptyEnum(constructors[i].payload, bindings);
      }
    case Ref(_, arguments) =>
      forall i | 0 <= i < |arguments|
        ensures HasNoEmptyEnum(ResolveAll(arguments, bindings)[i])
      {
        ResolvedAt(arguments, bindings, i);
        ResolvedHasNoEmptyEnum(arguments[i], bindings);
      }
    case _ =>
  }

  lemma {:induction false} ResolvedAt(ts: seq<DamlType>, bindings: Bindings, i: nat)
    requires i < |ts|
    ensures ResolveAll(ts, bindings)[i] == ResolveVariables(ts[i], bindings)
  {
    if i > 0 {
      ResolvedAt(ts[1..], bindings, i - 1);
    }
  }

  lemma {:induction false} ResolvedFieldAt(fields: seq<Field>, bindings: Bindings, i: nat)
    requires i < |fields|
    ensures ResolveFields(fields, bindings)[i].ty == ResolveVariables(fields[i].ty, bindings)
  {
    if i > 0 {
      ResolvedFieldAt(fields[1..], bindings, i - 1);
    }
  }

  lemma {:induction false} ResolvedConstructorAt(constructors: seq<Constructor>, bindings: Bindings, i: nat)
    requires i < |constructors|
    ensures ResolveConstructors(constructors, bindings)[i].payload
         == ResolveVariables(constructors[i].payload, bindings)
  {
    if i > 0 {
      ResolvedConstructorAt(constructors[1..], bindings, i - 1);
    }
  }

  lemma {:induction false} BoundWithoutEmptyEnums(bindings: Bindings, parameters: seq<VarKey>, types: seq<DamlType>)
    requires |parameters| == |types| && BindingsWithoutEmptyEnums(bindings)
    requires forall i :: 0 <= i < |types| ==> HasNoEmptyEnum(types[i])
    ensures BindingsWithoutEmptyEnums(BindVariables(bindings, parameters, types))
    decreases parameters
  {
    if parameters != [] {
      BoundWithoutEmptyEnums(bindings[parameters[0] := types[0]], parameters[1..], types[1..]);
    }
  }

  /** Without empty enums in the definitions, no traversal meets one, at any depth and whatever is bound. */
  lemma {:induction false} NeverReachesEmptyEnum(t: DamlType, st: State, fuel: nat)
    requires HasNoEmptyEnum(t) && BindingsWithoutEmptyEnums(st.bindings) && WithoutEmptyEnums(st.project)
    ensures !ReachesEmptyEnum(t, st, fuel)
    decreases fuel, t
  {
    match t
    case List(element) => NeverReachesEmptyEnum(element, st.Descend(), fuel);
    case TextMap(value) => NeverReachesEmptyEnum(value, st.Descend(), fuel);
    case GenMap(key, value) =>
      NeverReachesEmptyEnum(key, st.Descend(), fuel);
      NeverReachesEmptyEnum(value, st.Descend(), fuel);
    case Record(fields) => FieldsNeverReachEmptyEnum(fields, st.Descend(), fuel);
    case Variant(constructors) =>
      if constructors != [] {
        NeverReachesEmptyEnum(constructors[0].payload, st.Descend(), fuel);
      }
    case Var(variable) =>
      if variable in st.bindings && fuel > 0 {
        NeverReachesEmptyEnum(st.bindings[variable], st, fuel - 1);
      }
    case Ref(identity, arguments) =>
      if fuel > 0 && Enters(identity, arguments, st, fuel) {
        forall i | 0 <= i < |arguments|
          ensures HasNoEmptyEnum(ResolveAll(arguments, st.bindings)[i])
        {
          ResolvedAt(arguments, st.bindings, i);
          ResolvedHasNoEmptyEnum(arguments[i], st.bindings);
        }
        BoundWithoutEmptyEnums(st.bindings, st.project.definitions[identity].Parameters(),
                               ResolveAll(arguments, st.bindings));
        NeverReachesEmptyEnum(Entered(identity, st), Inside(identity, arguments, st, fuel), fuel - 1);
      }
    case _ =>
  }

  lemma {:induction false} FieldsNeverReachEmptyEnum(fields: seq<Field>, st: State, fuel: nat)
    requires forall i :: 0 <= i < |fields| ==> HasNoEmptyEnum(fields[i].ty)
    requires BindingsWithoutEmptyEnums(st.bindings) && WithoutEmptyEnums(st.project)
    ensures !FieldsReachEmptyEnum(fields, st, fuel)
    decreases fuel, fields
  {
    if fields != [] {
      NeverReachesEmptyEnum(fields[0].ty, st, fuel);
      FieldsNeverReachEmptyEnum(fields[1..], st, fuel);
    }
  }

  /** The flaw on the smallest input: the spec of a reference to an empty enum fails instead of being rejected. */
  lemma EmptyEnumBreaksItsSpec()
    ensures var id := Identity("p", "M", "Empty");
            var project := Project(map[id := EnumDefinition([])], []);
            && WellFormed(project)
            && EmitOrThrow(Ref(id, []), Ledger, project, DEFAULT_DEPTH, map[], 2) == Value(Undefined)
            && EmitOrThrow(Ref(id, []), TypeScript, project, DEFAULT_DEPTH, map[], 2) == Value(Undefined)
            && DecodeJson(Undefined, DRef(id, []), project).Err?
  {
    var id := Identity("p", "M", "Empty");
    var project := Project(map[id := EnumDefinition([])], []);
    assert ScopedDefinition(id, project);
    var t := Ref(id, []);
    forall r: Representation
      ensures EmitOrThrow(t, r, project, DEFAULT_DEPTH, map[], 2) == Value(Undefined)
    {
      EmitReferenceCases(id, [], State(r, project, DEFAULT_DEPTH, map[], {}), 2);
    }
    assert Resolve(project, id, []) == Ok(DEnum([]));
  }
}
