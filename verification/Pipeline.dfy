/** The whole generator: what analysis accepts has specs that hold. */
module Pipeline {
  import opened Wrappers
  import opened JsValues
  import opened DamlTypes
  import opened DescriptorCompiler
  import opened LfModel
  import opened ScopedTypes
  import opened SampleEmitter
  import opened SampleSoundness
  import opened GeneratedSpecs
  import opened EventSources
  import opened TemplateSpecs
  import opened GenerationRun
  import opened Analysis
  import opened LedgerValues
  import opened ValueConverter
  import opened ProtobufConverter
  import opened DecoderAgreement
  import opened LedgerTyping
  import opened ProtobufTyping
  import opened LfTyping

  /** Every enum of the model has a constructor. */
  ghost predicate EnumsInhabited(types: LfTypes) {
    forall id :: id in types && types[id].shape.LfEnum? ==> types[id].shape.names != []
  }

  lemma {:induction false} ElaboratedHasNoEmptyEnum(types: LfTypes, t: LfType, scope: map<int, VarKey>)
    requires Elaborate(types, t, scope).Ok?
    ensures HasNoEmptyEnum(Elaborate(types, t, scope).value)
    decreases t
  {
    if t.variable.Some? {
    } else if t.reference.Some? {
      ElaboratedAllHaveNoEmptyEnum(types, t.arguments, scope);
    } else {
      match t.builtin
      case LOptional => ElaboratedHasNoEmptyEnum(types, t.arguments[0], scope);
      case LList => ElaboratedHasNoEmptyEnum(types, t.arguments[0], scope);
      case LTextMap => ElaboratedHasNoEmptyEnum(types, t.arguments[0], scope);
      case LGenMap =>
        ElaboratedHasNoEmptyEnum(types, t.arguments[0], scope);
        ElaboratedHasNoEmptyEnum(types, t.arguments[1], scope);
      case _ =>
    }
  }

  lemma {:induction false} ElaboratedAllHaveNoEmptyEnum(types: LfTypes, ts: seq<LfType>, scope: map<int, VarKey>)
    requires ElaborateAll(types, ts, scope).Ok?
    ensures forall i :: 0 <= i < |ts| ==> HasNoEmptyEnum(ElaborateAll(types, ts, scope).value[i])
    decreases ts
  {
    if ts != [] {
      var all := ElaborateAll(types, ts, scope).value;
      var rest := ElaborateAll(types, ts[1..], scope).value;
      ElaboratedHasNoEmptyEnum(types, ts[0], scope);
      ElaboratedAllHaveNoEmptyEnum(types, ts[1..], scope);
      assert forall i :: 1 <= i < |ts| ==> all[i] == rest[i - 1];
    }
  }

  lemma {:induction false} FieldsHaveNoEmptyEnum(types: LfTypes, fields: seq<LfField>, scope: map<int, VarKey>,
      camelCase: CamelCase)
    requires ElaborateFields(types, fields, scope, camelCase).Ok?
    ensures var analyzed := ElaborateFields(types, fields, scope, camelCase).value;
            forall i :: 0 <= i < |analyzed| ==> HasNoEmptyEnum(analyzed[i].ty)
    decreases fields
  {
    if fields != [] {
      var all := ElaborateFields(types, fields, scope, camelCase).value;
      var rest := ElaborateFields(types, fields[1..], scope, camelCase).value;
      ElaboratedHasNoEmptyEnum(types, fields[0].ty, scope);
      FieldsHaveNoEmptyEnum(types, fields[1..], scope, camelCase);
      assert forall i :: 1 <= i < |all| ==> all[i] == rest[i - 1];
    }
  }

  lemma {:induction false} ConstructorsHaveNoEmptyEnum(types: LfTypes, constructors: seq<LfField>,
      scope: map<int, VarKey>)
    requires ElaborateConstructors(types, constructors, scope).Ok?
    ensures var analyzed := ElaborateConstructors(types, constructors, scope).value;
            forall i :: 0 <= i < |analyzed| ==> HasNoEmptyEnum(analyzed[i].payload)
    decreases constructors
  {
    if constructors != [] {
      var all := ElaborateConstructors(types, constructors, scope).value;
      var rest := ElaborateConstructors(types, constructors[1..], scope).value;
      ElaboratedHasNoEmptyEnum(types, constructors[0].ty, scope);
      ConstructorsHaveNoEmptyEnum(types, constructors[1..], scope);
      assert forall i :: 1 <= i < |all| ==> all[i] == rest[i - 1];
    }
  }

  lemma BodyHasNoEmptyEnum(types: LfTypes, camelCase: CamelCase, id: Identity, names: FieldNames)
    requires id in types && EnumsInhabited(types)
    requires ElaborateDefinition(types, types[id], camelCase).Ok?
    ensures HasNoEmptyEnum(Body(id, ElaborateDefinition(types, types[id], camelCase).value, names))
  {
    var scope := ScopeOf(LfModel.KeysOf(types[id].parameters));
    match types[id].shape
    case LfRecord(fields) => FieldsHaveNoEmptyEnum(types, fields, scope, camelCase);
    case LfVariant(constructors) => ConstructorsHaveNoEmptyEnum(types, constructors, scope);
    case LfEnum(_) =>
  }

  function GeneratedProject(result: AnalysisResult, files: seq<NamedTypeFile>): Project {
    Project(DefinitionMap(result.definitions), files)
  }

  /** An accepted model under DAML's own rules: distinct members and enums with constructors. */
  ghost predicate Accepted(types: LfTypes, camelCase: CamelCase, roots: seq<LfType>, dataTypes: seq<Identity>,
      result: AnalysisResult, files: seq<NamedTypeFile>) {
    && ClosedResult(types, camelCase, roots, dataTypes, result)
    && DistinctMembers(types) && EnumsInhabited(types) && FilesPartition(files)
  }

  lemma AcceptedProject(types: LfTypes, camelCase: CamelCase, roots: seq<LfType>, dataTypes: seq<Identity>,
      result: AnalysisResult, files: seq<NamedTypeFile>)
    requires Accepted(types, camelCase, roots, dataTypes, result, files)
    ensures var project := GeneratedProject(result, files);
            && WellFormed(project) && PlainMembers(project) && WithoutEmptyEnums(project)
            && forall i :: 0 <= i < |result.roots| ==> Closed(result.roots[i], project.definitions)
  {
    var project := GeneratedProject(result, files);
    AnalysisIsWellFormed(types, camelCase, roots, dataTypes, result, files);
    DefinitionMapKeys(result.definitions);
    forall id | id in project.definitions
      ensures HasNoEmptyEnum(Body(id, project.definitions[id], SampleNames(files, id)))
    {
      var k: nat :| k < |result.definitions| && result.definitions[k].0 == id;
      assert ElaboratedAt(types, camelCase, result.definitions, k);
      BodyHasNoEmptyEnum(types, camelCase, id, SampleNames(files, id));
    }
  }

  /** The generated definitions are the analyzed data types of the model. */
  lemma AcceptedDefinitions(types: LfTypes, camelCase: CamelCase, roots: seq<LfType>, dataTypes: seq<Identity>,
      result: AnalysisResult, files: seq<NamedTypeFile>)
    requires Accepted(types, camelCase, roots, dataTypes, result, files)
    ensures Defined(LfModule(types, camelCase, files), GeneratedProject(result, files))
  {
    var model, project := LfModule(types, camelCase, files), GeneratedProject(result, files);
    DefinitionMapKeys(result.definitions);
    forall id | id in project.definitions
      ensures DefinedAt(model, project, id)
    {
      var k: nat :| k < |result.definitions| && result.definitions[k].0 == id;
      assert ElaboratedAt(types, camelCase, result.definitions, k);
    }
  }

  /**
   * For every model analysis accepts, every type a template or choice mentions and every ledger value: the
   * decoder generated for the type returns `x` exactly when the value has that LF type and means `x`, and
   * the JSON form of such a value is decoded to the same.
   */
  lemma AcceptedModelsDecodeTheirValues(types: LfTypes, camelCase: CamelCase, roots: seq<LfType>,
      dataTypes: seq<Identity>, result: AnalysisResult, files: seq<NamedTypeFile>, i: nat, v: PValue, x: Decoded)
    requires Accepted(types, camelCase, roots, dataTypes, result, files) && i < |roots|
    ensures |result.roots| == |roots| && Compile(result.roots[i], map[]).Ok?
    ensures var d, project := Compile(result.roots[i], map[]).value, GeneratedProject(result, files);
            var hasType := LfReads(v, roots[i], LfEmpty, LfModule(types, camelCase, files), x);
            && (DecodeProto(v, d, project) == Ok(x) <==> hasType)
            && (hasType && DistinctMaps(v) ==> DecodeJson(JsOf(v), d, project) == Ok(x))
  {
    hide Reads, LfReads, DecodeProto, DecodeJson, JsOf, Compile;
    var model, project := LfModule(types, camelCase, files), GeneratedProject(result, files);
    AcceptedProject(types, camelCase, roots, dataTypes, result, files);
    AcceptedDefinitions(types, camelCase, roots, dataTypes, result, files);
    RootBuilds(types, camelCase, roots, dataTypes, result, files, i);
    KeepsValues(v, roots[i], LfEmpty, model, project, x);
    InlineWeaker(result.roots[i], map[], project.definitions);
    DecodersAgree(v, result.roots[i], project, x);
  }

  lemma RootBuilds(types: LfTypes, camelCase: CamelCase, roots: seq<LfType>, dataTypes: seq<Identity>,
      result: AnalysisResult, files: seq<NamedTypeFile>, i: nat)
    requires Accepted(types, camelCase, roots, dataTypes, result, files) && i < |roots|
    ensures Elaborate(types, roots[i], map[]) == Ok(result.roots[i])
    ensures References(result.roots[i]) <= GeneratedProject(result, files).definitions.Keys
  {
    hide Elaborate, References;
    DefinitionMapKeys(result.definitions);
    ElaboratesAll(types, roots, map[]);
    AllWithin(result.roots, Identities(result.definitions));
  }

  /**
   * For every model analysis accepts, and every type a template or choice mentions: both sample
   * emitters succeed or fail alike, and a ledger sample decodes with the compiled descriptor and
   * materialises to the TypeScript sample.
   */
  lemma AcceptedModelsHaveSoundSpecs(types: LfTypes, camelCase: CamelCase, roots: seq<LfType>,
      dataTypes: seq<Identity>, result: AnalysisResult, files: seq<NamedTypeFile>, i: nat, fuel: nat)
    requires Accepted(types, camelCase, roots, dataTypes, result, files) && i < |result.roots|
    ensures var project := GeneratedProject(result, files);
            var t := result.roots[i];
            var ledger := EmitOrThrow(t, Ledger, project, DEFAULT_DEPTH, map[], fuel);
            var typeScript := EmitOrThrow(t, TypeScript, project, DEFAULT_DEPTH, map[], fuel);
            && Compile(t, map[]).Ok?
            && if ledger.Value? then
                 typeScript.Value? && RoundTrips(ledger.value, typeScript.value, Compile(t, map[]).value, project)
               else typeScript == ledger
  {
    var t := result.roots[i];
    AcceptedProject(types, camelCase, roots, dataTypes, result, files);
    ChoiceSpecHolds(t, t, GeneratedProject(result, files), fuel);
    assert t in {t, t};
  }

  /**
   * For every template of an accepted model: the created event of its spec materialises to the
   * expected fields exactly when the payload does not pass for a protobuf record, which takes a list
   * field named `fields` beside at most a field named `recordId`.
   */
  lemma AcceptedTemplatesHaveSoundSpecs(types: LfTypes, camelCase: CamelCase, roots: seq<LfType>,
      dataTypes: seq<Identity>, result: AnalysisResult, files: seq<NamedTypeFile>, fields: seq<Field>, fuel: nat,
      parse: Parse64)
    requires Accepted(types, camelCase, roots, dataTypes, result, files)
    requires DistinctLabels(fields) && forall i :: 0 <= i < |fields| ==> fields[i].ty in result.roots
    ensures CompileFields(fields, map[]).Ok?
    ensures var st := Start(GeneratedProject(result, files), DEFAULT_DEPTH);
            var payload := EmitFields(fields, As(st, Ledger), fuel);
            var expected := EmitFields(fields, As(st, TypeScript), fuel);
            if payload.Value? then
              && expected.Value?
              && (CreatedRoundTrips(ObjectLiteral(payload.value), ObjectLiteral(expected.value),
                                    DRecord(CompileFields(fields, map[]).value), st.project, parse)
                  <==> !IsRecordWireJson(ObjectLiteral(payload.value)))
              && (IsRecordWireJson(ObjectLiteral(payload.value)) ==> WireLabels(fields))
            else expected == payload
  {
    var project := GeneratedProject(result, files);
    AcceptedProject(types, camelCase, roots, dataTypes, result, files);
    FieldsOfRoots(fields, result.roots, project.definitions);
    TemplateSpecHolds(fields, project, fuel, parse);
    FieldsNeverReachEmptyEnum(fields, Start(project, DEFAULT_DEPTH), fuel);
    WirePayloadHasLabels(fields, project, fuel);
    assert As(Start(project, DEFAULT_DEPTH), Ledger) == Start(project, DEFAULT_DEPTH);
  }

  lemma {:induction false} FieldsOfRoots(fields: seq<Field>, roots: seq<DamlType>, definitions: Definitions)
    requires forall i :: 0 <= i < |roots| ==> Closed(roots[i], definitions)
    requires forall i :: 0 <= i < |fields| ==> fields[i].ty in roots
    ensures ScopedFields(fields, map[], definitions)
    ensures forall i :: 0 <= i < |fields| ==> HasNoEmptyEnum(fields[i].ty)
    decreases fields
  {
    if fields != [] {
      InlineWeaker(fields[0].ty, map[], definitions);
      NotInlineHasEnums(fields[0].ty, map[], definitions);
      FieldsOfRoots(fields[1..], roots, definitions);
    }
  }

  /** An accepted model is generated without refusing a sample exactly when all its definitions have values. */
  lemma AcceptedModelsGenerate(types: LfTypes, camelCase: CamelCase, roots: seq<LfType>, dataTypes: seq<Identity>,
      result: AnalysisResult, files: seq<NamedTypeFile>, fuel: nat)
    requires Accepted(types, camelCase, roots, dataTypes, result, files)
    requires forall r ::
               Requested(r, GeneratedProject(result, files), (set t | t in result.roots))
               ==> !Sample(r, GeneratedProject(result, files), fuel).Diverges?
    ensures var project := GeneratedProject(result, files);
            var types := set t | t in result.roots;
            (forall r :: Requested(r, project, types) ==> !Sample(r, project, fuel).Throws?) <==> AllInhabited(project)
  {
    AcceptedProject(types, camelCase, roots, dataTypes, result, files);
    RunSucceedsExactly(GeneratedProject(result, files), (set t | t in result.roots), fuel);
  }
}
