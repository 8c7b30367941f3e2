/** Analysis of a whole model, and what its success gives the generator. */
module Analysis {
  import opened Wrappers
  import opened DamlTypes
  import opened DescriptorCompiler
  import opened LfModel
  import opened TypeAnalyzer
  import opened ScopedTypes

  datatype AnalysisResult = AnalysisResult(roots: seq<DamlType>, definitions: seq<(Identity, Definition)>)

  /** Identities of the serializable ones among the listed data types. */
  function Serializable(types: LfTypes, dataTypes: seq<Identity>): set<Identity> {
    set i | 0 <= i < |dataTypes| && dataTypes[i] in types && types[dataTypes[i]].serializable :: dataTypes[i]
  }

  /** `ids` covers an analysis: templates and serializable data types elaborate and lead nowhere else. */
  ghost predicate Covers(types: LfTypes, camelCase: CamelCase, roots: seq<LfType>, dataTypes: seq<Identity>,
      ids: set<Identity>) {
    && Analyzable(types, camelCase, ids)
    && GoalAll(types, roots, map[]).Ok?
    && GoalAll(types, roots, map[]).value <= ids
    && Serializable(types, dataTypes) <= ids
  }

  function Identities(definitions: seq<(Identity, Definition)>): set<Identity> {
    set i | 0 <= i < |definitions| :: definitions[i].0
  }

  ghost predicate DistinctIdentities(definitions: seq<(Identity, Definition)>) {
    forall i, j :: 0 <= i < j < |definitions| ==> definitions[i].0 != definitions[j].0
  }

  ghost predicate ElaboratedAt(types: LfTypes, camelCase: CamelCase, definitions: seq<(Identity, Definition)>, i: nat)
    requires i < |definitions|
  {
    && definitions[i].0 in types
    && SupportedParameters(types[definitions[i].0])
    && ElaborateDefinition(types, types[definitions[i].0], camelCase) == Ok(definitions[i].1)
    && DefinitionReferences(definitions[i].1) <= Identities(definitions)
  }

  /** Analysis results are closed: every reference has exactly one definition, elaborated from its LF type. */
  ghost predicate ClosedResult(types: LfTypes, camelCase: CamelCase, roots: seq<LfType>, dataTypes: seq<Identity>,
      result: AnalysisResult) {
    && DistinctIdentities(result.definitions)
    && (forall i: nat {:trigger ElaboratedAt(types, camelCase, result.definitions, i)}
          :: i < |result.definitions| ==> ElaboratedAt(types, camelCase, result.definitions, i))
    && ElaborateAll(types, roots, map[]) == Ok(result.roots)
    && AllReferences(result.roots) <= Identities(result.definitions)
    && Serializable(types, dataTypes) <= Identities(result.definitions)
  }

  /** The finished definitions in registration order; an unfinished entry is an error. */
  method GetTypeDefinitions(builder: AnalyzedDamlTypeBuilder) returns (r: Result<seq<(Identity, Definition)>>)
    requires builder.Valid()
    ensures r.Ok? <==> forall id :: id in builder.definitions ==> builder.definitions[id].Some?
    ensures r.Ok? ==>
              && |r.value| == |builder.definitionKeys|
              && forall i :: 0 <= i < |r.value| ==>
                   builder.definitionKeys[i] in builder.definitions
                   && builder.definitions[builder.definitionKeys[i]] == Some(r.value[i].1)
                   && r.value[i].0 == builder.definitionKeys[i]
  {
    var definitions: seq<(Identity, Definition)> := [];
    for i := 0 to |builder.definitionKeys|
      invariant |definitions| == i
      invariant forall j :: 0 <= j < i ==>
                  builder.definitionKeys[j] in builder.definitions
                  && builder.definitions[builder.definitionKeys[j]] == Some(definitions[j].1)
                  && definitions[j].0 == builder.definitionKeys[j]
    {
      var key := builder.definitionKeys[i];
      assert key in builder.definitionKeys;
      if builder.definitions[key].None? {
        return Err;
      }
      definitions := definitions + [(key, builder.definitions[key].value)];
    }
    r := Ok(definitions);
  }

  method AnalyzeOrThrow(types: LfTypes, camelCase: CamelCase, roots: seq<LfType>,
      dataTypes: seq<Identity>) returns (r: Result<AnalysisResult>)
    requires forall i :: 0 <= i < |dataTypes| ==> dataTypes[i] in types
    ensures r.Ok? <==> exists ids :: Covers(types, camelCase, roots, dataTypes, ids)
    ensures r.Ok? ==> ClosedResult(types, camelCase, roots, dataTypes, r.value)
    ensures r.Ok? ==> forall ids {:trigger Covers(types, camelCase, roots, dataTypes, ids)} ::
              Covers(types, camelCase, roots, dataTypes, ids) ==> Identities(r.value.definitions) <= ids
  {
    var builder := new AnalyzedDamlTypeBuilder(types, camelCase);
    var analyzed := builder.BuildAllOrThrow(roots, map[]);
    ghost var goal := GoalAll(types, roots, map[]);
    if analyzed.Err? {
      NotCovered(types, camelCase, roots, dataTypes, dataTypes[..0], goal, builder.definitions);
      return Err;
    }
    for i := 0 to |dataTypes|
      invariant builder.Valid() && builder.types == types && builder.camelCase == camelCase
      invariant forall id :: id in builder.definitions ==> builder.definitions[id].Some?
      invariant AllReferences(analyzed.value) <= builder.definitions.Keys
      invariant Serializable(types, dataTypes[..i]) <= builder.definitions.Keys
      invariant Exact(types, camelCase, map[], Union(goal, Ok(Serializable(types, dataTypes[..i]))),
                      builder.definitions, true)
    {
      var id := dataTypes[i];
      SerializablePrefix(types, dataTypes, i);
      if types[id].serializable {
        ghost var before := builder.definitions;
        if !SupportedParameters(types[id]) {
          UnsupportedNotCovered(types, camelCase, roots, dataTypes, i);
          return Err;
        }
        var ok := builder.RegisterNamedDefinitionOrThrow(id);
        ExactTransitive(types, camelCase, map[], Union(goal, Ok(Serializable(types, dataTypes[..i]))), before, Ok({id}),
                        builder.definitions, ok);
        assert Union(Union(goal, Ok(Serializable(types, dataTypes[..i]))), Ok({id}))
            == Union(goal, Ok(Serializable(types, dataTypes[..i + 1]))) by {
          assert goal.value + Serializable(types, dataTypes[..i]) + {id}
              == goal.value + (Serializable(types, dataTypes[..i]) + {id});
        }
        if !ok {
          NotCovered(types, camelCase, roots, dataTypes, dataTypes[..i + 1],
                     Union(goal, Ok(Serializable(types, dataTypes[..i + 1]))), builder.definitions);
          return Err;
        }
      }
    }
    assert dataTypes[..|dataTypes|] == dataTypes;
    var definitions := GetTypeDefinitions(builder);
    r := Ok(AnalysisResult(analyzed.value, definitions.value));
    ResultCloses(types, camelCase, roots, dataTypes, builder.definitionKeys, builder.definitions, r.value);
  }

  lemma SerializablePrefix(types: LfTypes, dataTypes: seq<Identity>, i: nat)
    requires i < |dataTypes| && dataTypes[i] in types
    ensures Serializable(types, dataTypes[..i + 1])
         == Serializable(types, dataTypes[..i])
            + if types[dataTypes[i]].serializable then {dataTypes[i]} else {}
  {
    var longer, shorter := dataTypes[..i + 1], dataTypes[..i];
    assert longer == shorter + [dataTypes[i]];
    forall id
      ensures id in Serializable(types, longer) <==>
              id in Serializable(types, shorter) || (types[dataTypes[i]].serializable && id == dataTypes[i])
    {
      if id in Serializable(types, shorter) {
        var j :| 0 <= j < |shorter| && shorter[j] in types && types[shorter[j]].serializable && shorter[j] == id;
        assert longer[j] == id;
      }
      if types[dataTypes[i]].serializable && id == dataTypes[i] {
        assert longer[i] == id;
      }
    }
  }

  lemma PrefixSerializable(types: LfTypes, dataTypes: seq<Identity>, i: nat)
    requires i <= |dataTypes|
    ensures Serializable(types, dataTypes[..i]) <= Serializable(types, dataTypes)
  {
  }

  lemma NotCovered(types: LfTypes, camelCase: CamelCase, roots: seq<LfType>, dataTypes: seq<Identity>,
      prefix: seq<Identity>, goal: Result<set<Identity>>, after: Table)
    requires prefix <= dataTypes
    requires
      || goal == GoalAll(types, roots, map[])
      || goal == Union(GoalAll(types, roots, map[]), Ok(Serializable(types, prefix)))
    requires Exact(types, camelCase, map[], goal, after, false)
    ensures !exists ids :: Covers(types, camelCase, roots, dataTypes, ids)
  {
    assert prefix == dataTypes[..|prefix|];
    PrefixSerializable(types, dataTypes, |prefix|);
    forall ids
      ensures !Covers(types, camelCase, roots, dataTypes, ids)
    {
      var analyzable := Analyzable(types, camelCase, ids);
    }
  }

  lemma UnsupportedNotCovered(types: LfTypes, camelCase: CamelCase, roots: seq<LfType>, dataTypes: seq<Identity>,
      i: nat)
    requires i < |dataTypes| && dataTypes[i] in types && types[dataTypes[i]].serializable
    requires !SupportedParameters(types[dataTypes[i]])
    ensures !exists ids :: Covers(types, camelCase, roots, dataTypes, ids)
  {
    assert dataTypes[i] in Serializable(types, dataTypes);
    forall ids
      ensures !Covers(types, camelCase, roots, dataTypes, ids)
    {
      var analyzable := AnalyzableType(types, camelCase, ids, dataTypes[i]);
    }
  }

  lemma ResultCloses(types: LfTypes, camelCase: CamelCase, roots: seq<LfType>, dataTypes: seq<Identity>,
      keys: seq<Identity>, table: Table, result: AnalysisResult)
    requires ValidTable(types, camelCase, keys, table)
    requires |result.definitions| == |keys|
    requires forall i :: 0 <= i < |keys| ==>
               keys[i] in table && table[keys[i]] == Some(result.definitions[i].1)
               && result.definitions[i].0 == keys[i]
    requires ElaborateAll(types, roots, map[]) == Ok(result.roots) && AllReferences(result.roots) <= table.Keys
    requires Serializable(types, dataTypes) <= table.Keys
    requires Exact(types, camelCase, map[], Union(GoalAll(types, roots, map[]), Ok(Serializable(types, dataTypes))),
                   table, true)
    ensures ClosedResult(types, camelCase, roots, dataTypes, result)
    ensures Covers(types, camelCase, roots, dataTypes, Identities(result.definitions))
    ensures forall ids :: Covers(types, camelCase, roots, dataTypes, ids) ==> Identities(result.definitions) <= ids
  {
    assert Identities(result.definitions) == table.Keys by {
      forall id
        ensures id in Identities(result.definitions) <==> id in table
      {
        if id in table {
          assert id in keys;
          var i :| 0 <= i < |keys| && keys[i] == id;
          assert result.definitions[i].0 == id;
        }
      }
    }
    forall i: nat | i < |result.definitions|
      ensures ElaboratedAt(types, camelCase, result.definitions, i)
    {
      assert Finished(types, camelCase, table, keys[i]);
    }
    forall id | id in table
      ensures AnalyzableType(types, camelCase, table.Keys, id)
    {
      assert id in keys;
      var i :| 0 <= i < |keys| && keys[i] == id;
      assert Finished(types, camelCase, table, id);
    }
    assert Analyzable(types, camelCase, table.Keys);
  }

  // ----- closed results are well formed -----

  function DefinitionMap(definitions: seq<(Identity, Definition)>): map<Identity, Definition> {
    if definitions == [] then map[]
    else
      var last := definitions[|definitions| - 1];
      DefinitionMap(definitions[..|definitions| - 1])[last.0 := last.1]
  }

  lemma {:induction false} DefinitionMapKeys(definitions: seq<(Identity, Definition)>)
    requires DistinctIdentities(definitions)
    ensures DefinitionMap(definitions).Keys == Identities(definitions)
    ensures forall i :: 0 <= i < |definitions| ==>
              definitions[i].0 in DefinitionMap(definitions)
              && DefinitionMap(definitions)[definitions[i].0] == definitions[i].1
  {
    if definitions != [] {
      var init, last := definitions[..|definitions| - 1], definitions[|definitions| - 1];
      DefinitionMapKeys(init);
      forall id
        ensures id in Identities(definitions) <==> id in Identities(init) || id == last.0
      {
        if id in Identities(init) {
          var i :| 0 <= i < |init| && init[i].0 == id;
          assert definitions[i].0 == id;
        }
        assert definitions[|definitions| - 1].0 == last.0;
      }
      forall i | 0 <= i < |definitions|
        ensures definitions[i].0 in DefinitionMap(definitions)
        ensures DefinitionMap(definitions)[definitions[i].0] == definitions[i].1
      {
        if i < |init| {
          assert definitions[i] == init[i];
        }
      }
    }
  }

  /** DAML's own rule: labels of a record and constructors of a variant are distinct. */
  ghost predicate DistinctMembers(types: LfTypes) {
    forall id :: id in types ==>
      match types[id].shape
      case LfRecord(fields) => DistinctNamesOf(fields)
      case LfVariant(constructors) => DistinctNamesOf(constructors)
      case LfEnum(_) => true
  }

  ghost predicate DistinctNamesOf(fields: seq<LfField>) {
    forall i, j :: 0 <= i < j < |fields| ==> fields[i].name != fields[j].name
  }

  ghost predicate IndexedScope(scope: Scope) {
    forall i :: i in scope ==> scope[i].index == i
  }

  lemma {:induction false} ScopeOfIndexed(parameters: seq<VarKey>, scope: Scope)
    requires IndexedScope(scope)
    ensures IndexedScope(ScopeOf(parameters, scope))
    decreases parameters
  {
    if parameters != [] {
      ScopeOfIndexed(parameters[1..], scope[parameters[0].index := parameters[0]]);
    }
  }

  ghost predicate SameArity(types: LfTypes, definitions: Definitions) {
    forall id :: id in definitions ==> id in types && |definitions[id].Parameters()| == |types[id].parameters|
  }

  lemma {:induction false} ElaboratedScoped(types: LfTypes, t: LfType, scope: Scope, definitions: Definitions)
    requires Elaborate(types, t, scope).Ok? && IndexedScope(scope) && SameArity(types, definitions)
    requires References(Elaborate(types, t, scope).value) <= definitions.Keys
    ensures Scoped(Elaborate(types, t, scope).value, scope, definitions, false)
    decreases t
  {
    if t.variable.Some? {
    } else if t.reference.Some? {
      ElaboratedAllScoped(types, t.arguments, scope, definitions);
    } else {
      match t.builtin
      case LOptional => ElaboratedScoped(types, t.arguments[0], scope, definitions);
      case LList => ElaboratedScoped(types, t.arguments[0], scope, definitions);
      case LTextMap => ElaboratedScoped(types, t.arguments[0], scope, definitions);
      case LGenMap =>
        ElaboratedScoped(types, t.arguments[0], scope, definitions);
        ElaboratedScoped(types, t.arguments[1], scope, definitions);
      case _ =>
    }
  }

  lemma {:induction false} ElaboratedAllScoped(types: LfTypes, ts: seq<LfType>, scope: Scope, definitions: Definitions)
    requires ElaborateAll(types, ts, scope).Ok? && IndexedScope(scope) && SameArity(types, definitions)
    requires AllReferences(ElaborateAll(types, ts, scope).value) <= definitions.Keys
    ensures ScopedAll(ElaborateAll(types, ts, scope).value, scope, definitions)
    decreases ts
  {
    if ts != [] {
      var all := ElaborateAll(types, ts, scope).value;
      assert all[1..] == ElaborateAll(types, ts[1..], scope).value;
      ElaboratedScoped(types, ts[0], scope, definitions);
      ElaboratedAllScoped(types, ts[1..], scope, definitions);
    }
  }

  /** Renaming properties does not affect scoping. */
  lemma {:induction false} ElaboratedFieldsScoped(types: LfTypes, fields: seq<LfField>, scope: Scope,
      camelCase: CamelCase, definitions: Definitions, renamed: seq<Field>)
    requires ElaborateFields(types, fields, scope, camelCase).Ok? && IndexedScope(scope)
    requires SameArity(types, definitions)
    requires var analyzed := ElaborateFields(types, fields, scope, camelCase).value;
             && FieldReferences(analyzed) <= definitions.Keys
             && |renamed| == |analyzed|
             && forall i :: 0 <= i < |analyzed| ==>
                  renamed[i].ty == analyzed[i].ty && renamed[i].damlLabel == analyzed[i].damlLabel
    ensures ScopedFields(renamed, scope, definitions)
    ensures |renamed| == |fields| && forall i :: 0 <= i < |fields| ==>
              renamed[i].damlLabel == fields[i].name && Scoped(renamed[i].ty, scope, definitions, false)
    decreases fields
  {
    if fields != [] {
      var analyzed := ElaborateFields(types, fields, scope, camelCase).value;
      assert analyzed[1..] == ElaborateFields(types, fields[1..], scope, camelCase).value;
      ElaboratedScoped(types, fields[0].ty, scope, definitions);
      InlineWeaker(renamed[0].ty, scope, definitions);
      ElaboratedFieldsScoped(types, fields[1..], scope, camelCase, definitions, renamed[1..]);
      forall i | 0 <= i < |fields|
        ensures renamed[i].damlLabel == fields[i].name && Scoped(renamed[i].ty, scope, definitions, false)
      {
        if i > 0 {
          assert renamed[i] == renamed[1..][i - 1] && fields[i] == fields[1..][i - 1];
        }
      }
    }
  }

  lemma {:induction false} ElaboratedConstructorsScoped(types: LfTypes, constructors: seq<LfField>, scope: Scope,
      definitions: Definitions)
    requires ElaborateConstructors(types, constructors, scope).Ok? && IndexedScope(scope)
    requires SameArity(types, definitions)
    requires ConstructorReferences(ElaborateConstructors(types, constructors, scope).value) <= definitions.Keys
    ensures var analyzed := ElaborateConstructors(types, constructors, scope).value;
            && ScopedConstructors(analyzed, scope, definitions)
            && |analyzed| == |constructors|
            && forall i :: 0 <= i < |constructors| ==>
                 analyzed[i].name == constructors[i].name && Scoped(analyzed[i].payload, scope, definitions, false)
    decreases constructors
  {
    if constructors != [] {
      var analyzed := ElaborateConstructors(types, constructors, scope).value;
      assert analyzed[1..] == ElaborateConstructors(types, constructors[1..], scope).value;
      ElaboratedScoped(types, constructors[0].ty, scope, definitions);
      InlineWeaker(analyzed[0].payload, scope, definitions);
      ElaboratedConstructorsScoped(types, constructors[1..], scope, definitions);
    }
  }

  lemma DefinitionScoped(types: LfTypes, camelCase: CamelCase, id: Identity, project: Project)
    requires id in types && id in project.definitions
    requires ElaborateDefinition(types, types[id], camelCase) == Ok(project.definitions[id])
    requires DefinitionReferences(project.definitions[id]) <= project.definitions.Keys
    requires SameArity(types, project.definitions) && DistinctMembers(types)
    ensures ScopedDefinition(id, project) && PlainDefinition(id, project)
  {
    var definition := project.definitions[id];
    var names := MergedNames(project.files);
    var scope := ScopeOf(LfModel.KeysOf(types[id].parameters));
    ScopeOfIndexed(LfModel.KeysOf(types[id].parameters), map[]);
    match types[id].shape
    case LfRecord(fields) =>
      var renamed := RenameFields(id, definition.fields, names);
      ElaboratedFieldsScoped(types, fields, scope, camelCase, project.definitions, renamed);
      assert DistinctLabels(renamed);
    case LfVariant(constructors) =>
      ElaboratedConstructorsScoped(types, constructors, scope, project.definitions);
      assert DistinctNames(definition.constructors);
    case LfEnum(_) =>
  }

  /**
   * What analysis accepts, the generator can use: every variable is bound by its own definition,
   * every reference resolves with the right number of arguments, no member of a definition is itself a
   * structure, and all template types are closed.
   */
  lemma AnalysisIsWellFormed(types: LfTypes, camelCase: CamelCase, roots: seq<LfType>, dataTypes: seq<Identity>,
      result: AnalysisResult, files: seq<NamedTypeFile>)
    requires ClosedResult(types, camelCase, roots, dataTypes, result)
    requires DistinctMembers(types) && FilesPartition(files)
    ensures var project := Project(DefinitionMap(result.definitions), files);
            && WellFormed(project) && PlainMembers(project)
            && forall i :: 0 <= i < |result.roots| ==> Closed(result.roots[i], project.definitions)
  {
    var definitions := DefinitionMap(result.definitions);
    var project := Project(definitions, files);
    DefinitionMapKeys(result.definitions);
    forall id | id in definitions
      ensures id in types && |definitions[id].Parameters()| == |types[id].parameters|
    {
      var i: nat :| i < |result.definitions| && result.definitions[i].0 == id;
      assert ElaboratedAt(types, camelCase, result.definitions, i);
    }
    forall id | id in definitions
      ensures ScopedDefinition(id, project) && PlainDefinition(id, project)
    {
      var i: nat :| i < |result.definitions| && result.definitions[i].0 == id;
      assert ElaboratedAt(types, camelCase, result.definitions, i);
      DefinitionScoped(types, camelCase, id, project);
    }
    ElaboratedAllScoped(types, roots, map[], definitions);
    forall i | 0 <= i < |result.roots|
      ensures Closed(result.roots[i], definitions)
    {
      ClosedAt(result.roots, definitions, i);
    }
  }

  lemma {:induction false} ClosedAt(ts: seq<DamlType>, definitions: Definitions, i: nat)
    requires ScopedAll(ts, map[], definitions) && i < |ts|
    ensures Closed(ts[i], definitions)
  {
    if i > 0 {
      ClosedAt(ts[1..], definitions, i - 1);
    }
  }
}
