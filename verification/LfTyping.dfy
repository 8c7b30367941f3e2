/**
 * LF types read directly: which ledger values a type of a model has and what they mean, without the analyzed
 * types in between, and that analysis keeps both.
 */
module LfTyping {
  import opened Wrappers
  import opened JsValues
  import opened DamlTypes
  import opened DescriptorCompiler
  import opened LedgerValues
  import opened ProtobufConverter
  import opened LedgerTyping
  import opened LfModel
  import opened ProtobufTyping
  import DamlNumerics

  /** LF type arguments in force, each to be read under those around it. */
  datatype LfEnv = LfEmpty | LfBound(parameters: seq<LfParameter>, arguments: seq<LfType>, outer: LfEnv)

  /** What values of a model mean depends on its data types and on the names of its generated properties. */
  datatype LfModule = LfModule(types: LfTypes, camelCase: CamelCase, files: seq<NamedTypeFile>)

  /** `v` is a value of the LF type `t`, and what it means is `x`. */
  ghost predicate LfReads(v: PValue, t: LfType, env: LfEnv, model: LfModule, x: Decoded)
    decreases v, env, 1
  {
    if t.variable.Some? then
      && env.LfBound? && |env.parameters| == |env.arguments|
      && var i := Slot(KeysOf(env.parameters), t.variable.value.index);
         i >= 0 && LfReads(v, env.arguments[i], env.outer, model, x)
    else if t.reference.Some? then
      var identity := t.reference.value;
      identity in model.types
      && LfReadsDefinition(v, identity, model.types[identity], t.arguments, env, model, x)
    else
      match t.builtin
      case LUnit => v.PUnit? && x.UnitValue?
      case LBool => v.PBool? && x == BoolValue(v.b)
      case LInt64 => ReadsPrimitive(v, Int64, None, x)
      case LDate => v.PDate? && x == DateValue(v.days) && MIN_DATE <= v.days <= MAX_DATE
      case LTimestamp => ReadsPrimitive(v, Timestamp, None, x)
      case LNumeric => v.PNumeric? && x.NumericValue? && ReadsNumeric(v.text, t.numericScale, x.text)
      case LParty => v.PParty? && x == PartyValue(v.text) && v.text != ""
      case LText => v.PText? && x == TextValue(v.text)
      case LContractId => v.PContractId? && x == TextValue(v.text)
      case LOptional =>
        && |t.arguments| == 1 && v.POptional?
        && if v.value.None? then x.Absent? else LfReads(v.value.value, t.arguments[0], env, model, x)
      case LList =>
        && |t.arguments| == 1 && v.PList? && x.ListValue? && |x.elems| == |v.elems|
        && forall i :: 0 <= i < |v.elems| ==> LfReads(v.elems[i], t.arguments[0], env, model, x.elems[i])
      case LTextMap =>
        && |t.arguments| == 1 && v.PTextMap? && x.TextMapValue? && |x.entries| == |v.entries|
        && forall i :: 0 <= i < |v.entries| ==>
             && x.entries[i].key == v.entries[i].key
             && LfReadsEntry(v.entries[i], t.arguments[0], env, model, x.entries[i].value)
      case LGenMap =>
        && |t.arguments| == 2 && v.PGenMap? && x.GenMapValue? && |x.pairs| == |v.pairs|
        && forall i :: 0 <= i < |v.pairs| ==>
             LfReadsPair(v.pairs[i], t.arguments[0], t.arguments[1], env, model, x.pairs[i])
      case LUnknown => false
  }

  /** A value of a data type, its parameters standing for the arguments. */
  ghost predicate LfReadsDefinition(v: PValue, identity: Identity, dataType: LfDataType, arguments: seq<LfType>,
      env: LfEnv, model: LfModule, x: Decoded)
    decreases v, env, 0
  {
    var inside := LfBound(dataType.parameters, arguments, env);
    match dataType.shape
    case LfRecord(fields) =>
      v.PRecord? && x.RecordValue? && LfReadsRecord(v.fields, fields, identity, inside, model, x.fields)
    case LfVariant(constructors) =>
      v.PVariant? && x.VariantValue? && x.constructor_ == v.name
      && LfReadsVariant(v.name, v.payload, constructors, inside, model, x.value)
    case LfEnum(names) => v.PEnum? && v.name in names && x == EnumValue(v.name)
  }

  ghost predicate LfReadsEntry(entry: PEntry, t: LfType, env: LfEnv, model: LfModule, x: Decoded)
    decreases entry, env, 0
  {
    entry.value.Some? && LfReads(entry.value.value, t, env, model, x)
  }

  ghost predicate LfReadsPair(pair: PPair, key: LfType, t: LfType, env: LfEnv, model: LfModule, x: Pair<Decoded>)
    decreases pair, env, 0
  {
    && pair.key.Some? && LfReads(pair.key.value, key, env, model, x.key)
    && pair.value.Some? && LfReads(pair.value.value, t, env, model, x.value)
  }

  ghost predicate LfReadsVariant(name: string, payload: Option<PValue>, constructors: seq<LfField>, env: LfEnv,
      model: LfModule, x: Decoded)
    decreases payload, env, 0
  {
    payload.Some? && exists i :: 0 <= i < |constructors| && constructors[i].name == name
                                 && LfReads(payload.value, constructors[i].ty, env, model, x)
  }

  /** A complete record: every field once, by its label or by its position, assigned to its property. */
  ghost predicate LfReadsRecord(entries: seq<PEntry>, fields: seq<LfField>, identity: Identity, env: LfEnv,
      model: LfModule, members: seq<Entry<Decoded>>)
    decreases entries, env, 2
  {
    && |entries| == |fields|
    && (Labelled(entries) ==> forall i, j :: 0 <= i < j < |entries| ==> entries[i].key != entries[j].key)
    && (Labelled(entries) || Unlabelled(entries))
    && exists output: seq<Entry<Decoded>> ::
         LfReadsFields(entries, fields, identity, env, model, output) && members == PutAll([], output)
  }

  ghost predicate LfReadsFields(entries: seq<PEntry>, fields: seq<LfField>, identity: Identity, env: LfEnv,
      model: LfModule, output: seq<Entry<Decoded>>)
    decreases entries, env, 1
  {
    && |output| == |fields|
    && forall j :: 0 <= j < |fields| ==>
         && model.camelCase(fields[j].name).Some?
         && IsProperty(model.files, Some(identity), j, model.camelCase(fields[j].name).value, output[j].key)
         && LfReadsField(entries, j, fields[j], env, model, output[j].value)
  }

  ghost predicate LfReadsField(entries: seq<PEntry>, position: nat, field: LfField, env: LfEnv, model: LfModule,
      x: Decoded)
    decreases entries, env, 0
  {
    exists i :: 0 <= i < |entries| && (if Labelled(entries) then entries[i].key == field.name else i == position)
                && LfReadsEntry(entries[i], field.ty, env, model, x)
  }

  // ----- analyzed types have the values of their LF types -----

  function LfScope(env: LfEnv): map<int, VarKey> {
    if env.LfEmpty? then map[] else ScopeOf(KeysOf(env.parameters))
  }

  function Analyzed(env: LfEnv, types: LfTypes): Env
    decreases env
  {
    if env.LfEmpty? then Empty
    else
      var arguments := ElaborateAll(types, env.arguments, LfScope(env.outer));
      Bound(KeysOf(env.parameters), if arguments.Ok? then arguments.value else [], Analyzed(env.outer, types))
  }

  /** The type elaborates, and all it refers to is defined. */
  ghost predicate Builds(t: LfType, scope: map<int, VarKey>, types: LfTypes, definitions: map<Identity, Definition>) {
    var r := Elaborate(types, t, scope);
    r.Ok? && References(r.value) <= definitions.Keys
  }

  ghost predicate EnvBuilds(env: LfEnv, types: LfTypes, definitions: map<Identity, Definition>)
    decreases env
  {
    env.LfBound? ==>
      && |env.parameters| == |env.arguments|
      && (forall i :: 0 <= i < |env.arguments| ==> Builds(env.arguments[i], LfScope(env.outer), types, definitions))
      && EnvBuilds(env.outer, types, definitions)
  }

  ghost predicate Defined(model: LfModule, project: Project) {
    && project.files == model.files
    && forall id {:trigger DefinedAt(model, project, id)} :: id in project.definitions ==> DefinedAt(model, project, id)
  }

  ghost predicate DefinedAt(model: LfModule, project: Project, id: Identity)
    requires id in project.definitions
  {
    && id in model.types
    && SupportedParameters(model.types[id])
    && ElaborateDefinition(model.types, model.types[id], model.camelCase) == Ok(project.definitions[id])
    && DefinitionReferences(project.definitions[id]) <= project.definitions.Keys
  }

  lemma {:induction false} ElaboratesAll(types: LfTypes, ts: seq<LfType>, scope: map<int, VarKey>)
    ensures ElaborateAll(types, ts, scope).Ok? <==> forall i :: 0 <= i < |ts| ==> Elaborate(types, ts[i], scope).Ok?
    ensures ElaborateAll(types, ts, scope).Ok? ==> forall i :: 0 <= i < |ts| ==>
              Elaborate(types, ts[i], scope).value == ElaborateAll(types, ts, scope).value[i]
    decreases ts
  {
    hide Elaborate;
    if ts != [] {
      ElaboratesAll(types, ts[1..], scope);
      assert forall i :: 1 <= i < |ts| ==> ts[i] == ts[1..][i - 1];
      if ElaborateAll(types, ts, scope).Ok? {
        var all, rest := ElaborateAll(types, ts, scope).value, ElaborateAll(types, ts[1..], scope).value;
        assert all[1..] == rest;
        assert forall i :: 1 <= i < |ts| ==> all[i] == rest[i - 1];
      }
    }
  }

  lemma {:induction false} AllWithin(ts: seq<DamlType>, ids: set<Identity>)
    ensures AllReferences(ts) <= ids <==> forall i :: 0 <= i < |ts| ==> References(ts[i]) <= ids
    decreases ts
  {
    hide References;
    if ts != [] {
      AllWithin(ts[1..], ids);
      assert forall i :: 1 <= i < |ts| ==> ts[i] == ts[1..][i - 1];
    }
  }

  lemma {:induction false} FieldsElaborate(types: LfTypes, fields: seq<LfField>, scope: map<int, VarKey>,
      camelCase: CamelCase)
    ensures var r := ElaborateFields(types, fields, scope, camelCase);
            && (r.Ok? <==> forall i :: 0 <= i < |fields| ==>
                  camelCase(fields[i].name).Some? && Elaborate(types, fields[i].ty, scope).Ok?)
            && (r.Ok? ==> |r.value| == |fields| && forall i :: 0 <= i < |fields| ==>
                  r.value[i] == Field(fields[i].name, camelCase(fields[i].name).value,
                                      Elaborate(types, fields[i].ty, scope).value))
    decreases fields
  {
    hide Elaborate;
    if fields != [] {
      FieldsElaborate(types, fields[1..], scope, camelCase);
      assert forall i :: 1 <= i < |fields| ==> fields[i] == fields[1..][i - 1];
      var all, rest := ElaborateFields(types, fields, scope, camelCase),
                       ElaborateFields(types, fields[1..], scope, camelCase);
      if all.Ok? {
        assert all.value[1..] == rest.value;
        assert forall i :: 1 <= i < |fields| ==> all.value[i] == rest.value[i - 1];
      }
    }
  }

  lemma {:induction false} ConstructorsElaborate(types: LfTypes, constructors: seq<LfField>, scope: map<int, VarKey>)
    ensures var r := ElaborateConstructors(types, constructors, scope);
            && (r.Ok? <==> forall i :: 0 <= i < |constructors| ==> Elaborate(types, constructors[i].ty, scope).Ok?)
            && (r.Ok? ==> |r.value| == |constructors| && forall i :: 0 <= i < |constructors| ==>
                  r.value[i] == Constructor(constructors[i].name, Elaborate(types, constructors[i].ty, scope).value))
    decreases constructors
  {
    hide Elaborate;
    if constructors != [] {
      ConstructorsElaborate(types, constructors[1..], scope);
      assert forall i :: 1 <= i < |constructors| ==> constructors[i] == constructors[1..][i - 1];
      var all, rest := ElaborateConstructors(types, constructors, scope),
                       ElaborateConstructors(types, constructors[1..], scope);
      if all.Ok? {
        assert all.value[1..] == rest.value;
        assert forall i :: 1 <= i < |constructors| ==> all.value[i] == rest.value[i - 1];
      }
    }
  }

  lemma {:induction false} FieldsWithin(fields: seq<Field>, ids: set<Identity>)
    ensures FieldReferences(fields) <= ids <==> forall i :: 0 <= i < |fields| ==> References(fields[i].ty) <= ids
    decreases fields
  {
    hide References;
    if fields != [] {
      FieldsWithin(fields[1..], ids);
      assert forall i :: 1 <= i < |fields| ==> fields[i] == fields[1..][i - 1];
    }
  }

  lemma {:induction false} ConstructorsWithin(constructors: seq<Constructor>, ids: set<Identity>)
    ensures ConstructorReferences(constructors) <= ids <==>
            forall i :: 0 <= i < |constructors| ==> References(constructors[i].payload) <= ids
    decreases constructors
  {
    hide References;
    if constructors != [] {
      ConstructorsWithin(constructors[1..], ids);
      assert forall i :: 1 <= i < |constructors| ==> constructors[i] == constructors[1..][i - 1];
    }
  }

  ghost predicate Setting(env: LfEnv, model: LfModule, project: Project) {
    Defined(model, project) && EnvBuilds(env, model.types, project.definitions)
  }

  ghost predicate BuildsIn(t: LfType, env: LfEnv, model: LfModule, project: Project) {
    Builds(t, LfScope(env), model.types, project.definitions)
  }

  function AnalyzedType(t: LfType, env: LfEnv, model: LfModule): DamlType
    requires Elaborate(model.types, t, LfScope(env)).Ok?
  {
    Elaborate(model.types, t, LfScope(env)).value
  }

  /** The analyzed type has exactly the values of the LF type, with the same meanings. */
  ghost predicate SameValues(v: PValue, t: LfType, env: LfEnv, model: LfModule, project: Project, x: Decoded) {
    && Elaborate(model.types, t, LfScope(env)).Ok?
    && (LfReads(v, t, env, model, x)
        <==> Reads(v, AnalyzedType(t, env, model), Analyzed(env, model.types), project, x))
  }

  lemma {:induction false} KeepsValues(v: PValue, t: LfType, env: LfEnv, model: LfModule, project: Project, x: Decoded)
    requires Setting(env, model, project) && BuildsIn(t, env, model, project)
    ensures SameValues(v, t, env, model, project, x)
    decreases v, env, 5
  {
    hide LfReads, Reads;
    if t.variable.Some? {
      VariableKeeps(v, t, env, model, project, x);
    } else if t.reference.Some? {
      ReferenceKeeps(v, t, env, model, project, x);
    } else {
      match t.builtin
      case LOptional => OptionalKeeps(v, t, env, model, project, x);
      case LList => ListKeeps(v, t, env, model, project, x);
      case LTextMap => TextMapKeeps(v, t, env, model, project, x);
      case LGenMap => GenMapKeeps(v, t, env, model, project, x);
      case _ => LeafKeeps(v, t, env, model, project, x);
    }
  }

  ghost predicate Constructed(t: LfType, builtin: LfBuiltin) {
    t.variable.None? && t.reference.None? && t.builtin == builtin
  }

  ghost predicate Leaf(t: LfType) {
    && t.variable.None? && t.reference.None?
    && !t.builtin.LOptional? && !t.builtin.LList? && !t.builtin.LTextMap? && !t.builtin.LGenMap?
  }

  /** A builtin without parts is analyzed as the primitive it names, or as a contract id. */
  lemma LeafBuilds(t: LfType, env: LfEnv, model: LfModule, project: Project)
    requires BuildsIn(t, env, model, project) && Leaf(t)
    ensures Elaborate(model.types, t, LfScope(env)).Ok? && (!t.builtin.LContractId? ==> PrimitiveOf(t.builtin).Some?)
    ensures AnalyzedType(t, env, model)
         == if t.builtin.LContractId? then ContractId else Prim(PrimitiveOf(t.builtin).value, t.numericScale)
  {
    hide References;
  }

  lemma LeafReads(v: PValue, t: LfType, env: LfEnv, model: LfModule, x: Decoded)
    requires Leaf(t) && PrimitiveOf(t.builtin).Some?
    ensures LfReads(v, t, env, model, x) <==> ReadsPrimitive(v, PrimitiveOf(t.builtin).value, t.numericScale, x)
  {
    hide WritesInteger, ReadsNumeric;
  }

  lemma ContractIdReads(v: PValue, t: LfType, env: LfEnv, model: LfModule, x: Decoded)
    requires Leaf(t) && t.builtin.LContractId?
    ensures LfReads(v, t, env, model, x) <==> v.PContractId? && x == TextValue(v.text)
  {
  }

  lemma AnalyzedLeafReads(v: PValue, primitive: Option<Primitive>, scale: Option<int>, env: Env, project: Project,
      x: Decoded)
    ensures Reads(v, ContractId, env, project, x) <==> v.PContractId? && x == TextValue(v.text)
    ensures primitive.Some? ==>
              (Reads(v, Prim(primitive.value, scale), env, project, x)
               <==> ReadsPrimitive(v, primitive.value, scale, x))
  {
    hide ReadsPrimitive;
  }

  lemma LeafKeeps(v: PValue, t: LfType, env: LfEnv, model: LfModule, project: Project, x: Decoded)
    requires BuildsIn(t, env, model, project) && Leaf(t)
    ensures SameValues(v, t, env, model, project, x)
  {
    hide Analyzed, Elaborate, BuildsIn, AnalyzedType, LfReads, Reads, ReadsPrimitive, Leaf;
    LeafBuilds(t, env, model, project);
    AnalyzedLeafReads(v, PrimitiveOf(t.builtin), t.numericScale, Analyzed(env, model.types), project, x);
    if t.builtin.LContractId? {
      ContractIdReads(v, t, env, model, x);
    } else {
      LeafReads(v, t, env, model, x);
    }
  }

  /** The parts of a built type are built, and the type is built from them. */
  lemma ElementBuilds(t: LfType, env: LfEnv, model: LfModule, project: Project)
    requires BuildsIn(t, env, model, project) && t.variable.None? && t.reference.None?
    requires t.builtin.LOptional? || t.builtin.LList? || t.builtin.LTextMap?
    ensures Elaborate(model.types, t, LfScope(env)).Ok?
    ensures |t.arguments| == 1 && BuildsIn(t.arguments[0], env, model, project)
    ensures Elaborate(model.types, t.arguments[0], LfScope(env)).Ok?
    ensures t.builtin.LOptional? ==> AnalyzedType(t, env, model) == Optional(AnalyzedType(t.arguments[0], env, model))
    ensures t.builtin.LList? ==> AnalyzedType(t, env, model) == List(AnalyzedType(t.arguments[0], env, model))
    ensures t.builtin.LTextMap? ==> AnalyzedType(t, env, model) == TextMap(AnalyzedType(t.arguments[0], env, model))
  {
  }

  lemma {:induction false} OptionalKeeps(v: PValue, t: LfType, env: LfEnv, model: LfModule, project: Project,
      x: Decoded)
    requires Setting(env, model, project) && BuildsIn(t, env, model, project) && Constructed(t, LOptional)
    ensures SameValues(v, t, env, model, project, x)
    decreases v, env, 2
  {
    hide AnalyzedType, Elaborate, Setting, BuildsIn, Analyzed, LfReads, Reads;
    ElementBuilds(t, env, model, project);
    OptionalReads(v, t, env, model, x);
    AnalyzedOptionalReads(v, AnalyzedType(t.arguments[0], env, model), Analyzed(env, model.types), project, x);
    if v.POptional? && v.value.Some? {
      KeepsValues(v.value.value, t.arguments[0], env, model, project, x);
    }
  }

  lemma OptionalReads(v: PValue, t: LfType, env: LfEnv, model: LfModule, x: Decoded)
    requires Constructed(t, LOptional) && |t.arguments| == 1
    ensures LfReads(v, t, env, model, x) <==>
            v.POptional? && if v.value.None? then x.Absent? else LfReads(v.value.value, t.arguments[0], env, model, x)
  {
  }

  lemma AnalyzedOptionalReads(v: PValue, element: DamlType, env: Env, project: Project, x: Decoded)
    ensures Reads(v, Optional(element), env, project, x) <==>
            v.POptional? && if v.value.None? then x.Absent? else Reads(v.value.value, element, env, project, x)
  {
  }

  lemma {:induction false} ListKeeps(v: PValue, t: LfType, env: LfEnv, model: LfModule, project: Project, x: Decoded)
    requires Setting(env, model, project) && BuildsIn(t, env, model, project) && Constructed(t, LList)
    ensures SameValues(v, t, env, model, project, x)
    decreases v, env, 2
  {
    hide AnalyzedType, Elaborate, Setting, BuildsIn, Analyzed, LfReads, Reads;
    ElementBuilds(t, env, model, project);
    ListReads(v, t, env, model, x);
    AnalyzedListReads(v, AnalyzedType(t.arguments[0], env, model), Analyzed(env, model.types), project, x);
    if v.PList? && x.ListValue? {
      forall i | 0 <= i < |v.elems| && i < |x.elems|
        ensures SameValues(v.elems[i], t.arguments[0], env, model, project, x.elems[i])
      {
        KeepsValues(v.elems[i], t.arguments[0], env, model, project, x.elems[i]);
      }
    }
  }

  lemma ListReads(v: PValue, t: LfType, env: LfEnv, model: LfModule, x: Decoded)
    requires Constructed(t, LList) && |t.arguments| == 1
    ensures LfReads(v, t, env, model, x) <==>
            && v.PList? && x.ListValue? && |x.elems| == |v.elems|
            && forall i :: 0 <= i < |v.elems| ==> LfReads(v.elems[i], t.arguments[0], env, model, x.elems[i])
  {
  }

  lemma AnalyzedListReads(v: PValue, element: DamlType, env: Env, project: Project, x: Decoded)
    ensures Reads(v, List(element), env, project, x) <==>
            && v.PList? && x.ListValue? && |x.elems| == |v.elems|
            && forall i :: 0 <= i < |v.elems| ==> Reads(v.elems[i], element, env, project, x.elems[i])
  {
  }

  lemma {:induction false} EntryKeeps(entry: PEntry, t: LfType, env: LfEnv, model: LfModule, project: Project,
      x: Decoded)
    requires Setting(env, model, project) && BuildsIn(t, env, model, project)
    ensures Elaborate(model.types, t, LfScope(env)).Ok?
    ensures LfReadsEntry(entry, t, env, model, x)
       <==> ReadsEntry(entry, AnalyzedType(t, env, model), Analyzed(env, model.types), project, x)
    decreases entry, env, 0
  {
    hide LfReads, Reads, Analyzed;
    if entry.value.Some? {
      KeepsValues(entry.value.value, t, env, model, project, x);
    }
  }

  lemma {:induction false} TextMapKeeps(v: PValue, t: LfType, env: LfEnv, model: LfModule, project: Project, x: Decoded)
    requires Setting(env, model, project) && BuildsIn(t, env, model, project) && Constructed(t, LTextMap)
    ensures SameValues(v, t, env, model, project, x)
    decreases v, env, 2
  {
    hide AnalyzedType, Elaborate, Setting, BuildsIn, Analyzed, LfReadsEntry, ReadsEntry, LfReads, Reads;
    ElementBuilds(t, env, model, project);
    TextMapReads(v, t, env, model, x);
    AnalyzedTextMapReads(v, AnalyzedType(t.arguments[0], env, model), Analyzed(env, model.types), project, x);
    if v.PTextMap? && x.TextMapValue? {
      forall i | 0 <= i < |v.entries| && i < |x.entries|
        ensures LfReadsEntry(v.entries[i], t.arguments[0], env, model, x.entries[i].value)
           <==> ReadsEntry(v.entries[i], AnalyzedType(t.arguments[0], env, model), Analyzed(env, model.types), project,
                           x.entries[i].value)
      {
        EntryKeeps(v.entries[i], t.arguments[0], env, model, project, x.entries[i].value);
      }
    }
  }

  lemma TextMapReads(v: PValue, t: LfType, env: LfEnv, model: LfModule, x: Decoded)
    requires Constructed(t, LTextMap) && |t.arguments| == 1
    ensures LfReads(v, t, env, model, x) <==>
            && v.PTextMap? && x.TextMapValue? && |x.entries| == |v.entries|
            && forall i :: 0 <= i < |v.entries| ==>
                 && x.entries[i].key == v.entries[i].key
                 && LfReadsEntry(v.entries[i], t.arguments[0], env, model, x.entries[i].value)
  {
    hide LfReadsEntry;
  }

  lemma AnalyzedTextMapReads(v: PValue, t: DamlType, env: Env, project: Project, x: Decoded)
    ensures Reads(v, TextMap(t), env, project, x) <==>
            && v.PTextMap? && x.TextMapValue? && |x.entries| == |v.entries|
            && forall i :: 0 <= i < |v.entries| ==>
                 x.entries[i].key == v.entries[i].key && ReadsEntry(v.entries[i], t, env, project, x.entries[i].value)
  {
    hide ReadsEntry;
  }

  lemma {:induction false} PairKeeps(pair: PPair, key: LfType, t: LfType, env: LfEnv, model: LfModule,
      project: Project, x: Pair<Decoded>)
    requires Setting(env, model, project)
    requires BuildsIn(key, env, model, project) && BuildsIn(t, env, model, project)
    ensures Elaborate(model.types, key, LfScope(env)).Ok? && Elaborate(model.types, t, LfScope(env)).Ok?
    ensures LfReadsPair(pair, key, t, env, model, x)
       <==> ReadsPair(pair, AnalyzedType(key, env, model), AnalyzedType(t, env, model), Analyzed(env, model.types),
                      project, x)
    decreases pair, env, 0
  {
    hide LfReads, Reads, Analyzed;
    if pair.key.Some? && pair.value.Some? {
      KeepsValues(pair.key.value, key, env, model, project, x.key);
      KeepsValues(pair.value.value, t, env, model, project, x.value);
    }
  }

  lemma KeyAndValueBuild(t: LfType, env: LfEnv, model: LfModule, project: Project)
    requires BuildsIn(t, env, model, project) && Constructed(t, LGenMap)
    ensures Elaborate(model.types, t, LfScope(env)).Ok? && |t.arguments| == 2
    ensures Elaborate(model.types, t.arguments[0], LfScope(env)).Ok?
    ensures Elaborate(model.types, t.arguments[1], LfScope(env)).Ok?
    ensures BuildsIn(t.arguments[0], env, model, project) && BuildsIn(t.arguments[1], env, model, project)
    ensures AnalyzedType(t, env, model)
         == GenMap(AnalyzedType(t.arguments[0], env, model), AnalyzedType(t.arguments[1], env, model))
  {
  }

  lemma {:induction false} GenMapKeeps(v: PValue, t: LfType, env: LfEnv, model: LfModule, project: Project, x: Decoded)
    requires Setting(env, model, project) && BuildsIn(t, env, model, project) && Constructed(t, LGenMap)
    ensures SameValues(v, t, env, model, project, x)
    decreases v, env, 2
  {
    hide AnalyzedType, Elaborate, Setting, BuildsIn, Analyzed, LfReadsPair, ReadsPair, LfReads, Reads;
    KeyAndValueBuild(t, env, model, project);
    var key, value := t.arguments[0], t.arguments[1];
    GenMapReads(v, t, env, model, x);
    GenMapMeaning(v, AnalyzedType(key, env, model), AnalyzedType(value, env, model), Analyzed(env, model.types),
                  project, x);
    if v.PGenMap? && x.GenMapValue? {
      forall i | 0 <= i < |v.pairs| && i < |x.pairs|
        ensures LfReadsPair(v.pairs[i], key, value, env, model, x.pairs[i])
           <==> ReadsPair(v.pairs[i], AnalyzedType(key, env, model), AnalyzedType(value, env, model),
                          Analyzed(env, model.types), project, x.pairs[i])
      {
        PairKeeps(v.pairs[i], key, value, env, model, project, x.pairs[i]);
      }
    }
  }

  lemma GenMapReads(v: PValue, t: LfType, env: LfEnv, model: LfModule, x: Decoded)
    requires Constructed(t, LGenMap) && |t.arguments| == 2
    ensures LfReads(v, t, env, model, x) <==>
            && v.PGenMap? && x.GenMapValue? && |x.pairs| == |v.pairs|
            && forall i :: 0 <= i < |v.pairs| ==>
                 LfReadsPair(v.pairs[i], t.arguments[0], t.arguments[1], env, model, x.pairs[i])
  {
    hide LfReadsPair;
  }

  /** A bound variable stands for the argument in its slot, in both readings. */
  lemma VariableBuilds(t: LfType, env: LfEnv, model: LfModule, project: Project)
    requires Setting(env, model, project) && BuildsIn(t, env, model, project) && t.variable.Some?
    ensures env.LfBound? && |env.parameters| == |env.arguments|
    ensures var i := Slot(KeysOf(env.parameters), t.variable.value.index);
            var analyzed := Analyzed(env, model.types);
            && i >= 0 && BuildsIn(env.arguments[i], env.outer, model, project)
            && Setting(env.outer, model, project)
            && analyzed.parameters == KeysOf(env.parameters) && analyzed.outer == Analyzed(env.outer, model.types)
            && |analyzed.arguments| == |env.arguments|
            && analyzed.arguments[i] == AnalyzedType(env.arguments[i], env.outer, model)
            && AnalyzedType(t, env, model).Var? && AnalyzedType(t, env, model).variable.index == t.variable.value.index
  {
    hide References;
    SlotScopes(KeysOf(env.parameters), map[], t.variable.value.index);
    ElaboratesAll(model.types, env.arguments, LfScope(env.outer));
  }

  lemma {:induction false} VariableKeeps(v: PValue, t: LfType, env: LfEnv, model: LfModule, project: Project,
      x: Decoded)
    requires Setting(env, model, project) && BuildsIn(t, env, model, project) && t.variable.Some?
    ensures SameValues(v, t, env, model, project, x)
    decreases v, env, 2
  {
    assert Elaborate(model.types, t, LfScope(env)).Ok?;
    VariableBuilds(t, env, model, project);
    hide AnalyzedType, Elaborate, Setting, BuildsIn, Analyzed;
    var i := Slot(KeysOf(env.parameters), t.variable.value.index);
    KeepsValues(v, env.arguments[i], env.outer, model, project, x);
  }

  // ----- data types -----

  /** The analyzed fields of a record in order, each with its label, its own property name and its type. */
  ghost predicate FieldsBuild(fields: seq<LfField>, analyzed: seq<Field>, env: LfEnv, model: LfModule,
      project: Project) {
    && |analyzed| == |fields|
    && forall j :: 0 <= j < |fields| ==> FieldBuilds(fields[j], analyzed[j], env, model, project)
  }

  ghost predicate FieldBuilds(field: LfField, analyzed: Field, env: LfEnv, model: LfModule, project: Project) {
    && BuildsIn(field.ty, env, model, project) && analyzed.ty == AnalyzedType(field.ty, env, model)
    && analyzed.damlLabel == field.name && model.camelCase(field.name) == Some(analyzed.propertyName)
  }

  lemma {:induction false} FieldKeeps(entries: seq<PEntry>, j: nat, field: LfField, analyzed: Field, env: LfEnv,
      model: LfModule, project: Project, x: Decoded)
    requires Setting(env, model, project) && FieldBuilds(field, analyzed, env, model, project)
    ensures LfReadsField(entries, j, field, env, model, x)
       <==> ReadsField(entries, j, analyzed, Analyzed(env, model.types), project, x)
    decreases entries, env, 1
  {
    hide LfReadsEntry, ReadsEntry, Analyzed, Elaborate, Setting, Builds;
    forall i | 0 <= i < |entries|
      ensures LfReadsEntry(entries[i], field.ty, env, model, x)
         <==> ReadsEntry(entries[i], analyzed.ty, Analyzed(env, model.types), project, x)
    {
      EntryKeeps(entries[i], field.ty, env, model, project, x);
    }
  }

  lemma {:induction false} RecordKeeps(entries: seq<PEntry>, identity: Identity, fields: seq<LfField>,
      analyzed: seq<Field>, env: LfEnv, model: LfModule, project: Project, members: seq<Entry<Decoded>>)
    requires Setting(env, model, project) && FieldsBuild(fields, analyzed, env, model, project)
    ensures LfReadsRecord(entries, fields, identity, env, model, members)
       <==> ReadsRecord(entries, analyzed, Some(identity), Analyzed(env, model.types), project, members)
    decreases entries, env, 3
  {
    hide PutAll;
    forall output: seq<Entry<Decoded>>
      ensures LfReadsFields(entries, fields, identity, env, model, output)
         <==> ReadsFields(entries, analyzed, Some(identity), Analyzed(env, model.types), project, output)
    {
      FieldsKeep(entries, identity, fields, analyzed, env, model, project, output);
    }
    hide LfReadsFields, ReadsFields;
  }

  lemma {:induction false} FieldsKeep(entries: seq<PEntry>, identity: Identity, fields: seq<LfField>,
      analyzed: seq<Field>, env: LfEnv, model: LfModule, project: Project, output: seq<Entry<Decoded>>)
    requires Setting(env, model, project) && FieldsBuild(fields, analyzed, env, model, project)
    ensures LfReadsFields(entries, fields, identity, env, model, output)
       <==> ReadsFields(entries, analyzed, Some(identity), Analyzed(env, model.types), project, output)
    decreases entries, env, 2
  {
    hide LfReadsField, ReadsField, Analyzed, IsProperty;
    forall j | 0 <= j < |fields| && j < |output|
      ensures LfReadsField(entries, j, fields[j], env, model, output[j].value)
         <==> ReadsField(entries, j, analyzed[j], Analyzed(env, model.types), project, output[j].value)
      ensures model.camelCase(fields[j].name) == Some(analyzed[j].propertyName)
    {
      assert FieldBuilds(fields[j], analyzed[j], env, model, project);
      FieldKeeps(entries, j, fields[j], analyzed[j], env, model, project, output[j].value);
    }
  }

  ghost predicate ConstructorsBuild(constructors: seq<LfField>, analyzed: seq<Constructor>, env: LfEnv,
      model: LfModule, project: Project) {
    && |analyzed| == |constructors|
    && forall j :: 0 <= j < |constructors| ==>
         && analyzed[j].name == constructors[j].name && BuildsIn(constructors[j].ty, env, model, project)
         && analyzed[j].payload == AnalyzedType(constructors[j].ty, env, model)
  }

  lemma {:induction false} VariantKeeps(name: string, payload: Option<PValue>, constructors: seq<LfField>,
      analyzed: seq<Constructor>, env: LfEnv, model: LfModule, project: Project, x: Decoded)
    requires Setting(env, model, project) && ConstructorsBuild(constructors, analyzed, env, model, project)
    ensures LfReadsVariant(name, payload, constructors, env, model, x)
       <==> ReadsVariant(name, payload, analyzed, Analyzed(env, model.types), project, x)
    decreases payload, env, 0
  {
    hide LfReads, Reads, Analyzed, Elaborate, Setting, Builds;
    if payload.Some? {
      forall j | 0 <= j < |constructors|
        ensures LfReads(payload.value, constructors[j].ty, env, model, x)
           <==> Reads(payload.value, analyzed[j].payload, Analyzed(env, model.types), project, x)
      {
        KeepsValues(payload.value, constructors[j].ty, env, model, project, x);
      }
    }
  }

  lemma {:induction false} NamedRecordKeeps(v: PValue, identity: Identity, fields: seq<LfField>, inside: LfEnv,
      outer: LfEnv, model: LfModule, project: Project, x: Decoded)
    requires identity in project.definitions && DefinedAt(model, project, identity)
    requires model.types[identity].shape == LfRecord(fields)
    requires inside.LfBound? && inside.parameters == model.types[identity].parameters
    requires Setting(inside, model, project)
    ensures project.definitions[identity].RecordDefinition?
    ensures v.PRecord? && x.RecordValue? ==>
              (LfReadsRecord(v.fields, fields, identity, inside, model, x.fields) <==>
               ReadsRecord(v.fields, project.definitions[identity].fields, Some(identity),
                           Analyzed(inside, model.types), project, x.fields))
    decreases v, outer, 0
  {
    RecordBuilds(identity, fields, inside, model, project);
    hide LfReadsRecord, ReadsRecord, Setting, DefinedAt, FieldsBuild, Analyzed;
    if v.PRecord? && x.RecordValue? {
      RecordKeeps(v.fields, identity, fields, project.definitions[identity].fields, inside, model, project, x.fields);
    }
  }

  lemma {:induction false} NamedVariantKeeps(v: PValue, identity: Identity, constructors: seq<LfField>, inside: LfEnv,
      outer: LfEnv, model: LfModule, project: Project, x: Decoded)
    requires identity in project.definitions && DefinedAt(model, project, identity)
    requires model.types[identity].shape == LfVariant(constructors)
    requires inside.LfBound? && inside.parameters == model.types[identity].parameters
    requires Setting(inside, model, project)
    ensures project.definitions[identity].VariantDefinition?
    ensures v.PVariant? && x.VariantValue? ==>
              (LfReadsVariant(v.name, v.payload, constructors, inside, model, x.value) <==>
               ReadsVariant(v.name, v.payload, project.definitions[identity].constructors,
                            Analyzed(inside, model.types), project, x.value))
    decreases v, outer, 0
  {
    VariantBuilds(identity, constructors, inside, model, project);
    hide LfReadsVariant, ReadsVariant, Setting, DefinedAt, ConstructorsBuild, Analyzed;
    if v.PVariant? && x.VariantValue? {
      VariantKeeps(v.name, v.payload, constructors, project.definitions[identity].constructors, inside, model, project,
                   x.value);
    }
  }

  lemma AnalyzedInside(parameters: seq<LfParameter>, arguments: seq<LfType>, analyzed: seq<DamlType>, env: LfEnv,
      types: LfTypes)
    requires ElaborateAll(types, arguments, LfScope(env)) == Ok(analyzed)
    ensures Analyzed(LfBound(parameters, arguments, env), types)
         == Bound(KeysOf(parameters), analyzed, Analyzed(env, types))
  {
    hide ElaborateAll;
  }

  lemma ParametersKept(model: LfModule, project: Project, identity: Identity)
    requires identity in project.definitions && DefinedAt(model, project, identity)
    ensures project.definitions[identity].Parameters() == KeysOf(model.types[identity].parameters)
    ensures model.types[identity].shape.LfEnum? ==>
              project.definitions[identity] == EnumDefinition(model.types[identity].shape.names)
  {
    hide ElaborateFields, ElaborateConstructors;
  }

  /** A data type and its analyzed definition have the same values under the same arguments. */
  lemma {:induction false} DefinitionKeeps(v: PValue, identity: Identity, dataType: LfDataType,
      definition: Definition, arguments: seq<LfType>, analyzed: seq<DamlType>, env: LfEnv, model: LfModule,
      project: Project, x: Decoded)
    requires identity in model.types && model.types[identity] == dataType
    requires ElaborateAll(model.types, arguments, LfScope(env)) == Ok(analyzed)
    requires Setting(LfBound(dataType.parameters, arguments, env), model, project)
    requires identity in project.definitions && project.definitions[identity] == definition
    requires DefinedAt(model, project, identity)
    ensures LfReadsDefinition(v, identity, dataType, arguments, env, model, x)
       <==> ReadsDefinition(v, identity, definition, analyzed, Analyzed(env, model.types), project, x)
    decreases v, env, 1
  {
    hide LfReadsRecord, ReadsRecord, LfReadsVariant, ReadsVariant, Setting, DefinedAt, Analyzed, ElaborateAll, KeysOf;
    var inside := LfBound(dataType.parameters, arguments, env);
    AnalyzedInside(dataType.parameters, arguments, analyzed, env, model.types);
    ParametersKept(model, project, identity);
    match dataType.shape
    case LfRecord(fields) => NamedRecordKeeps(v, identity, fields, inside, env, model, project, x);
    case LfVariant(constructors) => NamedVariantKeeps(v, identity, constructors, inside, env, model, project, x);
    case LfEnum(_) =>
  }

  lemma RecordBuilds(identity: Identity, fields: seq<LfField>, inside: LfEnv, model: LfModule, project: Project)
    requires identity in project.definitions && DefinedAt(model, project, identity)
    requires model.types[identity].shape == LfRecord(fields)
    requires inside.LfBound? && inside.parameters == model.types[identity].parameters
    ensures project.definitions[identity].RecordDefinition?
    ensures project.definitions[identity].recordParameters == KeysOf(inside.parameters)
    ensures FieldsBuild(fields, project.definitions[identity].fields, inside, model, project)
  {
    hide Elaborate, References;
    FieldsElaborate(model.types, fields, LfScope(inside), model.camelCase);
    FieldsWithin(project.definitions[identity].fields, project.definitions.Keys);
  }

  lemma VariantBuilds(identity: Identity, constructors: seq<LfField>, inside: LfEnv, model: LfModule,
      project: Project)
    requires identity in project.definitions && DefinedAt(model, project, identity)
    requires model.types[identity].shape == LfVariant(constructors)
    requires inside.LfBound? && inside.parameters == model.types[identity].parameters
    ensures project.definitions[identity].VariantDefinition?
    ensures project.definitions[identity].variantParameters == KeysOf(inside.parameters)
    ensures ConstructorsBuild(constructors, project.definitions[identity].constructors, inside, model, project)
  {
    hide Elaborate, References;
    ConstructorsElaborate(model.types, constructors, LfScope(inside));
    ConstructorsWithin(project.definitions[identity].constructors, project.definitions.Keys);
  }

  lemma ReferenceBuilds(t: LfType, env: LfEnv, model: LfModule, project: Project)
    requires Setting(env, model, project) && BuildsIn(t, env, model, project)
    requires t.variable.None? && t.reference.Some?
    ensures var identity := t.reference.value;
            && identity in project.definitions && DefinedAt(model, project, identity)
            && Setting(LfBound(model.types[identity].parameters, t.arguments, env), model, project)
            && ElaborateAll(model.types, t.arguments, LfScope(env)).Ok?
            && AnalyzedType(t, env, model)
               == Ref(identity, ElaborateAll(model.types, t.arguments, LfScope(env)).value)
            && |t.arguments| == |project.definitions[identity].Parameters()|
  {
    var identity := t.reference.value;
    var arguments := ElaborateAll(model.types, t.arguments, LfScope(env));
    assert arguments.Ok? && AnalyzedType(t, env, model) == Ref(identity, arguments.value);
    assert identity in project.definitions && AllReferences(arguments.value) <= project.definitions.Keys;
    assert |t.arguments| == |model.types[identity].parameters|;
    hide Elaborate, References;
    assert DefinedAt(model, project, identity);
    ElaboratesAll(model.types, t.arguments, LfScope(env));
    AllWithin(arguments.value, project.definitions.Keys);
  }

  lemma {:induction false} ReferenceKeeps(v: PValue, t: LfType, env: LfEnv, model: LfModule, project: Project,
      x: Decoded)
    requires Setting(env, model, project) && BuildsIn(t, env, model, project)
    requires t.variable.None? && t.reference.Some?
    ensures SameValues(v, t, env, model, project, x)
    decreases v, env, 4
  {
    assert Elaborate(model.types, t, LfScope(env)).Ok?;
    ReferenceBuilds(t, env, model, project);
    var identity, analyzed := t.reference.value, ElaborateAll(model.types, t.arguments, LfScope(env)).value;
    hide AnalyzedType, Elaborate, Setting, BuildsIn, Analyzed, LfReadsDefinition, ReadsDefinition, DefinedAt;
    DefinitionKeeps(v, identity, model.types[identity], project.definitions[identity], t.arguments, analyzed, env,
                    model, project, x);
  }
}
