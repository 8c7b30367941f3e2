/**
 * Well-formed types and projects, and the two readings of a type under a definition's parameters:
 * compiled with argument descriptors, or with argument types put in place of its variables.
 */
module ScopedTypes {
  import opened Wrappers
  import opened DamlTypes
  import opened DescriptorCompiler
  import opened SampleEmitter
  import DamlNumerics

  type Scope = map<int, VarKey>
  type Definitions = map<Identity, Definition>

  ghost predicate DistinctLabels(fields: seq<Field>) {
    forall i, j :: 0 <= i < j < |fields| ==> fields[i].damlLabel != fields[j].damlLabel
  }

  ghost predicate DistinctNames(constructors: seq<Constructor>) {
    forall i, j :: 0 <= i < j < |constructors| ==> constructors[i].name != constructors[j].name
  }

  predicate ValidScale(builtin: Primitive, scale: Option<int>) {
    builtin.Numeric? && scale.Some? ==> 0 <= scale.value <= DamlNumerics.MAX_SCALE
  }

  /**
   * Variables are bound, references name a definition with the right number of arguments, labels and
   * constructors are distinct. `inline` allows records, variants and enums in this position; arguments
   * of references never contain them.
   */
  ghost predicate Scoped(t: DamlType, scope: Scope, definitions: Definitions, inline: bool)
    decreases t
  {
    match t
    case Prim(builtin, scale) => ValidScale(builtin, scale)
    case ContractId => true
    case Optional(element) => Scoped(element, scope, definitions, inline)
    case List(element) => Scoped(element, scope, definitions, inline)
    case TextMap(value) => Scoped(value, scope, definitions, inline)
    case GenMap(key, value) => Scoped(key, scope, definitions, inline) && Scoped(value, scope, definitions, inline)
    case Record(fields) => inline && DistinctLabels(fields) && ScopedFields(fields, scope, definitions)
    case Variant(constructors) =>
      inline && DistinctNames(constructors) && ScopedConstructors(constructors, scope, definitions)
    case Enum(names) => inline
    case Var(variable) => variable.index in scope && scope[variable.index] == variable
    case Ref(identity, arguments) =>
      && identity in definitions
      && |arguments| == |definitions[identity].Parameters()|
      && ScopedAll(arguments, scope, definitions)
  }

  ghost predicate ScopedAll(ts: seq<DamlType>, scope: Scope, definitions: Definitions)
    decreases ts
  {
    ts == [] || (Scoped(ts[0], scope, definitions, false) && ScopedAll(ts[1..], scope, definitions))
  }

  ghost predicate ScopedFields(fields: seq<Field>, scope: Scope, definitions: Definitions)
    decreases fields
  {
    fields == [] || (Scoped(fields[0].ty, scope, definitions, true) && ScopedFields(fields[1..], scope, definitions))
  }

  ghost predicate ScopedConstructors(constructors: seq<Constructor>, scope: Scope, definitions: Definitions)
    decreases constructors
  {
    constructors == [] ||
    (Scoped(constructors[0].payload, scope, definitions, true)
     && ScopedConstructors(constructors[1..], scope, definitions))
  }

  ghost predicate Closed(t: DamlType, definitions: Definitions) {
    Scoped(t, map[], definitions, false)
  }

  /** One file per module, holding only names of that module. */
  ghost predicate FilesPartition(files: seq<NamedTypeFile>) {
    && (forall f, k :: 0 <= f < |files| && k in files[f].fieldPropertyNames ==>
          k.0.packageId == files[f].packageId && k.0.moduleName == files[f].moduleName)
    && (forall f, g :: 0 <= f < g < |files| ==>
          files[f].packageId != files[g].packageId || files[f].moduleName != files[g].moduleName)
  }

  ghost predicate WellFormed(project: Project) {
    && FilesPartition(project.files)
    && forall id <- project.definitions.Keys :: ScopedDefinition(id, project)
  }

  ghost predicate ScopedDefinition(id: Identity, project: Project)
    requires id in project.definitions
  {
    var definition := project.definitions[id];
    Scoped(Body(id, definition, MergedNames(project.files)), ScopeOf(definition.Parameters()), project.definitions,
           true)
  }

  /** Structures stand only at the top, as in definitions: no field or payload is itself a structure. */
  ghost predicate Plain(t: DamlType, scope: Scope, definitions: Definitions) {
    && Scoped(t, scope, definitions, true)
    && match t
       case Record(fields) => forall i :: 0 <= i < |fields| ==> Scoped(fields[i].ty, scope, definitions, false)
       case Variant(constructors) =>
         forall i :: 0 <= i < |constructors| ==> Scoped(constructors[i].payload, scope, definitions, false)
       case Enum(_) => true
       case _ => Scoped(t, scope, definitions, false)
  }

  ghost predicate PlainMembers(project: Project) {
    forall id <- project.definitions.Keys :: PlainDefinition(id, project)
  }

  ghost predicate PlainDefinition(id: Identity, project: Project)
    requires id in project.definitions
  {
    var definition := project.definitions[id];
    Plain(Body(id, definition, MergedNames(project.files)), ScopeOf(definition.Parameters()), project.definitions)
  }

  lemma {:induction false} InlineWeaker(t: DamlType, scope: Scope, definitions: Definitions)
    requires Scoped(t, scope, definitions, false)
    ensures Scoped(t, scope, definitions, true)
    decreases t
  {
    match t
    case Optional(element) => InlineWeaker(element, scope, definitions);
    case List(element) => InlineWeaker(element, scope, definitions);
    case TextMap(value) => InlineWeaker(value, scope, definitions);
    case GenMap(key, value) =>
      InlineWeaker(key, scope, definitions);
      InlineWeaker(value, scope, definitions);
    case _ =>
  }

  /** Merged lookup and lookup in the module's own file find the same names. */
  lemma {:induction false} NamesAgree(files: seq<NamedTypeFile>, identity: Identity, index: nat)
    requires FilesPartition(files)
    ensures var k := (identity, index);
            && (k in MergedNames(files) <==> k in SampleNames(files, identity))
            && (k in MergedNames(files) ==> MergedNames(files)[k] == SampleNames(files, identity)[k])
  {
    var k := (identity, index);
    if files != [] {
      NamesAgree(files[1..], identity, index);
      if files[0].packageId == identity.packageId && files[0].moduleName == identity.moduleName {
        if k in MergedNames(files[1..]) {
          var f := MergedFrom(files[1..], k);
          assert false;
        }
      }
    }
  }

  lemma {:induction false} MergedFrom(files: seq<NamedTypeFile>, k: (Identity, nat)) returns (f: nat)
    requires k in MergedNames(files)
    ensures f < |files| && k in files[f].fieldPropertyNames
  {
    if k in files[0].fieldPropertyNames {
      f := 0;
    } else {
      f := MergedFrom(files[1..], k);
      f := f + 1;
    }
  }

  lemma {:induction false} RenamesAgree(files: seq<NamedTypeFile>, identity: Identity, fields: seq<Field>, index: nat)
    requires FilesPartition(files)
    ensures RenameFields(identity, fields, MergedNames(files), index)
         == RenameFields(identity, fields, SampleNames(files, identity), index)
    decreases fields
  {
    if fields != [] {
      NamesAgree(files, identity, index);
      RenamesAgree(files, identity, fields[1..], index + 1);
    }
  }

  /** The sample emitter and the descriptor emitter give a definition's fields the same property names. */
  lemma BodiesAgree(project: Project, identity: Identity)
    requires FilesPartition(project.files) && identity in project.definitions
    ensures Body(identity, project.definitions[identity], SampleNames(project.files, identity))
         == Body(identity, project.definitions[identity], MergedNames(project.files))
  {
    match project.definitions[identity]
    case RecordDefinition(_, fields) => RenamesAgree(project.files, identity, fields, 0);
    case _ =>
  }

  /** Every variable of the scope has a closed type and the descriptor of that type. */
  ghost predicate Linked(scope: Scope, bindings: Bindings, substitution: map<int, Descriptor>,
      definitions: Definitions) {
    forall i <- scope.Keys :: LinkedAt(i, scope[i], bindings, substitution, definitions)
  }

  ghost predicate LinkedAt(i: int, variable: VarKey, bindings: Bindings, substitution: map<int, Descriptor>,
      definitions: Definitions) {
    && variable.index == i
    && variable in bindings
    && Closed(bindings[variable], definitions)
    && i in substitution
    && Compile(bindings[variable], map[]) == Ok(substitution[i])
  }

  /**
   * Substitution commutes with compilation: replacing variables by closed types and then compiling
   * gives the descriptor compiled with the argument descriptors, and leaves no variable behind.
   */
  lemma {:induction false} CompileResolved(t: DamlType, scope: Scope, bindings: Bindings,
      substitution: map<int, Descriptor>, definitions: Definitions, inline: bool)
    requires Scoped(t, scope, definitions, inline) && Linked(scope, bindings, substitution, definitions)
    ensures Compile(t, substitution).Ok?
    ensures Compile(ResolveVariables(t, bindings), map[]) == Compile(t, substitution)
    ensures Scoped(ResolveVariables(t, bindings), map[], definitions, inline)
    decreases t
  {
    match t
    case Prim(_, _) =>
    case ContractId =>
    case Optional(element) => CompileResolved(element, scope, bindings, substitution, definitions, inline);
    case List(element) => CompileResolved(element, scope, bindings, substitution, definitions, inline);
    case TextMap(value) => CompileResolved(value, scope, bindings, substitution, definitions, inline);
    case GenMap(key, value) =>
      CompileResolved(key, scope, bindings, substitution, definitions, inline);
      CompileResolved(value, scope, bindings, substitution, definitions, inline);
    case Record(fields) => CompileResolvedFields(fields, scope, bindings, substitution, definitions);
    case Variant(constructors) => CompileResolvedConstructors(constructors, scope, bindings, substitution, definitions);
    case Enum(_) =>
    case Var(variable) =>
      assert LinkedAt(variable.index, scope[variable.index], bindings, substitution, definitions);
      InlineWeaker(bindings[variable], map[], definitions);
    case Ref(identity, arguments) => CompileResolvedAll(arguments, scope, bindings, substitution, definitions);
  }

  lemma {:induction false} CompileResolvedAll(ts: seq<DamlType>, scope: Scope, bindings: Bindings,
      substitution: map<int, Descriptor>, definitions: Definitions)
    requires ScopedAll(ts, scope, definitions) && Linked(scope, bindings, substitution, definitions)
    ensures CompileAll(ts, substitution).Ok?
    ensures CompileAll(ResolveAll(ts, bindings), map[]) == CompileAll(ts, substitution)
    ensures ScopedAll(ResolveAll(ts, bindings), map[], definitions)
    decreases ts
  {
    if ts != [] {
      CompileResolved(ts[0], scope, bindings, substitution, definitions, false);
      CompileResolvedAll(ts[1..], scope, bindings, substitution, definitions);
      assert ResolveAll(ts, bindings)[1..] == ResolveAll(ts[1..], bindings);
    }
  }

  lemma {:induction false} CompileResolvedFields(fields: seq<Field>, scope: Scope, bindings: Bindings,
      substitution: map<int, Descriptor>, definitions: Definitions)
    requires ScopedFields(fields, scope, definitions) && Linked(scope, bindings, substitution, definitions)
    ensures CompileFields(fields, substitution).Ok?
    ensures CompileFields(ResolveFields(fields, bindings), map[]) == CompileFields(fields, substitution)
    ensures ScopedFields(ResolveFields(fields, bindings), map[], definitions)
    decreases fields
  {
    if fields != [] {
      CompileResolved(fields[0].ty, scope, bindings, substitution, definitions, true);
      CompileResolvedFields(fields[1..], scope, bindings, substitution, definitions);
      assert ResolveFields(fields, bindings)[1..] == ResolveFields(fields[1..], bindings);
    }
  }

  lemma {:induction false} CompileResolvedConstructors(constructors: seq<Constructor>, scope: Scope,
      bindings: Bindings, substitution: map<int, Descriptor>, definitions: Definitions)
    requires ScopedConstructors(constructors, scope, definitions) && Linked(scope, bindings, substitution, definitions)
    ensures CompileConstructors(constructors, substitution).Ok?
    ensures CompileConstructors(ResolveConstructors(constructors, bindings), map[])
         == CompileConstructors(constructors, substitution)
    ensures ScopedConstructors(ResolveConstructors(constructors, bindings), map[], definitions)
    decreases constructors
  {
    if constructors != [] {
      CompileResolved(constructors[0].payload, scope, bindings, substitution, definitions, true);
      CompileResolvedConstructors(constructors[1..], scope, bindings, substitution, definitions);
      assert ResolveConstructors(constructors, bindings)[1..] == ResolveConstructors(constructors[1..], bindings);
    }
  }

  /** Binding closed arguments keeps every scope variable linked; for a repeated index both sides keep the last. */
  lemma {:induction false} BindLinked(parameters: seq<VarKey>, types: seq<DamlType>, descriptors: seq<Descriptor>,
      scope: Scope, bindings: Bindings, substitution: map<int, Descriptor>, definitions: Definitions)
    requires |parameters| == |types| == |descriptors|
    requires ScopedAll(types, map[], definitions) && CompileAll(types, map[]) == Ok(descriptors)
    requires Linked(scope, bindings, substitution, definitions)
    ensures Linked(ScopeOf(parameters, scope), BindVariables(bindings, parameters, types),
                   BindIndices(substitution, parameters, descriptors), definitions)
    decreases parameters
  {
    if parameters != [] {
      var p := parameters[0];
      var scope', bindings' := scope[p.index := p], bindings[p := types[0]];
      var substitution' := substitution[p.index := descriptors[0]];
      assert descriptors[1..] == CompileAll(types[1..], map[]).value;
      forall i <- scope'.Keys
        ensures LinkedAt(i, scope'[i], bindings', substitution', definitions)
      {
        if i != p.index {
          assert LinkedAt(i, scope[i], bindings, substitution, definitions);
        }
      }
      BindLinked(parameters[1..], types[1..], descriptors[1..], scope', bindings', substitution', definitions);
    }
  }

  /**
   * Entering a definition: its body is scoped by its parameters, and the registry compiles it with
   * linked arguments.
   */
  lemma EnterDefinition(project: Project, identity: Identity, arguments: seq<DamlType>, scope: Scope,
      bindings: Bindings, substitution: map<int, Descriptor>)
    requires WellFormed(project)
    requires Scoped(Ref(identity, arguments), scope, project.definitions, true)
    requires Linked(scope, bindings, substitution, project.definitions)
    ensures var definition := project.definitions[identity];
            var parameters := definition.Parameters();
            var body := Body(identity, definition, SampleNames(project.files, identity));
            var compiled := CompileAll(arguments, substitution);
            && compiled.Ok?
            && Scoped(body, ScopeOf(parameters), project.definitions, true)
            && Linked(ScopeOf(parameters), BindVariables(bindings, parameters, ResolveAll(arguments, bindings)),
                      BindIndices(map[], parameters, compiled.value), project.definitions)
            && Resolve(project, identity, compiled.value)
            == Compile(body, BindIndices(map[], parameters, compiled.value))
            && Resolve(project, identity, compiled.value).Ok?
  {
    var definition := project.definitions[identity];
    var parameters := definition.Parameters();
    CompileResolvedAll(arguments, scope, bindings, substitution, project.definitions);
    var compiled := CompileAll(arguments, substitution).value;
    BodiesAgree(project, identity);
    assert ScopedDefinition(identity, project);
    BindLinked(parameters, ResolveAll(arguments, bindings), compiled, map[], bindings, map[], project.definitions);
    var body := Body(identity, definition, SampleNames(project.files, identity));
    var extended := BindVariables(bindings, parameters, ResolveAll(arguments, bindings));
    CompileResolved(body, ScopeOf(parameters), extended, BindIndices(map[], parameters, compiled), project.definitions,
                    true);
  }

  /**
   * Resolving a reference with argument descriptors gives the descriptor of the definition's body
   * with the argument types substituted.
   */
  lemma ResolveIsSubstitution(project: Project, identity: Identity, arguments: seq<DamlType>)
    requires WellFormed(project) && Closed(Ref(identity, arguments), project.definitions)
    ensures var definition := project.definitions[identity];
            var body := Body(identity, definition, MergedNames(project.files));
            var bindings := BindVariables(map[], definition.Parameters(), arguments);
            && CompileAll(arguments, map[]).Ok?
            && Resolve(project, identity, CompileAll(arguments, map[]).value).Ok?
            && Resolve(project, identity, CompileAll(arguments, map[]).value)
            == Compile(ResolveVariables(body, bindings), map[])
            && Scoped(ResolveVariables(body, bindings), map[], project.definitions, true)
  {
    InlineWeaker(Ref(identity, arguments), map[], project.definitions);
    EnterDefinition(project, identity, arguments, map[], map[], map[]);
    ClosedResolvesToItselfAll(arguments, project.definitions);
    BodiesAgree(project, identity);
    var definition := project.definitions[identity];
    var body := Body(identity, definition, MergedNames(project.files));
    CompileResolved(body, ScopeOf(definition.Parameters()), BindVariables(map[], definition.Parameters(), arguments),
                    BindIndices(map[], definition.Parameters(), CompileAll(arguments, map[]).value),
                    project.definitions, true);
  }

  lemma {:induction false} ClosedResolvesToItself(t: DamlType, definitions: Definitions)
    requires Closed(t, definitions)
    ensures ResolveVariables(t, map[]) == t
    decreases t
  {
    match t
    case Optional(element) => ClosedResolvesToItself(element, definitions);
    case List(element) => ClosedResolvesToItself(element, definitions);
    case TextMap(value) => ClosedResolvesToItself(value, definitions);
    case GenMap(key, value) =>
      ClosedResolvesToItself(key, definitions);
      ClosedResolvesToItself(value, definitions);
    case Ref(_, arguments) => ClosedResolvesToItselfAll(arguments, definitions);
    case _ =>
  }

  lemma {:induction false} ClosedResolvesToItselfAll(ts: seq<DamlType>, definitions: Definitions)
    requires ScopedAll(ts, map[], definitions)
    ensures ResolveAll(ts, map[]) == ts
    decreases ts
  {
    if ts != [] {
      ClosedResolvesToItself(ts[0], definitions);
      ClosedResolvesToItselfAll(ts[1..], definitions);
    }
  }
}
