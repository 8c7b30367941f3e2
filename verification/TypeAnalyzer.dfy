/** The analyzer's memoised elaboration of LF types, with in-progress marks that stop at recursion. */
module TypeAnalyzer {
  import opened Wrappers
  import opened DamlTypes
  import opened DescriptorCompiler
  import opened LfModel
  import DamlNumerics

  /** Registered definitions; None while the definition is still being elaborated. */
  type Table = map<Identity, Option<Definition>>

  ghost predicate NoRepeats(keys: seq<Identity>) {
    forall i, j :: 0 <= i < j < |keys| ==> keys[i] != keys[j]
  }

  /** Keys are known types, each once; finished entries are elaborations with all references registered. */
  ghost predicate ValidTable(types: LfTypes, camelCase: CamelCase, keys: seq<Identity>, table: Table) {
    && NoRepeats(keys)
    && (forall id :: id in keys <==> id in table)
    && table.Keys <= types.Keys
    && (forall id {:trigger Finished(types, camelCase, table, id)} :: id in table && table[id].Some? ==>
          Finished(types, camelCase, table, id))
  }

  ghost predicate Finished(types: LfTypes, camelCase: CamelCase, table: Table, id: Identity)
    requires id in table && table[id].Some?
  {
    && id in types
    && SupportedParameters(types[id])
    && ElaborateDefinition(types, types[id], camelCase) == Ok(table[id].value)
    && DefinitionReferences(table[id].value) <= table.Keys
  }

  /** Entries are never changed or removed; a step that does not throw finishes everything it adds. */
  ghost predicate Extends(before: Table, after: Table, ok: bool) {
    && before.Keys <= after.Keys
    && (forall id :: id in before ==> after[id] == before[id])
    && (ok ==> forall id :: id in after && id !in before ==> after[id].Some?)
  }

  /**
   * A step succeeds whenever its types elaborate and all they refer to, directly or not, is
   * analyzable; and it registers nothing outside such a set.
   */
  ghost predicate Exact(types: LfTypes, camelCase: CamelCase, before: Table, goal: Result<set<Identity>>,
      after: Table, ok: bool) {
    forall ids {:trigger Analyzable(types, camelCase, ids)} ::
      Analyzable(types, camelCase, ids) && before.Keys <= ids && goal.Ok? && goal.value <= ids ==>
        ok && after.Keys <= ids
  }

  ghost function Goal(types: LfTypes, t: LfType, scope: map<int, VarKey>): Result<set<Identity>> {
    var r :- Elaborate(types, t, scope); Ok(References(r))
  }

  ghost function GoalAll(types: LfTypes, ts: seq<LfType>, scope: map<int, VarKey>): Result<set<Identity>> {
    var r :- ElaborateAll(types, ts, scope); Ok(AllReferences(r))
  }

  ghost function GoalFields(types: LfTypes, fields: seq<LfField>, scope: map<int, VarKey>,
      camelCase: CamelCase): Result<set<Identity>> {
    var r :- ElaborateFields(types, fields, scope, camelCase); Ok(FieldReferences(r))
  }

  ghost function GoalConstructors(types: LfTypes, constructors: seq<LfField>,
      scope: map<int, VarKey>): Result<set<Identity>> {
    var r :- ElaborateConstructors(types, constructors, scope); Ok(ConstructorReferences(r))
  }

  ghost function GoalDefinition(types: LfTypes, dataType: LfDataType, camelCase: CamelCase): Result<set<Identity>> {
    var r :- ElaborateDefinition(types, dataType, camelCase); Ok(DefinitionReferences(r))
  }

  ghost function Union(a: Result<set<Identity>>, b: Result<set<Identity>>): Result<set<Identity>> {
    if a.Ok? && b.Ok? then Ok(a.value + b.value) else Err
  }

  lemma ExtendsTransitive(a: Table, b: Table, c: Table, ok: bool)
    requires Extends(a, b, true) && Extends(b, c, ok)
    ensures Extends(a, c, ok)
  {
  }

  lemma ExactTransitive(types: LfTypes, camelCase: CamelCase, a: Table, g: Result<set<Identity>>, b: Table,
      h: Result<set<Identity>>, c: Table, ok: bool)
    requires Exact(types, camelCase, a, g, b, true) && Exact(types, camelCase, b, h, c, ok)
    ensures Exact(types, camelCase, a, Union(g, h), c, ok)
  {
  }

  lemma ExactFailure(types: LfTypes, camelCase: CamelCase, a: Table, g: Result<set<Identity>>, b: Table,
      h: Result<set<Identity>>)
    requires Exact(types, camelCase, a, g, b, false)
    ensures Exact(types, camelCase, a, Union(g, h), b, false)
  {
  }

  lemma Shrinks(types: LfTypes, before: Table, after: Table)
    requires before.Keys <= after.Keys <= types.Keys
    ensures |types.Keys - after.Keys| <= |types.Keys - before.Keys|
    ensures before.Keys != after.Keys ==> |types.Keys - after.Keys| < |types.Keys - before.Keys|
  {
    var added := after.Keys - before.Keys;
    assert types.Keys - before.Keys == (types.Keys - after.Keys) + added;
    if before.Keys != after.Keys {
      var x :| x in after.Keys && x !in before.Keys;
      assert x in added;
    }
  }

  class AnalyzedDamlTypeBuilder {
    const types: LfTypes
    const camelCase: CamelCase
    var definitionKeys: seq<Identity>
    var definitions: Table

    constructor (types: LfTypes, camelCase: CamelCase)
      ensures Valid() && this.types == types && this.camelCase == camelCase
      ensures definitions == map[] && definitionKeys == []
    {
      this.types := types;
      this.camelCase := camelCase;
      definitionKeys := [];
      definitions := map[];
    }

    ghost predicate Valid()
      reads this
    {
      ValidTable(types, camelCase, definitionKeys, definitions)
    }

    ghost function Unregistered(): nat
      reads this
    {
      |types.Keys - definitions.Keys|
    }

    method BuildOrThrow(t: LfType, scope: map<int, VarKey>) returns (r: Result<DamlType>)
      requires Valid()
      modifies this
      ensures Valid() && Extends(old(definitions), definitions, r.Ok?) && old(definitionKeys) <= definitionKeys
      ensures r.Ok? ==> r == Elaborate(types, t, scope) && References(r.value) <= definitions.Keys
      ensures Exact(types, camelCase, old(definitions), Goal(types, t, scope), definitions, r.Ok?)
      decreases Unregistered(), 1, t, 1
    {
      if t.retainedForall {
        return Err;
      } else if t.variable.Some? {
        if t.variable.value.name.None? || t.arguments != [] || t.variable.value.index !in scope {
          return Err;
        }
        return Ok(Var(scope[t.variable.value.index]));
      } else if t.reference.Some? {
        if !t.builtin.LUnknown? {
          return Err;
        }
        r := BuildNamedReferenceOrThrow(t, scope);
        return;
      }
      match t.builtin {
        case LContractId => r := if |t.arguments| == 1 then Ok(ContractId) else Err;
        case LOptional =>
          if |t.arguments| != 1 {
            return Err;
          }
          var element := BuildOrThrow(t.arguments[0], scope);
          r := if element.Ok? then Ok(Optional(element.value)) else Err;
        case LList =>
          if |t.arguments| != 1 {
            return Err;
          }
          var element := BuildOrThrow(t.arguments[0], scope);
          r := if element.Ok? then Ok(List(element.value)) else Err;
        case LTextMap =>
          if |t.arguments| != 1 {
            return Err;
          }
          var value := BuildOrThrow(t.arguments[0], scope);
          r := if value.Ok? then Ok(TextMap(value.value)) else Err;
        case LGenMap => r := BuildGenMapOrThrow(t, scope);
        case LUnknown => r := Err;
        case LNumeric =>
          r := if t.arguments == [] && t.numericScale.Some? && 0 <= t.numericScale.value <= DamlNumerics.MAX_SCALE
               then Ok(Prim(Numeric, t.numericScale))
               else Err;
        case _ => r := if t.arguments == [] then Ok(Prim(PrimitiveOf(t.builtin).value, t.numericScale)) else Err;
      }
    }

    method BuildGenMapOrThrow(t: LfType, scope: map<int, VarKey>) returns (r: Result<DamlType>)
      requires Valid()
      requires !t.retainedForall && t.variable.None? && t.reference.None? && t.builtin.LGenMap?
      modifies this
      ensures Valid() && Extends(old(definitions), definitions, r.Ok?) && old(definitionKeys) <= definitionKeys
      ensures r.Ok? ==> r == Elaborate(types, t, scope) && References(r.value) <= definitions.Keys
      ensures Exact(types, camelCase, old(definitions), Goal(types, t, scope), definitions, r.Ok?)
      decreases Unregistered(), 1, t, 0
    {
      if |t.arguments| != 2 {
        return Err;
      }
      ghost var whole := Union(Goal(types, t.arguments[0], scope), Goal(types, t.arguments[1], scope));
      assert Goal(types, t, scope) == whole;
      var key := BuildOrThrow(t.arguments[0], scope);
      if key.Err? {
        ExactFailure(types, camelCase, old(definitions), Goal(types, t.arguments[0], scope), definitions,
                     Goal(types, t.arguments[1], scope));
        return Err;
      }
      ghost var between := definitions;
      Shrinks(types, old(definitions), definitions);
      var value := BuildOrThrow(t.arguments[1], scope);
      ExtendsTransitive(old(definitions), between, definitions, value.Ok?);
      ExactTransitive(types, camelCase, old(definitions), Goal(types, t.arguments[0], scope), between,
                      Goal(types, t.arguments[1], scope), definitions, value.Ok?);
      r := if value.Ok? then Ok(GenMap(key.value, value.value)) else Err;
    }

    method BuildNamedReferenceOrThrow(t: LfType, scope: map<int, VarKey>) returns (r: Result<DamlType>)
      requires Valid()
      requires !t.retainedForall && t.variable.None? && t.reference.Some? && t.builtin.LUnknown?
      modifies this
      ensures Valid() && Extends(old(definitions), definitions, r.Ok?) && old(definitionKeys) <= definitionKeys
      ensures r.Ok? ==> r == Elaborate(types, t, scope) && References(r.value) <= definitions.Keys
      ensures Exact(types, camelCase, old(definitions), Goal(types, t, scope), definitions, r.Ok?)
      decreases Unregistered(), 1, t, 0
    {
      var identity := t.reference.value;
      if identity !in types || !SupportedParameters(types[identity]) || |t.arguments| != |types[identity].parameters| {
        return Err;
      }
      ghost var first := GoalAll(types, t.arguments, scope);
      assert Goal(types, t, scope) == Union(first, Ok({identity})) by {
        NamedGoal(types, t, scope);
      }
      var arguments := BuildAllOrThrow(t.arguments, scope);
      if arguments.Err? {
        ExactFailure(types, camelCase, old(definitions), first, definitions, Ok({identity}));
        return Err;
      }
      ghost var between := definitions;
      Shrinks(types, old(definitions), definitions);
      var registered := RegisterNamedDefinitionOrThrow(identity);
      ExtendsTransitive(old(definitions), between, definitions, registered);
      ExactTransitive(types, camelCase, old(definitions), first, between, Ok({identity}), definitions, registered);
      r := if registered then Ok(Ref(identity, arguments.value)) else Err;
    }

    method BuildAllOrThrow(ts: seq<LfType>, scope: map<int, VarKey>) returns (r: Result<seq<DamlType>>)
      requires Valid()
      modifies this
      ensures Valid() && Extends(old(definitions), definitions, r.Ok?) && old(definitionKeys) <= definitionKeys
      ensures r.Ok? ==> r == ElaborateAll(types, ts, scope) && AllReferences(r.value) <= definitions.Keys
      ensures Exact(types, camelCase, old(definitions), GoalAll(types, ts, scope), definitions, r.Ok?)
      decreases Unregistered(), 1, ts, 0
    {
      if ts == [] {
        return Ok([]);
      }
      assert GoalAll(types, ts, scope) == Union(Goal(types, ts[0], scope), GoalAll(types, ts[1..], scope)) by {
        AllGoal(types, ts, scope);
      }
      var first := BuildOrThrow(ts[0], scope);
      if first.Err? {
        ExactFailure(types, camelCase, old(definitions), Goal(types, ts[0], scope), definitions,
                     GoalAll(types, ts[1..], scope));
        return Err;
      }
      ghost var between := definitions;
      Shrinks(types, old(definitions), definitions);
      var rest := BuildAllOrThrow(ts[1..], scope);
      ExtendsTransitive(old(definitions), between, definitions, rest.Ok?);
      ExactTransitive(types, camelCase, old(definitions), Goal(types, ts[0], scope), between,
                      GoalAll(types, ts[1..], scope), definitions, rest.Ok?);
      r := if rest.Ok? then Ok([first.value] + rest.value) else Err;
    }

    /** Elaborates a definition once: the in-progress entry makes recursive references stop here. */
    method RegisterNamedDefinitionOrThrow(identity: Identity) returns (ok: bool)
      requires Valid() && identity in types && SupportedParameters(types[identity])
      modifies this
      ensures Valid() && Extends(old(definitions), definitions, ok) && old(definitionKeys) <= definitionKeys
      ensures ok ==> identity in definitions
      ensures identity !in old(definitions) ==> old(definitionKeys) + [identity] <= definitionKeys
      ensures Exact(types, camelCase, old(definitions), Ok({identity}), definitions, ok)
      decreases Unregistered(), 0
    {
      if identity in definitions {
        return true;
      }
      definitionKeys := definitionKeys + [identity];
      definitions := definitions[identity := None];
      ghost var marked := definitions;
      MarkedValid(types, camelCase, old(definitionKeys), old(definitions), identity);
      Shrinks(types, old(definitions), definitions);
      var definition := BuildNamedDefinitionOrThrow(types[identity]);
      MarkedExact(types, camelCase, old(definitions), identity, definitions, definition.Ok?);
      if definition.Err? {
        return false;
      }
      FinishedValid(types, camelCase, definitionKeys, definitions, identity, definition.value);
      definitions := definitions[identity := Some(definition.value)];
      ok := true;
    }

    method BuildNamedDefinitionOrThrow(dataType: LfDataType) returns (r: Result<Definition>)
      requires Valid()
      modifies this
      ensures Valid() && Extends(old(definitions), definitions, r.Ok?) && old(definitionKeys) <= definitionKeys
      ensures r.Ok? ==>
                r == ElaborateDefinition(types, dataType, camelCase)
                && DefinitionReferences(r.value) <= definitions.Keys
      ensures Exact(types, camelCase, old(definitions), GoalDefinition(types, dataType, camelCase), definitions, r.Ok?)
      decreases Unregistered(), 1, dataType, 0
    {
      var keys := KeysOf(dataType.parameters);
      match dataType.shape {
        case LfRecord(fields) =>
          var analyzed := BuildFieldsOrThrow(fields, ScopeOf(keys));
          r := if analyzed.Ok? then Ok(RecordDefinition(keys, analyzed.value)) else Err;
        case LfVariant(constructors) =>
          var analyzed := BuildConstructorsOrThrow(constructors, ScopeOf(keys));
          r := if analyzed.Ok? then Ok(VariantDefinition(keys, analyzed.value)) else Err;
        case LfEnum(names) =>
          r := Ok(EnumDefinition(names));
      }
    }

    method BuildFieldsOrThrow(fields: seq<LfField>, scope: map<int, VarKey>) returns (r: Result<seq<Field>>)
      requires Valid()
      modifies this
      ensures Valid() && Extends(old(definitions), definitions, r.Ok?) && old(definitionKeys) <= definitionKeys
      ensures r.Ok? ==>
                r == ElaborateFields(types, fields, scope, camelCase) && FieldReferences(r.value) <= definitions.Keys
      ensures Exact(types, camelCase, old(definitions), GoalFields(types, fields, scope, camelCase), definitions, r.Ok?)
      decreases Unregistered(), 1, fields, 0
    {
      if fields == [] {
        return Ok([]);
      } else if camelCase(fields[0].name).None? {
        return Err;
      }
      assert GoalFields(types, fields, scope, camelCase)
           == Union(Goal(types, fields[0].ty, scope), GoalFields(types, fields[1..], scope, camelCase)) by {
        FieldsGoal(types, fields, scope, camelCase);
      }
      var first := BuildOrThrow(fields[0].ty, scope);
      if first.Err? {
        ExactFailure(types, camelCase, old(definitions), Goal(types, fields[0].ty, scope), definitions,
                     GoalFields(types, fields[1..], scope, camelCase));
        return Err;
      }
      ghost var between := definitions;
      Shrinks(types, old(definitions), definitions);
      var rest := BuildFieldsOrThrow(fields[1..], scope);
      ExtendsTransitive(old(definitions), between, definitions, rest.Ok?);
      ExactTransitive(types, camelCase, old(definitions), Goal(types, fields[0].ty, scope), between,
                      GoalFields(types, fields[1..], scope, camelCase), definitions, rest.Ok?);
      var name := fields[0].name;
      r := if rest.Ok? then Ok([Field(name, camelCase(name).value, first.value)] + rest.value) else Err;
    }

    method BuildConstructorsOrThrow(constructors: seq<LfField>,
        scope: map<int, VarKey>) returns (r: Result<seq<Constructor>>)
      requires Valid()
      modifies this
      ensures Valid() && Extends(old(definitions), definitions, r.Ok?) && old(definitionKeys) <= definitionKeys
      ensures r.Ok? ==>
                r == ElaborateConstructors(types, constructors, scope)
                && ConstructorReferences(r.value) <= definitions.Keys
      ensures Exact(types, camelCase, old(definitions), GoalConstructors(types, constructors, scope), definitions,
                    r.Ok?)
      decreases Unregistered(), 1, constructors, 0
    {
      if constructors == [] {
        return Ok([]);
      }
      assert GoalConstructors(types, constructors, scope)
           == Union(Goal(types, constructors[0].ty, scope), GoalConstructors(types, constructors[1..], scope)) by {
        ConstructorsGoal(types, constructors, scope);
      }
      var first := BuildOrThrow(constructors[0].ty, scope);
      if first.Err? {
        ExactFailure(types, camelCase, old(definitions), Goal(types, constructors[0].ty, scope), definitions,
                     GoalConstructors(types, constructors[1..], scope));
        return Err;
      }
      ghost var between := definitions;
      Shrinks(types, old(definitions), definitions);
      var rest := BuildConstructorsOrThrow(constructors[1..], scope);
      ExtendsTransitive(old(definitions), between, definitions, rest.Ok?);
      ExactTransitive(types, camelCase, old(definitions), Goal(types, constructors[0].ty, scope), between,
                      GoalConstructors(types, constructors[1..], scope), definitions, rest.Ok?);
      r := if rest.Ok? then Ok([Constructor(constructors[0].name, first.value)] + rest.value) else Err;
    }
  }

  // ----- goals of compound types -----

  lemma NamedGoal(types: LfTypes, t: LfType, scope: map<int, VarKey>)
    requires !t.retainedForall && t.variable.None? && t.reference.Some? && t.builtin.LUnknown?
    requires t.reference.value in types && SupportedParameters(types[t.reference.value])
    requires |t.arguments| == |types[t.reference.value].parameters|
    ensures Goal(types, t, scope) == Union(GoalAll(types, t.arguments, scope), Ok({t.reference.value}))
  {
    var arguments := ElaborateAll(types, t.arguments, scope);
    if arguments.Ok? {
      var references := AllReferences(arguments.value);
      assert {t.reference.value} + references == references + {t.reference.value};
    }
  }

  lemma AllGoal(types: LfTypes, ts: seq<LfType>, scope: map<int, VarKey>)
    requires ts != []
    ensures GoalAll(types, ts, scope) == Union(Goal(types, ts[0], scope), GoalAll(types, ts[1..], scope))
  {
    var rest := ElaborateAll(types, ts[1..], scope);
    if rest.Ok? && Elaborate(types, ts[0], scope).Ok? {
      assert ([Elaborate(types, ts[0], scope).value] + rest.value)[1..] == rest.value;
    }
  }

  lemma FieldsGoal(types: LfTypes, fields: seq<LfField>, scope: map<int, VarKey>, camelCase: CamelCase)
    requires fields != [] && camelCase(fields[0].name).Some?
    ensures GoalFields(types, fields, scope, camelCase)
         == Union(Goal(types, fields[0].ty, scope), GoalFields(types, fields[1..], scope, camelCase))
  {
    var first, rest := Elaborate(types, fields[0].ty, scope), ElaborateFields(types, fields[1..], scope, camelCase);
    if first.Ok? && rest.Ok? {
      var all := [Field(fields[0].name, camelCase(fields[0].name).value, first.value)] + rest.value;
      assert all[1..] == rest.value;
    }
  }

  lemma ConstructorsGoal(types: LfTypes, constructors: seq<LfField>, scope: map<int, VarKey>)
    requires constructors != []
    ensures GoalConstructors(types, constructors, scope)
         == Union(Goal(types, constructors[0].ty, scope), GoalConstructors(types, constructors[1..], scope))
  {
    var first := Elaborate(types, constructors[0].ty, scope);
    var rest := ElaborateConstructors(types, constructors[1..], scope);
    if first.Ok? && rest.Ok? {
      var all := [Constructor(constructors[0].name, first.value)] + rest.value;
      assert all[1..] == rest.value;
    }
  }

  // ----- one registration -----

  lemma MarkedValid(types: LfTypes, camelCase: CamelCase, keys: seq<Identity>, table: Table, identity: Identity)
    requires ValidTable(types, camelCase, keys, table) && identity in types && identity !in table
    ensures ValidTable(types, camelCase, keys + [identity], table[identity := None])
  {
    var marked := table[identity := None];
    forall id | id in marked && marked[id].Some?
      ensures Finished(types, camelCase, marked, id)
    {
      assert Finished(types, camelCase, table, id);
    }
    assert NoRepeats(keys + [identity]) by {
      forall i, j | 0 <= i < j < |keys + [identity]|
        ensures (keys + [identity])[i] != (keys + [identity])[j]
      {
        assert (keys + [identity])[i] == keys[i] && keys[i] in keys;
      }
    }
  }

  lemma FinishedValid(types: LfTypes, camelCase: CamelCase, keys: seq<Identity>, table: Table, identity: Identity,
      definition: Definition)
    requires ValidTable(types, camelCase, keys, table) && identity in table && identity in types
    requires SupportedParameters(types[identity])
    requires ElaborateDefinition(types, types[identity], camelCase) == Ok(definition)
    requires DefinitionReferences(definition) <= table.Keys
    ensures ValidTable(types, camelCase, keys, table[identity := Some(definition)])
  {
    var finished := table[identity := Some(definition)];
    assert finished.Keys == table.Keys;
    forall id | id in finished && finished[id].Some?
      ensures Finished(types, camelCase, finished, id)
    {
      if id != identity {
        assert Finished(types, camelCase, table, id);
      }
    }
  }

  lemma MarkedExact(types: LfTypes, camelCase: CamelCase, before: Table, identity: Identity, after: Table, ok: bool)
    requires identity in types
    requires Exact(types, camelCase, before[identity := None], GoalDefinition(types, types[identity], camelCase), after,
                   ok)
    ensures Exact(types, camelCase, before, Ok({identity}), after, ok)
  {
    forall ids {:trigger Analyzable(types, camelCase, ids)}
      | Analyzable(types, camelCase, ids) && before.Keys <= ids && {identity} <= ids
      ensures ok && after.Keys <= ids
    {
      assert AnalyzableType(types, camelCase, ids, identity);
    }
  }
}
