/** Which models analysis supports, said of LF types alone, and that it accepts exactly those. */
module LfSupport {
  import opened Wrappers
  import opened DamlTypes
  import opened DescriptorCompiler
  import opened LedgerTyping
  import opened ProtobufTyping
  import opened LfModel
  import opened LfTyping
  import opened Analysis

  /** Named parameters of kind `*`; none on an enum. */
  ghost predicate Parametric(dataType: LfDataType) {
    && (dataType.parameters == [] || !dataType.shape.LfEnum?)
    && forall parameter <- dataType.parameters :: parameter.key.name != None && parameter.kind == Star
  }

  function Arity(builtin: LfBuiltin): nat {
    match builtin
    case LContractId => 1
    case LOptional => 1
    case LList => 1
    case LTextMap => 1
    case LGenMap => 2
    case _ => 0
  }

  /**
   * Variables are named and in scope, references are to data types of `ids` with all their parameters, and
   * builtins have their arguments; what a contract id is of does not matter.
   */
  ghost predicate Supported(t: LfType, scope: set<int>, types: LfTypes, ids: set<Identity>)
    decreases t
  {
    && !t.retainedForall
    && if t.variable.Some? then t.variable.value.name.Some? && t.variable.value.index in scope && |t.arguments| == 0
       else if t.reference.Some? then
         && t.builtin.LUnknown? && t.reference.value in types && t.reference.value in ids
         && Parametric(types[t.reference.value]) && |t.arguments| == |types[t.reference.value].parameters|
         && forall i :: 0 <= i < |t.arguments| ==> Supported(t.arguments[i], scope, types, ids)
       else
         && !t.builtin.LUnknown? && |t.arguments| == Arity(t.builtin)
         && (t.builtin.LNumeric? ==> t.numericScale.Some? && 0 <= t.numericScale.value <= 37)
         && (!t.builtin.LContractId? ==>
               forall i :: 0 <= i < |t.arguments| ==> Supported(t.arguments[i], scope, types, ids))
  }

  ghost predicate SupportedType(dataType: LfDataType, model: LfModule, ids: set<Identity>) {
    var scope := set i | 0 <= i < |dataType.parameters| :: dataType.parameters[i].key.index;
    && Parametric(dataType)
    && match dataType.shape
       case LfRecord(fields) =>
         forall j :: 0 <= j < |fields| ==>
           model.camelCase(fields[j].name).Some? && Supported(fields[j].ty, scope, model.types, ids)
       case LfVariant(constructors) =>
         forall j :: 0 <= j < |constructors| ==> Supported(constructors[j].ty, scope, model.types, ids)
       case LfEnum(_) => true
  }

  /** `ids` is a set of supported data types that holds the serializable ones and all that the roots need. */
  ghost predicate SupportedModel(model: LfModule, roots: seq<LfType>, dataTypes: seq<Identity>, ids: set<Identity>) {
    && (forall id :: id in ids ==> id in model.types && SupportedType(model.types[id], model, ids))
    && (forall i :: 0 <= i < |roots| ==> Supported(roots[i], {}, model.types, ids))
    && (forall id <- dataTypes :: id in model.types && model.types[id].serializable ==> id in ids)
  }

  lemma ParametricExactly(dataType: LfDataType)
    ensures SupportedParameters(dataType) <==> Parametric(dataType)
  {
  }

  ghost predicate BuildsWithin(t: LfType, scope: map<int, VarKey>, types: LfTypes, ids: set<Identity>) {
    var r := Elaborate(types, t, scope);
    r.Ok? && References(r.value) <= ids
  }

  /** A type elaborates, referring to types of `ids` only, exactly when it is supported. */
  lemma {:induction false} SupportedExactly(t: LfType, scope: map<int, VarKey>, types: LfTypes, ids: set<Identity>)
    ensures BuildsWithin(t, scope, types, ids) <==> Supported(t, scope.Keys, types, ids)
    decreases t
  {
    forall i | 0 <= i < |t.arguments|
      ensures BuildsWithin(t.arguments[i], scope, types, ids) <==> Supported(t.arguments[i], scope.Keys, types, ids)
    {
      SupportedExactly(t.arguments[i], scope, types, ids);
    }
    if t.reference.Some? && t.variable.None? {
      ReferenceSupported(t, scope, types, ids);
    } else {
      BuiltinSupported(t, scope, types, ids);
    }
  }

  lemma BuiltinSupported(t: LfType, scope: map<int, VarKey>, types: LfTypes, ids: set<Identity>)
    requires forall i :: 0 <= i < |t.arguments| ==>
               (BuildsWithin(t.arguments[i], scope, types, ids) <==> Supported(t.arguments[i], scope.Keys, types, ids))
    requires t.reference.None? || t.variable.Some?
    ensures BuildsWithin(t, scope, types, ids) <==> Supported(t, scope.Keys, types, ids)
  {
  }

  lemma ReferenceSupported(t: LfType, scope: map<int, VarKey>, types: LfTypes, ids: set<Identity>)
    requires forall i :: 0 <= i < |t.arguments| ==>
               (BuildsWithin(t.arguments[i], scope, types, ids) <==> Supported(t.arguments[i], scope.Keys, types, ids))
    requires t.reference.Some? && t.variable.None?
    ensures BuildsWithin(t, scope, types, ids) <==> Supported(t, scope.Keys, types, ids)
  {
    ElaboratesAll(types, t.arguments, scope);
    var arguments := ElaborateAll(types, t.arguments, scope);
    if arguments.Ok? {
      AllWithin(arguments.value, ids);
    }
    if t.reference.value in types {
      ParametricExactly(types[t.reference.value]);
    }
  }

  lemma ScopeKeys(parameters: seq<LfParameter>)
    ensures ScopeOf(KeysOf(parameters)).Keys == set i | 0 <= i < |parameters| :: parameters[i].key.index
  {
    var keys, indices := KeysOf(parameters), set i | 0 <= i < |parameters| :: parameters[i].key.index;
    forall index
      ensures index in ScopeOf(keys) <==> index in indices
    {
      SlotScopes(keys, map[], index);
      var i := Slot(keys, index);
      assert forall j :: 0 <= j < |parameters| ==> keys[j] == parameters[j].key;
    }
  }

  lemma TypeSupported(id: Identity, model: LfModule, ids: set<Identity>)
    ensures AnalyzableType(model.types, model.camelCase, ids, id) <==>
            id in model.types && SupportedType(model.types[id], model, ids)
  {
    hide Elaborate, References, Supported;
    if id in model.types {
      var dataType := model.types[id];
      var scope := ScopeOf(KeysOf(dataType.parameters));
      ParametricExactly(dataType);
      ScopeKeys(dataType.parameters);
      match dataType.shape
      case LfRecord(fields) =>
        FieldsElaborate(model.types, fields, scope, model.camelCase);
        var analyzed := ElaborateFields(model.types, fields, scope, model.camelCase);
        if analyzed.Ok? {
          FieldsWithin(analyzed.value, ids);
        }
        forall j | 0 <= j < |fields|
          ensures BuildsWithin(fields[j].ty, scope, model.types, ids)
             <==> Supported(fields[j].ty, scope.Keys, model.types, ids)
        {
          SupportedExactly(fields[j].ty, scope, model.types, ids);
        }
      case LfVariant(constructors) =>
        ConstructorsElaborate(model.types, constructors, scope);
        var analyzed := ElaborateConstructors(model.types, constructors, scope);
        if analyzed.Ok? {
          ConstructorsWithin(analyzed.value, ids);
        }
        forall j | 0 <= j < |constructors|
          ensures BuildsWithin(constructors[j].ty, scope, model.types, ids)
             <==> Supported(constructors[j].ty, scope.Keys, model.types, ids)
        {
          SupportedExactly(constructors[j].ty, scope, model.types, ids);
        }
      case LfEnum(_) =>
    }
  }

  /** What analysis needs of a model to accept it is that the model is supported. */
  lemma CoversExactly(model: LfModule, roots: seq<LfType>, dataTypes: seq<Identity>, ids: set<Identity>)
    ensures Covers(model.types, model.camelCase, roots, dataTypes, ids) <==>
            SupportedModel(model, roots, dataTypes, ids)
  {
    hide Elaborate, References, Supported, AnalyzableType, SupportedType;
    forall id
      ensures AnalyzableType(model.types, model.camelCase, ids, id) <==>
              id in model.types && SupportedType(model.types[id], model, ids)
    {
      TypeSupported(id, model, ids);
    }
    ElaboratesAll(model.types, roots, map[]);
    var all := ElaborateAll(model.types, roots, map[]);
    if all.Ok? {
      AllWithin(all.value, ids);
    }
    var scope: map<int, VarKey> := map[];
    assert scope.Keys == {};
    forall i | 0 <= i < |roots|
      ensures BuildsWithin(roots[i], scope, model.types, ids) <==> Supported(roots[i], {}, model.types, ids)
    {
      SupportedExactly(roots[i], scope, model.types, ids);
    }
  }
}
