/** DAML-LF types as the analyzer reads them, and the meaning of one type or definition in a model. */
module LfModel {
  import opened Wrappers
  import opened DamlTypes
  import opened DescriptorCompiler
  import DamlNumerics

  datatype LfBuiltin =
    | LUnit | LBool | LInt64 | LDate | LTimestamp | LNumeric | LParty | LText
    | LContractId | LOptional | LList | LTextMap | LGenMap | LUnknown

  datatype LfType = LfType(
    builtin: LfBuiltin,
    numericScale: Option<int>,
    reference: Option<Identity>,
    variable: Option<VarKey>,
    retainedForall: bool,
    arguments: seq<LfType>)

  datatype LfKind = Star | Nat | Arrow | UnknownKind

  datatype LfParameter = LfParameter(key: VarKey, kind: LfKind)

  datatype LfField = LfField(name: string, ty: LfType)

  datatype LfShape = LfRecord(fields: seq<LfField>) | LfVariant(constructors: seq<LfField>) | LfEnum(names: seq<string>)

  datatype LfDataType = LfDataType(shape: LfShape, parameters: seq<LfParameter>, serializable: bool)

  type LfTypes = map<Identity, LfDataType>

  /** Property names in camel case; an identifier without letters or digits has none. */
  type CamelCase = string -> Option<string>

  /** Enums take no parameters; every parameter has a resolved name and kind `*`. */
  predicate SupportedParameters(dataType: LfDataType) {
    && (dataType.shape.LfEnum? ==> dataType.parameters == [])
    && forall i :: 0 <= i < |dataType.parameters| ==>
         dataType.parameters[i].key.name.Some? && dataType.parameters[i].kind.Star?
  }

  function KeysOf(parameters: seq<LfParameter>): (keys: seq<VarKey>)
    ensures |keys| == |parameters|
  {
    seq(|parameters|, i requires 0 <= i < |parameters| => parameters[i].key)
  }

  function PrimitiveOf(builtin: LfBuiltin): Option<Primitive> {
    match builtin
    case LUnit => Some(Unit)
    case LBool => Some(Bool)
    case LInt64 => Some(Int64)
    case LDate => Some(Date)
    case LTimestamp => Some(Timestamp)
    case LNumeric => Some(Numeric)
    case LParty => Some(Party)
    case LText => Some(Text)
    case _ => None
  }

  /** The analyzed type one LF type stands for, looking definitions up but not into them. */
  function Elaborate(types: LfTypes, t: LfType, scope: map<int, VarKey>): Result<DamlType>
    decreases t
  {
    if t.retainedForall then Err
    else if t.variable.Some? then
      if t.variable.value.name.None? || t.arguments != [] then Err
      else if t.variable.value.index in scope then Ok(Var(scope[t.variable.value.index]))
      else Err
    else if t.reference.Some? then
      if !t.builtin.LUnknown? then Err else
      var identity := t.reference.value;
      if identity !in types || !SupportedParameters(types[identity]) then Err else
      if |t.arguments| != |types[identity].parameters| then Err else
      var arguments :- ElaborateAll(types, t.arguments, scope);
      Ok(Ref(identity, arguments))
    else
      match t.builtin
      case LContractId => if |t.arguments| == 1 then Ok(ContractId) else Err
      case LOptional =>
        if |t.arguments| != 1 then Err else
        var element :- Elaborate(types, t.arguments[0], scope);
        Ok(Optional(element))
      case LList =>
        if |t.arguments| != 1 then Err else
        var element :- Elaborate(types, t.arguments[0], scope);
        Ok(List(element))
      case LTextMap =>
        if |t.arguments| != 1 then Err else
        var value :- Elaborate(types, t.arguments[0], scope);
        Ok(TextMap(value))
      case LGenMap =>
        if |t.arguments| != 2 then Err else
        var key :- Elaborate(types, t.arguments[0], scope);
        var value :- Elaborate(types, t.arguments[1], scope);
        Ok(GenMap(key, value))
      case LUnknown => Err
      case LNumeric =>
        if t.arguments == [] && t.numericScale.Some? && 0 <= t.numericScale.value <= DamlNumerics.MAX_SCALE then
          Ok(Prim(Numeric, t.numericScale))
        else Err
      case _ => if t.arguments == [] then Ok(Prim(PrimitiveOf(t.builtin).value, t.numericScale)) else Err
  }

  function ElaborateAll(types: LfTypes, ts: seq<LfType>, scope: map<int, VarKey>): (r: Result<seq<DamlType>>)
    ensures r.Ok? ==> |r.value| == |ts|
    decreases ts
  {
    if ts == [] then Ok([])
    else
      var first :- Elaborate(types, ts[0], scope);
      var rest :- ElaborateAll(types, ts[1..], scope);
      Ok([first] + rest)
  }

  function ElaborateFields(types: LfTypes, fields: seq<LfField>, scope: map<int, VarKey>,
      camelCase: CamelCase): Result<seq<Field>> {
    if fields == [] then Ok([])
    else if camelCase(fields[0].name).None? then Err
    else
      var first :- Elaborate(types, fields[0].ty, scope);
      var rest :- ElaborateFields(types, fields[1..], scope, camelCase);
      Ok([Field(fields[0].name, camelCase(fields[0].name).value, first)] + rest)
  }

  function ElaborateConstructors(types: LfTypes, constructors: seq<LfField>,
      scope: map<int, VarKey>): Result<seq<Constructor>> {
    if constructors == [] then Ok([])
    else
      var first :- Elaborate(types, constructors[0].ty, scope);
      var rest :- ElaborateConstructors(types, constructors[1..], scope);
      Ok([Constructor(constructors[0].name, first)] + rest)
  }

  function ElaborateDefinition(types: LfTypes, dataType: LfDataType, camelCase: CamelCase): Result<Definition> {
    var keys := KeysOf(dataType.parameters);
    match dataType.shape
    case LfRecord(fields) =>
      var analyzed :- ElaborateFields(types, fields, ScopeOf(keys), camelCase);
      Ok(RecordDefinition(keys, analyzed))
    case LfVariant(constructors) =>
      var analyzed :- ElaborateConstructors(types, constructors, ScopeOf(keys));
      Ok(VariantDefinition(keys, analyzed))
    case LfEnum(names) => Ok(EnumDefinition(names))
  }

  // ----- references -----

  function References(t: DamlType): set<Identity> {
    match t
    case Optional(element) => References(element)
    case List(element) => References(element)
    case TextMap(value) => References(value)
    case GenMap(key, value) => References(key) + References(value)
    case Record(fields) => FieldReferences(fields)
    case Variant(constructors) => ConstructorReferences(constructors)
    case Ref(identity, arguments) => {identity} + AllReferences(arguments)
    case _ => {}
  }

  function AllReferences(ts: seq<DamlType>): set<Identity> {
    if ts == [] then {} else References(ts[0]) + AllReferences(ts[1..])
  }

  function FieldReferences(fields: seq<Field>): set<Identity> {
    if fields == [] then {} else References(fields[0].ty) + FieldReferences(fields[1..])
  }

  function ConstructorReferences(constructors: seq<Constructor>): set<Identity> {
    if constructors == [] then {} else References(constructors[0].payload) + ConstructorReferences(constructors[1..])
  }

  function DefinitionReferences(definition: Definition): set<Identity> {
    match definition
    case RecordDefinition(_, fields) => FieldReferences(fields)
    case VariantDefinition(_, constructors) => ConstructorReferences(constructors)
    case EnumDefinition(_) => {}
  }

  /** A set of types that all elaborate and refer only to each other. */
  ghost predicate Analyzable(types: LfTypes, camelCase: CamelCase, ids: set<Identity>) {
    ids <= types.Keys
    && forall id {:trigger AnalyzableType(types, camelCase, ids, id)} ::
         id in ids ==> AnalyzableType(types, camelCase, ids, id)
  }

  ghost predicate AnalyzableType(types: LfTypes, camelCase: CamelCase, ids: set<Identity>, id: Identity) {
    && id in types
    && SupportedParameters(types[id])
    && var definition := ElaborateDefinition(types, types[id], camelCase);
       definition.Ok? && DefinitionReferences(definition.value) <= ids
  }
}
