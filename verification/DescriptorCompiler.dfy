/** The support file's descriptor factories: types compiled to descriptors, resolved by name at run time. */
module DescriptorCompiler {
  import opened Wrappers
  import opened DamlTypes

  /** Variables bound by a definition: for a repeated index the last parameter wins. */
  function ScopeOf(parameters: seq<VarKey>, scope: map<int, VarKey> := map[]): map<int, VarKey>
    decreases parameters
  {
    if parameters == [] then scope
    else ScopeOf(parameters[1..], scope[parameters[0].index := parameters[0]])
  }

  /** The factory's substitution of interned indices by the argument descriptors. */
  function BindIndices(substitution: map<int, Descriptor>, parameters: seq<VarKey>,
      arguments: seq<Descriptor>): map<int, Descriptor>
    requires |parameters| == |arguments|
    decreases parameters
  {
    if parameters == [] then substitution
    else BindIndices(substitution[parameters[0].index := arguments[0]], parameters[1..], arguments[1..])
  }

  /** The descriptor emitted for a type; throws on a variable without substitution. */
  function Compile(t: DamlType, substitution: map<int, Descriptor>): Result<Descriptor>
    decreases t
  {
    match t
    case Prim(builtin, scale) => Ok(DPrim(builtin, scale))
    case ContractId => Ok(DContractId)
    case Optional(element) =>
      var d :- Compile(element, substitution); Ok(DOptional(d))
    case List(element) =>
      var d :- Compile(element, substitution); Ok(DList(d))
    case TextMap(value) =>
      var d :- Compile(value, substitution); Ok(DTextMap(d))
    case GenMap(key, value) =>
      var k :- Compile(key, substitution);
      var v :- Compile(value, substitution);
      Ok(DGenMap(k, v))
    case Record(fields) =>
      var ds :- CompileFields(fields, substitution); Ok(DRecord(ds))
    case Variant(constructors) =>
      var ds :- CompileConstructors(constructors, substitution); Ok(DVariant(ds))
    case Enum(names) => Ok(DEnum(names))
    case Var(variable) =>
      if variable.index in substitution then Ok(substitution[variable.index]) else Err
    case Ref(identity, arguments) =>
      var ds :- CompileAll(arguments, substitution); Ok(DRef(identity, ds))
  }

  function CompileAll(ts: seq<DamlType>, substitution: map<int, Descriptor>): (r: Result<seq<Descriptor>>)
    ensures r.Ok? ==> |r.value| == |ts|
    decreases ts
  {
    if ts == [] then Ok([])
    else
      var d :- Compile(ts[0], substitution);
      var ds :- CompileAll(ts[1..], substitution);
      Ok([d] + ds)
  }

  function CompileFields(fields: seq<Field>, substitution: map<int, Descriptor>): (r: Result<seq<FieldDescriptor>>)
    ensures r.Ok? ==> |r.value| == |fields|
    decreases fields
  {
    if fields == [] then Ok([])
    else
      var d :- Compile(fields[0].ty, substitution);
      var ds :- CompileFields(fields[1..], substitution);
      Ok([FieldDescriptor(fields[0].damlLabel, fields[0].propertyName, d)] + ds)
  }

  function CompileConstructors(constructors: seq<Constructor>,
      substitution: map<int, Descriptor>): (r: Result<seq<ConstructorDescriptor>>)
    ensures r.Ok? ==> |r.value| == |constructors|
    decreases constructors
  {
    if constructors == [] then Ok([])
    else
      var d :- Compile(constructors[0].payload, substitution);
      var ds :- CompileConstructors(constructors[1..], substitution);
      Ok([ConstructorDescriptor(constructors[0].name, d)] + ds)
  }

  type FieldNames = map<(Identity, nat), string>

  /** Field names of all generated modules; a later file overrides an earlier one. */
  function MergedNames(files: seq<NamedTypeFile>): FieldNames {
    if files == [] then map[] else files[0].fieldPropertyNames + MergedNames(files[1..])
  }

  function RenameFields(identity: Identity, fields: seq<Field>, names: FieldNames,
      index: nat := 0): (renamed: seq<Field>)
    ensures |renamed| == |fields|
    ensures forall i :: 0 <= i < |fields| ==>
              renamed[i].damlLabel == fields[i].damlLabel && renamed[i].ty == fields[i].ty
    decreases fields
  {
    if fields == [] then []
    else
      var name := if (identity, index) in names then names[(identity, index)] else fields[0].propertyName;
      [fields[0].(propertyName := name)] + RenameFields(identity, fields[1..], names, index + 1)
  }

  /** The structure a definition stands for, with resolved property names. */
  function Body(identity: Identity, definition: Definition, names: FieldNames): DamlType {
    match definition
    case RecordDefinition(_, fields) => Record(RenameFields(identity, fields, names))
    case VariantDefinition(_, constructors) => Variant(constructors)
    case EnumDefinition(names) => Enum(names)
  }

  /** The generated registry: an unknown name or a wrong number of arguments is an error. */
  function Resolve(project: Project, identity: Identity, arguments: seq<Descriptor>): (r: Result<Descriptor>)
    ensures r.Ok? ==> r.value.DRecord? || r.value.DVariant? || r.value.DEnum?
  {
    if identity !in project.definitions then Err
    else
      var definition := project.definitions[identity];
      if |arguments| != |definition.Parameters()| then Err
      else
        Compile(Body(identity, definition, MergedNames(project.files)),
                BindIndices(map[], definition.Parameters(), arguments))
  }
}
