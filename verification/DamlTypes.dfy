/** Analyzed DAML types, their definitions, and the descriptors the runtime decodes against. */
module DamlTypes {
  import opened Wrappers

  datatype Primitive = Unit | Bool | Int64 | Date | Timestamp | Numeric | Party | Text

  datatype Identity = Identity(packageId: string, moduleName: string, name: string)

  /** A type variable is identified by its name and its interned index. */
  datatype VarKey = VarKey(name: Option<string>, index: int)

  datatype Field = Field(damlLabel: string, propertyName: string, ty: DamlType)

  datatype Constructor = Constructor(name: string, payload: DamlType)

  datatype DamlType =
    | Prim(builtin: Primitive, numericScale: Option<int>)
    | ContractId
    | Optional(element: DamlType)
    | List(element: DamlType)
    | TextMap(value: DamlType)
    | GenMap(key: DamlType, value: DamlType)
    | Record(fields: seq<Field>)
    | Variant(constructors: seq<Constructor>)
    | Enum(names: seq<string>)
    | Var(variable: VarKey)
    | Ref(identity: Identity, arguments: seq<DamlType>)

  datatype Definition =
    | RecordDefinition(recordParameters: seq<VarKey>, fields: seq<Field>)
    | VariantDefinition(variantParameters: seq<VarKey>, constructors: seq<Constructor>)
    | EnumDefinition(names: seq<string>)
  {
    function Parameters(): seq<VarKey> {
      match this
      case RecordDefinition(ps, _) => ps
      case VariantDefinition(ps, _) => ps
      case EnumDefinition(_) => []
    }
  }

  /** Field names resolved for one generated module, by type identity and field position. */
  datatype NamedTypeFile = NamedTypeFile(packageId: string, moduleName: string,
    fieldPropertyNames: map<(Identity, nat), string>)

  datatype Project = Project(definitions: map<Identity, Definition>, files: seq<NamedTypeFile>)

  datatype FieldDescriptor = FieldDescriptor(damlLabel: string, propertyName: string, ty: Descriptor)

  datatype ConstructorDescriptor = ConstructorDescriptor(name: string, payload: Descriptor)

  datatype Descriptor =
    | DPrim(primitive: Primitive, numericScale: Option<int>)
    | DContractId
    | DOptional(element: Descriptor)
    | DList(element: Descriptor)
    | DTextMap(value: Descriptor)
    | DGenMap(key: Descriptor, value: Descriptor)
    | DRecord(fields: seq<FieldDescriptor>)
    | DVariant(constructors: seq<ConstructorDescriptor>)
    | DEnum(names: seq<string>)
    | DRef(identity: Identity, arguments: seq<Descriptor>)
}
