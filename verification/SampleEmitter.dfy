/**
 * Synthesis of a finite sample of a type, as ledger JSON or as the TypeScript value expected
 * after decoding it.
 *
 * The recursion through type variables and named references need not end, so each such step
 * spends one unit of `fuel`; running out of it is the outcome `Diverges`.
 */
module SampleEmitter {
  import opened Wrappers
  import opened JsValues
  import opened DamlTypes
  import opened DescriptorCompiler
  import opened ValueMaterializer
  import opened LedgerValues
  import DamlNumerics

  datatype Representation = TypeScript | Ledger

  datatype Outcome<+T> = Value(value: T) | Missing | Throws | Diverges {
    predicate IsFailure() {
      !Value?
    }

    function PropagateFailure<U>(): Outcome<U>
      requires !Value?
    {
      match this
      case Missing => Missing
      case Throws => Throws
      case Diverges => Diverges
    }

    function Extract(): T
      requires Value?
    {
      value
    }
  }

  type Bindings = map<VarKey, DamlType>

  /** The key of a type in visited and active sets: containers are not looked into. */
  datatype Fingerprint =
    | FPrim(builtin: Primitive, numericScale: Option<int>)
    | FKind(kind: Kind)
    | FVar(variable: VarKey)
    | FRef(identity: Identity, arguments: seq<Fingerprint>)

  datatype Kind = KContractId | KOptional | KList | KTextMap | KGenMap | KRecord | KVariant | KEnum

  /** None when following the bindings does not end within the fuel. */
  function FingerprintOf(t: DamlType, bindings: Bindings, fuel: nat): Option<Fingerprint>
    decreases fuel, t
  {
    match t
    case Prim(builtin, scale) => Some(FPrim(builtin, scale))
    case ContractId => Some(FKind(KContractId))
    case Optional(_) => Some(FKind(KOptional))
    case List(_) => Some(FKind(KList))
    case TextMap(_) => Some(FKind(KTextMap))
    case GenMap(_, _) => Some(FKind(KGenMap))
    case Record(_) => Some(FKind(KRecord))
    case Variant(_) => Some(FKind(KVariant))
    case Enum(_) => Some(FKind(KEnum))
    case Var(variable) =>
      if variable !in bindings then Some(FVar(variable))
      else if fuel == 0 then None
      else FingerprintOf(bindings[variable], bindings, fuel - 1)
    case Ref(identity, arguments) =>
      var fingerprints := FingerprintsOf(arguments, bindings, fuel);
      if fingerprints.None? then None else Some(FRef(identity, fingerprints.value))
  }

  function FingerprintsOf(ts: seq<DamlType>, bindings: Bindings, fuel: nat): Option<seq<Fingerprint>>
    decreases fuel, ts
  {
    if ts == [] then Some([])
    else
      var first := FingerprintOf(ts[0], bindings, fuel);
      var rest := FingerprintsOf(ts[1..], bindings, fuel);
      if first.None? || rest.None? then None else Some([first.value] + rest.value)
  }

  /** Replaces bound variables; unbound ones stay. */
  function ResolveVariables(t: DamlType, bindings: Bindings): DamlType {
    match t
    case Var(variable) => if variable in bindings then bindings[variable] else t
    case Optional(element) => Optional(ResolveVariables(element, bindings))
    case List(element) => List(ResolveVariables(element, bindings))
    case TextMap(value) => TextMap(ResolveVariables(value, bindings))
    case GenMap(key, value) => GenMap(ResolveVariables(key, bindings), ResolveVariables(value, bindings))
    case Record(fields) => Record(ResolveFields(fields, bindings))
    case Variant(constructors) => Variant(ResolveConstructors(constructors, bindings))
    case Ref(identity, arguments) => Ref(identity, ResolveAll(arguments, bindings))
    case Prim(_, _) => t
    case ContractId => t
    case Enum(_) => t
  }

  function ResolveAll(ts: seq<DamlType>, bindings: Bindings): (r: seq<DamlType>)
    ensures |r| == |ts|
  {
    if ts == [] then [] else [ResolveVariables(ts[0], bindings)] + ResolveAll(ts[1..], bindings)
  }

  function ResolveFields(fields: seq<Field>, bindings: Bindings): (r: seq<Field>)
    ensures |r| == |fields|
    ensures forall i :: 0 <= i < |fields| ==> r[i].damlLabel == fields[i].damlLabel
  {
    if fields == [] then []
    else [fields[0].(ty := ResolveVariables(fields[0].ty, bindings))] + ResolveFields(fields[1..], bindings)
  }

  function ResolveConstructors(constructors: seq<Constructor>, bindings: Bindings): (r: seq<Constructor>)
    ensures |r| == |constructors|
    ensures forall i :: 0 <= i < |constructors| ==> r[i].name == constructors[i].name
  {
    if constructors == [] then []
    else [constructors[0].(payload := ResolveVariables(constructors[0].payload, bindings))]
         + ResolveConstructors(constructors[1..], bindings)
  }

  /** The caller's bindings extended by a definition's parameters, arguments resolved by the caller's. */
  function BindVariables(bindings: Bindings, parameters: seq<VarKey>, resolved: seq<DamlType>): Bindings
    requires |parameters| == |resolved|
    decreases parameters
  {
    if parameters == [] then bindings
    else BindVariables(bindings[parameters[0] := resolved[0]], parameters[1..], resolved[1..])
  }

  /** Field names of the one generated file a type's module has, if any. */
  function SampleNames(files: seq<NamedTypeFile>, identity: Identity): FieldNames {
    if files == [] then map[]
    else if files[0].packageId == identity.packageId && files[0].moduleName == identity.moduleName then
      files[0].fieldPropertyNames
    else SampleNames(files[1..], identity)
  }

  const SAMPLE_CONTRACT_ID := "#sample-contract-id"
  const SAMPLE_KEY := "sample-key"

  function NumericSample(scale: Option<int>): Outcome<string> {
    if scale.None? || scale.value == 0 then Value("1")
    else if scale.value < 0 then Throws
    else Value("1." + DamlNumerics.Zeros(scale.value))
  }

  function EmitPrimitive(builtin: Primitive, scale: Option<int>, representation: Representation): Outcome<Js> {
    match builtin
    case Unit => Value(if representation.Ledger? then Object(Plain, []) else Object(DamlUnit, []))
    case Bool => Value(Boolean(true))
    case Int64 => Value(if representation.Ledger? then JsValues.Text("1") else BigInt(1))
    case Date => Value(if representation.Ledger? then Number(1.0) else DateObject(1))
    case Timestamp => Value(if representation.Ledger? then JsValues.Text("1000000") else TimestampObject("1000000"))
    case Numeric =>
      var text :- NumericSample(scale);
      Value(if representation.Ledger? then JsValues.Text(text) else NumericObject(text))
    case Party => Value(if representation.Ledger? then JsValues.Text("Alice") else PartyObject("Alice"))
    case Text => Value(JsValues.Text("sample text"))
  }

  function EmptyOptional(representation: Representation): Js {
    if representation.Ledger? then Null else Undefined
  }

  function FieldKey(field: Field, representation: Representation): string {
    if representation.Ledger? then field.damlLabel else field.propertyName
  }

  /** A smallest sample: containers stay empty and no reference is entered twice; Missing if there is none. */
  function EmitFinite(t: DamlType, representation: Representation, project: Project, bindings: Bindings,
      visited: set<Fingerprint>, fuel: nat): Outcome<Js>
    decreases fuel, t
  {
    match t
    case Prim(builtin, scale) => EmitPrimitive(builtin, scale, representation)
    case ContractId => Value(JsValues.Text(SAMPLE_CONTRACT_ID))
    case Optional(_) => Value(EmptyOptional(representation))
    case List(_) => Value(Array([]))
    case TextMap(_) => Value(if representation.Ledger? then Object(Plain, []) else JsMap([]))
    case GenMap(_, _) => Value(if representation.Ledger? then Array([]) else JsMap([]))
    case Record(fields) =>
      var entries :- EmitFiniteFields(fields, representation, project, bindings, visited, fuel);
      Value(ObjectLiteral(entries))
    case Variant(constructors) => EmitFirstFinite(constructors, representation, project, bindings, visited, fuel)
    case Enum(names) => if names == [] then Missing else Value(JsValues.Text(names[0]))
    case Var(variable) =>
      if variable !in bindings then Missing
      else if fuel == 0 then Diverges
      else EmitFinite(bindings[variable], representation, project, bindings, visited, fuel - 1)
    case Ref(identity, arguments) =>
      if fuel == 0 then Diverges else
      var fingerprints := FingerprintsOf(arguments, bindings, fuel);
      if fingerprints.None? then Diverges else
      var key := FRef(identity, fingerprints.value);
      if key in visited then Missing
      else if identity !in project.definitions then Value(JsValues.Text(SAMPLE_CONTRACT_ID))
      else
        var definition := project.definitions[identity];
        if |definition.Parameters()| != |arguments| then Throws
        else
          EmitFinite(Body(identity, definition, SampleNames(project.files, identity)), representation, project,
                     BindVariables(bindings, definition.Parameters(), ResolveAll(arguments, bindings)),
                     visited + {key}, fuel - 1)
  }

  function EmitFiniteFields(fields: seq<Field>, representation: Representation, project: Project, bindings: Bindings,
      visited: set<Fingerprint>, fuel: nat): Outcome<seq<Entry<Js>>>
    decreases fuel, fields
  {
    if fields == [] then Value([])
    else
      var first :- EmitFinite(fields[0].ty, representation, project, bindings, visited, fuel);
      var rest :- EmitFiniteFields(fields[1..], representation, project, bindings, visited, fuel);
      Value([Entry(FieldKey(fields[0], representation), first)] + rest)
  }

  function EmitFirstFinite(constructors: seq<Constructor>, representation: Representation, project: Project,
      bindings: Bindings, visited: set<Fingerprint>, fuel: nat): Outcome<Js>
    decreases fuel, constructors
  {
    if constructors == [] then Missing
    else
      var payload := EmitFinite(constructors[0].payload, representation, project, bindings, visited, fuel);
      if payload.Missing? then EmitFirstFinite(constructors[1..], representation, project, bindings, visited, fuel)
      else if payload.Value? then Value(VariantObject(constructors[0].name, payload.value))
      else payload
  }

  datatype State = State(representation: Representation, project: Project, depth: int,
    bindings: Bindings, active: set<Fingerprint>) {
    function Descend(): State {
      this.(depth := depth - 1)
    }

    function Finite(t: DamlType, fuel: nat): Outcome<Js> {
      var finite := EmitFinite(t, representation, project, bindings, {}, fuel);
      if finite.Missing? then Throws else finite
    }
  }

  /** A representative sample: one element per container, first constructors, finite below `depth`. */
  function Emit(t: DamlType, st: State, fuel: nat): Outcome<Js>
    decreases fuel, t
  {
    if st.depth <= 0 then st.Finite(t, fuel) else
    match t
    case Prim(builtin, scale) => EmitPrimitive(builtin, scale, st.representation)
    case ContractId => Value(JsValues.Text(SAMPLE_CONTRACT_ID))
    case Optional(_) => Value(EmptyOptional(st.representation))
    case List(element) =>
      var x :- Emit(element, st.Descend(), fuel);
      Value(Array([x]))
    case TextMap(value) =>
      var x :- Emit(value, st.Descend(), fuel);
      Value(if st.representation.Ledger? then Object(Plain, [Entry(SAMPLE_KEY, x)])
            else JsMap([Pair(JsValues.Text(SAMPLE_KEY), x)]))
    case GenMap(key, value) =>
      var k :- Emit(key, st.Descend(), fuel);
      var v :- Emit(value, st.Descend(), fuel);
      Value(if st.representation.Ledger? then Array([Array([k, v])]) else JsMap([Pair(k, v)]))
    case Record(fields) =>
      var entries :- EmitFields(fields, st.Descend(), fuel);
      Value(ObjectLiteral(entries))
    case Variant(constructors) =>
      if constructors == [] then Throws else
      var payload :- Emit(constructors[0].payload, st.Descend(), fuel);
      Value(VariantObject(constructors[0].name, payload))
    case Enum(names) => Value(if names == [] then Undefined else JsValues.Text(names[0]))
    case Var(variable) =>
      if variable !in st.bindings then Throws
      else if fuel == 0 then Diverges
      else Emit(st.bindings[variable], st, fuel - 1)
    case Ref(identity, arguments) =>
      if fuel == 0 then Diverges else
      var fingerprints := FingerprintsOf(arguments, st.bindings, fuel);
      if fingerprints.None? then Diverges else
      var key := FRef(identity, fingerprints.value);
      if key in st.active then st.Finite(t, fuel)
      else if identity !in st.project.definitions then Value(JsValues.Text(SAMPLE_CONTRACT_ID))
      else
        var definition := st.project.definitions[identity];
        if |definition.Parameters()| != |arguments| then Throws
        else if st.depth - 1 <= 0 then st.Finite(t, fuel)
        else
          var bindings := BindVariables(st.bindings, definition.Parameters(), ResolveAll(arguments, st.bindings));
          Emit(Body(identity, definition, SampleNames(st.project.files, identity)),
               st.(depth := st.depth - 1, active := st.active + {key}, bindings := bindings), fuel - 1)
  }

  function EmitFields(fields: seq<Field>, st: State, fuel: nat): Outcome<seq<Entry<Js>>>
    decreases fuel, fields
  {
    if fields == [] then Value([])
    else
      var first :- Emit(fields[0].ty, st, fuel);
      var rest :- EmitFields(fields[1..], st, fuel);
      Value([Entry(FieldKey(fields[0], st.representation), first)] + rest)
  }

  const DEFAULT_DEPTH := 2

  function EmitOrThrow(t: DamlType, representation: Representation, project: Project, depth: int, bindings: Bindings,
      fuel: nat): Outcome<Js> {
    Emit(t, State(representation, project, depth, bindings, {}), fuel)
  }
}
