/**
 * Typing of protobuf ledger values against analyzed types, written without descriptors and without the
 * decoder: which values a type has, and what each of them means.
 */
module LedgerTyping {
  import opened Wrappers
  import opened Decimals
  import opened JsValues
  import opened DamlTypes
  import opened LedgerValues
  import opened ProtobufConverter
  import DamlNumerics

  /** Type arguments in force, each to be read under those around it. */
  datatype Env = Empty | Bound(parameters: seq<VarKey>, arguments: seq<DamlType>, outer: Env)

  /** The last parameter with this interned index, or -1. */
  function Slot(parameters: seq<VarKey>, index: int): (i: int)
    ensures -1 <= i < |parameters|
    ensures i >= 0 ==> parameters[i].index == index
    ensures forall j :: i < j < |parameters| ==> parameters[j].index != index
  {
    if parameters == [] then -1
    else
      var n := |parameters| - 1;
      if parameters[n].index == index then n else Slot(parameters[..n], index)
  }

  /** The property a field is read into: the name its definition's file gives it, else its own. */
  ghost predicate IsProperty(files: seq<NamedTypeFile>, owner: Option<Identity>, position: nat, own: string,
      name: string) {
    if owner.None? then name == own
    else
      var key := (owner.value, position);
      && (forall f :: 0 <= f < |files| && key in files[f].fieldPropertyNames ==>
            name == files[f].fieldPropertyNames[key])
      && ((forall f :: 0 <= f < |files| ==> key !in files[f].fieldPropertyNames) ==> name == own)
  }

  /** The text of an integer as the ledger writes it; "-0" is let through as 0. */
  ghost predicate WritesInteger(text: string, i: int) {
    text == IntText(i) || (text == "-0" && i == 0)
  }

  /** The ledger's numeric text with the integer part written without leading zeros and the plus sign dropped. */
  ghost predicate ReadsNumeric(text: string, scale: Option<int>, canonical: string) {
    var unsigned := DamlNumerics.Unsigned(text);
    var integer, fraction := DamlNumerics.IntegerPart(unsigned), DamlNumerics.FractionPart(unsigned);
    && DamlNumerics.IsLedgerNumeric(text)
    && |integer| + |fraction| <= 38
    && |fraction| <= (if scale.Some? then scale.value else 37) <= 37
    && canonical == (if text[0] == '-' then "-" else "") + NatText(DigitsValue(integer))
                    + if fraction == "" then "" else "." + fraction
  }

  ghost predicate ReadsPrimitive(v: PValue, builtin: Primitive, scale: Option<int>, x: Decoded) {
    match builtin
    case Unit => v.PUnit? && x.UnitValue?
    case Bool => v.PBool? && x == BoolValue(v.b)
    case Int64 => v.PInt64? && x.Int64Value? && WritesInteger(v.text, x.i) && MIN_INT64 <= x.i <= MAX_INT64
    case Date => v.PDate? && x == DateValue(v.days) && MIN_DATE <= v.days <= MAX_DATE
    case Timestamp =>
      && v.PTimestamp? && x == TimestampValue(v.text)
      && exists i :: WritesInteger(v.text, i) && MIN_TIMESTAMP <= i <= MAX_TIMESTAMP
    case Numeric => v.PNumeric? && x.NumericValue? && ReadsNumeric(v.text, scale, x.text)
    case Party => v.PParty? && x == PartyValue(v.text) && v.text != ""
    case Text => v.PText? && x == TextValue(v.text)
  }

  /** `v` is a value of `t`, and what it means is `x`. */
  ghost predicate Reads(v: PValue, t: DamlType, env: Env, project: Project, x: Decoded)
    decreases v, env, 1
  {
    match t
    case Prim(builtin, scale) => ReadsPrimitive(v, builtin, scale, x)
    case ContractId => v.PContractId? && x == TextValue(v.text)
    case Optional(element) =>
      v.POptional? && if v.value.None? then x.Absent? else Reads(v.value.value, element, env, project, x)
    case List(element) =>
      && v.PList? && x.ListValue? && |x.elems| == |v.elems|
      && forall i :: 0 <= i < |v.elems| ==> Reads(v.elems[i], element, env, project, x.elems[i])
    case TextMap(value) =>
      && v.PTextMap? && x.TextMapValue? && |x.entries| == |v.entries|
      && forall i :: 0 <= i < |v.entries| ==>
           x.entries[i].key == v.entries[i].key && ReadsEntry(v.entries[i], value, env, project, x.entries[i].value)
    case GenMap(key, value) =>
      && v.PGenMap? && x.GenMapValue? && |x.pairs| == |v.pairs|
      && forall i :: 0 <= i < |v.pairs| ==> ReadsPair(v.pairs[i], key, value, env, project, x.pairs[i])
    case Record(fields) => v.PRecord? && x.RecordValue? && ReadsRecord(v.fields, fields, None, env, project, x.fields)
    case Variant(constructors) =>
      v.PVariant? && x.VariantValue? && x.constructor_ == v.name
      && ReadsVariant(v.name, v.payload, constructors, env, project, x.value)
    case Enum(names) => v.PEnum? && v.name in names && x == EnumValue(v.name)
    case Var(variable) =>
      && env.Bound? && |env.parameters| == |env.arguments|
      && var i := Slot(env.parameters, variable.index);
         i >= 0 && Reads(v, env.arguments[i], env.outer, project, x)
    case Ref(identity, arguments) =>
      && identity in project.definitions
      && |arguments| == |project.definitions[identity].Parameters()|
      && ReadsDefinition(v, identity, project.definitions[identity], arguments, env, project, x)
  }

  /** A value of a definition, its parameters standing for the arguments. */
  ghost predicate ReadsDefinition(v: PValue, identity: Identity, definition: Definition, arguments: seq<DamlType>,
      env: Env, project: Project, x: Decoded)
    decreases v, env, 0
  {
    var inside := Bound(definition.Parameters(), arguments, env);
    match definition
    case RecordDefinition(_, fields) =>
      v.PRecord? && x.RecordValue? && ReadsRecord(v.fields, fields, Some(identity), inside, project, x.fields)
    case VariantDefinition(_, constructors) =>
      v.PVariant? && x.VariantValue? && x.constructor_ == v.name
      && ReadsVariant(v.name, v.payload, constructors, inside, project, x.value)
    case EnumDefinition(names) => v.PEnum? && v.name in names && x == EnumValue(v.name)
  }

  ghost predicate ReadsEntry(entry: PEntry, t: DamlType, env: Env, project: Project, x: Decoded)
    decreases entry, env, 0
  {
    entry.value.Some? && Reads(entry.value.value, t, env, project, x)
  }

  ghost predicate ReadsPair(pair: PPair, key: DamlType, t: DamlType, env: Env, project: Project, x: Pair<Decoded>)
    decreases pair, env, 0
  {
    && pair.key.Some? && Reads(pair.key.value, key, env, project, x.key)
    && pair.value.Some? && Reads(pair.value.value, t, env, project, x.value)
  }

  ghost predicate ReadsVariant(name: string, payload: Option<PValue>, constructors: seq<Constructor>, env: Env,
      project: Project, x: Decoded)
    decreases payload, env, 0
  {
    payload.Some? && exists i :: 0 <= i < |constructors| && constructors[i].name == name
                                 && Reads(payload.value, constructors[i].payload, env, project, x)
  }

  /** A complete record: every field once, by its label or by its position, assigned to its property. */
  ghost predicate ReadsRecord(entries: seq<PEntry>, fields: seq<Field>, owner: Option<Identity>, env: Env,
      project: Project, members: seq<Entry<Decoded>>)
    decreases entries, env, 2
  {
    && |entries| == |fields|
    && (Labelled(entries) ==> forall i, j :: 0 <= i < j < |entries| ==> entries[i].key != entries[j].key)
    && (Labelled(entries) || Unlabelled(entries))
    && exists output: seq<Entry<Decoded>> ::
         ReadsFields(entries, fields, owner, env, project, output) && members == PutAll([], output)
  }

  ghost predicate ReadsFields(entries: seq<PEntry>, fields: seq<Field>, owner: Option<Identity>, env: Env,
      project: Project, output: seq<Entry<Decoded>>)
    decreases entries, env, 1
  {
    && |output| == |fields|
    && forall j :: 0 <= j < |fields| ==>
         && IsProperty(project.files, owner, j, fields[j].propertyName, output[j].key)
         && ReadsField(entries, j, fields[j], env, project, output[j].value)
  }

  ghost predicate ReadsField(entries: seq<PEntry>, position: nat, field: Field, env: Env, project: Project, x: Decoded)
    decreases entries, env, 0
  {
    exists i :: 0 <= i < |entries| && (if Labelled(entries) then entries[i].key == field.damlLabel else i == position)
                && ReadsEntry(entries[i], field.ty, env, project, x)
  }

  // ----- JSON values -----

  ghost predicate IsFirst(members: seq<Entry<Js>>, key: string, i: int) {
    0 <= i < |members| && members[i].key == key && forall j :: 0 <= j < i ==> members[j].key != key
  }

  lemma FirstIsFound(members: seq<Entry<Js>>, key: string)
    ensures forall i :: IsFirst(members, key, i) <==> i == Find(members, key) && i >= 0
  {
    hide Find;
  }

  /** A JSON primitive: the text or the whole number is read as in the protobuf value of its kind. */
  ghost predicate ReadsJsonPrimitive(js: Js, builtin: Primitive, scale: Option<int>, x: Decoded) {
    match builtin
    case Unit => (js.JsMap? || (js.Object? && js.members == [])) && x.UnitValue?
    case Bool => js.Boolean? && x == BoolValue(js.b)
    case Int64 => js.Text? && ReadsPrimitive(PInt64(js.s), builtin, scale, x)
    case Date =>
      js.Number? && exists days: int :: js.n == days as real && ReadsPrimitive(PDate(days), builtin, scale, x)
    case Timestamp => js.Text? && ReadsPrimitive(PTimestamp(js.s), builtin, scale, x)
    case Numeric => js.Text? && ReadsPrimitive(PNumeric(js.s), builtin, scale, x)
    case Party => js.Text? && ReadsPrimitive(PParty(js.s), builtin, scale, x)
    case Text => js.Text? && x == TextValue(js.s)
  }

  /** The JSON value `js` is a value of `t`, and what it means is `x`. */
  ghost predicate ReadsJson(js: Js, t: DamlType, env: Env, project: Project, x: Decoded)
    decreases js, 3, env, t
  {
    match t
    case Prim(builtin, scale) => ReadsJsonPrimitive(js, builtin, scale, x)
    case ContractId => js.Text? && x == TextValue(js.s)
    case Optional(element) => if js.Null? then x.Absent? else ReadsJson(js, element, env, project, x)
    case List(element) =>
      && js.Array? && x.ListValue? && |x.elems| == |js.elems|
      && forall i :: 0 <= i < |js.elems| ==> ReadsJson(js.elems[i], element, env, project, x.elems[i])
    case TextMap(value) =>
      if js.JsMap? then x == TextMapValue([])
      else
        && js.Object? && x.TextMapValue? && |x.entries| == |js.members|
        && forall i :: 0 <= i < |js.members| ==>
             x.entries[i].key == js.members[i].key
             && ReadsJson(js.members[i].value, value, env, project, x.entries[i].value)
    case GenMap(key, value) =>
      && js.Array? && x.GenMapValue? && |x.pairs| == |js.elems|
      && forall i :: 0 <= i < |js.elems| ==> ReadsJsonPair(js.elems[i], key, value, env, project, x.pairs[i])
    case Record(fields) => x.RecordValue? && ReadsJsonRecord(js, fields, None, env, project, x.fields)
    case Variant(constructors) =>
      x.VariantValue? && ReadsJsonVariant(js, constructors, env, project, x.constructor_, x.value)
    case Enum(names) => js.Text? && js.s in names && x == EnumValue(js.s)
    case Var(variable) =>
      && env.Bound? && |env.parameters| == |env.arguments|
      && var i := Slot(env.parameters, variable.index);
         i >= 0 && ReadsJson(js, env.arguments[i], env.outer, project, x)
    case Ref(identity, arguments) =>
      && identity in project.definitions
      && |arguments| == |project.definitions[identity].Parameters()|
      && ReadsJsonDefinition(js, identity, project.definitions[identity], arguments, env, project, x)
  }

  ghost predicate ReadsJsonDefinition(js: Js, identity: Identity, definition: Definition, arguments: seq<DamlType>,
      env: Env, project: Project, x: Decoded)
    decreases js, 2, env, 0
  {
    var inside := Bound(definition.Parameters(), arguments, env);
    match definition
    case RecordDefinition(_, fields) =>
      x.RecordValue? && ReadsJsonRecord(js, fields, Some(identity), inside, project, x.fields)
    case VariantDefinition(_, constructors) =>
      x.VariantValue? && ReadsJsonVariant(js, constructors, inside, project, x.constructor_, x.value)
    case EnumDefinition(names) => js.Text? && js.s in names && x == EnumValue(js.s)
  }

  /** An array of a key and a value. */
  ghost predicate ReadsJsonPair(js: Js, key: DamlType, t: DamlType, env: Env, project: Project, x: Pair<Decoded>)
    decreases js, 0, env, 0
  {
    && js.Array? && |js.elems| == 2
    && ReadsJson(js.elems[0], key, env, project, x.key) && ReadsJson(js.elems[1], t, env, project, x.value)
  }

  /** An object with a "tag" naming a constructor and a "value" of its payload type. */
  ghost predicate ReadsJsonVariant(js: Js, constructors: seq<Constructor>, env: Env, project: Project, name: string,
      x: Decoded)
    decreases js, 0, env, 0
  {
    && js.Object?
    && (exists tag :: IsFirst(js.members, "tag", tag) && js.members[tag].value == Js.Text(name))
    && (exists i, payload :: 0 <= i < |constructors| && constructors[i].name == name
                             && IsFirst(js.members, "value", payload)
                             && ReadsJson(js.members[payload].value, constructors[i].payload, env, project, x))
  }

  ghost predicate HasField(fields: seq<Field>, name: string) {
    exists j :: 0 <= j < |fields| && fields[j].damlLabel == name
  }

  /** A complete record: an array of its fields in order, or an object with its labels and no others. */
  ghost predicate ReadsJsonRecord(js: Js, fields: seq<Field>, owner: Option<Identity>, env: Env, project: Project,
      members: seq<Entry<Decoded>>)
    decreases js, 1, env, 0
  {
    && (js.Array? ==> |js.elems| == |fields|)
    && (js.Array? || js.JsMap? || js.Object?)
    && (js.Object? ==> forall k :: 0 <= k < |js.members| ==> HasField(fields, js.members[k].key))
    && exists output: seq<Entry<Decoded>> ::
         ReadsJsonFields(js, fields, owner, env, project, output) && members == PutAll([], output)
  }

  ghost predicate ReadsJsonFields(js: Js, fields: seq<Field>, owner: Option<Identity>, env: Env, project: Project,
      output: seq<Entry<Decoded>>)
    decreases js, 0, env, 1
  {
    && |output| == |fields|
    && forall j :: 0 <= j < |fields| ==>
         && IsProperty(project.files, owner, j, fields[j].propertyName, output[j].key)
         && ReadsJsonField(js, j, fields[j], env, project, output[j].value)
  }

  ghost predicate ReadsJsonField(js: Js, position: nat, field: Field, env: Env, project: Project, x: Decoded)
    decreases js, 0, env, 0
  {
    if js.Array? then position < |js.elems| && ReadsJson(js.elems[position], field.ty, env, project, x)
    else
      js.Object? && exists i :: IsFirst(js.members, field.damlLabel, i)
                                && ReadsJson(js.members[i].value, field.ty, env, project, x)
  }
}
