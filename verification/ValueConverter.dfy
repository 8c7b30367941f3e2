/** Decoding of JSON ledger values against descriptors. */
module ValueConverter {
  import opened Wrappers
  import opened JsValues
  import opened DamlTypes
  import opened DescriptorCompiler
  import opened LedgerValues

  /** Layers a descriptor can add around a value without consuming any of it. */
  function Rank(d: Descriptor): nat {
    match d
    case DOptional(element) => 1 + Rank(element)
    case DRef(_, _) => 1
    case _ => 0
  }

  /** Termination: the value shrinks, or it stays and an Optional or named layer goes. */
  function DecodeJson(value: Js, d: Descriptor, project: Project): Result<Decoded>
    decreases value, Rank(d), 1, 0
  {
    match d
    case DRef(identity, arguments) =>
      var resolved :- Resolve(project, identity, arguments);
      DecodeJson(value, resolved, project)
    case DPrim(primitive, scale) => DecodeJsonPrimitive(value, primitive, scale)
    case DContractId =>
      var text :- RequireString(value);
      Ok(TextValue(text))
    case DOptional(element) =>
      if value.Null? then Ok(Absent) else DecodeJson(value, element, project)
    case DList(element) =>
      if !value.Array? then Err else
      var elems :- DecodeJsonAll(value.elems, element, project);
      Ok(ListValue(elems))
    case DTextMap(element) =>
      if OwnMembers(value).None? then Err
      else if value.JsMap? then Ok(TextMapValue([]))
      else
        var entries :- DecodeJsonEntries(value.members, element, project);
        Ok(TextMapValue(entries))
    case DGenMap(key, element) =>
      if !value.Array? then Err else
      var pairs :- DecodeJsonPairs(value.elems, key, element, project);
      Ok(GenMapValue(pairs))
    case DRecord(fields) =>
      if value.Array? then
        if |value.elems| != |fields| then Err else
        var output :- DecodePositional(value.elems, fields, project);
        Ok(RecordValue(PutAll([], output)))
      else if OwnMembers(value).None? then Err
      else if !OnlyExpected(OwnMembers(value).value, fields) then Err
      else
        var output :- DecodeLabelled(value, fields, project);
        Ok(RecordValue(PutAll([], output)))
    case DVariant(constructors) =>
      if !value.Object? then Err else
      var tag := Find(value.members, "tag");
      if tag == -1 || !value.members[tag].value.Text? then Err else
      var name := value.members[tag].value.s;
      var c := FindConstructor(constructors, name);
      var payload := Find(value.members, "value");
      if c == -1 || payload == -1 then Err else
      var decoded :- DecodeJson(value.members[payload].value, constructors[c].payload, project);
      Ok(VariantValue(name, decoded))
    case DEnum(names) =>
      var name :- RequireString(value);
      if name in names then Ok(EnumValue(name)) else Err
  }

  function DecodeJsonAll(elems: seq<Js>, d: Descriptor, project: Project): Result<seq<Decoded>>
    decreases elems, 0, 0, 0
  {
    if elems == [] then Ok([])
    else
      var first :- DecodeJson(elems[0], d, project);
      var rest :- DecodeJsonAll(elems[1..], d, project);
      Ok([first] + rest)
  }

  function DecodeJsonEntries(entries: seq<Entry<Js>>, d: Descriptor, project: Project): Result<seq<Entry<Decoded>>>
    decreases entries, 0, 0, 0
  {
    if entries == [] then Ok([])
    else
      var first :- DecodeJson(entries[0].value, d, project);
      var rest :- DecodeJsonEntries(entries[1..], d, project);
      Ok([Entry(entries[0].key, first)] + rest)
  }

  function DecodeJsonPairs(elems: seq<Js>, key: Descriptor, element: Descriptor,
      project: Project): Result<seq<Pair<Decoded>>>
    decreases elems, 0, 0, 0
  {
    if elems == [] then Ok([])
    else if !elems[0].Array? || |elems[0].elems| != 2 then Err
    else
      var k :- DecodeJson(elems[0].elems[0], key, project);
      var v :- DecodeJson(elems[0].elems[1], element, project);
      var rest :- DecodeJsonPairs(elems[1..], key, element, project);
      Ok([Pair(k, v)] + rest)
  }

  function DecodePositional(elems: seq<Js>, fields: seq<FieldDescriptor>, project: Project): Result<seq<Entry<Decoded>>>
    requires |elems| == |fields|
    decreases elems, 0, 0, 0
  {
    if elems == [] then Ok([])
    else
      var first :- DecodeJson(elems[0], fields[0].ty, project);
      var rest :- DecodePositional(elems[1..], fields[1..], project);
      Ok([Entry(fields[0].propertyName, first)] + rest)
  }

  function DecodeLabelled(value: Js, fields: seq<FieldDescriptor>, project: Project): Result<seq<Entry<Decoded>>>
    requires value.Object? || value.JsMap?
    decreases value, 0, 0, |fields|
  {
    if fields == [] then Ok([])
    else if !value.Object? then Err
    else
      var i := Find(value.members, fields[0].damlLabel);
      if i == -1 then Err else
      var first :- DecodeJson(value.members[i].value, fields[0].ty, project);
      var rest :- DecodeLabelled(value, fields[1..], project);
      Ok([Entry(fields[0].propertyName, first)] + rest)
  }

  predicate HasLabel(fields: seq<FieldDescriptor>, name: string) {
    exists i :: 0 <= i < |fields| && fields[i].damlLabel == name
  }

  predicate OnlyExpected(members: seq<Entry<Js>>, fields: seq<FieldDescriptor>) {
    forall j :: 0 <= j < |members| ==> HasLabel(fields, members[j].key)
  }

  /** Index of the first constructor with this name, or -1. */
  function FindConstructor(constructors: seq<ConstructorDescriptor>, name: string): (i: int)
    ensures -1 <= i < |constructors|
    ensures i == -1 <==> forall j :: 0 <= j < |constructors| ==> constructors[j].name != name
    ensures i >= 0 ==> constructors[i].name == name && forall j :: 0 <= j < i ==> constructors[j].name != name
  {
    var entries := seq(|constructors|, j requires 0 <= j < |constructors| =>
      Entry(constructors[j].name, constructors[j].payload));
    assert forall j :: 0 <= j < |constructors| ==> entries[j].key == constructors[j].name;
    Find(entries, name)
  }
}
