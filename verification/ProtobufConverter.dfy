/** Decoding of protobuf ledger values against descriptors. */
module ProtobufConverter {
  import opened Wrappers
  import opened JsValues
  import opened DamlTypes
  import opened DescriptorCompiler
  import opened LedgerValues
  import opened ValueConverter
  import DamlNumerics

  /** A labelled or positional field, a text map entry: the value may be absent on the wire. */
  datatype PEntry = PEntry(key: string, value: Option<PValue>)

  datatype PPair = PPair(key: Option<PValue>, value: Option<PValue>)

  /** The oneof of a ledger value; `PAbsent` is an unset oneof. 64-bit integers travel as text. */
  datatype PValue =
    | PAbsent
    | PUnit
    | PBool(b: bool)
    | PInt64(text: string)
    | PDate(days: int)
    | PTimestamp(text: string)
    | PNumeric(text: string)
    | PParty(text: string)
    | PText(text: string)
    | PContractId(text: string)
    | POptional(value: Option<PValue>)
    | PList(elems: seq<PValue>)
    | PTextMap(entries: seq<PEntry>)
    | PGenMap(pairs: seq<PPair>)
    | PRecord(fields: seq<PEntry>)
    | PVariant(name: string, payload: Option<PValue>)
    | PEnum(name: string)

  function DecodeProto(v: PValue, d: Descriptor, project: Project): Result<Decoded>
    decreases v, Rank(d), 1, 0
  {
    if d.DRef? then
      var resolved :- Resolve(project, d.identity, d.arguments);
      DecodeProto(v, resolved, project)
    else
      match v
      case PAbsent => Err
      case PUnit => if IsPrimitive(d, Unit) then Ok(UnitValue) else Err
      case PBool(b) => if IsPrimitive(d, Bool) then Ok(BoolValue(b)) else Err
      case PInt64(text) =>
        if !IsPrimitive(d, Int64) then Err else
        var i :- DecodeInt64(text);
        Ok(Int64Value(i))
      case PDate(days) =>
        if !IsPrimitive(d, Date) then Err else
        var decoded :- DecodeDate(Number(days as real));
        Ok(DateValue(decoded))
      case PTimestamp(text) =>
        if !IsPrimitive(d, Timestamp) then Err else
        var microseconds :- DecodeTimestamp(text);
        Ok(TimestampValue(microseconds))
      case PNumeric(text) =>
        if !IsPrimitive(d, Numeric) then Err else
        var numeric :- DamlNumerics.DecodeNumeric(text, d.numericScale);
        Ok(NumericValue(numeric))
      case PParty(text) =>
        if !IsPrimitive(d, Party) then Err else
        var party :- DecodeParty(text);
        Ok(PartyValue(party))
      case PText(text) => if IsPrimitive(d, Primitive.Text) then Ok(TextValue(text)) else Err
      case PContractId(text) => if d.DContractId? then Ok(TextValue(text)) else Err
      case POptional(value) =>
        if !d.DOptional? then Err
        else if value.None? then Ok(Absent)
        else DecodeProto(value.value, d.element, project)
      case PList(elems) =>
        if !d.DList? then Err else
        var decoded :- DecodeProtoAll(elems, d.element, project);
        Ok(ListValue(decoded))
      case PTextMap(entries) =>
        if !d.DTextMap? then Err else
        var decoded :- DecodeProtoEntries(entries, d.value, project);
        Ok(TextMapValue(decoded))
      case PGenMap(pairs) =>
        if !d.DGenMap? then Err else
        var decoded :- DecodeProtoPairs(pairs, d.key, d.value, project);
        Ok(GenMapValue(decoded))
      case PRecord(fields) =>
        if !d.DRecord? then Err else
        var output :- DecodeProtoRecord(fields, d.fields, project);
        Ok(RecordValue(PutAll([], output)))
      case PVariant(name, payload) =>
        if !d.DVariant? then Err else
        var c := FindConstructor(d.constructors, name);
        if c == -1 || payload.None? then Err else
        var decoded :- DecodeProto(payload.value, d.constructors[c].payload, project);
        Ok(VariantValue(name, decoded))
      case PEnum(name) => if d.DEnum? && name in d.names then Ok(EnumValue(name)) else Err
  }

  predicate IsPrimitive(d: Descriptor, primitive: Primitive) {
    d.DPrim? && d.primitive == primitive
  }

  function DecodeRequired(value: Option<PValue>, d: Descriptor, project: Project): Result<Decoded>
    decreases value, Rank(d), 2, 0
  {
    if value.None? then Err else DecodeProto(value.value, d, project)
  }

  function DecodeProtoAll(elems: seq<PValue>, d: Descriptor, project: Project): Result<seq<Decoded>>
    decreases elems, 0, 0, 0
  {
    if elems == [] then Ok([])
    else
      var first :- DecodeProto(elems[0], d, project);
      var rest :- DecodeProtoAll(elems[1..], d, project);
      Ok([first] + rest)
  }

  function DecodeProtoEntries(entries: seq<PEntry>, d: Descriptor, project: Project): Result<seq<Entry<Decoded>>>
    decreases entries, 0, 0, 0
  {
    if entries == [] then Ok([])
    else
      var first :- DecodeEntry(entries[0], d, project);
      var rest :- DecodeProtoEntries(entries[1..], d, project);
      Ok([Entry(entries[0].key, first)] + rest)
  }

  function DecodeEntry(entry: PEntry, d: Descriptor, project: Project): Result<Decoded>
    decreases entry, Rank(d), 3, 0
  {
    DecodeRequired(entry.value, d, project)
  }

  function DecodeProtoPairs(pairs: seq<PPair>, key: Descriptor, d: Descriptor,
      project: Project): Result<seq<Pair<Decoded>>>
    decreases pairs, 0, 0, 0
  {
    if pairs == [] then Ok([])
    else
      var first :- DecodePair(pairs[0], key, d, project);
      var rest :- DecodeProtoPairs(pairs[1..], key, d, project);
      Ok([first] + rest)
  }

  function DecodePair(pair: PPair, key: Descriptor, d: Descriptor, project: Project): Result<Pair<Decoded>>
    decreases pair, 0, 4, 0
  {
    var k :- DecodeRequired(pair.key, key, project);
    var v :- DecodeRequired(pair.value, d, project);
    Ok(Pair(k, v))
  }

  predicate Labelled(fields: seq<PEntry>) {
    forall i :: 0 <= i < |fields| ==> fields[i].key != ""
  }

  predicate Unlabelled(fields: seq<PEntry>) {
    forall i :: 0 <= i < |fields| ==> fields[i].key == ""
  }

  function Labels(fields: seq<PEntry>): set<string> {
    set i | 0 <= i < |fields| :: fields[i].key
  }

  /** Index of the first field with this label, or -1. */
  function FindLabel(fields: seq<PEntry>, name: string): (i: int)
    ensures -1 <= i < |fields|
    ensures i == -1 <==> forall j :: 0 <= j < |fields| ==> fields[j].key != name
    ensures i >= 0 ==> fields[i].key == name && forall j :: 0 <= j < i ==> fields[j].key != name
  {
    var entries := seq(|fields|, j requires 0 <= j < |fields| => Entry(fields[j].key, fields[j].value));
    assert forall j :: 0 <= j < |fields| ==> entries[j].key == fields[j].key;
    Find(entries, name)
  }

  /** The entries assigned to the output object, in descriptor order. */
  function DecodeProtoRecord(fields: seq<PEntry>, ds: seq<FieldDescriptor>,
      project: Project): Result<seq<Entry<Decoded>>>
    decreases fields, 0, 1, 0
  {
    if Labelled(fields) then
      if |Labels(fields)| != |fields| then Err else
      var output :- DecodeByLabel(fields, ds, project);
      if |fields| != |ds| then Err else Ok(output)
    else if !Unlabelled(fields) then Err
    else if |fields| != |ds| then Err
    else DecodeByPosition(fields, ds, project)
  }

  function DecodeByLabel(fields: seq<PEntry>, ds: seq<FieldDescriptor>, project: Project): Result<seq<Entry<Decoded>>>
    decreases fields, 0, 0, |ds|
  {
    if ds == [] then Ok([])
    else
      var i := FindLabel(fields, ds[0].damlLabel);
      if i == -1 then Err else
      var first :- DecodeEntry(fields[i], ds[0].ty, project);
      var rest :- DecodeByLabel(fields, ds[1..], project);
      Ok([Entry(ds[0].propertyName, first)] + rest)
  }

  function DecodeByPosition(fields: seq<PEntry>, ds: seq<FieldDescriptor>,
      project: Project): Result<seq<Entry<Decoded>>>
    requires |fields| == |ds|
    decreases fields, 0, 0, 0
  {
    if fields == [] then Ok([])
    else
      var first :- DecodeEntry(fields[0], ds[0].ty, project);
      var rest :- DecodeByPosition(fields[1..], ds[1..], project);
      Ok([Entry(ds[0].propertyName, first)] + rest)
  }
}
