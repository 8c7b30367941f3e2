/** Payloads of created events: JSON shaped like a protobuf record is read as one. */
module EventSources {
  import opened Wrappers
  import opened JsValues
  import opened DamlTypes
  import opened DescriptorCompiler
  import opened LedgerValues
  import opened ValueConverter
  import opened ProtobufConverter

  /** How the protobuf runtime reads the JSON text of a 64-bit integer; None when it throws. */
  type Parse64 = string -> Option<string>

  predicate HasOnlyKeys(members: seq<Entry<Js>>, keys: set<string>) {
    forall i :: 0 <= i < |members| ==> members[i].key in keys
  }

  predicate IsTextAt(members: seq<Entry<Js>>, key: string) {
    var i := Find(members, key);
    i >= 0 && members[i].value.Text?
  }

  predicate AbsentOrText(members: seq<Entry<Js>>, key: string) {
    Find(members, key) == -1 || IsTextAt(members, key)
  }

  predicate IsIdentifierJson(js: Js) {
    var members := OwnMembers(js);
    && members.Some?
    && HasOnlyKeys(members.value, {"packageId", "moduleName", "entityName"})
    && IsTextAt(members.value, "packageId") && IsTextAt(members.value, "moduleName")
    && IsTextAt(members.value, "entityName")
  }

  predicate AbsentOrIdentifier(members: seq<Entry<Js>>, key: string) {
    var i := Find(members, key);
    i == -1 || IsIdentifierJson(members[i].value)
  }

  predicate IsSafeInteger(n: real) {
    n.Floor as real == n && -0x1f_ffff_ffff_ffff <= n.Floor <= 0x1f_ffff_ffff_ffff
  }

  const STRING_KINDS := {"int64", "timestamp", "numeric", "party", "text", "contractId"}

  /** A protobuf value in its JSON mapping: an object with one key, the kind of the value. */
  predicate IsValueJson(js: Js)
    decreases js
  {
    js.Object? && |js.members| == 1 &&
    var kind, value := js.members[0].key, js.members[0].value;
    if kind == "unit" then OwnMembers(value) == Some([])
    else if kind == "bool" then value.Boolean?
    else if kind in STRING_KINDS then value.Text?
    else if kind == "date" then value.Number? && IsSafeInteger(value.n)
    else if kind == "optional" then
      IsObject(value) && (value.Object? ==>
        HasOnlyKeys(value.members, {"value"}) && AbsentOrValue(value.members, "value"))
    else if kind == "list" then
      IsObject(value) && (value.Object? ==>
        HasOnlyKeys(value.members, {"elements"}) && AbsentOrValues(value.members))
    else if kind == "textMap" then
      IsObject(value) && (value.Object? ==>
        HasOnlyKeys(value.members, {"entries"}) && AbsentOrEntries(value.members, true))
    else if kind == "genMap" then
      IsObject(value) && (value.Object? ==>
        HasOnlyKeys(value.members, {"entries"}) && AbsentOrEntries(value.members, false))
    else if kind == "record" then
      IsObject(value) && (value.Object? ==>
        && HasOnlyKeys(value.members, {"recordId", "fields"}) && AbsentOrIdentifier(value.members, "recordId")
        && AbsentOrFields(value.members))
    else if kind == "variant" then
      value.Object? && HasOnlyKeys(value.members, {"variantId", "constructor", "value"})
      && AbsentOrIdentifier(value.members, "variantId") && IsTextAt(value.members, "constructor")
      && HasValue(value.members, "value")
    else if kind == "enum" then
      value.Object? && HasOnlyKeys(value.members, {"enumId", "constructor"})
      && AbsentOrIdentifier(value.members, "enumId") && IsTextAt(value.members, "constructor")
    else false
  }

  predicate IsObject(js: Js) {
    OwnMembers(js).Some?
  }

  predicate HasValue(members: seq<Entry<Js>>, key: string)
    decreases members
  {
    var i := Find(members, key);
    i >= 0 && IsValueJson(members[i].value)
  }

  predicate AbsentOrValue(members: seq<Entry<Js>>, key: string)
    decreases members
  {
    var i := Find(members, key);
    i == -1 || IsValueJson(members[i].value)
  }

  predicate AbsentOrValues(members: seq<Entry<Js>>)
    decreases members
  {
    var i := Find(members, "elements");
    i == -1 || (members[i].value.Array? && AreValues(members[i].value.elems))
  }

  predicate AreValues(elems: seq<Js>)
    decreases elems
  {
    forall i :: 0 <= i < |elems| ==> IsValueJson(elems[i])
  }

  predicate AbsentOrFields(members: seq<Entry<Js>>)
    decreases members
  {
    var i := Find(members, "fields");
    i == -1 || (members[i].value.Array? && AreFields(members[i].value.elems))
  }

  predicate AreFields(elems: seq<Js>)
    decreases elems
  {
    forall i :: 0 <= i < |elems| ==> IsRecordFieldJson(elems[i])
  }

  predicate IsRecordFieldJson(js: Js)
    decreases js
  {
    js.Object? && HasOnlyKeys(js.members, {"label", "value"})
    && AbsentOrText(js.members, "label") && HasValue(js.members, "value")
  }

  predicate AbsentOrEntries(members: seq<Entry<Js>>, textKeys: bool)
    decreases members
  {
    var i := Find(members, "entries");
    i == -1 || (members[i].value.Array? && AreEntries(members[i].value.elems, textKeys))
  }

  predicate AreEntries(elems: seq<Js>, textKeys: bool)
    decreases elems
  {
    forall i :: 0 <= i < |elems| ==> IsEntryJson(elems[i], textKeys)
  }

  predicate IsEntryJson(js: Js, textKeys: bool)
    decreases js
  {
    js.Object? && HasOnlyKeys(js.members, {"key", "value"})
    && (if textKeys then IsTextAt(js.members, "key") else HasValue(js.members, "key"))
    && HasValue(js.members, "value")
  }

  /** The shape by which a created payload is taken for a protobuf record. */
  predicate IsRecordWireJson(js: Js) {
    js.Object? && HasOnlyKeys(js.members, {"recordId", "fields"})
    && Find(js.members, "fields") >= 0 && AbsentOrFields(js.members)
    && AbsentOrIdentifier(js.members, "recordId")
  }

  // Reading the recognised JSON as the protobuf value it maps to.

  function TextAt(members: seq<Entry<Js>>, key: string): string {
    if IsTextAt(members, key) then members[Find(members, key)].value.s else ""
  }

  function Parsed(text: string, parse: Parse64): Result<string> {
    if parse(text).Some? then Ok(parse(text).value) else Err
  }

  function WireValue(js: Js, parse: Parse64): Result<PValue>
    decreases js
  {
    if !js.Object? || |js.members| != 1 then Err else
    var kind, value := js.members[0].key, js.members[0].value;
    if kind == "unit" then Ok(PUnit)
    else if kind == "bool" && value.Boolean? then Ok(PBool(value.b))
    else if kind in STRING_KINDS && value.Text? then WireText(kind, value.s, parse)
    else if kind == "date" && value.Number? then
      if -0x8000_0000 <= value.n.Floor < 0x8000_0000 then Ok(PDate(value.n.Floor)) else Err
    else if value.JsMap? then
      if kind == "optional" then Ok(POptional(None))
      else if kind == "list" then Ok(PList([]))
      else if kind == "textMap" then Ok(PTextMap([]))
      else if kind == "genMap" then Ok(PGenMap([]))
      else if kind == "record" then Ok(PRecord([]))
      else Err
    else if !value.Object? then Err
    else if kind == "optional" then
      var content :- WireAt(value.members, "value", parse);
      Ok(POptional(content))
    else if kind == "list" then
      var i := Find(value.members, "elements");
      if i == -1 then Ok(PList([])) else
      if !value.members[i].value.Array? then Err else
      var elems :- WireAll(value.members[i].value.elems, parse);
      Ok(PList(elems))
    else if kind == "textMap" then
      var i := Find(value.members, "entries");
      if i == -1 then Ok(PTextMap([])) else
      if !value.members[i].value.Array? then Err else
      var entries :- WireEntries(value.members[i].value.elems, "key", parse);
      Ok(PTextMap(entries))
    else if kind == "genMap" then
      var i := Find(value.members, "entries");
      if i == -1 then Ok(PGenMap([])) else
      if !value.members[i].value.Array? then Err else
      var pairs :- WirePairs(value.members[i].value.elems, parse);
      Ok(PGenMap(pairs))
    else if kind == "record" then
      var fields :- WireFieldsOf(value.members, parse);
      Ok(PRecord(fields))
    else if kind == "variant" then
      var payload :- WireAt(value.members, "value", parse);
      Ok(PVariant(TextAt(value.members, "constructor"), payload))
    else if kind == "enum" then Ok(PEnum(TextAt(value.members, "constructor")))
    else Err
  }

  function WireText(kind: string, text: string, parse: Parse64): (r: Result<PValue>)
    ensures r.Ok? ==> !r.value.PList?
  {
    if kind == "int64" then
      var parsed :- Parsed(text, parse);
      Ok(PInt64(parsed))
    else if kind == "timestamp" then
      var parsed :- Parsed(text, parse);
      Ok(PTimestamp(parsed))
    else if kind == "numeric" then Ok(PNumeric(text))
    else if kind == "party" then Ok(PParty(text))
    else if kind == "text" then Ok(PText(text))
    else Ok(PContractId(text))
  }

  function WireAt(members: seq<Entry<Js>>, key: string, parse: Parse64): Result<Option<PValue>>
    decreases members
  {
    var i := Find(members, key);
    if i == -1 then Ok(None)
    else
      var value :- WireValue(members[i].value, parse);
      Ok(Some(value))
  }

  function WireAll(elems: seq<Js>, parse: Parse64): (r: Result<seq<PValue>>)
    ensures r.Ok? ==> |r.value| == |elems|
    decreases elems
  {
    if elems == [] then Ok([])
    else
      var first :- WireValue(elems[0], parse);
      var rest :- WireAll(elems[1..], parse);
      Ok([first] + rest)
  }

  /** Record fields or text map entries: a text under `nameKey`, empty when absent, and a value. */
  function WireEntries(elems: seq<Js>, nameKey: string, parse: Parse64): (r: Result<seq<PEntry>>)
    ensures r.Ok? ==> |r.value| == |elems|
    decreases elems
  {
    if elems == [] then Ok([])
    else
      var first :- WireEntry(elems[0], nameKey, parse);
      var rest :- WireEntries(elems[1..], nameKey, parse);
      Ok([first] + rest)
  }

  function WireEntry(js: Js, nameKey: string, parse: Parse64): Result<PEntry>
    decreases js
  {
    if !js.Object? then Err
    else
      var value :- WireAt(js.members, "value", parse);
      Ok(PEntry(TextAt(js.members, nameKey), value))
  }

  function WirePairs(elems: seq<Js>, parse: Parse64): Result<seq<PPair>>
    decreases elems
  {
    if elems == [] then Ok([])
    else
      var first :- WirePair(elems[0], parse);
      var rest :- WirePairs(elems[1..], parse);
      Ok([first] + rest)
  }

  function WirePair(js: Js, parse: Parse64): Result<PPair>
    decreases js
  {
    if !js.Object? then Err
    else
      var key :- WireAt(js.members, "key", parse);
      var value :- WireAt(js.members, "value", parse);
      Ok(PPair(key, value))
  }

  function WireFieldsOf(members: seq<Entry<Js>>, parse: Parse64): Result<seq<PEntry>>
    decreases members
  {
    var i := Find(members, "fields");
    if i == -1 then Ok([])
    else if !members[i].value.Array? then Err
    else WireEntries(members[i].value.elems, "label", parse)
  }

  /** Create arguments of a JSON event: wire-shaped ones go to the protobuf decoder, others to the JSON decoder. */
  function DecodeCreated(payload: Js, d: Descriptor, project: Project, parse: Parse64): Result<Decoded> {
    if IsRecordWireJson(payload) then
      var fields :- WireFieldsOf(payload.members, parse);
      DecodeProto(PRecord(fields), d, project)
    else DecodeJson(payload, d, project)
  }
}
