/** Decoded DAML values and the primitive decoders with their ledger ranges. */
module LedgerValues {
  import opened Wrappers
  import opened Decimals
  import opened JsValues
  import opened DamlTypes
  import DamlNumerics

  const MIN_DATE := -719162
  const MAX_DATE := 2932896
  const MIN_TIMESTAMP := -62135596800000000
  const MAX_TIMESTAMP := 253402300799999999
  const MIN_INT64 := -0x8000_0000_0000_0000
  const MAX_INT64 := 0x7fff_ffff_ffff_ffff

  datatype Decoded =
    | UnitValue
    | BoolValue(b: bool)
    | Int64Value(i: int)
    | DateValue(days: int)
    | TimestampValue(microseconds: string)
    | NumericValue(text: string)
    | PartyValue(party: string)
    | TextValue(s: string)
    | Absent
    | ListValue(elems: seq<Decoded>)
    | TextMapValue(entries: seq<Entry<Decoded>>)
    | GenMapValue(pairs: seq<Pair<Decoded>>)
    | RecordValue(fields: seq<Entry<Decoded>>)
    | VariantValue(constructor_: string, value: Decoded)
    | EnumValue(name: string)

  function DecodeInt64(text: string): Result<int> {
    if !IsIntegerText(text) then Err
    else if MIN_INT64 <= IntegerValue(text) <= MAX_INT64 then Ok(IntegerValue(text))
    else Err
  }

  function DecodeDate(value: Js): Result<int> {
    if !value.Number? || value.n.Floor as real != value.n then Err
    else if MIN_DATE <= value.n.Floor <= MAX_DATE then Ok(value.n.Floor)
    else Err
  }

  function DecodeTimestamp(text: string): Result<string> {
    if !IsIntegerText(text) then Err
    else if MIN_TIMESTAMP <= IntegerValue(text) <= MAX_TIMESTAMP then Ok(text)
    else Err
  }

  function DecodeParty(text: string): Result<string> {
    if text == "" then Err else Ok(text)
  }

  function DecodeJsonPrimitive(value: Js, primitive: Primitive, numericScale: Option<int>): Result<Decoded> {
    match primitive
    case Unit => if OwnMembers(value) == Some([]) then Ok(UnitValue) else Err
    case Bool => if value.Boolean? then Ok(BoolValue(value.b)) else Err
    case Int64 =>
      var text :- RequireString(value);
      var i :- DecodeInt64(text);
      Ok(Int64Value(i))
    case Date =>
      var days :- DecodeDate(value);
      Ok(DateValue(days))
    case Timestamp =>
      var text :- RequireString(value);
      var microseconds :- DecodeTimestamp(text);
      Ok(TimestampValue(microseconds))
    case Numeric =>
      var text :- RequireString(value);
      var numeric :- DamlNumerics.DecodeNumeric(text, numericScale);
      Ok(NumericValue(numeric))
    case Party =>
      var text :- RequireString(value);
      var party :- DecodeParty(text);
      Ok(PartyValue(party))
    case Text =>
      var text :- RequireString(value);
      Ok(TextValue(text))
  }

  function RequireString(value: Js): Result<string> {
    if value.Text? then Ok(value.s) else Err
  }

  /** Own enumerable properties of a value of type "object" that is neither null nor an array. */
  function OwnMembers(value: Js): Option<seq<Entry<Js>>> {
    match value
    case Object(_, members) => Some(members)
    case JsMap(_) => Some([])
    case _ => None
  }
}
