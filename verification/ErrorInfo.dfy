/** The google.rpc.ErrorInfo message as a fold over the fields of the Protocol Buffers wire format. */
module ErrorInfo {
  import opened Wrappers
  import opened Varints

  datatype Info = Info(reason: string, domain: string, metadata: map<string, string>)

  datatype MetadataEntry = MetadataEntry(key: string, value: string)

  /** One field as the reader sees it: number, wire type and the bytes behind the tag. */
  datatype Token = Token(field: nat, wireType: nat, payload: seq<Byte>)

  type Utf8 = seq<Byte> -> Option<string>

  function Taken(s: seq<Byte>, count: nat): (r: Result<Read<seq<Byte>>>)
    ensures r.Ok? ==> |r.value.rest| <= |s|
  {
    if count > |s| then Err else Ok(Read(s[..count], s[count..]))
  }

  function RawBytes(s: seq<Byte>): (r: Result<Read<seq<Byte>>>)
    ensures r.Ok? ==> |r.value.rest| <= |s|
  {
    var length :- Varint(s);
    Taken(length.rest, length.value)
  }

  /** The bytes of a field by wire type; other wire types are an error. */
  function Payload(s: seq<Byte>, wireType: nat): (r: Result<Read<seq<Byte>>>)
    ensures r.Ok? ==> |r.value.rest| <= |s|
  {
    if wireType == 0 then
      var n :- Varint(s);
      Ok(Read([], n.rest))
    else if wireType == 1 then Taken(s, 8)
    else if wireType == 2 then RawBytes(s)
    else if wireType == 5 then Taken(s, 4)
    else Err
  }

  function TokenAt(s: seq<Byte>): (r: Result<Read<Token>>)
    ensures r.Ok? ==> |r.value.rest| < |s|
  {
    var tag :- Varint(s);
    var payload :- Payload(tag.rest, tag.value % 8);
    Ok(Read(Token(tag.value / 8, tag.value % 8, payload.value), payload.rest))
  }

  /** The reading loop: one token after the other until no byte is left. */
  function ReadFrom<S>(s: seq<Byte>, state: S, step: (S, Token) -> Result<S>): Result<S>
    decreases |s|
  {
    if s == [] then Ok(state)
    else
      var token :- TokenAt(s);
      var next :- step(state, token.value);
      ReadFrom(token.rest, next, step)
  }

  function Decoded(payload: seq<Byte>, utf8: Utf8): Result<string> {
    if utf8(payload).Some? then Ok(utf8(payload).value) else Err
  }

  function EntryStep(entry: MetadataEntry, t: Token, utf8: Utf8): Result<MetadataEntry> {
    if t.field == 1 && t.wireType == 2 then
      var text :- Decoded(t.payload, utf8);
      Ok(entry.(key := text))
    else if t.field == 2 && t.wireType == 2 then
      var text :- Decoded(t.payload, utf8);
      Ok(entry.(value := text))
    else Ok(entry)
  }

  function ReadEntryFrom(s: seq<Byte>, entry: MetadataEntry, utf8: Utf8): Result<MetadataEntry> {
    ReadFrom(s, entry, (e, t) => EntryStep(e, t, utf8))
  }

  function ReadEntry(s: seq<Byte>, utf8: Utf8): Result<MetadataEntry> {
    ReadEntryFrom(s, MetadataEntry("", ""), utf8)
  }

  function InfoStep(info: Info, t: Token, utf8: Utf8): Result<Info> {
    if t.field == 1 && t.wireType == 2 then
      var text :- Decoded(t.payload, utf8);
      Ok(info.(reason := text))
    else if t.field == 2 && t.wireType == 2 then
      var text :- Decoded(t.payload, utf8);
      Ok(info.(domain := text))
    else if t.field == 3 && t.wireType == 2 then
      var entry :- ReadEntry(t.payload, utf8);
      Ok(if entry.key != "" then info.(metadata := info.metadata[entry.key := entry.value]) else info)
    else Ok(info)
  }

  const EMPTY: Info := Info("", "", map[])

  function ReadInfo(s: seq<Byte>, info: Info, utf8: Utf8): Result<Info> {
    ReadFrom(s, info, (i, t) => InfoStep(i, t, utf8))
  }

  /** What the reader returns: nothing for malformed bytes or an empty reason. */
  function Parsed(s: seq<Byte>, utf8: Utf8): Option<Info> {
    match ReadInfo(s, EMPTY, utf8)
    case Ok(info) => if info.reason == "" then None else Some(info)
    case Err => None
  }

  // Well-formed fields.

  datatype Wire =
    | VarintWire(n: nat, width: nat)
    | Fixed64(bytes: seq<Byte>)
    | Delimited(length: nat, width: nat, bytes: seq<Byte>)
    | Fixed32(bytes: seq<Byte>)

  /** A written field: its tag in any varint width that fits, overlong ones included. */
  datatype Item = Item(tag: nat, tagWidth: nat, wire: Wire)

  predicate WireFits(wire: Wire, wireType: nat) {
    match wire
    case VarintWire(n, width) => wireType == 0 && Fits(n, width)
    case Fixed64(bytes) => wireType == 1 && |bytes| == 8
    case Delimited(length, width, bytes) => wireType == 2 && Fits(length, width) && ToDouble(length) == |bytes|
    case Fixed32(bytes) => wireType == 5 && |bytes| == 4
  }

  predicate WellFormed(item: Item) {
    Fits(item.tag, item.tagWidth) && WireFits(item.wire, ToDouble(item.tag) % 8)
  }

  function EncodeWire(wire: Wire): seq<Byte>
    requires wire.VarintWire? ==> Fits(wire.n, wire.width)
    requires wire.Delimited? ==> Fits(wire.length, wire.width)
  {
    match wire
    case VarintWire(n, width) => EncodeVarint(n, width)
    case Fixed64(bytes) => bytes
    case Delimited(length, width, bytes) => EncodeVarint(length, width) + bytes
    case Fixed32(bytes) => bytes
  }

  function Encode(item: Item): seq<Byte>
    requires WellFormed(item)
  {
    EncodeVarint(item.tag, item.tagWidth) + EncodeWire(item.wire)
  }

  function EncodeAll(items: seq<Item>): seq<Byte>
    requires forall item :: item in items ==> WellFormed(item)
  {
    if items == [] then [] else Encode(items[0]) + EncodeAll(items[1..])
  }

  function PayloadOf(wire: Wire): seq<Byte> {
    if wire.VarintWire? then [] else wire.bytes
  }

  function TokenOf(item: Item): Token {
    Token(ToDouble(item.tag) / 8, ToDouble(item.tag) % 8, PayloadOf(item.wire))
  }

  /** What a list of fields means: their steps from left to right. */
  function Fold<S>(items: seq<Item>, state: S, step: (S, Token) -> Result<S>): Result<S> {
    if items == [] then Ok(state)
    else
      var next :- step(state, TokenOf(items[0]));
      Fold(items[1..], next, step)
  }

  lemma TakenAppend(bytes: seq<Byte>, tail: seq<Byte>)
    ensures Taken(bytes + tail, |bytes|) == Ok(Read(bytes, tail))
  {
    assert (bytes + tail)[..|bytes|] == bytes && (bytes + tail)[|bytes|..] == tail;
  }

  lemma RawBytesOfEncoded(length: nat, width: nat, bytes: seq<Byte>, tail: seq<Byte>)
    requires Fits(length, width) && ToDouble(length) == |bytes|
    ensures RawBytes(EncodeVarint(length, width) + bytes + tail) == Ok(Read(bytes, tail))
  {
    VarintRoundTrip(length, width, bytes + tail);
    assert EncodeVarint(length, width) + bytes + tail == EncodeVarint(length, width) + (bytes + tail);
    TakenAppend(bytes, tail);
  }

  lemma PayloadOfEncoded(wire: Wire, wireType: nat, tail: seq<Byte>)
    requires WireFits(wire, wireType)
    ensures Payload(EncodeWire(wire) + tail, wireType) == Ok(Read(PayloadOf(wire), tail))
  {
    match wire
    case VarintWire(n, width) => VarintRoundTrip(n, width, tail);
    case Delimited(length, width, bytes) => RawBytesOfEncoded(length, width, bytes, tail);
    case Fixed64(bytes) => TakenAppend(bytes, tail);
    case Fixed32(bytes) => TakenAppend(bytes, tail);
  }

  lemma TokenOfEncoded(item: Item, tail: seq<Byte>)
    requires WellFormed(item)
    ensures TokenAt(Encode(item) + tail) == Ok(Read(TokenOf(item), tail))
  {
    var rest := EncodeWire(item.wire) + tail;
    assert Encode(item) + tail == EncodeVarint(item.tag, item.tagWidth) + rest;
    VarintRoundTrip(item.tag, item.tagWidth, rest);
    PayloadOfEncoded(item.wire, ToDouble(item.tag) % 8, tail);
  }

  lemma WireOfPayload(s: seq<Byte>, wireType: nat) returns (wire: Wire)
    requires Payload(s, wireType).Ok?
    ensures WireFits(wire, wireType)
    ensures Payload(s, wireType).value.value == PayloadOf(wire)
    ensures s == EncodeWire(wire) + Payload(s, wireType).value.rest
  {
    hide EncodeVarint, Varint, ToDouble, Fits;
    var payload := Payload(s, wireType).value;
    if wireType == 0 {
      var n, width := EncodedVarint(s);
      wire := VarintWire(n, width);
    } else if wireType == 1 {
      wire := Fixed64(payload.value);
    } else if wireType == 2 {
      var length, width := EncodedVarint(s);
      wire := Delimited(length, width, payload.value);
      var rest := Varint(s).value.rest;
      assert rest == payload.value + payload.rest;
      assert s == EncodeVarint(length, width) + payload.value + payload.rest;
    } else {
      wire := Fixed32(payload.value);
    }
  }

  lemma ItemOfToken(s: seq<Byte>) returns (item: Item)
    requires TokenAt(s).Ok?
    ensures WellFormed(item) && TokenOf(item) == TokenAt(s).value.value
    ensures s == Encode(item) + TokenAt(s).value.rest
  {
    hide EncodeVarint, EncodeWire, Varint, Payload, ToDouble, Fits;
    var tag, tagWidth := EncodedVarint(s);
    var rest := Varint(s).value.rest;
    var wire := WireOfPayload(rest, ToDouble(tag) % 8);
    item := Item(tag, tagWidth, wire);
    var tail := Payload(rest, ToDouble(tag) % 8).value.rest;
    assert s == EncodeVarint(tag, tagWidth) + (EncodeWire(wire) + tail);
    assert s == Encode(item) + tail;
  }

  /** Reading well-formed fields is the left fold over them. */
  lemma {:induction false} ReadOfEncoded<S>(items: seq<Item>, state: S, step: (S, Token) -> Result<S>)
    requires forall item :: item in items ==> WellFormed(item)
    ensures ReadFrom(EncodeAll(items), state, step) == Fold(items, state, step)
    decreases |items|
  {
    if items != [] {
      assert items[0] in items;
      TokenOfEncoded(items[0], EncodeAll(items[1..]));
      assert Encode(items[0]) != [];
      var next := step(state, TokenOf(items[0]));
      if next.Ok? {
        ReadOfEncoded(items[1..], next.value, step);
      }
    }
  }

  /** Whatever reads is a list of well-formed fields. */
  lemma {:induction false} ItemsOfRead<S>(s: seq<Byte>, state: S,
      step: (S, Token) -> Result<S>) returns (items: seq<Item>)
    requires ReadFrom(s, state, step).Ok?
    ensures forall item :: item in items ==> WellFormed(item)
    ensures EncodeAll(items) == s
    decreases |s|
  {
    if s == [] {
      items := [];
    } else {
      var token := TokenAt(s).value;
      var first := ItemOfToken(s);
      var rest := ItemsOfRead(token.rest, step(state, token.value).value, step);
      items := [first] + rest;
      assert items[1..] == rest;
    }
  }

  /** The reader accepts exactly the encodings of field lists whose fold succeeds. */
  lemma ReadsExactlyEncodings<S>(s: seq<Byte>, state: S, result: S, step: (S, Token) -> Result<S>)
    ensures ReadFrom(s, state, step) == Ok(result) <==>
            exists items: seq<Item> ::
              && (forall item :: item in items ==> WellFormed(item))
              && EncodeAll(items) == s
              && Fold(items, state, step) == Ok(result)
  {
    if ReadFrom(s, state, step) == Ok(result) {
      var items := ItemsOfRead(s, state, step);
      ReadOfEncoded(items, state, step);
    }
    if items: seq<Item> :|
      && (forall item :: item in items ==> WellFormed(item))
      && EncodeAll(items) == s
      && Fold(items, state, step) == Ok(result)
    {
      ReadOfEncoded(items, state, step);
    }
  }

  lemma {:induction false} FoldAppend<S>(a: seq<Item>, b: seq<Item>, state: S, step: (S, Token) -> Result<S>)
    ensures Fold(a + b, state, step) ==
            if Fold(a, state, step).Ok? then Fold(b, Fold(a, state, step).value, step) else Err
    decreases |a|
  {
    if a == [] {
      assert a + b == b;
    } else {
      assert (a + b)[0] == a[0] && (a + b)[1..] == a[1..] + b;
      var next := step(state, TokenOf(a[0]));
      if next.Ok? {
        FoldAppend(a[1..], b, next.value, step);
      }
    }
  }

  lemma EncodedAppend(item: Item, rest: seq<Byte>, tail: seq<Byte>)
    requires WellFormed(item)
    ensures TokenAt(Encode(item) + rest + tail) == Ok(Read(TokenOf(item), rest + tail))
  {
    TokenOfEncoded(item, rest + tail);
    assert Encode(item) + rest + tail == Encode(item) + (rest + tail);
  }

  lemma TokenAppend(s: seq<Byte>, tail: seq<Byte>)
    requires TokenAt(s).Ok?
    ensures TokenAt(s + tail) == Ok(Read(TokenAt(s).value.value, TokenAt(s).value.rest + tail))
  {
    var item := ItemOfToken(s);
    EncodedAppend(item, TokenAt(s).value.rest, tail);
  }

  /** Reading a then b is reading b from the state a leaves. */
  lemma {:induction false} ReadAppend<S>(a: seq<Byte>, b: seq<Byte>, state: S, step: (S, Token) -> Result<S>)
    requires ReadFrom(a, state, step).Ok?
    ensures ReadFrom(a + b, state, step) == ReadFrom(b, ReadFrom(a, state, step).value, step)
    decreases |a|
  {
    if a == [] {
      assert a + b == b;
    } else {
      var token := TokenAt(a).value;
      TokenAppend(a, b);
      ReadAppend(token.rest, b, step(state, token.value).value, step);
    }
  }

  /** A field the message does not know: any other number or wire type. */
  predicate Unknown(t: Token) {
    t.wireType != 2 || !(1 <= t.field <= 3)
  }

  lemma {:induction false} UnknownFieldsFold(items: seq<Item>, info: Info, utf8: Utf8)
    requires forall item :: item in items ==> Unknown(TokenOf(item))
    ensures Fold(items, info, (i, t) => InfoStep(i, t, utf8)) == Ok(info)
    decreases |items|
  {
    if items != [] {
      assert items[0] in items;
      UnknownFieldsFold(items[1..], info, utf8);
    }
  }

  lemma InfoAppend(a: seq<Byte>, b: seq<Byte>, info: Info, utf8: Utf8)
    requires ReadInfo(a, info, utf8).Ok?
    ensures ReadInfo(a + b, info, utf8) == ReadInfo(b, ReadInfo(a, info, utf8).value, utf8)
  {
    ReadAppend(a, b, info, (i, t) => InfoStep(i, t, utf8));
  }

  lemma UnknownFieldsRead(unknown: seq<Item>, info: Info, utf8: Utf8)
    requires forall item :: item in unknown ==> WellFormed(item) && Unknown(TokenOf(item))
    ensures ReadInfo(EncodeAll(unknown), info, utf8) == Ok(info)
  {
    ReadOfEncoded(unknown, info, (i, t) => InfoStep(i, t, utf8));
    UnknownFieldsFold(unknown, info, utf8);
  }

  /** Unknown fields change nothing, wherever they stand. */
  lemma UnknownFieldsChangeNothing(a: seq<Byte>, unknown: seq<Item>, b: seq<Byte>, utf8: Utf8)
    requires ReadInfo(a, EMPTY, utf8).Ok?
    requires forall item :: item in unknown ==> WellFormed(item) && Unknown(TokenOf(item))
    ensures Parsed(a + EncodeAll(unknown) + b, utf8) == Parsed(a + b, utf8)
  {
    var u := EncodeAll(unknown);
    var info := ReadInfo(a, EMPTY, utf8).value;
    UnknownFieldsRead(unknown, info, utf8);
    InfoAppend(a, u, EMPTY, utf8);
    InfoAppend(a + u, b, EMPTY, utf8);
    InfoAppend(a, b, EMPTY, utf8);
  }

  lemma OneField(item: Item, info: Info, utf8: Utf8)
    requires WellFormed(item)
    ensures ReadInfo(Encode(item), info, utf8) == InfoStep(info, TokenOf(item), utf8)
  {
    ReadOfEncoded([item], info, (i, t) => InfoStep(i, t, utf8));
    assert [item][1..] == [] && Encode(item) + [] == Encode(item);
  }

  /** The last occurrence of a field wins, whatever was read before. */
  lemma LastOneWins(a: seq<Byte>, last: Item, utf8: Utf8)
    requires ReadInfo(a, EMPTY, utf8).Ok? && WellFormed(last)
    requires TokenOf(last).wireType == 2 && TokenOf(last).field in {1, 2} && utf8(last.wire.bytes).Some?
    ensures var before := ReadInfo(a, EMPTY, utf8).value;
            var text := utf8(last.wire.bytes).value;
            ReadInfo(a + Encode(last), EMPTY, utf8)
            == Ok(if TokenOf(last).field == 1 then before.(reason := text) else before.(domain := text))
  {
    InfoAppend(a, Encode(last), EMPTY, utf8);
    OneField(last, ReadInfo(a, EMPTY, utf8).value, utf8);
  }

  // What a list of fields says.

  predicate IsText(item: Item, field: nat) {
    TokenOf(item).field == field && TokenOf(item).wireType == 2
  }

  /** Texts are UTF-8, and what stands for metadata is readable. */
  predicate Readable(items: seq<Item>, utf8: Utf8) {
    forall item <- items ::
      && (IsText(item, 1) || IsText(item, 2) ==> utf8(PayloadOf(item.wire)).Some?)
      && (IsText(item, 3) ==> ReadEntry(PayloadOf(item.wire), utf8).Ok?)
  }

  /** The last text written for a field; empty when there is none. */
  function LastText(items: seq<Item>, field: nat, utf8: Utf8): string {
    if items == [] then ""
    else
      var init, last := items[..|items| - 1], items[|items| - 1];
      if !IsText(last, field) then LastText(init, field, utf8)
      else if utf8(PayloadOf(last.wire)).Some? then utf8(PayloadOf(last.wire)).value
      else ""
  }

  /** The entries with a key, later ones replacing earlier ones. */
  function Metadata(items: seq<Item>, utf8: Utf8): map<string, string> {
    if items == [] then map[]
    else
      var init, last := items[..|items| - 1], items[|items| - 1];
      var entry := ReadEntry(PayloadOf(last.wire), utf8);
      if !IsText(last, 3) || entry.Err? || entry.value.key == "" then Metadata(init, utf8)
      else Metadata(init, utf8)[entry.value.key := entry.value.value]
  }

  function Said(items: seq<Item>, utf8: Utf8): Info {
    Info(LastText(items, 1, utf8), LastText(items, 2, utf8), Metadata(items, utf8))
  }

  lemma {:induction false} FoldSays(items: seq<Item>, utf8: Utf8)
    ensures var folded := Fold(items, EMPTY, (i, t) => InfoStep(i, t, utf8));
            if Readable(items, utf8) then folded == Ok(Said(items, utf8)) else folded.Err?
    decreases |items|
  {
    if items != [] {
      var init, last := items[..|items| - 1], items[|items| - 1];
      assert items == init + [last];
      FoldSays(init, utf8);
      FoldAppend(init, [last], EMPTY, (i, t) => InfoStep(i, t, utf8));
    }
  }

  ghost predicate Encodes(items: seq<Item>, s: seq<Byte>) {
    (forall item :: item in items ==> WellFormed(item)) && EncodeAll(items) == s
  }

  lemma {:induction false} EntryFoldSays(items: seq<Item>, utf8: Utf8)
    ensures var folded := Fold(items, MetadataEntry("", ""), (e, t) => EntryStep(e, t, utf8));
            if TextsReadable(items, utf8) then
              folded == Ok(MetadataEntry(LastText(items, 1, utf8), LastText(items, 2, utf8)))
            else folded.Err?
    decreases |items|
  {
    if items != [] {
      var init, last := items[..|items| - 1], items[|items| - 1];
      assert items == init + [last];
      EntryFoldSays(init, utf8);
      FoldAppend(init, [last], MetadataEntry("", ""), (e, t) => EntryStep(e, t, utf8));
    }
  }

  predicate TextsReadable(items: seq<Item>, utf8: Utf8) {
    forall item <- items :: IsText(item, 1) || IsText(item, 2) ==> utf8(PayloadOf(item.wire)).Some?
  }

  /** A metadata entry is the last key and the last value of some fields whose texts are UTF-8. */
  lemma EntryReads(s: seq<Byte>, entry: MetadataEntry, utf8: Utf8)
    ensures ReadEntry(s, utf8) == Ok(entry) <==>
            exists items :: Encodes(items, s) && TextsReadable(items, utf8)
                            && entry == MetadataEntry(LastText(items, 1, utf8), LastText(items, 2, utf8))
  {
    hide ReadFrom, Fold, LastText, EntryStep, EncodeAll, TextsReadable;
    ReadsExactlyEncodings(s, MetadataEntry("", ""), entry, (e, t) => EntryStep(e, t, utf8));
    if ReadEntry(s, utf8) == Ok(entry) {
      var items: seq<Item> :|
        && (forall item :: item in items ==> WellFormed(item))
        && EncodeAll(items) == s
        && Fold(items, MetadataEntry("", ""), (e, t) => EntryStep(e, t, utf8)) == Ok(entry);
      EntryFoldSays(items, utf8);
      assert Encodes(items, s);
    }
    if items :| Encodes(items, s) && TextsReadable(items, utf8)
                && entry == MetadataEntry(LastText(items, 1, utf8), LastText(items, 2, utf8)) {
      EntryFoldSays(items, utf8);
    }
  }

  /** An ErrorInfo is what the fields of the bytes say, if they are readable and the last reason is not empty. */
  lemma ParsedExactly(s: seq<Byte>, info: Info, utf8: Utf8)
    ensures Parsed(s, utf8) == Some(info) <==>
            && info.reason != ""
            && exists items :: Encodes(items, s) && Readable(items, utf8) && info == Said(items, utf8)
  {
    hide ReadFrom, Fold, Said, InfoStep, EncodeAll, Readable;
    ReadsExactlyEncodings(s, EMPTY, info, (i, t) => InfoStep(i, t, utf8));
    if ReadInfo(s, EMPTY, utf8) == Ok(info) {
      var items: seq<Item> :|
        && (forall item :: item in items ==> WellFormed(item))
        && EncodeAll(items) == s
        && Fold(items, EMPTY, (i, t) => InfoStep(i, t, utf8)) == Ok(info);
      FoldSays(items, utf8);
      assert Encodes(items, s);
    }
    if items :| Encodes(items, s) && Readable(items, utf8) && info == Said(items, utf8) {
      FoldSays(items, utf8);
    }
  }

  // Writing a message and reading it back.

  type Encoder = string -> seq<Byte>

  /** The bytes a writer spends on the tag and on the length of one field: any from 1 to 7 each. */
  datatype Widths = Widths(tag: nat, length: nat)

  predicate Holds(w: Widths, bytes: seq<Byte>) {
    1 <= w.tag <= 7 && 1 <= w.length <= 7 && |bytes| < Pow128(w.length)
  }

  function TextItem(field: nat, w: Widths, bytes: seq<Byte>): Item {
    Item(field * 8 + 2, w.tag, Delimited(|bytes|, w.length, bytes))
  }

  lemma TextItemWellFormed(w: Widths, field: nat, bytes: seq<Byte>)
    requires Holds(w, bytes) && 1 <= field <= 3
    ensures WellFormed(TextItem(field, w, bytes))
    ensures TokenOf(TextItem(field, w, bytes)) == Token(field, 2, bytes)
  {
    Pow128Monotone(1, w.tag);
    assert Pow128(1) == 128;
    SevenBytesExact(|bytes|, w.length);
  }

  /** A metadata entry with the widths of its key, of its value and of the whole entry. */
  datatype WrittenEntry = WrittenEntry(entry: MetadataEntry, keyWidths: Widths, valueWidths: Widths, widths: Widths)

  function EntryItems(e: WrittenEntry, encode: Encoder): seq<Item> {
    [TextItem(1, e.keyWidths, encode(e.entry.key)), TextItem(2, e.valueWidths, encode(e.entry.value))]
  }

  predicate PartsFit(e: WrittenEntry, encode: Encoder) {
    Holds(e.keyWidths, encode(e.entry.key)) && Holds(e.valueWidths, encode(e.entry.value))
  }

  function EntryBytes(e: WrittenEntry, encode: Encoder): seq<Byte>
    requires PartsFit(e, encode)
  {
    TextItemWellFormed(e.keyWidths, 1, encode(e.entry.key));
    TextItemWellFormed(e.valueWidths, 2, encode(e.entry.value));
    EncodeAll(EntryItems(e, encode))
  }

  predicate EntryFits(e: WrittenEntry, encode: Encoder) {
    PartsFit(e, encode) && Holds(e.widths, EntryBytes(e, encode))
  }

  function EntriesItems(entries: seq<WrittenEntry>, encode: Encoder): seq<Item>
    requires forall e :: e in entries ==> EntryFits(e, encode)
  {
    if entries == [] then []
    else
      var last := entries[|entries| - 1];
      assert EntryFits(last, encode);
      EntriesItems(entries[..|entries| - 1], encode) + [TextItem(3, last.widths, EntryBytes(last, encode))]
  }

  function EntryMap(entries: seq<WrittenEntry>): map<string, string> {
    if entries == [] then map[]
    else
      var last := entries[|entries| - 1].entry;
      EntryMap(entries[..|entries| - 1])[last.key := last.value]
  }

  /** A message with the widths of every field; a key may occur in several entries. */
  datatype Message = Message(reason: string, reasonWidths: Widths, domain: string, domainWidths: Widths,
    entries: seq<WrittenEntry>)

  predicate Writable(m: Message, encode: Encoder) {
    && Holds(m.reasonWidths, encode(m.reason)) && Holds(m.domainWidths, encode(m.domain))
    && forall e :: e in m.entries ==> EntryFits(e, encode)
  }

  function InfoItems(m: Message, encode: Encoder): seq<Item>
    requires Writable(m, encode)
  {
    [TextItem(1, m.reasonWidths, encode(m.reason)), TextItem(2, m.domainWidths, encode(m.domain))]
    + EntriesItems(m.entries, encode)
  }

  lemma EntryRoundTrip(e: WrittenEntry, encode: Encoder, utf8: Utf8)
    requires PartsFit(e, encode)
    requires forall text :: utf8(encode(text)) == Some(text)
    ensures ReadEntry(EntryBytes(e, encode), utf8) == Ok(e.entry)
  {
    var step := (entry: MetadataEntry, t: Token) => EntryStep(entry, t, utf8);
    TextItemWellFormed(e.keyWidths, 1, encode(e.entry.key));
    TextItemWellFormed(e.valueWidths, 2, encode(e.entry.value));
    var items := EntryItems(e, encode);
    ReadOfEncoded(items, MetadataEntry("", ""), step);
    var key, value := items[0], items[1];
    assert items[1..] == [value] && [value][1..] == [];
    assert Fold([value], MetadataEntry(e.entry.key, ""), step) == Ok(e.entry);
    assert EncodeAll([value]) == Encode(value) + EncodeAll([]);
    assert EncodeAll(items) == Encode(key) + EncodeAll([value]);
  }

  lemma {:induction false} EntriesRoundTrip(entries: seq<WrittenEntry>, encode: Encoder, info: Info, utf8: Utf8)
    requires forall e :: e in entries ==> EntryFits(e, encode) && e.entry.key != ""
    requires forall text :: utf8(encode(text)) == Some(text)
    requires info.metadata == map[]
    ensures forall item :: item in EntriesItems(entries, encode) ==> WellFormed(item)
    ensures Fold(EntriesItems(entries, encode), info, (i, t) => InfoStep(i, t, utf8))
         == Ok(info.(metadata := EntryMap(entries)))
    decreases |entries|
  {
    if entries != [] {
      var init, e := entries[..|entries| - 1], entries[|entries| - 1];
      assert e in entries;
      EntriesRoundTrip(init, encode, info, utf8);
      EntryRoundTrip(e, encode, utf8);
      var bytes := EntryBytes(e, encode);
      TextItemWellFormed(e.widths, 3, bytes);
      var step := (i: Info, t: Token) => InfoStep(i, t, utf8);
      var item := TextItem(3, e.widths, bytes);
      FoldAppend(EntriesItems(init, encode), [item], info, step);
      var before := info.(metadata := EntryMap(init));
      assert [item][1..] == [];
      assert step(before, TokenOf(item)) == Ok(before.(metadata := before.metadata[e.entry.key := e.entry.value]));
    }
  }

  /**
   * Writing an ErrorInfo with a reason and named metadata, each field in varint widths of its own, and
   * reading it gives the same info; of metadata entries with one key the last is kept.
   */
  lemma InfoRoundTrip(m: Message, encode: Encoder, utf8: Utf8)
    requires Writable(m, encode) && m.reason != "" && forall e :: e in m.entries ==> e.entry.key != ""
    requires forall text :: utf8(encode(text)) == Some(text)
    ensures var items := InfoItems(m, encode);
            && (forall item :: item in items ==> WellFormed(item))
            && Parsed(EncodeAll(items), utf8) == Some(Info(m.reason, m.domain, EntryMap(m.entries)))
  {
    var step := (i: Info, t: Token) => InfoStep(i, t, utf8);
    TextItemWellFormed(m.reasonWidths, 1, encode(m.reason));
    TextItemWellFormed(m.domainWidths, 2, encode(m.domain));
    var items := InfoItems(m, encode);
    var rest := EntriesItems(m.entries, encode);
    EntriesRoundTrip(m.entries, encode, Info(m.reason, m.domain, map[]), utf8);
    ReadOfEncoded(items, EMPTY, step);
    assert items[1..][0] == items[1] && items[1..][1..] == rest;
    assert Fold(items[1..], EMPTY.(reason := m.reason), step) == Fold(rest, Info(m.reason, m.domain, map[]), step);
  }
}
