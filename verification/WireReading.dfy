/** The cursor-mutating wire reader and the loops that read an ErrorInfo with it. */
module WireReading {
  import opened Wrappers
  import opened Varints
  import opened ErrorInfo

  class WireReader {
    const bytes: seq<Byte>
    var offset: nat

    ghost predicate Valid()
      reads this
    {
      offset <= |bytes|
    }

    /** What is left to read. */
    ghost function Rest(): seq<Byte>
      reads this
      requires Valid()
    {
      bytes[offset..]
    }

    constructor (bytes: seq<Byte>)
      ensures Valid() && this.bytes == bytes && Rest() == bytes
    {
      this.bytes := bytes;
      offset := 0;
    }

    function Remaining(): (more: bool)
      reads this
      requires Valid()
      ensures more <==> Rest() != []
    {
      offset < |bytes|
    }

    method ReadVarint() returns (r: Result<nat>)
      requires Valid()
      modifies this`offset
      ensures Valid()
      ensures r.Ok? <==> Varint(old(Rest())).Ok?
      ensures r.Ok? ==> Varint(old(Rest())) == Ok(Read(r.value, Rest()))
    {
      hide Varint, ToDouble;
      ghost var start, s := offset, Rest();
      var result: nat, shift: nat := 0, 1;
      for index := 0 to 8
        invariant Valid() && offset == start + index
        invariant Continued(bytes[start..offset]) && shift == Pow128(index)
        invariant index < 8 ==> result == Groups(bytes[start..offset])
      {
        ghost var read := bytes[start..offset];
        assert s == read + Rest();
        VarintGroups(read, Rest());
        if offset == |bytes| {
          return Err;
        }
        var byte := bytes[offset];
        assert Rest()[0] == byte && Rest()[1..] == bytes[offset + 1..];
        offset := offset + 1;
        assert bytes[start..offset] == read + [byte];
        result := AddGroup(result, byte, shift, read);
        if byte < 128 {
          return Ok(result);
        }
        if index < 7 {
          GroupsExact(read + [byte]);
        }
        shift := shift * 128;
      }
      assert s == bytes[start..offset] + Rest();
      VarintGroups(bytes[start..offset], Rest());
      return Err;
    }

    method ReadRawBytes() returns (r: Result<seq<Byte>>)
      requires Valid()
      modifies this`offset
      ensures Valid()
      ensures r.Ok? <==> RawBytes(old(Rest())).Ok?
      ensures r.Ok? ==> RawBytes(old(Rest())) == Ok(Read(r.value, Rest()))
    {
      var length :- ReadVarint();
      if offset + length > |bytes| {
        return Err;
      }
      var slice := bytes[offset..offset + length];
      assert Rest()[..length] == slice && Rest()[length..] == bytes[offset + length..];
      offset := offset + length;
      return Ok(slice);
    }

    method ReadString(utf8: Utf8) returns (r: Result<string>)
      requires Valid()
      modifies this`offset
      ensures Valid()
      ensures r.Ok? <==> RawBytes(old(Rest())).Ok? && Decoded(RawBytes(old(Rest())).value.value, utf8).Ok?
      ensures r.Ok? ==> Rest() == RawBytes(old(Rest())).value.rest
      ensures r.Ok? ==> Decoded(RawBytes(old(Rest())).value.value, utf8) == r
    {
      var raw :- ReadRawBytes();
      return Decoded(raw, utf8);
    }

    /** Moves behind a field; a fixed-width one may run past the end, which is an error. */
    method Skip(wireType: nat) returns (r: Result<()>)
      requires Valid()
      modifies this`offset
      ensures r.Ok? <==> Payload(old(Rest()), wireType).Ok?
      ensures r.Ok? ==> Valid() && Rest() == Payload(old(Rest()), wireType).value.rest
    {
      if wireType == 0 {
        var _ :- ReadVarint();
      } else if wireType == 1 {
        offset := offset + 8;
      } else if wireType == 2 {
        var _ :- ReadRawBytes();
      } else if wireType == 5 {
        offset := offset + 4;
      } else {
        return Err;
      }
      if offset > |bytes| {
        return Err;
      }
      return Ok(());
    }
  }

  // Tags and payloads.

  lemma TokenBehindTag(s: seq<Byte>)
    ensures Varint(s).Err? ==> TokenAt(s).Err?
    ensures Varint(s).Ok? ==>
              var tag := Varint(s).value;
              var wireType := tag.value % 8;
              var payload := Payload(tag.rest, wireType);
              && (payload.Err? ==> TokenAt(s).Err?)
              && (payload.Ok? ==>
                    TokenAt(s) == Ok(Read(Token(tag.value / 8, wireType, payload.value.value), payload.value.rest)))
  {
  }

  /** One field of a metadata entry. */
  method ReadEntryField(reader: WireReader, entry: MetadataEntry, utf8: Utf8) returns (r: Result<MetadataEntry>)
    requires reader.Valid()
    modifies reader`offset
    ensures r.Ok? <==>
            TokenAt(old(reader.Rest())).Ok? && EntryStep(entry, TokenAt(old(reader.Rest())).value.value, utf8).Ok?
    ensures r.Ok? ==>
              && reader.Valid() && reader.Rest() == TokenAt(old(reader.Rest())).value.rest
              && r == EntryStep(entry, TokenAt(old(reader.Rest())).value.value, utf8)
  {
    TokenBehindTag(reader.Rest());
    var tag :- reader.ReadVarint();
    if tag / 8 == 1 && tag % 8 == 2 {
      var key :- reader.ReadString(utf8);
      return Ok(entry.(key := key));
    } else if tag / 8 == 2 && tag % 8 == 2 {
      var value :- reader.ReadString(utf8);
      return Ok(entry.(value := value));
    } else {
      var _ :- reader.Skip(tag % 8);
      return Ok(entry);
    }
  }

  /** One metadata entry, read from its own bytes. */
  method ReadMetadataEntry(bytes: seq<Byte>, utf8: Utf8) returns (r: Result<MetadataEntry>)
    ensures r == ReadEntry(bytes, utf8)
  {
    ghost var expected := ReadEntry(bytes, utf8);
    var reader := new WireReader(bytes);
    var entry := MetadataEntry("", "");
    while reader.Remaining()
      invariant reader.Valid()
      invariant expected == ReadEntryFrom(reader.Rest(), entry, utf8)
      decreases |reader.Rest()|
    {
      entry :- ReadEntryField(reader, entry, utf8);
    }
    return Ok(entry);
  }

  /** One field of the message; a metadata entry without a key is dropped. */
  method ReadInfoField(reader: WireReader, info: Info, utf8: Utf8) returns (r: Result<Info>)
    requires reader.Valid()
    modifies reader`offset
    ensures r.Ok? <==>
            TokenAt(old(reader.Rest())).Ok? && InfoStep(info, TokenAt(old(reader.Rest())).value.value, utf8).Ok?
    ensures r.Ok? ==>
              && reader.Valid() && reader.Rest() == TokenAt(old(reader.Rest())).value.rest
              && r == InfoStep(info, TokenAt(old(reader.Rest())).value.value, utf8)
  {
    TokenBehindTag(reader.Rest());
    var tag :- reader.ReadVarint();
    var field, wireType := tag / 8, tag % 8;
    if field == 1 && wireType == 2 {
      var reason :- reader.ReadString(utf8);
      return Ok(info.(reason := reason));
    } else if field == 2 && wireType == 2 {
      var domain :- reader.ReadString(utf8);
      return Ok(info.(domain := domain));
    } else if field == 3 && wireType == 2 {
      var raw :- reader.ReadRawBytes();
      var entry :- ReadMetadataEntry(raw, utf8);
      return Ok(if entry.key != "" then info.(metadata := info.metadata[entry.key := entry.value]) else info);
    } else {
      var _ :- reader.Skip(wireType);
      return Ok(info);
    }
  }

  /** The loop over the fields of the message; an error stands for the exception the caller catches. */
  method ReadFields(bytes: seq<Byte>, utf8: Utf8) returns (r: Result<Info>)
    ensures r == ReadInfo(bytes, EMPTY, utf8)
  {
    ghost var expected := ReadInfo(bytes, EMPTY, utf8);
    var reader := new WireReader(bytes);
    var info := EMPTY;
    while reader.Remaining()
      invariant reader.Valid()
      invariant expected == ReadInfo(reader.Rest(), info, utf8)
      decreases |reader.Rest()|
    {
      info :- ReadInfoField(reader, info, utf8);
    }
    return Ok(info);
  }

  /** What the reader returns for a message: nothing when it is malformed or has no reason. */
  method ReadErrorInfo(bytes: seq<Byte>, utf8: Utf8) returns (r: Option<Info>)
    ensures r == Parsed(bytes, utf8)
  {
    var info := ReadFields(bytes, utf8);
    return if info.Ok? && info.value.reason != "" then Some(info.value) else None;
  }

  datatype Detail = Detail(typeUrl: string, value: seq<Byte>)

  predicate IsErrorInfo(detail: Detail) {
    var suffix := "/google.rpc.ErrorInfo";
    |detail.typeUrl| >= |suffix| && detail.typeUrl[|detail.typeUrl| - |suffix|..] == suffix
  }

  /** The first ErrorInfo among the details that reads, or nothing when none does. */
  method DecodeErrorInfo(details: seq<Detail>, utf8: Utf8) returns (r: Option<Info>)
    ensures r.None? <==> forall d :: d in details && IsErrorInfo(d) ==> Parsed(d.value, utf8).None?
    ensures r.Some? ==>
              exists i :: 0 <= i < |details| && IsErrorInfo(details[i]) && Parsed(details[i].value, utf8) == r
                && (forall j :: 0 <= j < i && IsErrorInfo(details[j]) ==> Parsed(details[j].value, utf8).None?)
  {
    for i := 0 to |details|
      invariant forall j :: 0 <= j < i && IsErrorInfo(details[j]) ==> Parsed(details[j].value, utf8).None?
    {
      if !IsErrorInfo(details[i]) {
        continue;
      }
      r := ReadErrorInfo(details[i].value, utf8);
      if r.Some? {
        return;
      }
    }
    return None;
  }
}
