/** The loops that fill records field by field, in the decoders and in the sample emitter. */
module RecordLoops {
  import opened Wrappers
  import opened JsValues
  import opened DamlTypes
  import opened DescriptorCompiler
  import opened LedgerValues
  import opened ValueConverter
  import opened ProtobufConverter
  import opened SampleEmitter
  import ValueMaterializer

  /** What is left of a computation that has produced `prefix` and continues with `rest`. */
  ghost function Prefixed<T>(prefix: seq<T>, rest: Result<seq<T>>): (r: Result<seq<T>>)
    ensures prefix == [] ==> r == rest
    ensures rest == Ok([]) ==> r == Ok(prefix)
  {
    assert rest.Ok? ==> [] + rest.value == rest.value && prefix + [] == prefix;
    if rest.Ok? then Ok(prefix + rest.value) else Err
  }

  lemma PrefixedStep<T>(prefix: seq<T>, next: T, rest: Result<seq<T>>)
    ensures Prefixed(prefix + [next], rest) == Prefixed(prefix, Prefixed([next], rest))
  {
    if rest.Ok? {
      assert prefix + [next] + rest.value == prefix + ([next] + rest.value);
    }
  }

  /** The fields of a labelled record, found by label. */
  method DecodeProtobufLabelled(fields: seq<PEntry>, ds: seq<FieldDescriptor>, project: Project)
    returns (r: Result<seq<Entry<Decoded>>>)
    ensures r.Ok? <==> DecodeByLabel(fields, ds, project).Ok?
    ensures r.Ok? ==> r.value == PutAll([], DecodeByLabel(fields, ds, project).value)
  {
    hide DecodeRequired;
    var output: seq<Entry<Decoded>> := [];
    ghost var prefix: seq<Entry<Decoded>> := [];
    assert ds[0..] == ds;
    for i := 0 to |ds|
      invariant output == PutAll([], prefix)
      invariant DecodeByLabel(fields, ds, project) == Prefixed(prefix, DecodeByLabel(fields, ds[i..], project))
    {
      var source := FindLabel(fields, ds[i].damlLabel);
      if source == -1 {
        return Err;
      }
      var value := DecodeRequired(fields[source].value, ds[i].ty, project);
      if value.Err? {
        return Err;
      }
      assert ds[i..][1..] == ds[i + 1..];
      PutAllAppend([], prefix, Entry(ds[i].propertyName, value.value));
      PrefixedStep(prefix, Entry(ds[i].propertyName, value.value), DecodeByLabel(fields, ds[i + 1..], project));
      output := Put(output, ds[i].propertyName, value.value);
      prefix := prefix + [Entry(ds[i].propertyName, value.value)];
    }
    assert ds[|ds|..] == [];
    return Ok(output);
  }

  /** The fields of a record without labels, by position. */
  method DecodeProtobufPositional(fields: seq<PEntry>, ds: seq<FieldDescriptor>, project: Project)
    returns (r: Result<seq<Entry<Decoded>>>)
    requires |fields| == |ds|
    ensures r.Ok? <==> DecodeByPosition(fields, ds, project).Ok?
    ensures r.Ok? ==> r.value == PutAll([], DecodeByPosition(fields, ds, project).value)
  {
    hide DecodeRequired;
    var output: seq<Entry<Decoded>> := [];
    ghost var prefix: seq<Entry<Decoded>> := [];
    assert ds[0..] == ds && fields[0..] == fields;
    for i := 0 to |ds|
      invariant output == PutAll([], prefix)
      invariant DecodeByPosition(fields, ds, project)
             == Prefixed(prefix, DecodeByPosition(fields[i..], ds[i..], project))
    {
      var value := DecodeRequired(fields[i].value, ds[i].ty, project);
      if value.Err? {
        return Err;
      }
      assert ds[i..][1..] == ds[i + 1..] && fields[i..][1..] == fields[i + 1..];
      PutAllAppend([], prefix, Entry(ds[i].propertyName, value.value));
      PrefixedStep(prefix, Entry(ds[i].propertyName, value.value),
                   DecodeByPosition(fields[i + 1..], ds[i + 1..], project));
      output := Put(output, ds[i].propertyName, value.value);
      prefix := prefix + [Entry(ds[i].propertyName, value.value)];
    }
    assert fields[|ds|..] == [];
    return Ok(output);
  }

  method DecodeProtobufRecord(fields: seq<PEntry>, ds: seq<FieldDescriptor>, project: Project)
    returns (r: Result<Decoded>)
    ensures r == DecodeProto(PRecord(fields), DRecord(ds), project)
  {
    if !Labelled(fields) && !Unlabelled(fields) {
      return Err;
    }
    if Labelled(fields) {
      if |Labels(fields)| != |fields| {
        return Err;
      }
      var output :- DecodeProtobufLabelled(fields, ds, project);
      return if |fields| == |ds| then Ok(RecordValue(output)) else Err;
    }
    if |fields| != |ds| {
      return Err;
    }
    var output :- DecodeProtobufPositional(fields, ds, project);
    return Ok(RecordValue(output));
  }

  /** The fields of the array form, by position. */
  method DecodeJsonPositional(elems: seq<Js>, ds: seq<FieldDescriptor>,
      project: Project) returns (r: Result<seq<Entry<Decoded>>>)
    requires |elems| == |ds|
    ensures r.Ok? <==> DecodePositional(elems, ds, project).Ok?
    ensures r.Ok? ==> r.value == PutAll([], DecodePositional(elems, ds, project).value)
  {
    hide DecodeJson;
    var output: seq<Entry<Decoded>> := [];
    ghost var prefix: seq<Entry<Decoded>> := [];
    assert ds[0..] == ds && elems[0..] == elems;
    for i := 0 to |ds|
      invariant output == PutAll([], prefix)
      invariant DecodePositional(elems, ds, project) == Prefixed(prefix, DecodePositional(elems[i..], ds[i..], project))
    {
      var decoded := DecodeJson(elems[i], ds[i].ty, project);
      if decoded.Err? {
        return Err;
      }
      assert ds[i..][1..] == ds[i + 1..] && elems[i..][1..] == elems[i + 1..];
      PutAllAppend([], prefix, Entry(ds[i].propertyName, decoded.value));
      PrefixedStep(prefix, Entry(ds[i].propertyName, decoded.value),
                   DecodePositional(elems[i + 1..], ds[i + 1..], project));
      output := Put(output, ds[i].propertyName, decoded.value);
      prefix := prefix + [Entry(ds[i].propertyName, decoded.value)];
    }
    assert ds[|ds|..] == [];
    return Ok(output);
  }

  /** The fields of the object form, by label. */
  method DecodeJsonLabelled(value: Js, members: seq<Entry<Js>>, ds: seq<FieldDescriptor>, project: Project)
    returns (r: Result<seq<Entry<Decoded>>>)
    requires OwnMembers(value) == Some(members)
    ensures r.Ok? <==> DecodeLabelled(value, ds, project).Ok?
    ensures r.Ok? ==> r.value == PutAll([], DecodeLabelled(value, ds, project).value)
  {
    hide DecodeJson;
    var output: seq<Entry<Decoded>> := [];
    ghost var prefix: seq<Entry<Decoded>> := [];
    assert ds[0..] == ds;
    for i := 0 to |ds|
      invariant output == PutAll([], prefix)
      invariant DecodeLabelled(value, ds, project) == Prefixed(prefix, DecodeLabelled(value, ds[i..], project))
    {
      var found := Find(members, ds[i].damlLabel);
      if found == -1 {
        return Err;
      }
      var decoded := DecodeJson(members[found].value, ds[i].ty, project);
      if decoded.Err? {
        return Err;
      }
      assert ds[i..][1..] == ds[i + 1..];
      PutAllAppend([], prefix, Entry(ds[i].propertyName, decoded.value));
      PrefixedStep(prefix, Entry(ds[i].propertyName, decoded.value), DecodeLabelled(value, ds[i + 1..], project));
      output := Put(output, ds[i].propertyName, decoded.value);
      prefix := prefix + [Entry(ds[i].propertyName, decoded.value)];
    }
    assert ds[|ds|..] == [];
    return Ok(output);
  }

  method DecodeJsonRecord(value: Js, ds: seq<FieldDescriptor>, project: Project) returns (r: Result<Decoded>)
    ensures r == DecodeJson(value, DRecord(ds), project)
  {
    if value.Array? {
      if |value.elems| != |ds| {
        return Err;
      }
      var output :- DecodeJsonPositional(value.elems, ds, project);
      return Ok(RecordValue(output));
    }
    var members := OwnMembers(value);
    if members.None? {
      return Err;
    }
    for j := 0 to |members.value|
      invariant forall k :: 0 <= k < j ==> HasLabel(ds, members.value[k].key)
    {
      if !HasLabel(ds, members.value[j].key) {
        return Err;
      }
    }
    var output :- DecodeJsonLabelled(value, members.value, ds, project);
    return Ok(RecordValue(output));
  }

  ghost function PrefixedSample<T>(prefix: seq<T>, rest: Outcome<seq<T>>): (r: Outcome<seq<T>>)
    ensures prefix == [] ==> r == rest
    ensures rest == Value([]) ==> r == Value(prefix)
  {
    assert rest.Value? ==> [] + rest.value == rest.value && prefix + [] == prefix;
    if rest.Value? then Value(prefix + rest.value) else rest
  }

  lemma PrefixedSampleStep<T>(prefix: seq<T>, next: T, rest: Outcome<seq<T>>)
    ensures PrefixedSample(prefix + [next], rest) == PrefixedSample(prefix, PrefixedSample([next], rest))
  {
    if rest.Value? {
      assert prefix + [next] + rest.value == prefix + ([next] + rest.value);
    }
  }

  method EmitFiniteRecord(fields: seq<Field>, representation: Representation, project: Project, bindings: Bindings,
      visited: set<Fingerprint>, fuel: nat) returns (r: Outcome<Js>)
    ensures r == EmitFinite(Record(fields), representation, project, bindings, visited, fuel)
  {
    var entries: seq<Entry<Js>> := [];
    assert fields[0..] == fields;
    for i := 0 to |fields|
      invariant EmitFiniteFields(fields, representation, project, bindings, visited, fuel)
             == PrefixedSample(entries, EmitFiniteFields(fields[i..], representation, project, bindings, visited, fuel))
    {
      var value := EmitFinite(fields[i].ty, representation, project, bindings, visited, fuel);
      assert fields[i..][1..] == fields[i + 1..];
      match value {
        case Value(js) =>
          PrefixedSampleStep(entries, Entry(FieldKey(fields[i], representation), js),
                             EmitFiniteFields(fields[i + 1..], representation, project, bindings, visited, fuel));
          entries := entries + [Entry(FieldKey(fields[i], representation), js)];
        case Missing => return Missing;
        case Throws => return Throws;
        case Diverges => return Diverges;
      }
    }
    assert fields[|fields|..] == [];
    r := Value(ObjectLiteral(entries));
  }

  method EmitFiniteVariant(constructors: seq<Constructor>, representation: Representation, project: Project,
      bindings: Bindings, visited: set<Fingerprint>, fuel: nat) returns (r: Outcome<Js>)
    ensures r == EmitFinite(Variant(constructors), representation, project, bindings, visited, fuel)
  {
    assert constructors[0..] == constructors;
    for i := 0 to |constructors|
      invariant EmitFirstFinite(constructors, representation, project, bindings, visited, fuel)
             == EmitFirstFinite(constructors[i..], representation, project, bindings, visited, fuel)
    {
      var payload := EmitFinite(constructors[i].payload, representation, project, bindings, visited, fuel);
      assert constructors[i..][1..] == constructors[i + 1..];
      match payload {
        case Value(js) => return Value(ValueMaterializer.VariantObject(constructors[i].name, js));
        case Missing =>
        case Throws => return Throws;
        case Diverges => return Diverges;
      }
    }
    r := Missing;
  }

  /** The sample of a variant is of its first constructor with a finite payload, all before it having none. */
  lemma {:induction false} FirstFiniteIsTaken(constructors: seq<Constructor>, representation: Representation,
      project: Project, bindings: Bindings, visited: set<Fingerprint>, fuel: nat, i: nat)
    requires i < |constructors|
    requires forall j :: 0 <= j < i ==>
               EmitFinite(constructors[j].payload, representation, project, bindings, visited, fuel) == Missing
    ensures var payload := EmitFinite(constructors[i].payload, representation, project, bindings, visited, fuel);
            payload.Value? ==>
              EmitFinite(Variant(constructors), representation, project, bindings, visited, fuel)
              == Value(Object(Plain, [Entry("tag", JsValues.Text(constructors[i].name)),
                                      Entry("value", payload.value)]))
    decreases i
  {
    if i > 0 {
      assert EmitFinite(constructors[0].payload, representation, project, bindings, visited, fuel) == Missing;
      FirstFiniteIsTaken(constructors[1..], representation, project, bindings, visited, fuel, i - 1);
    }
  }
}
