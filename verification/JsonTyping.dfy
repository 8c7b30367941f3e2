/** The JSON decoder is exact: it accepts the JSON values a type has, and returns what each of them means. */
module JsonTyping {
  import opened Wrappers
  import opened JsValues
  import opened DamlTypes
  import opened DescriptorCompiler
  import opened LedgerValues
  import opened ValueConverter
  import opened ProtobufConverter
  import opened ScopedTypes
  import opened LedgerTyping
  import opened ProtobufTyping
  import DamlNumerics

  /** The JSON decoder's verdict and result are what typing says, whatever type arguments are in force. */
  ghost predicate JsonExact(js: Js, t: DamlType, env: Env, project: Project, x: Decoded) {
    var d := Compile(t, SubstitutionOf(env));
    d.Ok? && (DecodeJson(js, d.value, project) == Ok(x) <==> ReadsJson(js, t, env, project, x))
  }

  lemma {:induction false} ReadsJsonExactly(js: Js, t: DamlType, env: Env, project: Project, x: Decoded)
    requires Within(env, project) && ScopedIn(t, env, project)
    ensures JsonExact(js, t, env, project, x)
    decreases js, 5, env, t, 1
  {
    hide DecodeJson, ReadsJson;
    match t
    case Prim(builtin, scale) => PrimitiveTypeExactly(js, builtin, scale, env, project, x);
    case Optional(element) => OptionalExactly(js, element, env, project, x);
    case List(element) => ListExactly(js, element, env, project, x);
    case TextMap(value) => TextMapExactly(js, value, env, project, x);
    case GenMap(key, value) => GenMapExactly(js, key, value, env, project, x);
    case Record(fields) => InlineRecordExactly(js, fields, env, project, x);
    case Variant(constructors) => InlineVariantExactly(js, constructors, env, project, x);
    case Var(variable) => VariableExactly(js, variable, env, project, x);
    case Ref(identity, arguments) => ReferenceExactly(js, identity, arguments, env, project, x);
    case _ => LeafExactly(js, t, env, project, x);
  }

  // ----- primitives -----

  /** A text is decoded as the protobuf value of its kind is. */
  lemma TextPrimitive(text: string, builtin: Primitive, scale: Option<int>, x: Decoded)
    requires builtin in {Int64, Timestamp, Numeric, Party}
    ensures DecodeJsonPrimitive(JsValues.Text(text), builtin, scale) == Ok(x)
       <==> ReadsJsonPrimitive(JsValues.Text(text), builtin, scale, x)
  {
    hide ReadsPrimitive, DecodeInt64, DecodeTimestamp, DamlNumerics.DecodeNumeric, DecodeParty;
    var v := match builtin
      case Int64 => PInt64(text)
      case Timestamp => PTimestamp(text)
      case Numeric => PNumeric(text)
      case _ => PParty(text);
    ProtobufTyping.PrimitiveExactly(v, builtin, scale, Project(map[], []), x);
  }

  lemma DatePrimitive(n: real, scale: Option<int>, x: Decoded)
    ensures DecodeJsonPrimitive(Number(n), Date, scale) == Ok(x) <==> ReadsJsonPrimitive(Number(n), Date, scale, x)
  {
    forall days: int | n == days as real && ReadsPrimitive(PDate(days), Date, scale, x)
      ensures n.Floor == days
    {
    }
    if n.Floor as real == n {
      assert ReadsJsonPrimitive(Number(n), Date, scale, x) <==> ReadsPrimitive(PDate(n.Floor), Date, scale, x);
    }
  }

  lemma PlainPrimitive(js: Js, builtin: Primitive, scale: Option<int>, x: Decoded)
    requires builtin in {Int64, Timestamp, Numeric, Party} ==> !js.Text?
    requires builtin.Date? ==> !js.Number?
    ensures DecodeJsonPrimitive(js, builtin, scale) == Ok(x) <==> ReadsJsonPrimitive(js, builtin, scale, x)
  {
    hide ReadsPrimitive;
  }

  lemma PrimitiveExactly(js: Js, builtin: Primitive, scale: Option<int>, x: Decoded)
    ensures DecodeJsonPrimitive(js, builtin, scale) == Ok(x) <==> ReadsJsonPrimitive(js, builtin, scale, x)
  {
    hide DecodeJsonPrimitive, ReadsJsonPrimitive;
    if builtin in {Int64, Timestamp, Numeric, Party} && js.Text? {
      TextPrimitive(js.s, builtin, scale, x);
    } else if builtin.Date? && js.Number? {
      DatePrimitive(js.n, scale, x);
    } else {
      PlainPrimitive(js, builtin, scale, x);
    }
  }

  lemma PrimitiveTypeExactly(js: Js, builtin: Primitive, scale: Option<int>, env: Env, project: Project, x: Decoded)
    ensures JsonExact(js, Prim(builtin, scale), env, project, x)
  {
    hide DecodeJsonPrimitive, ReadsJsonPrimitive, SubstitutionOf;
    PrimitiveExactly(js, builtin, scale, x);
  }

  lemma LeafExactly(js: Js, t: DamlType, env: Env, project: Project, x: Decoded)
    requires t.ContractId? || t.Enum?
    ensures JsonExact(js, t, env, project, x)
  {
  }

  // ----- containers -----

  lemma OptionalStep(js: Js, element: DamlType, d: Descriptor, env: Env, project: Project, x: Decoded)
    requires Compile(element, SubstitutionOf(env)) == Ok(d)
    requires !js.Null? ==> (DecodeJson(js, d, project) == Ok(x) <==> ReadsJson(js, element, env, project, x))
    ensures JsonExact(js, Optional(element), env, project, x)
  {
    hide SubstitutionOf;
  }

  lemma {:induction false} OptionalExactly(js: Js, element: DamlType, env: Env, project: Project, x: Decoded)
    requires Within(env, project) && ScopedIn(element, env, project)
    ensures JsonExact(js, Optional(element), env, project, x)
    decreases js, 5, env, Optional(element), 0
  {
    hide DecodeJson, ReadsJson;
    ReadsJsonExactly(js, element, env, project, x);
    OptionalStep(js, element, Compile(element, SubstitutionOf(env)).value, env, project, x);
  }

  lemma ListStep(js: Js, element: DamlType, d: Descriptor, env: Env, project: Project, x: Decoded)
    requires Compile(element, SubstitutionOf(env)) == Ok(d)
    requires js.Array? && x.ListValue? ==>
               (DecodeJsonAll(js.elems, d, project) == Ok(x.elems) <==>
                && |x.elems| == |js.elems|
                && forall i :: 0 <= i < |js.elems| ==> ReadsJson(js.elems[i], element, env, project, x.elems[i]))
    ensures JsonExact(js, List(element), env, project, x)
  {
    hide SubstitutionOf, DecodeJsonAll;
  }

  lemma {:induction false} ListExactly(js: Js, element: DamlType, env: Env, project: Project, x: Decoded)
    requires Within(env, project) && ScopedIn(element, env, project)
    ensures JsonExact(js, List(element), env, project, x)
    decreases js, 2, env, 0
  {
    hide DecodeJson, DecodeJsonAll, ReadsJson, SubstitutionOf, Within, ScopedIn;
    Compiles(element, env, project);
    var d := Compile(element, SubstitutionOf(env)).value;
    if js.Array? && x.ListValue? {
      forall i | 0 <= i < |js.elems| && i < |x.elems|
        ensures DecodeJson(js.elems[i], d, project) == Ok(x.elems[i])
           <==> ReadsJson(js.elems[i], element, env, project, x.elems[i])
      {
        ReadsJsonExactly(js.elems[i], element, env, project, x.elems[i]);
      }
      AllPointwise(js.elems, d, project, x.elems);
    }
    ListStep(js, element, d, env, project, x);
  }

  lemma {:induction false} AllPointwise(elems: seq<Js>, d: Descriptor, project: Project, xs: seq<Decoded>)
    ensures DecodeJsonAll(elems, d, project) == Ok(xs) <==>
            |xs| == |elems| && forall i :: 0 <= i < |elems| ==> DecodeJson(elems[i], d, project) == Ok(xs[i])
    decreases elems
  {
    hide DecodeJson;
    if elems != [] && xs != [] {
      AllPointwise(elems[1..], d, project, xs[1..]);
      assert xs == [xs[0]] + xs[1..];
      assert forall i :: 1 <= i < |elems| ==> elems[i] == elems[1..][i - 1];
      assert forall i :: 1 <= i < |xs| ==> xs[i] == xs[1..][i - 1];
    }
  }

  lemma TextMapStep(js: Js, t: DamlType, d: Descriptor, env: Env, project: Project, x: Decoded)
    requires Compile(t, SubstitutionOf(env)) == Ok(d)
    requires js.Object? && x.TextMapValue? ==>
               (DecodeJsonEntries(js.members, d, project) == Ok(x.entries) <==>
                && |x.entries| == |js.members|
                && forall i :: 0 <= i < |js.members| ==>
                     && x.entries[i].key == js.members[i].key
                     && ReadsJson(js.members[i].value, t, env, project, x.entries[i].value))
    ensures JsonExact(js, TextMap(t), env, project, x)
  {
    hide SubstitutionOf, DecodeJsonEntries;
  }

  lemma {:induction false} TextMapExactly(js: Js, t: DamlType, env: Env, project: Project, x: Decoded)
    requires Within(env, project) && ScopedIn(t, env, project)
    ensures JsonExact(js, TextMap(t), env, project, x)
    decreases js, 2, env, 0
  {
    hide DecodeJson, DecodeJsonEntries, ReadsJson, SubstitutionOf, Within, ScopedIn;
    Compiles(t, env, project);
    var d := Compile(t, SubstitutionOf(env)).value;
    if js.Object? && x.TextMapValue? {
      forall i | 0 <= i < |js.members| && i < |x.entries|
        ensures DecodeJson(js.members[i].value, d, project) == Ok(x.entries[i].value)
           <==> ReadsJson(js.members[i].value, t, env, project, x.entries[i].value)
      {
        ReadsJsonExactly(js.members[i].value, t, env, project, x.entries[i].value);
      }
      EntriesPointwise(js.members, d, project, x.entries);
    }
    TextMapStep(js, t, d, env, project, x);
  }

  lemma {:induction false} EntriesPointwise(entries: seq<Entry<Js>>, d: Descriptor, project: Project,
      xs: seq<Entry<Decoded>>)
    ensures DecodeJsonEntries(entries, d, project) == Ok(xs) <==>
            && |xs| == |entries|
            && forall i :: 0 <= i < |entries| ==>
                 xs[i].key == entries[i].key && DecodeJson(entries[i].value, d, project) == Ok(xs[i].value)
    decreases entries
  {
    hide DecodeJson;
    if entries != [] && xs != [] {
      EntriesPointwise(entries[1..], d, project, xs[1..]);
      assert xs == [xs[0]] + xs[1..];
      assert forall i :: 1 <= i < |entries| ==> entries[i] == entries[1..][i - 1];
      assert forall i :: 1 <= i < |xs| ==> xs[i] == xs[1..][i - 1];
    }
  }

  ghost predicate DecodedPair(js: Js, key: Descriptor, d: Descriptor, project: Project, x: Pair<Decoded>) {
    && js.Array? && |js.elems| == 2
    && DecodeJson(js.elems[0], key, project) == Ok(x.key) && DecodeJson(js.elems[1], d, project) == Ok(x.value)
  }

  lemma GenMapStep(js: Js, key: DamlType, t: DamlType, k: Descriptor, d: Descriptor, env: Env, project: Project,
      x: Decoded)
    requires Compile(key, SubstitutionOf(env)) == Ok(k) && Compile(t, SubstitutionOf(env)) == Ok(d)
    requires js.Array? && x.GenMapValue? ==>
               (DecodeJsonPairs(js.elems, k, d, project) == Ok(x.pairs) <==>
                && |x.pairs| == |js.elems|
                && forall i :: 0 <= i < |js.elems| ==> ReadsJsonPair(js.elems[i], key, t, env, project, x.pairs[i]))
    ensures JsonExact(js, GenMap(key, t), env, project, x)
  {
    hide SubstitutionOf, DecodeJsonPairs, ReadsJsonPair;
  }

  lemma {:induction false} GenMapExactly(js: Js, key: DamlType, t: DamlType, env: Env, project: Project, x: Decoded)
    requires Within(env, project) && ScopedIn(key, env, project) && ScopedIn(t, env, project)
    ensures JsonExact(js, GenMap(key, t), env, project, x)
    decreases js, 2, env, 0
  {
    hide DecodedPair, DecodeJsonPairs, ReadsJsonPair, SubstitutionOf, Within, ScopedIn, JsonExact;
    Compiles(key, env, project);
    Compiles(t, env, project);
    var k, d := Compile(key, SubstitutionOf(env)).value, Compile(t, SubstitutionOf(env)).value;
    if js.Array? && x.GenMapValue? {
      forall i | 0 <= i < |js.elems| && i < |x.pairs|
        ensures DecodedPair(js.elems[i], k, d, project, x.pairs[i])
           <==> ReadsJsonPair(js.elems[i], key, t, env, project, x.pairs[i])
      {
        PairExactly(js.elems[i], key, t, env, project, x.pairs[i]);
      }
      PairsPointwise(js.elems, k, d, project, x.pairs);
    }
    GenMapStep(js, key, t, k, d, env, project, x);
  }

  lemma {:induction false} PairExactly(js: Js, key: DamlType, t: DamlType, env: Env, project: Project, x: Pair<Decoded>)
    requires Within(env, project) && ScopedIn(key, env, project) && ScopedIn(t, env, project)
    ensures Compile(key, SubstitutionOf(env)).Ok? && Compile(t, SubstitutionOf(env)).Ok?
    ensures var k, d := Compile(key, SubstitutionOf(env)).value, Compile(t, SubstitutionOf(env)).value;
            DecodedPair(js, k, d, project, x) <==> ReadsJsonPair(js, key, t, env, project, x)
    decreases js, 0, env, 0
  {
    hide DecodeJson, ReadsJson, SubstitutionOf, Compile, Within, ScopedIn;
    Compiles(key, env, project);
    Compiles(t, env, project);
    if js.Array? && |js.elems| == 2 {
      ReadsJsonExactly(js.elems[0], key, env, project, x.key);
      ReadsJsonExactly(js.elems[1], t, env, project, x.value);
    }
  }

  lemma PairsStep(elems: seq<Js>, key: Descriptor, d: Descriptor, project: Project, xs: seq<Pair<Decoded>>)
    requires elems != [] && xs != []
    ensures DecodeJsonPairs(elems, key, d, project) == Ok(xs) <==>
            && DecodedPair(elems[0], key, d, project, xs[0])
            && DecodeJsonPairs(elems[1..], key, d, project) == Ok(xs[1..])
  {
    hide DecodeJson;
    assert xs == [xs[0]] + xs[1..];
  }

  lemma {:induction false} PairsPointwise(elems: seq<Js>, key: Descriptor, d: Descriptor, project: Project,
      xs: seq<Pair<Decoded>>)
    ensures DecodeJsonPairs(elems, key, d, project) == Ok(xs) <==>
            |xs| == |elems| && forall i :: 0 <= i < |elems| ==> DecodedPair(elems[i], key, d, project, xs[i])
    decreases elems
  {
    hide DecodedPair;
    if elems != [] && xs != [] {
      hide DecodeJsonPairs;
      PairsStep(elems, key, d, project, xs);
      PairsPointwise(elems[1..], key, d, project, xs[1..]);
      assert forall i :: 1 <= i < |elems| ==> elems[i] == elems[1..][i - 1];
      assert forall i :: 1 <= i < |xs| ==> xs[i] == xs[1..][i - 1];
    }
  }

  // ----- variables -----

  lemma {:induction false} VariableExactly(js: Js, variable: VarKey, env: Env, project: Project, x: Decoded)
    requires Within(env, project) && ScopedIn(Var(variable), env, project)
    ensures JsonExact(js, Var(variable), env, project, x)
    decreases js, 5, env, Var(variable), 0
  {
    hide DecodeJson;
    EnvCompiles(env, project.definitions);
    EnvCompiles(env.outer, project.definitions);
    var s := SubstitutionOf(env.outer);
    ScopedAllCompile(env.arguments, ScopeIn(env.outer), project.definitions, s);
    var i := Slot(env.parameters, variable.index);
    SlotScopes(env.parameters, map[], variable.index);
    SlotBinds(env.parameters, CompileAll(env.arguments, s).value, map[], variable.index);
    InlineWeaker(env.arguments[i], ScopeIn(env.outer), project.definitions);
    ReadsJsonExactly(js, env.arguments[i], env.outer, project, x);
  }

  // ----- records -----

  ghost predicate DecodedAt(js: Js, position: nat, d: FieldDescriptor, project: Project, out: Entry<Decoded>) {
    && out.key == d.propertyName
    && if js.Array? then position < |js.elems| && DecodeJson(js.elems[position], d.ty, project) == Ok(out.value)
       else js.Object? && exists i :: IsFirst(js.members, d.damlLabel, i)
                                      && DecodeJson(js.members[i].value, d.ty, project) == Ok(out.value)
  }

  ghost predicate DecodedFields(js: Js, ds: seq<FieldDescriptor>, project: Project, output: seq<Entry<Decoded>>) {
    |output| == |ds| && forall j :: 0 <= j < |ds| ==> DecodedAt(js, j, ds[j], project, output[j])
  }

  lemma {:induction false} LabelsPointwise(js: Js, ds: seq<FieldDescriptor>, project: Project,
      output: seq<Entry<Decoded>>)
    requires js.Object? || js.JsMap?
    ensures DecodeLabelled(js, ds, project) == Ok(output) <==> DecodedFields(js, ds, project, output)
    decreases ds
  {
    hide DecodeJson;
    if ds != [] && output != [] && js.Object? {
      var i := Find(js.members, ds[0].damlLabel);
      assert DecodedAt(js, 0, ds[0], project, output[0]) <==>
             output[0].key == ds[0].propertyName && i >= 0
             && DecodeJson(js.members[i].value, ds[0].ty, project) == Ok(output[0].value);
      LabelsPointwise(js, ds[1..], project, output[1..]);
      assert output == [output[0]] + output[1..];
      forall j | 1 <= j < |ds| && j < |output|
        ensures DecodedAt(js, j, ds[j], project, output[j])
           <==> DecodedAt(js, j - 1, ds[1..][j - 1], project, output[1..][j - 1])
      {
      }
    }
  }

  lemma {:induction false} PositionsPointwise(elems: seq<Js>, ds: seq<FieldDescriptor>, project: Project,
      output: seq<Entry<Decoded>>)
    requires |elems| == |ds|
    ensures DecodePositional(elems, ds, project) == Ok(output) <==>
            && |output| == |ds|
            && forall j :: 0 <= j < |ds| ==>
                 output[j].key == ds[j].propertyName && DecodeJson(elems[j], ds[j].ty, project) == Ok(output[j].value)
    decreases elems
  {
    hide DecodeJson;
    if elems != [] && output != [] {
      PositionsPointwise(elems[1..], ds[1..], project, output[1..]);
      assert output == [output[0]] + output[1..];
      assert forall j :: 1 <= j < |ds| ==> elems[j] == elems[1..][j - 1] && ds[j] == ds[1..][j - 1];
      assert forall j :: 1 <= j < |output| ==> output[j] == output[1..][j - 1];
    }
  }

  /** The shapes a record is read from: all its positions, or labels of its fields only. */
  ghost predicate RecordShape(js: Js, ds: seq<FieldDescriptor>) {
    && (js.Array? ==> |js.elems| == |ds|)
    && (js.Array? || js.JsMap? || js.Object?)
    && (js.Object? ==> forall k :: 0 <= k < |js.members| ==> HasLabel(ds, js.members[k].key))
  }

  lemma RecordPointwise(js: Js, ds: seq<FieldDescriptor>, project: Project, output: seq<Entry<Decoded>>)
    requires RecordShape(js, ds)
    ensures var decoded := if js.Array? then DecodePositional(js.elems, ds, project)
                           else DecodeLabelled(js, ds, project);
            decoded == Ok(output) <==> DecodedFields(js, ds, project, output)
  {
    hide DecodeJson, DecodeLabelled, DecodePositional;
    if js.Array? {
      PositionsPointwise(js.elems, ds, project, output);
    } else {
      LabelsPointwise(js, ds, project, output);
    }
  }

  lemma RecordStep(js: Js, ds: seq<FieldDescriptor>, project: Project, x: Decoded)
    ensures DecodeJson(js, DRecord(ds), project) == Ok(x) <==>
            && RecordShape(js, ds) && x.RecordValue?
            && var output := if js.Array? then DecodePositional(js.elems, ds, project)
                             else DecodeLabelled(js, ds, project);
               output.Ok? && x.fields == PutAll([], output.value)
  {
    hide DecodePositional, DecodeLabelled, PutAll, HasLabel;
  }

  lemma {:induction false} FieldExactly(js: Js, j: nat, field: Field, renamed: Field, d: FieldDescriptor,
      owner: Option<Identity>, env: Env, project: Project, out: Entry<Decoded>)
    requires Within(env, project) && ScopedIn(field.ty, env, project)
    requires NamedAsAt(project, owner, j, field, renamed)
    requires d.damlLabel == renamed.damlLabel && d.propertyName == renamed.propertyName
    requires Compile(field.ty, SubstitutionOf(env)) == Ok(d.ty)
    ensures DecodedAt(js, j, d, project, out) <==>
            IsProperty(project.files, owner, j, field.propertyName, out.key)
            && ReadsJsonField(js, j, field, env, project, out.value)
    decreases js, 0, env, 0
  {
    hide DecodeJson, ReadsJson, IsProperty, SubstitutionOf, Within, ScopedIn;
    if js.Array? {
      if j < |js.elems| {
        ReadsJsonExactly(js.elems[j], field.ty, env, project, out.value);
      }
    } else if js.Object? {
      forall i | 0 <= i < |js.members|
        ensures DecodeJson(js.members[i].value, d.ty, project) == Ok(out.value)
           <==> ReadsJson(js.members[i].value, field.ty, env, project, out.value)
      {
        ReadsJsonExactly(js.members[i].value, field.ty, env, project, out.value);
      }
    }
  }

  lemma {:induction false} FieldsExactly(js: Js, fields: seq<Field>, renamed: seq<Field>, owner: Option<Identity>,
      env: Env, project: Project, output: seq<Entry<Decoded>>)
    requires Within(env, project) && ScopedFields(renamed, ScopeIn(env), project.definitions)
    requires NamedAs(project, owner, fields, renamed)
    ensures CompileFields(renamed, SubstitutionOf(env)).Ok?
    ensures DecodedFields(js, CompileFields(renamed, SubstitutionOf(env)).value, project, output)
       <==> ReadsJsonFields(js, fields, owner, env, project, output)
    decreases js, 0, env, 1
  {
    hide DecodedAt, ReadsJsonField, IsProperty;
    EnvCompiles(env, project.definitions);
    ScopedFieldsCompile(renamed, ScopeIn(env), project.definitions, SubstitutionOf(env));
    var ds := CompileFields(renamed, SubstitutionOf(env)).value;
    forall j | 0 <= j < |fields| && j < |output|
      ensures DecodedAt(js, j, ds[j], project, output[j]) <==>
              IsProperty(project.files, owner, j, fields[j].propertyName, output[j].key)
              && ReadsJsonField(js, j, fields[j], env, project, output[j].value)
    {
      assert NamedAsAt(project, owner, j, fields[j], renamed[j]);
      FieldExactly(js, j, fields[j], renamed[j], ds[j], owner, env, project, output[j]);
    }
  }

  lemma ShapeOfFields(js: Js, fields: seq<Field>, ds: seq<FieldDescriptor>)
    requires |ds| == |fields| && forall j :: 0 <= j < |ds| ==> ds[j].damlLabel == fields[j].damlLabel
    ensures RecordShape(js, ds) <==>
            && (js.Array? ==> |js.elems| == |fields|)
            && (js.Array? || js.JsMap? || js.Object?)
            && (js.Object? ==> forall k :: 0 <= k < |js.members| ==> HasField(fields, js.members[k].key))
  {
    forall name
      ensures HasLabel(ds, name) <==> HasField(fields, name)
    {
      if j :| 0 <= j < |fields| && fields[j].damlLabel == name {
        assert ds[j].damlLabel == name;
      }
    }
  }

  lemma {:induction false} RecordExactly(js: Js, fields: seq<Field>, renamed: seq<Field>, owner: Option<Identity>,
      env: Env, project: Project, x: Decoded)
    requires Within(env, project) && ScopedFields(renamed, ScopeIn(env), project.definitions)
    requires NamedAs(project, owner, fields, renamed)
    ensures CompileFields(renamed, SubstitutionOf(env)).Ok?
    ensures DecodeJson(js, DRecord(CompileFields(renamed, SubstitutionOf(env)).value), project) == Ok(x)
       <==> x.RecordValue? && ReadsJsonRecord(js, fields, owner, env, project, x.fields)
    decreases js, 1, env, 0
  {
    hide DecodedFields, ReadsJsonFields, PutAll, DecodeJson, DecodePositional, DecodeLabelled, HasLabel, Scoped,
      SubstitutionOf;
    EnvCompiles(env, project.definitions);
    ScopedFieldsCompile(renamed, ScopeIn(env), project.definitions, SubstitutionOf(env));
    var ds := CompileFields(renamed, SubstitutionOf(env)).value;
    ShapeOfFields(js, fields, ds);
    RecordStep(js, ds, project, x);
    if RecordShape(js, ds) {
      var decoded := if js.Array? then DecodePositional(js.elems, ds, project) else DecodeLabelled(js, ds, project);
      forall output
        ensures decoded == Ok(output) <==> ReadsJsonFields(js, fields, owner, env, project, output)
      {
        RecordPointwise(js, ds, project, output);
        FieldsExactly(js, fields, renamed, owner, env, project, output);
      }
      if decoded.Ok? {
        assert ReadsJsonFields(js, fields, owner, env, project, decoded.value);
      }
    }
  }

  /** A record type written in place or named. */
  lemma {:induction false} RecordTypeExactly(js: Js, fields: seq<Field>, renamed: seq<Field>,
      owner: Option<Identity>, env: Env, project: Project, x: Decoded)
    requires Within(env, project) && ScopedFields(renamed, ScopeIn(env), project.definitions)
    requires NamedAs(project, owner, fields, renamed)
    ensures Compile(Record(renamed), SubstitutionOf(env)).Ok?
    ensures DecodeJson(js, Compile(Record(renamed), SubstitutionOf(env)).value, project) == Ok(x)
       <==> x.RecordValue? && ReadsJsonRecord(js, fields, owner, env, project, x.fields)
    decreases js, 2, env, 0
  {
    hide DecodeJson, ReadsJsonRecord, Scoped, SubstitutionOf;
    RecordExactly(js, fields, renamed, owner, env, project, x);
  }

  lemma {:induction false} InlineRecordExactly(js: Js, fields: seq<Field>, env: Env, project: Project, x: Decoded)
    requires Within(env, project) && ScopedIn(Record(fields), env, project)
    ensures JsonExact(js, Record(fields), env, project, x)
    decreases js, 3, env, 0
  {
    hide DecodeJson, ReadsJsonRecord, Compile;
    assert NamedAs(project, None, fields, fields);
    RecordTypeExactly(js, fields, fields, None, env, project, x);
  }

  // ----- variants and references -----

  lemma VariantStep(js: Js, ds: seq<ConstructorDescriptor>, project: Project, x: Decoded)
    ensures DecodeJson(js, DVariant(ds), project) == Ok(x) <==>
            && js.Object? && x.VariantValue?
            && var tag, payload := Find(js.members, "tag"), Find(js.members, "value");
               && tag >= 0 && payload >= 0 && js.members[tag].value == JsValues.Text(x.constructor_)
               && var c := FindConstructor(ds, x.constructor_);
                  c >= 0 && DecodeJson(js.members[payload].value, ds[c].payload, project) == Ok(x.value)
  {
  }

  lemma VariantReads(js: Js, constructors: seq<Constructor>, env: Env, project: Project, name: string, x: Decoded)
    requires DistinctNames(constructors)
    ensures ReadsJsonVariant(js, constructors, env, project, name, x) <==>
            && js.Object?
            && var tag, payload := Find(js.members, "tag"), Find(js.members, "value");
               && tag >= 0 && payload >= 0 && js.members[tag].value == JsValues.Text(name)
               && exists c :: 0 <= c < |constructors| && constructors[c].name == name
                              && ReadsJson(js.members[payload].value, constructors[c].payload, env, project, x)
  {
    hide ReadsJson, IsFirst;
    if js.Object? {
      FirstIsFound(js.members, "tag");
      FirstIsFound(js.members, "value");
    }
  }

  lemma {:induction false} VariantTypeExactly(js: Js, constructors: seq<Constructor>, env: Env, project: Project,
      x: Decoded)
    requires Within(env, project) && ScopedIn(Variant(constructors), env, project)
    ensures Compile(Variant(constructors), SubstitutionOf(env)).Ok?
    ensures DecodeJson(js, Compile(Variant(constructors), SubstitutionOf(env)).value, project) == Ok(x)
       <==> x.VariantValue? && ReadsJsonVariant(js, constructors, env, project, x.constructor_, x.value)
    decreases js, 2, env, 0
  {
    hide DecodeJson, ReadsJson, ReadsJsonVariant, SubstitutionOf;
    EnvCompiles(env, project.definitions);
    ScopedConstructorsCompile(constructors, ScopeIn(env), project.definitions, SubstitutionOf(env));
    var ds := CompileConstructors(constructors, SubstitutionOf(env)).value;
    VariantStep(js, ds, project, x);
    if x.VariantValue? {
      VariantReads(js, constructors, env, project, x.constructor_, x.value);
    }
    if js.Object? && x.VariantValue? {
      var payload, c := Find(js.members, "value"), FindConstructor(ds, x.constructor_);
      if payload >= 0 && c >= 0 {
        ReadsJsonExactly(js.members[payload].value, constructors[c].payload, env, project, x.value);
      }
    }
  }

  lemma {:induction false} InlineVariantExactly(js: Js, constructors: seq<Constructor>, env: Env, project: Project,
      x: Decoded)
    requires Within(env, project) && ScopedIn(Variant(constructors), env, project)
    ensures JsonExact(js, Variant(constructors), env, project, x)
    decreases js, 3, env, 0
  {
    hide DecodeJson, ReadsJsonVariant, Compile;
    VariantTypeExactly(js, constructors, env, project, x);
  }

  lemma EnumValueExactly(js: Js, names: seq<string>, s: map<int, Descriptor>, project: Project, x: Decoded)
    ensures Compile(Enum(names), s).Ok?
    ensures DecodeJson(js, Compile(Enum(names), s).value, project) == Ok(x)
       <==> js.Text? && js.s in names && x == EnumValue(js.s)
  {
  }

  lemma {:induction false} NamedRecordExactly(js: Js, identity: Identity, fields: seq<Field>, inside: Env,
      project: Project, x: Decoded)
    requires Within(inside, project)
    requires ScopedIn(Record(RenameFields(identity, fields, MergedNames(project.files))), inside, project)
    ensures var body := Record(RenameFields(identity, fields, MergedNames(project.files)));
            var d := Compile(body, SubstitutionOf(inside));
            d.Ok? && (DecodeJson(js, d.value, project) == Ok(x) <==>
                      x.RecordValue? && ReadsJsonRecord(js, fields, Some(identity), inside, project, x.fields))
    decreases js, 3, inside, 0
  {
    hide DecodeJson, ReadsJsonRecord, NamedAs, SubstitutionOf, Compile, RenameFields, MergedNames;
    BodyIsNamed(project, identity, fields);
    var renamed := RenameFields(identity, fields, MergedNames(project.files));
    RecordTypeExactly(js, fields, renamed, Some(identity), inside, project, x);
  }

  lemma {:induction false} DefinitionExactly(js: Js, identity: Identity, definition: Definition,
      arguments: seq<DamlType>, env: Env, project: Project, x: Decoded)
    requires identity in project.definitions && project.definitions[identity] == definition
    requires Within(Bound(definition.Parameters(), arguments, env), project)
    requires ScopedIn(Body(identity, definition, MergedNames(project.files)),
                      Bound(definition.Parameters(), arguments, env), project)
    ensures var d := Compile(Body(identity, definition, MergedNames(project.files)),
                             SubstitutionOf(Bound(definition.Parameters(), arguments, env)));
            d.Ok? && (DecodeJson(js, d.value, project) == Ok(x)
                      <==> ReadsJsonDefinition(js, identity, definition, arguments, env, project, x))
    decreases js, 3, Bound(definition.Parameters(), arguments, env), 1
  {
    hide DecodeJson, ReadsJsonRecord, ReadsJsonVariant, SubstitutionOf, Compile, RenameFields, MergedNames, Within,
      ScopedIn;
    var inside := Bound(definition.Parameters(), arguments, env);
    match definition
    case RecordDefinition(_, fields) => NamedRecordExactly(js, identity, fields, inside, project, x);
    case VariantDefinition(_, constructors) => VariantTypeExactly(js, constructors, inside, project, x);
    case EnumDefinition(names) => EnumValueExactly(js, names, SubstitutionOf(inside), project, x);
  }

  lemma ReferenceDecodes(js: Js, identity: Identity, arguments: seq<Descriptor>, project: Project)
    requires Resolve(project, identity, arguments).Ok?
    ensures DecodeJson(js, DRef(identity, arguments), project)
         == DecodeJson(js, Resolve(project, identity, arguments).value, project)
  {
    hide Resolve;
  }

  lemma {:induction false} ReferenceExactly(js: Js, identity: Identity, arguments: seq<DamlType>, env: Env,
      project: Project, x: Decoded)
    requires Within(env, project) && ScopedIn(Ref(identity, arguments), env, project)
    ensures JsonExact(js, Ref(identity, arguments), env, project, x)
    decreases js, 4, env, 0
  {
    hide DecodeJson, Resolve, ReadsJsonDefinition, SubstitutionOf, Body;
    EntersDefinition(identity, arguments, env, project);
    ReferenceDecodes(js, identity, CompileAll(arguments, SubstitutionOf(env)).value, project);
    DefinitionExactly(js, identity, project.definitions[identity], arguments, env, project, x);
  }

  /** For every closed type: the JSON decoder returns `x` exactly for the JSON values of the type that mean `x`. */
  lemma DecodesExactly(js: Js, t: DamlType, project: Project, x: Decoded)
    requires WellFormed(project) && Scoped(t, map[], project.definitions, true)
    ensures var d := Compile(t, map[]);
            d.Ok? && (DecodeJson(js, d.value, project) == Ok(x) <==> ReadsJson(js, t, Empty, project, x))
  {
    hide DecodeJson, ReadsJson, Compile, Scoped, WellFormed, Within, ScopedIn, SubstitutionOf;
    ClosedIsWithin(t, project);
    ReadsJsonExactly(js, t, Empty, project, x);
  }
}
