/** The protobuf decoder is exact: it accepts the values a type has, and returns what each of them means. */
module ProtobufTyping {
  import opened Wrappers
  import opened Decimals
  import opened JsValues
  import opened DamlTypes
  import opened DescriptorCompiler
  import opened LedgerValues
  import opened ValueConverter
  import opened ProtobufConverter
  import opened ScopedTypes
  import opened DecoderAgreement
  import opened LedgerTyping
  import DamlNumerics

  // ----- type arguments as descriptors -----

  /** The substitution the descriptor factories build for type arguments in force. */
  function SubstitutionOf(env: Env): map<int, Descriptor>
    decreases env
  {
    if env.Empty? || |env.parameters| != |env.arguments| then map[]
    else
      var ds := CompileAll(env.arguments, SubstitutionOf(env.outer));
      if ds.Ok? then BindIndices(map[], env.parameters, ds.value) else map[]
  }

  function ScopeIn(env: Env): Scope {
    if env.Empty? then map[] else ScopeOf(env.parameters)
  }

  ghost predicate ScopedEnv(env: Env, definitions: Definitions)
    decreases env
  {
    env.Bound? ==>
      && |env.parameters| == |env.arguments|
      && ScopedAll(env.arguments, ScopeIn(env.outer), definitions)
      && ScopedEnv(env.outer, definitions)
  }

  /** The first parameter's slot, seen from the rest. */
  lemma SlotCons(parameters: seq<VarKey>, index: int)
    requires parameters != []
    ensures var rest := Slot(parameters[1..], index);
            Slot(parameters, index) == if rest >= 0 then rest + 1 else if parameters[0].index == index then 0 else -1
  {
    var rest := parameters[1..];
    assert forall j :: 1 <= j < |parameters| ==> parameters[j] == rest[j - 1];
    var i := Slot(rest, index);
    assert i >= 0 ==> parameters[i + 1].index == index;
  }

  lemma {:induction false} SlotBinds(parameters: seq<VarKey>, ds: seq<Descriptor>, s: map<int, Descriptor>, index: int)
    requires |parameters| == |ds|
    ensures var i, bound := Slot(parameters, index), BindIndices(s, parameters, ds);
            && (index in bound <==> index in s || i >= 0)
            && (index in bound ==> bound[index] == if i >= 0 then ds[i] else s[index])
    decreases parameters
  {
    if parameters != [] {
      SlotCons(parameters, index);
      SlotBinds(parameters[1..], ds[1..], s[parameters[0].index := ds[0]], index);
    }
  }

  lemma {:induction false} SlotScopes(parameters: seq<VarKey>, scope: Scope, index: int)
    ensures var i, after := Slot(parameters, index), ScopeOf(parameters, scope);
            && (index in after <==> index in scope || i >= 0)
            && (index in after ==> after[index] == if i >= 0 then parameters[i] else scope[index])
    decreases parameters
  {
    if parameters != [] {
      SlotCons(parameters, index);
      SlotScopes(parameters[1..], scope[parameters[0].index := parameters[0]], index);
    }
  }

  lemma {:induction false} ScopedCompiles(t: DamlType, scope: Scope, definitions: Definitions, inline: bool,
      s: map<int, Descriptor>)
    requires Scoped(t, scope, definitions, inline) && scope.Keys <= s.Keys
    ensures Compile(t, s).Ok?
    decreases t
  {
    match t
    case Optional(element) => ScopedCompiles(element, scope, definitions, inline, s);
    case List(element) => ScopedCompiles(element, scope, definitions, inline, s);
    case TextMap(value) => ScopedCompiles(value, scope, definitions, inline, s);
    case GenMap(key, value) =>
      ScopedCompiles(key, scope, definitions, inline, s);
      ScopedCompiles(value, scope, definitions, inline, s);
    case Record(fields) => ScopedFieldsCompile(fields, scope, definitions, s);
    case Variant(constructors) => ScopedConstructorsCompile(constructors, scope, definitions, s);
    case Ref(_, arguments) => ScopedAllCompile(arguments, scope, definitions, s);
    case _ =>
  }

  lemma {:induction false} ScopedAllCompile(ts: seq<DamlType>, scope: Scope, definitions: Definitions,
      s: map<int, Descriptor>)
    requires ScopedAll(ts, scope, definitions) && scope.Keys <= s.Keys
    ensures CompileAll(ts, s).Ok?
    ensures forall i :: 0 <= i < |ts| ==>
              Compile(ts[i], s) == Ok(CompileAll(ts, s).value[i]) && Scoped(ts[i], scope, definitions, false)
    decreases ts
  {
    if ts != [] {
      ScopedCompiles(ts[0], scope, definitions, false, s);
      ScopedAllCompile(ts[1..], scope, definitions, s);
      assert CompileAll(ts, s).value[1..] == CompileAll(ts[1..], s).value;
    }
  }

  lemma {:induction false} ScopedFieldsCompile(fields: seq<Field>, scope: Scope, definitions: Definitions,
      s: map<int, Descriptor>)
    requires ScopedFields(fields, scope, definitions) && scope.Keys <= s.Keys
    ensures CompileFields(fields, s).Ok?
    ensures forall i :: 0 <= i < |fields| ==>
              var d := CompileFields(fields, s).value[i];
              && d.damlLabel == fields[i].damlLabel && d.propertyName == fields[i].propertyName
              && Compile(fields[i].ty, s) == Ok(d.ty) && Scoped(fields[i].ty, scope, definitions, true)
    decreases fields
  {
    if fields != [] {
      ScopedCompiles(fields[0].ty, scope, definitions, true, s);
      ScopedFieldsCompile(fields[1..], scope, definitions, s);
      assert CompileFields(fields, s).value[1..] == CompileFields(fields[1..], s).value;
    }
  }

  lemma {:induction false} ScopedConstructorsCompile(constructors: seq<Constructor>, scope: Scope,
      definitions: Definitions, s: map<int, Descriptor>)
    requires ScopedConstructors(constructors, scope, definitions) && scope.Keys <= s.Keys
    ensures CompileConstructors(constructors, s).Ok?
    ensures forall i :: 0 <= i < |constructors| ==>
              var d := CompileConstructors(constructors, s).value[i];
              && d.name == constructors[i].name && Compile(constructors[i].payload, s) == Ok(d.payload)
              && Scoped(constructors[i].payload, scope, definitions, true)
    decreases constructors
  {
    if constructors != [] {
      ScopedCompiles(constructors[0].payload, scope, definitions, true, s);
      ScopedConstructorsCompile(constructors[1..], scope, definitions, s);
      assert CompileConstructors(constructors, s).value[1..] == CompileConstructors(constructors[1..], s).value;
    }
  }

  /** Every variable in scope has the descriptor of the argument in its slot. */
  lemma EnvCompiles(env: Env, definitions: Definitions)
    requires ScopedEnv(env, definitions)
    ensures ScopeIn(env).Keys <= SubstitutionOf(env).Keys
    ensures env.Bound? ==>
              && CompileAll(env.arguments, SubstitutionOf(env.outer)).Ok?
              && SubstitutionOf(env)
                 == BindIndices(map[], env.parameters, CompileAll(env.arguments, SubstitutionOf(env.outer)).value)
    decreases env
  {
    if env.Bound? {
      EnvCompiles(env.outer, definitions);
      ScopedAllCompile(env.arguments, ScopeIn(env.outer), definitions, SubstitutionOf(env.outer));
      var ds := CompileAll(env.arguments, SubstitutionOf(env.outer)).value;
      forall index <- ScopeIn(env).Keys
        ensures index in SubstitutionOf(env)
      {
        SlotScopes(env.parameters, map[], index);
        SlotBinds(env.parameters, ds, map[], index);
      }
    }
  }

  // ----- property names -----

  lemma {:induction false} MergedExactly(files: seq<NamedTypeFile>, key: (Identity, nat), f: nat)
    requires FilesPartition(files) && f < |files| && key in files[f].fieldPropertyNames
    ensures key in MergedNames(files) && MergedNames(files)[key] == files[f].fieldPropertyNames[key]
    decreases files
  {
    if f == 0 {
      if key in MergedNames(files[1..]) {
        var g := MergedFrom(files[1..], key);
        assert false;
      }
    } else {
      MergedExactly(files[1..], key, f - 1);
    }
  }

  lemma {:induction false} RenamedAt(identity: Identity, fields: seq<Field>, names: FieldNames, index: nat, j: nat)
    requires j < |fields|
    ensures RenameFields(identity, fields, names, index)[j].propertyName
         == if (identity, index + j) in names then names[(identity, index + j)] else fields[j].propertyName
    decreases fields
  {
    var rest := RenameFields(identity, fields[1..], names, index + 1);
    var name := if (identity, index) in names then names[(identity, index)] else fields[0].propertyName;
    assert RenameFields(identity, fields, names, index) == [fields[0].(propertyName := name)] + rest;
    hide RenameFields;
    if j > 0 {
      RenamedAt(identity, fields[1..], names, index + 1, j - 1);
    }
  }

  ghost predicate NamedAs(project: Project, owner: Option<Identity>, fields: seq<Field>, renamed: seq<Field>) {
    && |renamed| == |fields|
    && forall j :: 0 <= j < |fields| ==> NamedAsAt(project, owner, j, fields[j], renamed[j])
  }

  ghost predicate NamedAsAt(project: Project, owner: Option<Identity>, j: nat, field: Field, renamed: Field) {
    && renamed.damlLabel == field.damlLabel && renamed.ty == field.ty
    && forall name :: IsProperty(project.files, owner, j, field.propertyName, name) <==> name == renamed.propertyName
  }

  /** The registry's records carry exactly the names their file gives their fields. */
  lemma BodyIsNamed(project: Project, identity: Identity, fields: seq<Field>)
    requires FilesPartition(project.files)
    ensures NamedAs(project, Some(identity), fields, RenameFields(identity, fields, MergedNames(project.files)))
  {
    var names := MergedNames(project.files);
    var renamed := RenameFields(identity, fields, names);
    forall j | 0 <= j < |fields|
      ensures NamedAsAt(project, Some(identity), j, fields[j], renamed[j])
    {
      var key := (identity, j);
      RenamedAt(identity, fields, names, 0, j);
      if f: nat :| f < |project.files| && key in project.files[f].fieldPropertyNames {
        MergedExactly(project.files, key, f);
        forall g | 0 <= g < |project.files| && key in project.files[g].fieldPropertyNames
          ensures names[key] == project.files[g].fieldPropertyNames[key]
        {
          MergedExactly(project.files, key, g);
        }
      } else if key in names {
        var f := MergedFrom(project.files, key);
        assert false;
      } else {
        assert forall name :: IsProperty(project.files, Some(identity), j, fields[j].propertyName, name)
                         <==> name == fields[j].propertyName;
      }
    }
  }

  // ----- primitives -----

  lemma IntegerTexts(text: string)
    ensures forall i :: WritesInteger(text, i) <==> IsIntegerText(text) && IntegerValue(text) == i
  {
    forall i
      ensures WritesInteger(text, i) <==> IsIntegerText(text) && IntegerValue(text) == i
    {
      IntTextRoundTrip(i);
      assert "-0"[1..] == "0" && "0"[..0] == "";
      assert IntegerValue("-0") == 0;
      if IsIntegerText(text) {
        IntTextUnique(text);
      }
    }
  }

  lemma NumericTexts(text: string, scale: Option<int>, canonical: string)
    ensures DamlNumerics.DecodeNumeric(text, scale) == Ok(canonical) <==> ReadsNumeric(text, scale, canonical)
  {
    hide DamlNumerics.IsDamlNumeric, DamlNumerics.Canonicalize;
    if DamlNumerics.IsLedgerNumeric(text) {
      CanonicalText(text);
      DamlNumerics.CanonicalAccepted(text);
    }
  }

  lemma CanonicalText(text: string)
    requires DamlNumerics.IsLedgerNumeric(text)
    ensures var unsigned := DamlNumerics.Unsigned(text);
            var integer, fraction := DamlNumerics.IntegerPart(unsigned), DamlNumerics.FractionPart(unsigned);
            && text != ""
            && DamlNumerics.Canonicalize(text)
            == (if text[0] == '-' then "-" else "") + NatText(DigitsValue(integer))
               + if fraction == "" then "" else "." + fraction
  {
    hide DamlNumerics.FractionPart, DamlNumerics.CanonicalInteger, NatText, DigitsValue;
    var unsigned := DamlNumerics.Unsigned(text);
    IntegerPartCanonical(DamlNumerics.IntegerPart(unsigned));
  }

  lemma IntegerPartCanonical(integer: string)
    requires AllDigits(integer)
    ensures DamlNumerics.CanonicalInteger(integer) == NatText(DigitsValue(integer))
  {
    hide DamlNumerics.CanonicalInteger, NatText, DigitsValue;
    var canonical := DamlNumerics.CanonicalInteger(integer);
    DamlNumerics.CanonicalIntegerValue(integer, "");
    assert canonical + "" == canonical && integer + "" == integer;
    NatTextOfValue(canonical);
  }

  lemma Int64Exactly(v: PValue, scale: Option<int>, project: Project, x: Decoded)
    ensures DecodeProto(v, DPrim(Int64, scale), project) == Ok(x) <==> ReadsPrimitive(v, Int64, scale, x)
  {
    hide IsIntegerText, IntegerValue, WritesInteger, DamlNumerics.DecodeNumeric, DecodeTimestamp, DecodeDate,
      DecodeParty;
    if v.PInt64? {
      IntegerTexts(v.text);
    }
  }

  lemma TimestampExactly(v: PValue, scale: Option<int>, project: Project, x: Decoded)
    ensures DecodeProto(v, DPrim(Timestamp, scale), project) == Ok(x) <==> ReadsPrimitive(v, Timestamp, scale, x)
  {
    hide IsIntegerText, IntegerValue, WritesInteger, DamlNumerics.DecodeNumeric, DecodeInt64, DecodeDate, DecodeParty;
    if v.PTimestamp? {
      IntegerTexts(v.text);
      if IsIntegerText(v.text) {
        assert WritesInteger(v.text, IntegerValue(v.text));
      }
    }
  }

  lemma NumericExactly(v: PValue, scale: Option<int>, project: Project, x: Decoded)
    ensures DecodeProto(v, DPrim(Numeric, scale), project) == Ok(x) <==> ReadsPrimitive(v, Numeric, scale, x)
  {
    hide DamlNumerics.DecodeNumeric, ReadsNumeric, DecodeTimestamp, DecodeInt64, DecodeDate, DecodeParty;
    if v.PNumeric? && x.NumericValue? {
      NumericTexts(v.text, scale, x.text);
    }
  }

  lemma PlainExactly(v: PValue, builtin: Primitive, scale: Option<int>, project: Project, x: Decoded)
    requires builtin in {Unit, Bool, Date, Party, Primitive.Text}
    ensures DecodeProto(v, DPrim(builtin, scale), project) == Ok(x) <==> ReadsPrimitive(v, builtin, scale, x)
  {
    hide DamlNumerics.DecodeNumeric, DecodeTimestamp, DecodeInt64;
  }

  lemma PrimitiveExactly(v: PValue, builtin: Primitive, scale: Option<int>, project: Project, x: Decoded)
    ensures DecodeProto(v, DPrim(builtin, scale), project) == Ok(x) <==> ReadsPrimitive(v, builtin, scale, x)
  {
    hide DecodeProto, ReadsPrimitive;
    match builtin
    case Int64 => Int64Exactly(v, scale, project, x);
    case Timestamp => TimestampExactly(v, scale, project, x);
    case Numeric => NumericExactly(v, scale, project, x);
    case _ => PlainExactly(v, builtin, scale, project, x);
  }

  // ----- exactness -----

  ghost predicate Within(env: Env, project: Project) {
    WellFormed(project) && ScopedEnv(env, project.definitions)
  }

  ghost predicate ScopedIn(t: DamlType, env: Env, project: Project) {
    Scoped(t, ScopeIn(env), project.definitions, true)
  }

  /** The protobuf decoder's verdict and result are what typing says, whatever type arguments are in force. */
  ghost predicate Exact(v: PValue, t: DamlType, env: Env, project: Project, x: Decoded) {
    var d := Compile(t, SubstitutionOf(env));
    d.Ok? && (DecodeProto(v, d.value, project) == Ok(x) <==> Reads(v, t, env, project, x))
  }

  lemma {:induction false} ReadsExactly(v: PValue, t: DamlType, env: Env, project: Project, x: Decoded)
    requires Within(env, project) && ScopedIn(t, env, project)
    ensures Exact(v, t, env, project, x)
    decreases v, env, 5
  {
    hide DecodeProto, Reads;
    match t
    case Prim(builtin, scale) => PrimitiveTypeExactly(v, builtin, scale, env, project, x);
    case Optional(element) => OptionalExactly(v, element, env, project, x);
    case List(element) => ListExactly(v, element, env, project, x);
    case TextMap(value) => TextMapExactly(v, value, env, project, x);
    case GenMap(key, value) => GenMapExactly(v, key, value, env, project, x);
    case Record(fields) => InlineRecordExactly(v, fields, env, project, x);
    case Variant(constructors) => InlineVariantExactly(v, constructors, env, project, x);
    case Var(variable) => VariableExactly(v, variable, env, project, x);
    case Ref(identity, arguments) => ReferenceExactly(v, identity, arguments, env, project, x);
    case _ => LeafExactly(v, t, env, project, x);
  }

  lemma PrimitiveTypeExactly(v: PValue, builtin: Primitive, scale: Option<int>, env: Env, project: Project, x: Decoded)
    ensures Exact(v, Prim(builtin, scale), env, project, x)
  {
    hide ReadsPrimitive;
    PrimitiveExactly(v, builtin, scale, project, x);
  }

  lemma LeafExactly(v: PValue, t: DamlType, env: Env, project: Project, x: Decoded)
    requires t.ContractId? || t.Enum?
    ensures Exact(v, t, env, project, x)
  {
  }

  lemma Compiles(t: DamlType, env: Env, project: Project)
    requires Within(env, project) && ScopedIn(t, env, project)
    ensures Compile(t, SubstitutionOf(env)).Ok?
  {
    hide Compile, Scoped, SubstitutionOf;
    EnvCompiles(env, project.definitions);
    ScopedCompiles(t, ScopeIn(env), project.definitions, true, SubstitutionOf(env));
  }

  /** What is to be shown of `v` at a type follows from the decoder's and the relation's step at it. */
  lemma OptionalStep(v: PValue, element: DamlType, d: Descriptor, env: Env, project: Project, x: Decoded)
    requires Compile(element, SubstitutionOf(env)) == Ok(d)
    requires v.POptional? && v.value.Some? ==>
               (DecodeProto(v.value.value, d, project) == Ok(x) <==> Reads(v.value.value, element, env, project, x))
    ensures Exact(v, Optional(element), env, project, x)
  {
    hide SubstitutionOf;
  }

  lemma {:induction false} OptionalExactly(v: PValue, element: DamlType, env: Env, project: Project, x: Decoded)
    requires Within(env, project) && ScopedIn(element, env, project)
    ensures Exact(v, Optional(element), env, project, x)
    decreases v, env, 2
  {
    hide DecodeProto, Reads;
    Compiles(element, env, project);
    if v.POptional? && v.value.Some? {
      ReadsExactly(v.value.value, element, env, project, x);
    }
    OptionalStep(v, element, Compile(element, SubstitutionOf(env)).value, env, project, x);
  }

  lemma ListStep(v: PValue, element: DamlType, d: Descriptor, env: Env, project: Project, x: Decoded)
    requires Compile(element, SubstitutionOf(env)) == Ok(d)
    requires v.PList? && x.ListValue? ==>
               (DecodeProtoAll(v.elems, d, project) == Ok(x.elems) <==>
                && |x.elems| == |v.elems|
                && forall i :: 0 <= i < |v.elems| ==> Reads(v.elems[i], element, env, project, x.elems[i]))
    ensures Exact(v, List(element), env, project, x)
  {
    hide SubstitutionOf, DecodeProtoAll;
  }

  lemma {:induction false} ListExactly(v: PValue, element: DamlType, env: Env, project: Project, x: Decoded)
    requires Within(env, project) && ScopedIn(element, env, project)
    ensures Exact(v, List(element), env, project, x)
    decreases v, env, 2
  {
    hide DecodeProto, DecodeProtoAll, Reads, SubstitutionOf, Within, ScopedIn;
    Compiles(element, env, project);
    var d := Compile(element, SubstitutionOf(env)).value;
    if v.PList? && x.ListValue? {
      forall i | 0 <= i < |v.elems| && i < |x.elems|
        ensures DecodeProto(v.elems[i], d, project) == Ok(x.elems[i])
           <==> Reads(v.elems[i], element, env, project, x.elems[i])
      {

        ReadsExactly(v.elems[i], element, env, project, x.elems[i]);
      }
      AllPointwise(v.elems, d, project, x.elems);
    }
    ListStep(v, element, d, env, project, x);
  }

  lemma {:induction false} AllPointwise(elems: seq<PValue>, d: Descriptor, project: Project, xs: seq<Decoded>)
    ensures DecodeProtoAll(elems, d, project) == Ok(xs) <==>
            |xs| == |elems| && forall i :: 0 <= i < |elems| ==> DecodeProto(elems[i], d, project) == Ok(xs[i])
    decreases elems
  {
    hide DecodeProto;
    if elems != [] && xs != [] {
      AllPointwise(elems[1..], d, project, xs[1..]);
      assert xs == [xs[0]] + xs[1..];
      assert forall i :: 1 <= i < |elems| ==> elems[i] == elems[1..][i - 1];
      assert forall i :: 1 <= i < |xs| ==> xs[i] == xs[1..][i - 1];
    }
  }

  lemma {:induction false} EntryExactly(entry: PEntry, t: DamlType, env: Env, project: Project, x: Decoded)
    requires Within(env, project) && ScopedIn(t, env, project)
    ensures Compile(t, SubstitutionOf(env)).Ok?
    ensures DecodeEntry(entry, Compile(t, SubstitutionOf(env)).value, project) == Ok(x)
       <==> ReadsEntry(entry, t, env, project, x)
    decreases entry, env, 0
  {
    hide DecodeProto, Reads, SubstitutionOf, Compile, Within, ScopedIn;
    Compiles(t, env, project);
    if entry.value.Some? {
      ReadsExactly(entry.value.value, t, env, project, x);
    }
  }

  lemma TextMapStep(v: PValue, t: DamlType, d: Descriptor, env: Env, project: Project, x: Decoded)
    requires Compile(t, SubstitutionOf(env)) == Ok(d)
    requires v.PTextMap? && x.TextMapValue? ==>
               (DecodeProtoEntries(v.entries, d, project) == Ok(x.entries) <==>
                && |x.entries| == |v.entries|
                && forall i :: 0 <= i < |v.entries| ==>
                     && x.entries[i].key == v.entries[i].key
                     && ReadsEntry(v.entries[i], t, env, project, x.entries[i].value))
    ensures Exact(v, TextMap(t), env, project, x)
  {
    hide SubstitutionOf, DecodeProtoEntries, ReadsEntry;
  }

  lemma {:induction false} TextMapExactly(v: PValue, t: DamlType, env: Env, project: Project, x: Decoded)
    requires Within(env, project) && ScopedIn(t, env, project)
    ensures Exact(v, TextMap(t), env, project, x)
    decreases v, env, 2
  {
    hide DecodeEntry, DecodeProtoEntries, ReadsEntry, SubstitutionOf, Within, ScopedIn, Exact;
    Compiles(t, env, project);
    var d := Compile(t, SubstitutionOf(env)).value;
    if v.PTextMap? && x.TextMapValue? {
      forall i | 0 <= i < |v.entries| && i < |x.entries|
        ensures DecodeEntry(v.entries[i], d, project) == Ok(x.entries[i].value)
           <==> ReadsEntry(v.entries[i], t, env, project, x.entries[i].value)
      {
        EntryExactly(v.entries[i], t, env, project, x.entries[i].value);
      }
      EntriesPointwise(v.entries, d, project, x.entries);
    }
    TextMapStep(v, t, d, env, project, x);
  }

  lemma {:induction false} EntriesPointwise(entries: seq<PEntry>, d: Descriptor, project: Project,
      xs: seq<Entry<Decoded>>)
    ensures DecodeProtoEntries(entries, d, project) == Ok(xs) <==>
            && |xs| == |entries|
            && forall i :: 0 <= i < |entries| ==>
                 xs[i].key == entries[i].key && DecodeEntry(entries[i], d, project) == Ok(xs[i].value)
    decreases entries
  {
    hide DecodeEntry;
    if entries != [] && xs != [] {
      EntriesPointwise(entries[1..], d, project, xs[1..]);
      assert xs == [xs[0]] + xs[1..];
      assert forall i :: 1 <= i < |entries| ==> entries[i] == entries[1..][i - 1];
      assert forall i :: 1 <= i < |xs| ==> xs[i] == xs[1..][i - 1];
    }
  }

  lemma {:induction false} PairExactly(pair: PPair, key: DamlType, t: DamlType, env: Env, project: Project,
      x: Pair<Decoded>)
    requires Within(env, project) && ScopedIn(key, env, project) && ScopedIn(t, env, project)
    ensures Compile(key, SubstitutionOf(env)).Ok? && Compile(t, SubstitutionOf(env)).Ok?
    ensures var k, d := Compile(key, SubstitutionOf(env)).value, Compile(t, SubstitutionOf(env)).value;
            DecodePair(pair, k, d, project) == Ok(x) <==> ReadsPair(pair, key, t, env, project, x)
    decreases pair, env, 0
  {
    hide DecodeProto, Reads, SubstitutionOf, Compile, Within, ScopedIn;
    Compiles(key, env, project);
    Compiles(t, env, project);
    if pair.key.Some? && pair.value.Some? {
      ReadsExactly(pair.key.value, key, env, project, x.key);
      ReadsExactly(pair.value.value, t, env, project, x.value);
    }
  }

  lemma GenMapMeaning(v: PValue, key: DamlType, t: DamlType, env: Env, project: Project, x: Decoded)
    ensures Reads(v, GenMap(key, t), env, project, x) <==>
            && v.PGenMap? && x.GenMapValue? && |x.pairs| == |v.pairs|
            && forall i :: 0 <= i < |v.pairs| ==> ReadsPair(v.pairs[i], key, t, env, project, x.pairs[i])
  {
    hide ReadsPair;
  }

  lemma GenMapStep(v: PValue, key: DamlType, t: DamlType, k: Descriptor, d: Descriptor, env: Env, project: Project,
      x: Decoded)
    requires Compile(key, SubstitutionOf(env)) == Ok(k) && Compile(t, SubstitutionOf(env)) == Ok(d)
    requires v.PGenMap? && x.GenMapValue? ==>
               (DecodeProtoPairs(v.pairs, k, d, project) == Ok(x.pairs) <==>
                && |x.pairs| == |v.pairs|
                && forall i :: 0 <= i < |v.pairs| ==> ReadsPair(v.pairs[i], key, t, env, project, x.pairs[i]))
    ensures Exact(v, GenMap(key, t), env, project, x)
  {
    hide SubstitutionOf, DecodeProtoPairs, Reads, ReadsPair;
    GenMapMeaning(v, key, t, env, project, x);
  }

  lemma {:induction false} GenMapExactly(v: PValue, key: DamlType, t: DamlType, env: Env, project: Project, x: Decoded)
    requires Within(env, project) && ScopedIn(key, env, project) && ScopedIn(t, env, project)
    ensures Exact(v, GenMap(key, t), env, project, x)
    decreases v, env, 2
  {
    hide DecodePair, DecodeProtoPairs, ReadsPair, SubstitutionOf, Within, ScopedIn, Exact;
    Compiles(key, env, project);
    Compiles(t, env, project);
    var k, d := Compile(key, SubstitutionOf(env)).value, Compile(t, SubstitutionOf(env)).value;
    if v.PGenMap? && x.GenMapValue? {
      forall i | 0 <= i < |v.pairs| && i < |x.pairs|
        ensures DecodePair(v.pairs[i], k, d, project) == Ok(x.pairs[i])
           <==> ReadsPair(v.pairs[i], key, t, env, project, x.pairs[i])
      {
        PairExactly(v.pairs[i], key, t, env, project, x.pairs[i]);
      }
      PairsPointwise(v.pairs, k, d, project, x.pairs);
    }
    GenMapStep(v, key, t, k, d, env, project, x);
  }

  lemma {:induction false} PairsPointwise(pairs: seq<PPair>, key: Descriptor, d: Descriptor, project: Project,
      xs: seq<Pair<Decoded>>)
    ensures DecodeProtoPairs(pairs, key, d, project) == Ok(xs) <==>
            |xs| == |pairs| && forall i :: 0 <= i < |pairs| ==> DecodePair(pairs[i], key, d, project) == Ok(xs[i])
    decreases pairs
  {
    hide DecodePair;
    if pairs != [] && xs != [] {
      PairsPointwise(pairs[1..], key, d, project, xs[1..]);
      assert DecodeProtoPairs(pairs, key, d, project) == Ok(xs) <==>
             DecodePair(pairs[0], key, d, project) == Ok(xs[0])
             && DecodeProtoPairs(pairs[1..], key, d, project) == Ok(xs[1..]) by {
        assert xs == [xs[0]] + xs[1..];
      }
      hide DecodeProtoPairs;
      assert forall i :: 1 <= i < |pairs| ==> pairs[i] == pairs[1..][i - 1];
      assert forall i :: 1 <= i < |xs| ==> xs[i] == xs[1..][i - 1];
    }
  }

  lemma {:induction false} VariableExactly(v: PValue, variable: VarKey, env: Env, project: Project, x: Decoded)
    requires Within(env, project) && ScopedIn(Var(variable), env, project)
    ensures Exact(v, Var(variable), env, project, x)
    decreases v, env, 2
  {
    hide DecodeProto;
    EnvCompiles(env, project.definitions);
    EnvCompiles(env.outer, project.definitions);
    var s := SubstitutionOf(env.outer);
    ScopedAllCompile(env.arguments, ScopeIn(env.outer), project.definitions, s);
    var i := Slot(env.parameters, variable.index);
    SlotScopes(env.parameters, map[], variable.index);
    SlotBinds(env.parameters, CompileAll(env.arguments, s).value, map[], variable.index);
    InlineWeaker(env.arguments[i], ScopeIn(env.outer), project.definitions);
    ReadsExactly(v, env.arguments[i], env.outer, project, x);
  }

  // ----- records -----

  ghost predicate DecodedField(entries: seq<PEntry>, position: nat, d: FieldDescriptor, project: Project,
      out: Entry<Decoded>) {
    && out.key == d.propertyName
    && exists i :: 0 <= i < |entries| && (if Labelled(entries) then entries[i].key == d.damlLabel else i == position)
                   && DecodeEntry(entries[i], d.ty, project) == Ok(out.value)
  }

  ghost predicate DecodedFields(entries: seq<PEntry>, ds: seq<FieldDescriptor>, project: Project,
      output: seq<Entry<Decoded>>) {
    |output| == |ds| && forall j :: 0 <= j < |ds| ==> DecodedField(entries, j, ds[j], project, output[j])
  }

  lemma {:induction false} LabelsPointwise(entries: seq<PEntry>, ds: seq<FieldDescriptor>, project: Project,
      output: seq<Entry<Decoded>>)
    requires Labelled(entries) && DistinctEntries(entries)
    ensures DecodeByLabel(entries, ds, project) == Ok(output) <==> DecodedFields(entries, ds, project, output)
    decreases ds
  {
    hide DecodeEntry;
    if ds != [] && output != [] {
      var i := FindLabel(entries, ds[0].damlLabel);
      assert DecodedField(entries, 0, ds[0], project, output[0]) <==>
             output[0].key == ds[0].propertyName && i >= 0
             && DecodeEntry(entries[i], ds[0].ty, project) == Ok(output[0].value);
      LabelsPointwise(entries, ds[1..], project, output[1..]);
      assert output == [output[0]] + output[1..];
      forall j | 1 <= j < |ds| && j < |output|
        ensures DecodedField(entries, j, ds[j], project, output[j])
           <==> DecodedField(entries, j - 1, ds[1..][j - 1], project, output[1..][j - 1])
      {
      }
    }
  }

  lemma {:induction false} PositionsPointwise(entries: seq<PEntry>, ds: seq<FieldDescriptor>, project: Project,
      output: seq<Entry<Decoded>>)
    requires |entries| == |ds|
    ensures DecodeByPosition(entries, ds, project) == Ok(output) <==>
            && |output| == |ds|
            && forall j :: 0 <= j < |ds| ==>
                 && output[j].key == ds[j].propertyName
                 && DecodeEntry(entries[j], ds[j].ty, project) == Ok(output[j].value)
    decreases entries
  {
    hide DecodeEntry;
    if entries != [] && output != [] {
      PositionsPointwise(entries[1..], ds[1..], project, output[1..]);
      assert output == [output[0]] + output[1..];
      assert forall j :: 1 <= j < |ds| ==> entries[j] == entries[1..][j - 1] && ds[j] == ds[1..][j - 1];
      assert forall j :: 1 <= j < |output| ==> output[j] == output[1..][j - 1];
    }
  }

  lemma RecordPointwise(entries: seq<PEntry>, ds: seq<FieldDescriptor>, project: Project, output: seq<Entry<Decoded>>)
    ensures DecodeProtoRecord(entries, ds, project) == Ok(output) <==>
            && |entries| == |ds|
            && (Labelled(entries) ==> DistinctEntries(entries))
            && (Labelled(entries) || Unlabelled(entries))
            && DecodedFields(entries, ds, project, output)
  {
    hide DecodeEntry;
    LabelCount(entries);
    if Labelled(entries) {
      if DistinctEntries(entries) {
        LabelsPointwise(entries, ds, project, output);
      }
    } else if |entries| == |ds| {
      PositionsPointwise(entries, ds, project, output);
      forall j | 0 <= j < |ds| && j < |output|
        ensures DecodedField(entries, j, ds[j], project, output[j]) <==>
                output[j].key == ds[j].propertyName && DecodeEntry(entries[j], ds[j].ty, project) == Ok(output[j].value)
      {
      }
    }
  }

  lemma {:induction false} FieldExactly(entries: seq<PEntry>, j: nat, field: Field, renamed: Field, d: FieldDescriptor,
      owner: Option<Identity>, env: Env, project: Project, out: Entry<Decoded>)
    requires Within(env, project) && ScopedIn(field.ty, env, project)
    requires NamedAsAt(project, owner, j, field, renamed)
    requires d.damlLabel == renamed.damlLabel && d.propertyName == renamed.propertyName
    requires Compile(field.ty, SubstitutionOf(env)) == Ok(d.ty)
    ensures DecodedField(entries, j, d, project, out) <==>
            IsProperty(project.files, owner, j, field.propertyName, out.key)
            && ReadsField(entries, j, field, env, project, out.value)
    decreases entries, env, 3
  {
    hide DecodeEntry, ReadsEntry, IsProperty;
    forall i | 0 <= i < |entries|
      ensures DecodeEntry(entries[i], d.ty, project) == Ok(out.value)
         <==> ReadsEntry(entries[i], field.ty, env, project, out.value)
    {
      EntryExactly(entries[i], field.ty, env, project, out.value);
    }
  }

  lemma {:induction false} FieldsExactly(entries: seq<PEntry>, fields: seq<Field>, renamed: seq<Field>,
      owner: Option<Identity>, env: Env, project: Project, output: seq<Entry<Decoded>>)
    requires Within(env, project) && ScopedFields(renamed, ScopeIn(env), project.definitions)
    requires NamedAs(project, owner, fields, renamed)
    ensures CompileFields(renamed, SubstitutionOf(env)).Ok?
    ensures DecodedFields(entries, CompileFields(renamed, SubstitutionOf(env)).value, project, output)
       <==> ReadsFields(entries, fields, owner, env, project, output)
    decreases entries, env, 4
  {
    hide DecodedField, ReadsField, IsProperty;
    EnvCompiles(env, project.definitions);
    ScopedFieldsCompile(renamed, ScopeIn(env), project.definitions, SubstitutionOf(env));
    var ds := CompileFields(renamed, SubstitutionOf(env)).value;
    forall j | 0 <= j < |fields| && j < |output|
      ensures DecodedField(entries, j, ds[j], project, output[j]) <==>
              IsProperty(project.files, owner, j, fields[j].propertyName, output[j].key)
              && ReadsField(entries, j, fields[j], env, project, output[j].value)
    {
      assert NamedAsAt(project, owner, j, fields[j], renamed[j]);
      FieldExactly(entries, j, fields[j], renamed[j], ds[j], owner, env, project, output[j]);
    }
  }

  lemma {:induction false} RecordExactly(entries: seq<PEntry>, fields: seq<Field>, renamed: seq<Field>,
      owner: Option<Identity>, env: Env, project: Project, x: Decoded)
    requires Within(env, project) && ScopedFields(renamed, ScopeIn(env), project.definitions)
    requires NamedAs(project, owner, fields, renamed)
    ensures CompileFields(renamed, SubstitutionOf(env)).Ok?
    ensures DecodeProto(PRecord(entries), DRecord(CompileFields(renamed, SubstitutionOf(env)).value), project) == Ok(x)
       <==> x.RecordValue? && ReadsRecord(entries, fields, owner, env, project, x.fields)
    decreases entries, env, 5
  {
    hide DecodedFields, ReadsFields, PutAll, DecodeProtoRecord;
    EnvCompiles(env, project.definitions);
    ScopedFieldsCompile(renamed, ScopeIn(env), project.definitions, SubstitutionOf(env));
    var ds := CompileFields(renamed, SubstitutionOf(env)).value;
    forall output
      ensures DecodeProtoRecord(entries, ds, project) == Ok(output) <==>
              && |entries| == |ds|
              && (Labelled(entries) ==> DistinctEntries(entries))
              && (Labelled(entries) || Unlabelled(entries))
              && ReadsFields(entries, fields, owner, env, project, output)
    {
      RecordPointwise(entries, ds, project, output);
      FieldsExactly(entries, fields, renamed, owner, env, project, output);
    }
    var decoded := DecodeProtoRecord(entries, ds, project);
    if decoded.Ok? {
      assert ReadsFields(entries, fields, owner, env, project, decoded.value);
    }
  }

  /** A record type written in place or named, `outer` being the arguments in force where it stands. */
  lemma {:induction false} RecordTypeExactly(v: PValue, fields: seq<Field>, renamed: seq<Field>,
      owner: Option<Identity>, env: Env, outer: Env, project: Project, x: Decoded)
    requires Within(env, project) && ScopedFields(renamed, ScopeIn(env), project.definitions)
    requires NamedAs(project, owner, fields, renamed)
    ensures Compile(Record(renamed), SubstitutionOf(env)).Ok?
    ensures DecodeProto(v, Compile(Record(renamed), SubstitutionOf(env)).value, project) == Ok(x) <==>
            v.PRecord? && x.RecordValue? && ReadsRecord(v.fields, fields, owner, env, project, x.fields)
    decreases v, outer, 1
  {
    hide DecodeProtoRecord, ReadsRecord, Scoped, SubstitutionOf, NamedAs;
    EnvCompiles(env, project.definitions);
    ScopedFieldsCompile(renamed, ScopeIn(env), project.definitions, SubstitutionOf(env));
    if v.PRecord? {
      RecordExactly(v.fields, fields, renamed, owner, env, project, x);
    }
  }

  lemma {:induction false} InlineRecordExactly(v: PValue, fields: seq<Field>, env: Env, project: Project, x: Decoded)
    requires Within(env, project) && ScopedIn(Record(fields), env, project)
    ensures Exact(v, Record(fields), env, project, x)
    decreases v, env, 2
  {
    hide DecodeProto, ReadsRecord, Compile;
    assert NamedAs(project, None, fields, fields);
    RecordTypeExactly(v, fields, fields, None, env, env, project, x);
  }

  // ----- variants and references -----

  lemma VariantStep(name: string, payload: Option<PValue>, ds: seq<ConstructorDescriptor>, project: Project, x: Decoded)
    ensures DecodeProto(PVariant(name, payload), DVariant(ds), project) == Ok(x) <==>
            && x.VariantValue? && x.constructor_ == name
            && var c := FindConstructor(ds, name);
               c >= 0 && payload.Some? && DecodeProto(payload.value, ds[c].payload, project) == Ok(x.value)
  {
  }

  lemma {:induction false} VariantExactly(name: string, payload: Option<PValue>, constructors: seq<Constructor>,
      env: Env, project: Project, x: Decoded)
    requires Within(env, project)
    requires DistinctNames(constructors) && ScopedConstructors(constructors, ScopeIn(env), project.definitions)
    ensures CompileConstructors(constructors, SubstitutionOf(env)).Ok?
    ensures DecodeProto(PVariant(name, payload), DVariant(CompileConstructors(constructors, SubstitutionOf(env)).value),
                        project) == Ok(x)
       <==> x.VariantValue? && x.constructor_ == name
            && ReadsVariant(name, payload, constructors, env, project, x.value)
    decreases payload, env, 2
  {
    hide DecodeProto, Reads, SubstitutionOf, Scoped;
    EnvCompiles(env, project.definitions);
    ScopedConstructorsCompile(constructors, ScopeIn(env), project.definitions, SubstitutionOf(env));
    var ds := CompileConstructors(constructors, SubstitutionOf(env)).value;
    VariantStep(name, payload, ds, project, x);
    var c := FindConstructor(ds, name);
    if payload.Some? && c >= 0 && x.VariantValue? {
      ReadsExactly(payload.value, constructors[c].payload, env, project, x.value);
    }
  }

  lemma {:induction false} VariantTypeExactly(v: PValue, constructors: seq<Constructor>, env: Env, outer: Env,
      project: Project, x: Decoded)
    requires Within(env, project) && ScopedIn(Variant(constructors), env, project)
    ensures Compile(Variant(constructors), SubstitutionOf(env)).Ok?
    ensures DecodeProto(v, Compile(Variant(constructors), SubstitutionOf(env)).value, project) == Ok(x) <==>
            && v.PVariant? && x.VariantValue? && x.constructor_ == v.name
            && ReadsVariant(v.name, v.payload, constructors, env, project, x.value)
    decreases v, outer, 1
  {
    hide ReadsVariant;
    EnvCompiles(env, project.definitions);
    ScopedConstructorsCompile(constructors, ScopeIn(env), project.definitions, SubstitutionOf(env));
    if v.PVariant? {
      VariantExactly(v.name, v.payload, constructors, env, project, x);
    }
  }

  lemma {:induction false} InlineVariantExactly(v: PValue, constructors: seq<Constructor>, env: Env, project: Project,
      x: Decoded)
    requires Within(env, project) && ScopedIn(Variant(constructors), env, project)
    ensures Exact(v, Variant(constructors), env, project, x)
    decreases v, env, 2
  {
    hide DecodeProto, ReadsVariant, Compile;
    VariantTypeExactly(v, constructors, env, env, project, x);
  }

  /** Inside a definition: its body in the scope of its parameters, compiled with the arguments in force. */
  lemma EntersDefinition(identity: Identity, arguments: seq<DamlType>, env: Env, project: Project)
    requires Within(env, project) && ScopedIn(Ref(identity, arguments), env, project)
    ensures var definition := project.definitions[identity];
            var inside := Bound(definition.Parameters(), arguments, env);
            var body := Body(identity, definition, MergedNames(project.files));
            var compiled := CompileAll(arguments, SubstitutionOf(env));
            && Within(inside, project) && ScopedIn(body, inside, project)
            && compiled.Ok? && Compile(body, SubstitutionOf(inside)).Ok?
            && Resolve(project, identity, compiled.value) == Compile(body, SubstitutionOf(inside))
  {
    var definition := project.definitions[identity];
    var inside := Bound(definition.Parameters(), arguments, env);
    EnvCompiles(env, project.definitions);
    EnvCompiles(inside, project.definitions);
    assert ScopedDefinition(identity, project);
    ScopedCompiles(Body(identity, definition, MergedNames(project.files)), ScopeIn(inside), project.definitions, true,
                   SubstitutionOf(inside));
  }

  lemma EnumValueExactly(v: PValue, names: seq<string>, s: map<int, Descriptor>, project: Project, x: Decoded)
    ensures Compile(Enum(names), s).Ok?
    ensures DecodeProto(v, Compile(Enum(names), s).value, project) == Ok(x)
       <==> v.PEnum? && v.name in names && x == EnumValue(v.name)
  {
  }

  lemma ReferenceDecodes(v: PValue, identity: Identity, arguments: seq<Descriptor>, project: Project)
    requires Resolve(project, identity, arguments).Ok?
    ensures DecodeProto(v, DRef(identity, arguments), project)
         == DecodeProto(v, Resolve(project, identity, arguments).value, project)
  {
    hide Resolve;
  }

  lemma {:induction false} NamedRecordExactly(v: PValue, identity: Identity, fields: seq<Field>, inside: Env,
      outer: Env, project: Project, x: Decoded)
    requires Within(inside, project)
    requires ScopedIn(Record(RenameFields(identity, fields, MergedNames(project.files))), inside, project)
    ensures var body := Record(RenameFields(identity, fields, MergedNames(project.files)));
            var d := Compile(body, SubstitutionOf(inside));
            d.Ok? && (DecodeProto(v, d.value, project) == Ok(x) <==>
                      && v.PRecord? && x.RecordValue?
                      && ReadsRecord(v.fields, fields, Some(identity), inside, project, x.fields))
    decreases v, outer, 2
  {
    hide DecodeProto, ReadsRecord, NamedAs, SubstitutionOf, Compile, RenameFields, MergedNames;
    BodyIsNamed(project, identity, fields);
    var renamed := RenameFields(identity, fields, MergedNames(project.files));
    RecordTypeExactly(v, fields, renamed, Some(identity), inside, outer, project, x);
  }

  lemma {:induction false} DefinitionExactly(v: PValue, identity: Identity, definition: Definition,
      arguments: seq<DamlType>, env: Env, project: Project, x: Decoded)
    requires identity in project.definitions && project.definitions[identity] == definition
    requires Within(Bound(definition.Parameters(), arguments, env), project)
    requires ScopedIn(Body(identity, definition, MergedNames(project.files)),
                      Bound(definition.Parameters(), arguments, env), project)
    ensures var d := Compile(Body(identity, definition, MergedNames(project.files)),
                             SubstitutionOf(Bound(definition.Parameters(), arguments, env)));
            d.Ok? && (DecodeProto(v, d.value, project) == Ok(x)
                      <==> ReadsDefinition(v, identity, definition, arguments, env, project, x))
    decreases v, env, 3
  {
    hide DecodeProto, ReadsRecord, ReadsVariant, SubstitutionOf, Compile, RenameFields, MergedNames, Within, ScopedIn;
    var inside := Bound(definition.Parameters(), arguments, env);
    match definition
    case RecordDefinition(_, fields) => NamedRecordExactly(v, identity, fields, inside, env, project, x);
    case VariantDefinition(_, constructors) => VariantTypeExactly(v, constructors, inside, env, project, x);
    case EnumDefinition(names) => EnumValueExactly(v, names, SubstitutionOf(inside), project, x);
  }

  lemma {:induction false} ReferenceExactly(v: PValue, identity: Identity, arguments: seq<DamlType>, env: Env,
      project: Project, x: Decoded)
    requires Within(env, project) && ScopedIn(Ref(identity, arguments), env, project)
    ensures Exact(v, Ref(identity, arguments), env, project, x)
    decreases v, env, 4
  {
    hide DecodeProto, Resolve, ReadsDefinition, SubstitutionOf, Body;
    EntersDefinition(identity, arguments, env, project);
    ReferenceDecodes(v, identity, CompileAll(arguments, SubstitutionOf(env)).value, project);
    DefinitionExactly(v, identity, project.definitions[identity], arguments, env, project, x);
  }

  // ----- both decoders -----

  lemma ClosedIsWithin(t: DamlType, project: Project)
    requires WellFormed(project) && Scoped(t, map[], project.definitions, true)
    ensures Within(Empty, project) && ScopedIn(t, Empty, project) && SubstitutionOf(Empty) == map[]
  {
  }

  lemma JsonFollows(v: PValue, t: DamlType, project: Project)
    requires WellFormed(project) && Scoped(t, map[], project.definitions, true) && DistinctMaps(v)
    requires Compile(t, map[]).Ok? && DecodeProto(v, Compile(t, map[]).value, project).Ok?
    ensures DecodeJson(JsOf(v), Compile(t, map[]).value, project) == DecodeProto(v, Compile(t, map[]).value, project)
  {
    hide DecodeProto, DecodeJson, Compile, Scoped;
    Agree(v, t, map[], map[], map[], project);
  }

  /**
   * For every closed type: the protobuf decoder returns `x` exactly for the values of the type that mean
   * `x`, and the JSON decoder returns the same for their JSON form.
   */
  lemma DecodersAgree(v: PValue, t: DamlType, project: Project, x: Decoded)
    requires WellFormed(project) && Scoped(t, map[], project.definitions, true)
    ensures Compile(t, map[]).Ok?
    ensures var d := Compile(t, map[]).value;
            && (DecodeProto(v, d, project) == Ok(x) <==> Reads(v, t, Empty, project, x))
            && (DistinctMaps(v) && Reads(v, t, Empty, project, x) ==> DecodeJson(JsOf(v), d, project) == Ok(x))
  {
    hide DecodeProto, DecodeJson, Reads, Compile, Scoped, WellFormed, Within, ScopedIn, SubstitutionOf, JsOf;
    ClosedIsWithin(t, project);
    ReadsExactly(v, t, Empty, project, x);
    if DistinctMaps(v) && Reads(v, t, Empty, project, x) {
      JsonFollows(v, t, project);
    }
  }
}
