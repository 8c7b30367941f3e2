/**
 * The two decoders agree: what the protobuf decoder accepts, the JSON decoder accepts in its JSON
 * form with the same result.
 */
module DecoderAgreement {
  import opened Wrappers
  import opened JsValues
  import opened DamlTypes
  import opened DescriptorCompiler
  import opened LedgerValues
  import opened ValueConverter
  import opened ProtobufConverter
  import opened SampleEmitter
  import opened ScopedTypes
  import opened SampleSoundness
  import Inhabitation
  import Decimals
  import DamlNumerics

  // ----- the JSON form of a protobuf value -----

  function JsOf(v: PValue): Js
    decreases v, 1
  {
    match v
    case PAbsent => Undefined
    case PUnit => Object(Plain, [])
    case PBool(b) => Boolean(b)
    case PInt64(text) => JsValues.Text(text)
    case PDate(days) => Number(days as real)
    case PTimestamp(text) => JsValues.Text(text)
    case PNumeric(text) => JsValues.Text(text)
    case PParty(text) => JsValues.Text(text)
    case PText(text) => JsValues.Text(text)
    case PContractId(text) => JsValues.Text(text)
    case POptional(value) => if value.None? then Null else JsOf(value.value)
    case PList(elems) => Array(JsOfAll(elems))
    case PTextMap(entries) => ObjectLiteral(JsOfEntries(entries))
    case PGenMap(pairs) => Array(JsOfPairs(pairs))
    case PRecord(fields) => if Labelled(fields) then ObjectLiteral(JsOfEntries(fields)) else Array(JsOfValues(fields))
    case PVariant(name, payload) =>
      Object(Plain, [Entry("tag", JsValues.Text(name)), Entry("value", JsOfOption(payload))])
    case PEnum(name) => JsValues.Text(name)
  }

  function JsOfOption(value: Option<PValue>): Js
    decreases value, 2
  {
    if value.None? then Undefined else JsOf(value.value)
  }

  function JsOfEntry(entry: PEntry): Js
    decreases entry, 3
  {
    JsOfOption(entry.value)
  }

  function JsOfAll(elems: seq<PValue>): (r: seq<Js>)
    ensures |r| == |elems|
    decreases elems, 0
  {
    if elems == [] then [] else [JsOf(elems[0])] + JsOfAll(elems[1..])
  }

  function JsOfEntries(entries: seq<PEntry>): (r: seq<Entry<Js>>)
    ensures |r| == |entries|
    ensures forall i :: 0 <= i < |entries| ==> r[i].key == entries[i].key
    decreases entries, 0
  {
    if entries == [] then [] else [Entry(entries[0].key, JsOfEntry(entries[0]))] + JsOfEntries(entries[1..])
  }

  function JsOfValues(entries: seq<PEntry>): (r: seq<Js>)
    ensures |r| == |entries|
    decreases entries, 0
  {
    if entries == [] then [] else [JsOfEntry(entries[0])] + JsOfValues(entries[1..])
  }

  function JsOfPairs(pairs: seq<PPair>): (r: seq<Js>)
    ensures |r| == |pairs|
    decreases pairs, 0
  {
    if pairs == [] then [] else [JsOfPair(pairs[0])] + JsOfPairs(pairs[1..])
  }

  function JsOfPair(pair: PPair): Js
    decreases pair, 3
  {
    Array([JsOfOption(pair.key), JsOfOption(pair.value)])
  }

  ghost predicate DistinctEntries(entries: seq<PEntry>) {
    forall i, j :: 0 <= i < j < |entries| ==> entries[i].key != entries[j].key
  }

  /** Text maps hold every key once, as the ledger's do and JSON objects must. */
  ghost predicate DistinctMaps(v: PValue)
    decreases v, 1
  {
    match v
    case POptional(value) => value.Some? ==> DistinctMaps(value.value)
    case PList(elems) => DistinctMapsAll(elems)
    case PTextMap(entries) => DistinctEntries(entries) && DistinctMapsEntries(entries)
    case PGenMap(pairs) => DistinctMapsPairs(pairs)
    case PRecord(fields) => DistinctMapsEntries(fields)
    case PVariant(_, payload) => DistinctMapsOption(payload)
    case _ => true
  }

  ghost predicate DistinctMapsOption(value: Option<PValue>)
    decreases value, 2
  {
    value.Some? ==> DistinctMaps(value.value)
  }

  ghost predicate DistinctMapsEntry(entry: PEntry)
    decreases entry, 3
  {
    DistinctMapsOption(entry.value)
  }

  ghost predicate DistinctMapsPair(pair: PPair)
    decreases pair, 3
  {
    DistinctMapsOption(pair.key) && DistinctMapsOption(pair.value)
  }

  ghost predicate DistinctMapsAll(elems: seq<PValue>)
    decreases elems, 0
  {
    elems == [] || (DistinctMaps(elems[0]) && DistinctMapsAll(elems[1..]))
  }

  ghost predicate DistinctMapsEntries(entries: seq<PEntry>)
    decreases entries, 0
  {
    entries == [] || (DistinctMapsEntry(entries[0]) && DistinctMapsEntries(entries[1..]))
  }

  ghost predicate DistinctMapsPairs(pairs: seq<PPair>)
    decreases pairs, 0
  {
    pairs == [] || (DistinctMapsPair(pairs[0]) && DistinctMapsPairs(pairs[1..]))
  }

  // ----- pigeonhole on labels -----

  lemma {:induction false} LabelCount(fields: seq<PEntry>)
    ensures |Labels(fields)| <= |fields|
    ensures |Labels(fields)| == |fields| <==> DistinctEntries(fields)
  {
    if fields == [] {
      assert Labels(fields) == {};
    } else {
      var rest := fields[1..];
      LabelCount(rest);
      assert forall i :: 0 <= i < |rest| ==> fields[i + 1] == rest[i];
      assert Labels(fields) == {fields[0].key} + Labels(rest) by {
        forall name | name in Labels(fields)
          ensures name in {fields[0].key} + Labels(rest)
        {
          var i :| 0 <= i < |fields| && fields[i].key == name;
          if i > 0 {
            assert rest[i - 1].key == name;
          }
        }
        forall name | name in {fields[0].key} + Labels(rest)
          ensures name in Labels(fields)
        {
          if name in Labels(rest) {
            var i :| 0 <= i < |rest| && rest[i].key == name;
            assert fields[i + 1].key == name;
          } else {
            assert fields[0].key == name;
          }
        }
      }
      if fields[0].key in Labels(rest) {
        var i :| 0 <= i < |rest| && rest[i].key == fields[0].key;
        assert fields[0].key == fields[i + 1].key;
        assert Labels(fields) == Labels(rest);
      } else if DistinctEntries(rest) {
        forall i, j | 0 <= i < j < |fields|
          ensures fields[i].key != fields[j].key
        {
          assert fields[j] == rest[j - 1];
          if i > 0 {
            assert fields[i] == rest[i - 1];
          }
        }
      }
    }
  }

  function ExpectedLabels(ds: seq<FieldDescriptor>): set<string> {
    set i | 0 <= i < |ds| :: ds[i].damlLabel
  }

  ghost predicate DistinctExpected(ds: seq<FieldDescriptor>) {
    forall i, j :: 0 <= i < j < |ds| ==> ds[i].damlLabel != ds[j].damlLabel
  }

  lemma ExpectedLast(init: seq<FieldDescriptor>, last: FieldDescriptor)
    ensures ExpectedLabels(init + [last]) == ExpectedLabels(init) + {last.damlLabel}
  {
    var ds := init + [last];
    forall name
      ensures name in ExpectedLabels(ds) <==> name in ExpectedLabels(init) || name == last.damlLabel
    {
      if name in ExpectedLabels(init) {
        var i :| 0 <= i < |init| && init[i].damlLabel == name;
        assert ds[i].damlLabel == name;
      }
      if name == last.damlLabel {
        assert ds[|init|].damlLabel == name;
      }
    }
  }

  lemma {:induction false} ExpectedCount(ds: seq<FieldDescriptor>)
    requires DistinctExpected(ds)
    ensures |ExpectedLabels(ds)| == |ds|
  {
    if ds == [] {
      assert ExpectedLabels(ds) == {};
    } else {
      var init, last := ds[..|ds| - 1], ds[|ds| - 1];
      ExpectedCount(init);
      assert ds == init + [last];
      ExpectedLast(init, last);
      assert last.damlLabel !in ExpectedLabels(init);
    }
  }

  lemma {:induction false} FoundLabels(fields: seq<PEntry>, ds: seq<FieldDescriptor>, project: Project, i: nat)
    requires DecodeByLabel(fields, ds, project).Ok? && i < |ds|
    ensures FindLabel(fields, ds[i].damlLabel) >= 0
    ensures DecodeEntry(fields[FindLabel(fields, ds[i].damlLabel)], ds[i].ty, project).Ok?
    decreases ds
  {
    if i > 0 {
      FoundLabels(fields, ds[1..], project, i - 1);
    }
  }

  /** All descriptor fields found and the counts equal: a labelled record has no unexpected field. */
  lemma NoUnexpectedField(fields: seq<PEntry>, ds: seq<FieldDescriptor>, project: Project)
    requires Labelled(fields) && DistinctExpected(ds)
    requires DecodeProtoRecord(fields, ds, project).Ok?
    ensures Labels(fields) == ExpectedLabels(ds)
  {
    ExpectedCount(ds);
    assert ExpectedLabels(ds) <= Labels(fields) by {
      forall name | name in ExpectedLabels(ds)
        ensures name in Labels(fields)
      {
        var i :| 0 <= i < |ds| && ds[i].damlLabel == name;
        FoundLabels(fields, ds, project, i);
        assert fields[FindLabel(fields, name)].key == name;
      }
    }
    SameSize(ExpectedLabels(ds), Labels(fields));
  }

  lemma SameSize(part: set<string>, whole: set<string>)
    requires part <= whole && |part| == |whole|
    ensures part == whole
  {
    assert whole == part + (whole - part);
  }

  // ----- agreement -----

  lemma {:induction false} Agree(v: PValue, t: DamlType, scope: Scope, bindings: Bindings,
      substitution: map<int, Descriptor>, project: Project)
    requires WellFormed(project) && DistinctMaps(v)
    requires Scoped(t, scope, project.definitions, true) && Linked(scope, bindings, substitution, project.definitions)
    requires Compile(t, substitution).Ok? && DecodeProto(v, Compile(t, substitution).value, project).Ok?
    ensures DecodeJson(JsOf(v), Compile(t, substitution).value, project)
         == DecodeProto(v, Compile(t, substitution).value, project)
    decreases v, Rank(Compile(t, substitution).value), if t.Var? then 6 else 5, 0
  {
    match t
    case Optional(element) =>
      if v.value.Some? {
        Agree(v.value.value, element, scope, bindings, substitution, project);
        OptionalAgrees(v, Compile(element, substitution).value, project);
      }
    case List(element) => AgreeAll(v.elems, element, scope, bindings, substitution, project);
    case TextMap(value) => AgreeTextMap(v.entries, value, scope, bindings, substitution, project);
    case GenMap(key, value) => AgreePairs(v.pairs, key, value, scope, bindings, substitution, project);
    case Record(fields) => AgreeRecord(v.fields, fields, scope, bindings, substitution, project);
    case Variant(constructors) => AgreeVariant(v.name, v.payload, constructors, scope, bindings, substitution, project);
    case Var(variable) =>
      assert LinkedAt(variable.index, scope[variable.index], bindings, substitution, project.definitions);
      InlineWeaker(bindings[variable], map[], project.definitions);
      Agree(v, bindings[variable], map[], bindings, map[], project);
    case Ref(identity, arguments) => AgreeReference(v, identity, arguments, scope, bindings, substitution, project);
    case Prim(builtin, scale) => AgreePrimitive(v, builtin, scale, project);
    case ContractId =>
    case Enum(_) =>
  }

  lemma AgreePrimitive(v: PValue, builtin: Primitive, scale: Option<int>, project: Project)
    requires DecodeProto(v, DPrim(builtin, scale), project).Ok?
    ensures DecodeJson(JsOf(v), DPrim(builtin, scale), project) == DecodeProto(v, DPrim(builtin, scale), project)
  {
    hide DamlNumerics.DecodeNumeric;
  }

  lemma {:induction false} AgreeReference(v: PValue, identity: Identity, arguments: seq<DamlType>, scope: Scope,
      bindings: Bindings, substitution: map<int, Descriptor>, project: Project)
    requires WellFormed(project) && DistinctMaps(v)
    requires Scoped(Ref(identity, arguments), scope, project.definitions, true)
    requires Linked(scope, bindings, substitution, project.definitions)
    requires CompileAll(arguments, substitution).Ok?
    requires DecodeProto(v, DRef(identity, CompileAll(arguments, substitution).value), project).Ok?
    ensures DecodeJson(JsOf(v), DRef(identity, CompileAll(arguments, substitution).value), project)
         == DecodeProto(v, DRef(identity, CompileAll(arguments, substitution).value), project)
    decreases v, 1, 0, 0
  {
    EnterDefinition(project, identity, arguments, scope, bindings, substitution);
    var parameters := project.definitions[identity].Parameters();
    Agree(v, Body(identity, project.definitions[identity], SampleNames(project.files, identity)), ScopeOf(parameters),
          BindVariables(bindings, parameters, ResolveAll(arguments, bindings)),
          BindIndices(map[], parameters, CompileAll(arguments, substitution).value), project);
  }

  /** JSON has one null: an absent inner Optional and an absent outer one read the same. */
  lemma OptionalAgrees(v: PValue, element: Descriptor, project: Project)
    requires v.POptional? && v.value.Some?
    requires DecodeProto(v.value.value, element, project).Ok?
    requires DecodeJson(JsOf(v.value.value), element, project) == DecodeProto(v.value.value, element, project)
    ensures DecodeJson(JsOf(v), DOptional(element), project) == DecodeProto(v, DOptional(element), project)
  {
    if JsOf(v.value.value).Null? {
      NullIsAbsent(element, project);
    }
  }

  lemma {:induction false} NullIsAbsent(d: Descriptor, project: Project)
    requires DecodeJson(Null, d, project).Ok?
    ensures DecodeJson(Null, d, project) == Ok(Absent)
    decreases Rank(d)
  {
    match d
    case DRef(identity, arguments) => NullIsAbsent(Resolve(project, identity, arguments).value, project);
    case _ =>
  }

  lemma {:induction false} AgreeAll(elems: seq<PValue>, t: DamlType, scope: Scope, bindings: Bindings,
      substitution: map<int, Descriptor>, project: Project)
    requires WellFormed(project) && DistinctMapsAll(elems)
    requires Scoped(t, scope, project.definitions, true) && Linked(scope, bindings, substitution, project.definitions)
    requires Compile(t, substitution).Ok? && DecodeProtoAll(elems, Compile(t, substitution).value, project).Ok?
    ensures DecodeJsonAll(JsOfAll(elems), Compile(t, substitution).value, project)
         == DecodeProtoAll(elems, Compile(t, substitution).value, project)
    decreases elems, 0, 0, 0
  {
    if elems != [] {
      Agree(elems[0], t, scope, bindings, substitution, project);
      AgreeAll(elems[1..], t, scope, bindings, substitution, project);
      assert JsOfAll(elems)[1..] == JsOfAll(elems[1..]);
    }
  }

  lemma {:induction false} AgreeOption(value: Option<PValue>, t: DamlType, scope: Scope, bindings: Bindings,
      substitution: map<int, Descriptor>, project: Project)
    requires WellFormed(project) && DistinctMapsOption(value)
    requires Scoped(t, scope, project.definitions, true) && Linked(scope, bindings, substitution, project.definitions)
    requires Compile(t, substitution).Ok? && DecodeRequired(value, Compile(t, substitution).value, project).Ok?
    ensures DecodeJson(JsOfOption(value), Compile(t, substitution).value, project)
         == DecodeRequired(value, Compile(t, substitution).value, project)
    decreases value, 0, 0, 0
  {
    Agree(value.value, t, scope, bindings, substitution, project);
  }

  lemma {:induction false} AgreeEntry(entry: PEntry, t: DamlType, scope: Scope, bindings: Bindings,
      substitution: map<int, Descriptor>, project: Project)
    requires WellFormed(project) && DistinctMapsEntry(entry)
    requires Scoped(t, scope, project.definitions, true) && Linked(scope, bindings, substitution, project.definitions)
    requires Compile(t, substitution).Ok? && DecodeEntry(entry, Compile(t, substitution).value, project).Ok?
    ensures DecodeJson(JsOfEntry(entry), Compile(t, substitution).value, project)
         == DecodeEntry(entry, Compile(t, substitution).value, project)
    decreases entry, 0, 0, 0
  {
    AgreeOption(entry.value, t, scope, bindings, substitution, project);
  }

  lemma {:induction false} AgreeTextMap(entries: seq<PEntry>, t: DamlType, scope: Scope, bindings: Bindings,
      substitution: map<int, Descriptor>, project: Project)
    requires WellFormed(project) && DistinctEntries(entries) && DistinctMapsEntries(entries)
    requires Scoped(t, scope, project.definitions, true) && Linked(scope, bindings, substitution, project.definitions)
    requires Compile(t, substitution).Ok? && DecodeProtoEntries(entries, Compile(t, substitution).value, project).Ok?
    ensures DecodeJson(JsOf(PTextMap(entries)), DTextMap(Compile(t, substitution).value), project)
         == DecodeProto(PTextMap(entries), DTextMap(Compile(t, substitution).value), project)
    decreases entries, 0, 0, 1
  {
    AgreeEntries(entries, t, scope, bindings, substitution, project);
    LiteralOfDistinct(entries);
  }

  lemma LiteralOfDistinct(entries: seq<PEntry>)
    requires DistinctEntries(entries)
    ensures ObjectLiteral(JsOfEntries(entries)) == Object(Plain, JsOfEntries(entries))
  {
    assert [] + JsOfEntries(entries) == JsOfEntries(entries);
    PutAllDistinct([], JsOfEntries(entries));
  }

  lemma {:induction false} AgreeEntries(entries: seq<PEntry>, t: DamlType, scope: Scope, bindings: Bindings,
      substitution: map<int, Descriptor>, project: Project)
    requires WellFormed(project) && DistinctMapsEntries(entries)
    requires Scoped(t, scope, project.definitions, true) && Linked(scope, bindings, substitution, project.definitions)
    requires Compile(t, substitution).Ok? && DecodeProtoEntries(entries, Compile(t, substitution).value, project).Ok?
    ensures DecodeJsonEntries(JsOfEntries(entries), Compile(t, substitution).value, project)
         == DecodeProtoEntries(entries, Compile(t, substitution).value, project)
    decreases entries, 0, 0, 0
  {
    if entries != [] {
      AgreeEntry(entries[0], t, scope, bindings, substitution, project);
      AgreeEntries(entries[1..], t, scope, bindings, substitution, project);
      assert JsOfEntries(entries)[1..] == JsOfEntries(entries[1..]);
    }
  }

  lemma {:induction false} AgreePair(pair: PPair, key: DamlType, t: DamlType, scope: Scope, bindings: Bindings,
      substitution: map<int, Descriptor>, project: Project)
    requires WellFormed(project) && DistinctMapsPair(pair)
    requires Scoped(key, scope, project.definitions, true) && Scoped(t, scope, project.definitions, true)
    requires Linked(scope, bindings, substitution, project.definitions)
    requires Compile(key, substitution).Ok? && Compile(t, substitution).Ok?
    requires DecodePair(pair, Compile(key, substitution).value, Compile(t, substitution).value, project).Ok?
    ensures var k, d := Compile(key, substitution).value, Compile(t, substitution).value;
            var decoded := DecodePair(pair, k, d, project).value;
            && DecodeJson(JsOfOption(pair.key), k, project) == Ok(decoded.key)
            && DecodeJson(JsOfOption(pair.value), d, project) == Ok(decoded.value)
    decreases pair, 0, 0, 0
  {
    AgreeOption(pair.key, key, scope, bindings, substitution, project);
    AgreeOption(pair.value, t, scope, bindings, substitution, project);
  }

  lemma {:induction false} AgreePairs(pairs: seq<PPair>, key: DamlType, t: DamlType, scope: Scope, bindings: Bindings,
      substitution: map<int, Descriptor>, project: Project)
    requires WellFormed(project) && DistinctMapsPairs(pairs)
    requires Scoped(key, scope, project.definitions, true) && Scoped(t, scope, project.definitions, true)
    requires Linked(scope, bindings, substitution, project.definitions)
    requires Compile(key, substitution).Ok? && Compile(t, substitution).Ok?
    requires DecodeProtoPairs(pairs, Compile(key, substitution).value, Compile(t, substitution).value, project).Ok?
    ensures DecodeJsonPairs(JsOfPairs(pairs), Compile(key, substitution).value, Compile(t, substitution).value, project)
         == DecodeProtoPairs(pairs, Compile(key, substitution).value, Compile(t, substitution).value, project)
    decreases pairs, 0, 0, 0
  {
    if pairs != [] {
      AgreePair(pairs[0], key, t, scope, bindings, substitution, project);
      AgreePairs(pairs[1..], key, t, scope, bindings, substitution, project);
      assert JsOfPairs(pairs)[1..] == JsOfPairs(pairs[1..]);
    }
  }

  lemma {:induction false} AgreeVariant(name: string, payload: Option<PValue>, constructors: seq<Constructor>,
      scope: Scope, bindings: Bindings, substitution: map<int, Descriptor>, project: Project)
    requires WellFormed(project) && DistinctMapsOption(payload)
    requires Scoped(Variant(constructors), scope, project.definitions, true)
    requires Linked(scope, bindings, substitution, project.definitions)
    requires CompileConstructors(constructors, substitution).Ok?
    requires DecodeProto(PVariant(name, payload), DVariant(CompileConstructors(constructors, substitution).value),
                         project).Ok?
    ensures var d := DVariant(CompileConstructors(constructors, substitution).value);
            DecodeJson(JsOf(PVariant(name, payload)), d, project) == DecodeProto(PVariant(name, payload), d, project)
    decreases payload, 0, 0, 1
  {
    var ds := CompileConstructors(constructors, substitution).value;
    var c := FindConstructor(ds, name);
    ConstructorsKept(constructors, substitution, c);
    Inhabitation.ScopedConstructorAt(constructors, scope, project.definitions, c);
    AgreeOption(payload, constructors[c].payload, scope, bindings, substitution, project);
    var members := JsOf(PVariant(name, payload)).members;
    assert Find(members, "tag") == 0;
    assert members[1].key == "value";
    assert Find(members, "value") == 1;
  }

  lemma {:induction false} AgreeRecord(entries: seq<PEntry>, fields: seq<Field>, scope: Scope, bindings: Bindings,
      substitution: map<int, Descriptor>, project: Project)
    requires WellFormed(project) && DistinctMapsEntries(entries)
    requires Scoped(Record(fields), scope, project.definitions, true)
    requires Linked(scope, bindings, substitution, project.definitions)
    requires CompileFields(fields, substitution).Ok?
    requires DecodeProto(PRecord(entries), DRecord(CompileFields(fields, substitution).value), project).Ok?
    ensures DecodeJson(JsOf(PRecord(entries)), DRecord(CompileFields(fields, substitution).value), project)
         == DecodeProto(PRecord(entries), DRecord(CompileFields(fields, substitution).value), project)
    decreases entries, 0, 0, |fields| + 1
  {
    var ds := CompileFields(fields, substitution).value;
    if Labelled(entries) {
      forall i, j | 0 <= i < j < |ds|
        ensures ds[i].damlLabel != ds[j].damlLabel
      {
        LabelsKept(fields, substitution, i);
        LabelsKept(fields, substitution, j);
      }
      LabelCount(entries);
      LiteralOfDistinct(entries);
      AgreeLabelled(entries, fields, scope, bindings, substitution, project);
      NoUnexpectedField(entries, ds, project);
      ExpectedOnly(entries, ds);
      RecordDecodes(JsOfEntries(entries), ds, project);
    } else {
      AgreePositional(entries, fields, scope, bindings, substitution, project);
    }
  }

  lemma ExpectedOnly(entries: seq<PEntry>, ds: seq<FieldDescriptor>)
    requires Labels(entries) == ExpectedLabels(ds)
    ensures OnlyExpected(JsOfEntries(entries), ds)
  {
    forall j | 0 <= j < |entries|
      ensures HasLabel(ds, entries[j].key)
    {
      assert entries[j].key in ExpectedLabels(ds);
      var i :| 0 <= i < |ds| && ds[i].damlLabel == entries[j].key;
    }
  }

  lemma {:induction false} FindLabelled(entries: seq<PEntry>, name: string)
    ensures Find(JsOfEntries(entries), name) == FindLabel(entries, name)
  {
    if entries != [] {
      FindLabelled(entries[1..], name);
      assert JsOfEntries(entries)[1..] == JsOfEntries(entries[1..]);
    }
  }

  lemma {:induction false} JsOfEntriesAt(entries: seq<PEntry>, i: nat)
    requires i < |entries|
    ensures JsOfEntries(entries)[i].value == JsOfEntry(entries[i])
  {
    if i > 0 {
      JsOfEntriesAt(entries[1..], i - 1);
    }
  }

  lemma {:induction false} DistinctMapsAt(entries: seq<PEntry>, i: nat)
    requires DistinctMapsEntries(entries) && i < |entries|
    ensures DistinctMapsEntry(entries[i])
  {
    if i > 0 {
      DistinctMapsAt(entries[1..], i - 1);
    }
  }

  lemma {:induction false} AgreeLabelled(entries: seq<PEntry>, fields: seq<Field>, scope: Scope, bindings: Bindings,
      substitution: map<int, Descriptor>, project: Project)
    requires WellFormed(project) && DistinctMapsEntries(entries)
    requires ScopedFields(fields, scope, project.definitions)
    requires Linked(scope, bindings, substitution, project.definitions)
    requires CompileFields(fields, substitution).Ok?
    requires DecodeByLabel(entries, CompileFields(fields, substitution).value, project).Ok?
    ensures DecodeLabelled(Object(Plain, JsOfEntries(entries)), CompileFields(fields, substitution).value, project)
         == DecodeByLabel(entries, CompileFields(fields, substitution).value, project)
    decreases entries, 0, 0, |fields|
  {
    if fields != [] {
      var ds := CompileFields(fields, substitution).value;
      assert ds[1..] == CompileFields(fields[1..], substitution).value;
      var i := FindLabel(entries, ds[0].damlLabel);
      FindLabelled(entries, ds[0].damlLabel);
      JsOfEntriesAt(entries, i);
      DistinctMapsAt(entries, i);
      AgreeEntry(entries[i], fields[0].ty, scope, bindings, substitution, project);
      AgreeLabelled(entries, fields[1..], scope, bindings, substitution, project);
    }
  }

  lemma {:induction false} AgreePositional(entries: seq<PEntry>, fields: seq<Field>, scope: Scope, bindings: Bindings,
      substitution: map<int, Descriptor>, project: Project)
    requires WellFormed(project) && DistinctMapsEntries(entries) && |entries| == |fields|
    requires ScopedFields(fields, scope, project.definitions)
    requires Linked(scope, bindings, substitution, project.definitions)
    requires CompileFields(fields, substitution).Ok?
    requires DecodeByPosition(entries, CompileFields(fields, substitution).value, project).Ok?
    ensures DecodePositional(JsOfValues(entries), CompileFields(fields, substitution).value, project)
         == DecodeByPosition(entries, CompileFields(fields, substitution).value, project)
    decreases entries, 0, 0, |fields|
  {
    if fields != [] {
      var ds := CompileFields(fields, substitution).value;
      assert ds[1..] == CompileFields(fields[1..], substitution).value;
      AgreeEntry(entries[0], fields[0].ty, scope, bindings, substitution, project);
      AgreePositional(entries[1..], fields[1..], scope, bindings, substitution, project);
      assert JsOfValues(entries)[1..] == JsOfValues(entries[1..]);
    }
  }
}
