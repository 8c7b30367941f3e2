/** The symbols a generated module exports: template bindings and named DAML types side by side. */
module ModuleExports {
  import opened Wrappers
  import opened NameResolution
  import opened ProjectNames

  datatype TypeId = TypeId(moduleId: ModuleId, name: string)

  /** A generated template binding: its class name and the resolved stems of its choices. */
  datatype Binding = Binding(moduleId: ModuleId, className: string, stems: seq<string>)

  function ChoiceSymbols(className: string, stems: seq<string>): seq<string> {
    if stems == [] then []
    else ChoiceSymbols(className, stems[..|stems| - 1])
         + [className + stems[|stems| - 1] + "Choice", className + stems[|stems| - 1] + "ExercisedEvent"]
  }

  function ExportedSymbols(b: Binding): seq<string> {
    [b.className, b.className + "Fields", b.className + "CreatedEvent"] + ChoiceSymbols(b.className, b.stems)
  }

  function TemplateSymbols(files: seq<Binding>): seq<string> {
    if files == [] then []
    else TemplateSymbols(files[..|files| - 1]) + ExportedSymbols(files[|files| - 1])
  }

  function InModule(files: seq<Binding>, m: ModuleId): seq<Binding> {
    if files == [] then []
    else
      var last := files[|files| - 1];
      InModule(files[..|files| - 1], m) + (if last.moduleId == m then [last] else [])
  }

  function Elements(s: seq<string>): set<string> {
    set x | x in s
  }

  const RUNTIME_BINDINGS: set<string> := {"DamlDate", "DamlNumeric", "DamlParty", "DamlTimestamp", "DamlUnit"}

  /** Names taken in a scope: what is recorded, nothing when the scope is unknown. */
  function NamesIn(names: map<string, set<string>>, scope: string): set<string> {
    if scope in names then names[scope] else {}
  }

  function MergeReservedNames(a: map<string, set<string>>, b: map<string, set<string>>): map<string, set<string>> {
    map scope | scope in a.Keys + b.Keys :: NamesIn(a, scope) + NamesIn(b, scope)
  }

  function ReservedRuntimeBindings(definitions: seq<TypeId>): map<string, set<string>> {
    var scopes := set d | d in definitions :: ModuleKey(d.moduleId);
    map scope | scope in scopes :: RUNTIME_BINDINGS
  }

  /** Collects the template exports of every module. */
  method GetReservedModuleExports(files: seq<Binding>) returns (exports: map<string, set<string>>)
    ensures forall m :: SeparatorFree(m) && (forall f :: f in files ==> SeparatorFree(f.moduleId)) ==>
              NamesIn(exports, ModuleKey(m)) == Elements(TemplateSymbols(InModule(files, m)))
    ensures forall f :: f in files ==> Elements(ExportedSymbols(f)) <= NamesIn(exports, ModuleKey(f.moduleId))
  {
    exports := map[];
    for i := 0 to |files|
      invariant forall m :: SeparatorFree(m) && (forall f :: f in files ==> SeparatorFree(f.moduleId)) ==>
                  NamesIn(exports, ModuleKey(m)) == Elements(TemplateSymbols(InModule(files[..i], m)))
      invariant forall f :: f in files[..i] ==> Elements(ExportedSymbols(f)) <= NamesIn(exports, ModuleKey(f.moduleId))
    {
      var f := files[i];
      var key := ModuleKey(f.moduleId);
      ghost var before := exports;
      exports := exports[key := NamesIn(exports, key) + Elements(ExportedSymbols(f))];
      forall m | SeparatorFree(m) && forall g :: g in files ==> SeparatorFree(g.moduleId)
        ensures NamesIn(exports, ModuleKey(m)) == Elements(TemplateSymbols(InModule(files[..i + 1], m)))
      {
        assert f in files;
        ExportsStep(files, i, m);
        if ModuleKey(m) == key {
          ModuleKeysTellApart(m, f.moduleId);
        }
      }
    }
    assert files[..|files|] == files;
  }

  lemma ExportsStep(files: seq<Binding>, i: nat, m: ModuleId)
    requires i < |files|
    ensures Elements(TemplateSymbols(InModule(files[..i + 1], m)))
         == Elements(TemplateSymbols(InModule(files[..i], m)))
            + if files[i].moduleId == m then Elements(ExportedSymbols(files[i])) else {}
  {
    assert files[..i + 1][..i] == files[..i];
    var init := InModule(files[..i], m);
    if files[i].moduleId == m {
      assert (init + [files[i]])[..|init|] == init;
      ElementsAppend(TemplateSymbols(init), ExportedSymbols(files[i]));
    } else {
      assert init + [] == init;
    }
  }

  lemma ElementsAppend(a: seq<string>, b: seq<string>)
    ensures Elements(a + b) == Elements(a) + Elements(b)
  {
  }

  function DefinitionValue(d: TypeId, c: Conventions, json: TypeId -> string): Named<TypeId> {
    Named(d, json(d), c.typeName(d.name), ModuleKey(d.moduleId), "_")
  }

  /** Named type exports: duplicates are rejected, every other definition gets a name. */
  method ResolveDefinitionNamesOrThrow(definitions: seq<TypeId>, reserved: map<string, set<string>>, c: Conventions,
      json: TypeId -> string, scheme: Scheme)
    returns (r: Result<map<TypeId, string>>)
    requires scheme.retry
    ensures r.Ok? <==> Distinct(definitions)
    ensures r.Ok? ==> r.value == ResolvedNames(Map(definitions, d => DefinitionValue(d, c, json)), reserved, scheme)
  {
    var duplicate: set<TypeId> := {};
    for i := 0 to |definitions|
      invariant forall d :: d in duplicate <==> d in definitions[..i]
      invariant Distinct(definitions[..i])
    {
      if definitions[i] in duplicate {
        var k :| 0 <= k < i && definitions[k] == definitions[i];
        return Err;
      }
      duplicate := duplicate + {definitions[i]};
    }
    assert definitions[..|definitions|] == definitions;
    var names := ResolveNames(Map(definitions, d => DefinitionValue(d, c, json)), reserved, scheme);
    return Ok(names);
  }

  function ReservedNames(exports: map<string, set<string>>, definitions: seq<TypeId>): map<string, set<string>> {
    MergeReservedNames(exports, ReservedRuntimeBindings(definitions))
  }

  function DefinitionNames(definitions: seq<TypeId>, exports: map<string, set<string>>, c: Conventions,
      json: TypeId -> string, scheme: Scheme): map<TypeId, string>
  {
    ResolvedNames(Map(definitions, d => DefinitionValue(d, c, json)), ReservedNames(exports, definitions), scheme)
  }

  /** Named type exports are distinct in their module and avoid template exports and runtime bindings, for any hash. */
  lemma TypeExportsSeparate(definitions: seq<TypeId>, exports: map<string, set<string>>, c: Conventions,
      json: TypeId -> string, scheme: Scheme)
    requires Distinct(definitions)
    ensures var names := DefinitionNames(definitions, exports, c, json, scheme);
            && (forall d :: d in definitions ==>
                  && d in names && names[d] !in NamesIn(exports, ModuleKey(d.moduleId))
                  && names[d] !in {"DamlDate", "DamlNumeric", "DamlParty", "DamlTimestamp", "DamlUnit"})
            && (forall d, e :: d in definitions && e in definitions && d != e && d.moduleId == e.moduleId ==>
                  names[d] != names[e])
  {
    KindResolves(definitions, d => DefinitionValue(d, c, json), ReservedNames(exports, definitions), scheme);
    forall d | d in definitions
      ensures UsedIn(map[], ReservedNames(exports, definitions), ModuleKey(d.moduleId))
           == NamesIn(exports, ModuleKey(d.moduleId)) + RUNTIME_BINDINGS
    {
      ReservedAt(definitions, exports, d);
    }
  }

  /**
   * A named type keeps its own name unless another of its module has that too; then "_" and a hash of its
   * identity follow. What a template, the runtime or another type of the module holds is marked.
   */
  lemma DefinitionNamesSpelled(definitions: seq<TypeId>, exports: map<string, set<string>>, c: Conventions,
      json: TypeId -> string, scheme: Scheme, d: TypeId)
    requires Distinct(definitions) && d in definitions && scheme.retry
    ensures var names := DefinitionNames(definitions, exports, c, json, scheme);
            var others := set e | e in definitions && e != d && ModuleKey(e.moduleId) == ModuleKey(d.moduleId);
            var taken := (set e | e in others && e in names :: names[e]) + NamesIn(exports, ModuleKey(d.moduleId))
                         + {"DamlDate", "DamlNumeric", "DamlParty", "DamlTimestamp", "DamlUnit"};
            && d in names && (forall e :: e in others ==> e in names)
            && Given(names[d], c.typeName(d.name), "_" + scheme.hash(json(d)),
                     exists e :: e in others && c.typeName(e.name) == c.typeName(d.name), taken, true)
  {
    hide ResolvedNames, Given, ReservedNames;
    var names, reserved := DefinitionNames(definitions, exports, c, json, scheme), ReservedNames(exports, definitions);
    var others := set e | e in definitions && e != d && ModuleKey(e.moduleId) == ModuleKey(d.moduleId);
    ReservedAt(definitions, exports, d);
    KindGiven(definitions, e => DefinitionValue(e, c, json), reserved, scheme, d, names, others,
              (set e | e in others && e in names :: names[e]) + NamesIn(exports, ModuleKey(d.moduleId))
              + {"DamlDate", "DamlNumeric", "DamlParty", "DamlTimestamp", "DamlUnit"},
              exists e :: e in others && c.typeName(e.name) == c.typeName(d.name));
  }

  lemma ReservedAt(definitions: seq<TypeId>, exports: map<string, set<string>>, d: TypeId)
    requires d in definitions
    ensures UsedIn(map[], ReservedNames(exports, definitions), ModuleKey(d.moduleId))
         == NamesIn(exports, ModuleKey(d.moduleId)) + RUNTIME_BINDINGS
  {
    assert ModuleKey(d.moduleId) in ReservedRuntimeBindings(definitions);
  }

  lemma {:induction false} ChoiceSymbolsHold(className: string, stems: seq<string>)
    ensures forall symbol :: symbol in ChoiceSymbols(className, stems) <==>
              exists stem :: stem in stems && (symbol == className + stem + "Choice"
                                               || symbol == className + stem + "ExercisedEvent")
  {
    if stems != [] {
      var init, last := stems[..|stems| - 1], stems[|stems| - 1];
      assert stems == init + [last];
      ChoiceSymbolsHold(className, init);
    }
  }

  /** What a template exports: its class, its fields, its created event, and two types for each choice. */
  lemma TemplateExports(b: Binding, symbol: string)
    ensures symbol in ExportedSymbols(b) <==>
            || symbol == b.className || symbol == b.className + "Fields" || symbol == b.className + "CreatedEvent"
            || exists stem :: stem in b.stems && (symbol == b.className + stem + "Choice"
                                                  || symbol == b.className + stem + "ExercisedEvent")
  {
    ChoiceSymbolsHold(b.className, b.stems);
    hide ChoiceSymbols;
  }

  /** No named type of a module is called like anything a template of the module exports. */
  lemma TypesAvoidTemplates(files: seq<Binding>, exports: map<string, set<string>>, definitions: seq<TypeId>,
      c: Conventions, json: TypeId -> string, scheme: Scheme, b: Binding, d: TypeId)
    requires Distinct(definitions) && d in definitions && b in files && b.moduleId == d.moduleId
    requires forall f :: f in files ==> Elements(ExportedSymbols(f)) <= NamesIn(exports, ModuleKey(f.moduleId))
    ensures var names := DefinitionNames(definitions, exports, c, json, scheme);
            && d in names
            && names[d] !in {b.className, b.className + "Fields", b.className + "CreatedEvent"}
            && forall stem :: stem in b.stems ==>
                 names[d] != b.className + stem + "Choice" && names[d] != b.className + stem + "ExercisedEvent"
  {
    hide ResolvedNames, ExportedSymbols, ReservedNames;
    TypeExportsSeparate(definitions, exports, c, json, scheme);
    var name := DefinitionNames(definitions, exports, c, json, scheme)[d];
    TemplateExports(b, name);
    assert name in Elements(ExportedSymbols(b)) <==> name in ExportedSymbols(b);
  }

  /** Records symbols one by one; stops at the first that is already recorded. */
  method RecordSymbols(seen: set<string>, ghost recorded: seq<string>, own: seq<string>)
    returns (ok: bool, after: set<string>)
    requires Distinct(recorded) && seen == Elements(recorded)
    ensures ok <==> Distinct(recorded + own)
    ensures ok ==> after == Elements(recorded + own)
  {
    after := seen;
    for j := 0 to |own|
      invariant Distinct(recorded + own[..j]) && after == Elements(recorded + own[..j])
    {
      ghost var symbols := recorded + own[..j];
      if own[j] in after {
        ghost var k :| 0 <= k < |symbols| && symbols[k] == own[j];
        assert (recorded + own)[k] == (recorded + own)[|symbols|];
        return false, after;
      }
      after := after + {own[j]};
      assert recorded + own[..j + 1] == symbols + [own[j]];
    }
    assert own[..|own|] == own;
    return true, after;
  }

  /** The check of a generated module: every template symbol, then every type name, may occur once. */
  method AssertDistinctModuleExportedSymbols(files: seq<Binding>, typeNames: seq<string>) returns (r: Result<()>)
    ensures r.Ok? <==> Distinct(TemplateSymbols(files) + typeNames)
  {
    var seen: set<string> := {};
    for i := 0 to |files|
      invariant Distinct(TemplateSymbols(files[..i])) && seen == Elements(TemplateSymbols(files[..i]))
    {
      assert files[..i + 1][..i] == files[..i];
      var ok, after := RecordSymbols(seen, TemplateSymbols(files[..i]), ExportedSymbols(files[i]));
      if !ok {
        SymbolsPrefix(files, i + 1);
        PrefixDistinct(TemplateSymbols(files[..i + 1]), TemplateSymbols(files) + typeNames);
        return Err;
      }
      seen := after;
    }
    assert files[..|files|] == files;
    var ok, after := RecordSymbols(seen, TemplateSymbols(files), typeNames);
    return if ok then Ok(()) else Err;
  }

  lemma PrefixDistinct(a: seq<string>, b: seq<string>)
    requires a <= b && !Distinct(a)
    ensures !Distinct(b)
  {
    var i, j :| 0 <= i < j < |a| && a[i] == a[j];
    assert b[i] == b[j];
  }

  lemma {:induction false} SymbolsPrefix(files: seq<Binding>, i: nat)
    requires i <= |files|
    ensures TemplateSymbols(files[..i]) <= TemplateSymbols(files)
    decreases |files|
  {
    if i == |files| {
      assert files[..i] == files;
    } else {
      var init := files[..|files| - 1];
      assert init[..i] == files[..i];
      SymbolsPrefix(init, i);
    }
  }

  lemma {:induction false} SymbolOwner(files: seq<Binding>, symbol: string) returns (f: Binding)
    requires symbol in TemplateSymbols(files)
    ensures f in files && symbol in ExportedSymbols(f)
  {
    var init, last := files[..|files| - 1], files[|files| - 1];
    if symbol in ExportedSymbols(last) {
      f := last;
    } else {
      f := SymbolOwner(init, symbol);
    }
  }

  lemma {:induction false} InModuleElement(files: seq<Binding>, m: ModuleId, f: Binding)
    requires f in InModule(files, m)
    ensures f in files && f.moduleId == m
  {
    if f in InModule(files[..|files| - 1], m) {
      InModuleElement(files[..|files| - 1], m, f);
    }
  }

  /**
   * In the project pipeline the template-versus-type collision cannot occur: the check of a
   * module fails exactly when template symbols collide among themselves.
   */
  lemma OnlyTemplatesCollide(files: seq<Binding>, exports: map<string, set<string>>, definitions: seq<TypeId>,
      own: seq<TypeId>, m: ModuleId, c: Conventions, json: TypeId -> string, scheme: Scheme)
    requires Distinct(definitions)
    requires forall f :: f in files ==> Elements(ExportedSymbols(f)) <= NamesIn(exports, ModuleKey(f.moduleId))
    requires Distinct(own) && forall d :: d in own ==> d in definitions && d.moduleId == m
    ensures var names := DefinitionNames(definitions, exports, c, json, scheme);
            var symbols := TemplateSymbols(InModule(files, m));
            && (forall d :: d in own ==> d in names)
            && (forall typeNames: seq<string> {:trigger Distinct(symbols + typeNames)} ::
                  |typeNames| == |own| && (forall i :: 0 <= i < |own| ==> typeNames[i] == names[own[i]]) ==>
                  (Distinct(symbols + typeNames) <==> Distinct(symbols)))
  {
    var names := DefinitionNames(definitions, exports, c, json, scheme);
    var symbols := TemplateSymbols(InModule(files, m));
    TypeExportsSeparate(definitions, exports, c, json, scheme);
    forall typeNames: seq<string> |
      |typeNames| == |own| && forall i :: 0 <= i < |own| ==> typeNames[i] == names[own[i]]
      ensures Distinct(symbols + typeNames) <==> Distinct(symbols)
    {
      forall i, j | 0 <= i < |symbols| && 0 <= j < |own| ensures symbols[i] != typeNames[j] {
        var f := SymbolOwner(InModule(files, m), symbols[i]);
        InModuleElement(files, m, f);
        assert own[j] in own && symbols[i] in Elements(ExportedSymbols(f));
      }
      forall i, j | 0 <= i < j < |own| ensures typeNames[i] != typeNames[j] {
        assert own[i] in own && own[j] in own;
      }
      DistinctAppend(symbols, typeNames);
    }
  }

  lemma DistinctAppend(a: seq<string>, b: seq<string>)
    requires Distinct(b)
    requires forall i, j :: 0 <= i < |a| && 0 <= j < |b| ==> a[i] != b[j]
    ensures Distinct(a + b) <==> Distinct(a)
  {
    var all := a + b;
    assert forall i :: 0 <= i < |a| ==> all[i] == a[i];
    assert forall i :: |a| <= i < |all| ==> all[i] == b[i - |a|];
    if Distinct(all) {
      forall i, j | 0 <= i < j < |a| ensures a[i] != a[j] {
        assert all[i] != all[j];
      }
    }
  }

  // One template never collides with itself; two templates can.

  lemma {:induction false} ChoiceSymbolAt(className: string, stems: seq<string>, i: nat)
    requires i < |ChoiceSymbols(className, stems)|
    ensures |ChoiceSymbols(className, stems)| == 2 * |stems|
    ensures ChoiceSymbols(className, stems)[i]
         == className + stems[i / 2] + (if i % 2 == 0 then "Choice" else "ExercisedEvent")
  {
    if stems != [] {
      var init := stems[..|stems| - 1];
      var rest := ChoiceSymbols(className, init);
      if i < |rest| {
        ChoiceSymbolAt(className, init, i);
      } else if init != [] {
        assert |rest| > 0;
        ChoiceSymbolAt(className, init, 0);
      } else {
        assert rest == [];
      }
    }
  }

  lemma ChoiceSymbolsDiffer(className: string, stems: seq<string>, i: nat, j: nat)
    requires Distinct(stems) && i < j < |ChoiceSymbols(className, stems)|
    ensures ChoiceSymbols(className, stems)[i] != ChoiceSymbols(className, stems)[j]
  {
    var symbols := ChoiceSymbols(className, stems);
    ChoiceSymbolAt(className, stems, i);
    ChoiceSymbolAt(className, stems, j);
    var a, b := symbols[i], symbols[j];
    if i % 2 != j % 2 {
      assert a[|a| - 1] != b[|b| - 1];
    } else {
      var suffix := if i % 2 == 0 then "Choice" else "ExercisedEvent";
      assert stems[i / 2] != stems[j / 2];
      assert a[|className|..|a| - |suffix|] == stems[i / 2];
      assert b[|className|..|b| - |suffix|] == stems[j / 2];
    }
  }

  /** Choice stems being distinct, the symbols of one template are distinct. */
  lemma OneTemplateIsDistinct(b: Binding)
    requires Distinct(b.stems) && forall stem :: stem in b.stems ==> stem != ""
    ensures Distinct(ExportedSymbols(b))
  {
    var symbols := ExportedSymbols(b);
    var choices := ChoiceSymbols(b.className, b.stems);
    forall i, j | 0 <= i < j < |symbols| ensures symbols[i] != symbols[j] {
      if i >= 3 {
        ChoiceSymbolsDiffer(b.className, b.stems, i - 3, j - 3);
        assert symbols[i] == choices[i - 3] && symbols[j] == choices[j - 3];
      } else if j >= 3 {
        ChoiceSymbolAt(b.className, b.stems, j - 3);
        assert symbols[j] == choices[j - 3];
        assert b.stems[(j - 3) / 2] in b.stems;
        var x, y := symbols[i], symbols[j];
        assert y[|y| - 1] == if (j - 3) % 2 == 0 then 'e' else 't';
        assert i == 1 ==> x[|x| - 1] == 's';
        assert i == 2 ==> x[|x| - 1] == 't';
      }
    }
  }

  /** Templates Foo and FooFields in one module have distinct classes but share the symbol FooFields. */
  lemma TemplatesCanCollide(m: ModuleId)
    ensures var foo, fields := Binding(m, "Foo", []), Binding(m, "FooFields", []);
            && foo.className != fields.className
            && Distinct(ExportedSymbols(foo)) && Distinct(ExportedSymbols(fields))
            && !Distinct(TemplateSymbols([foo, fields]))
  {
    var foo, fields := Binding(m, "Foo", []), Binding(m, "FooFields", []);
    OneTemplateIsDistinct(foo);
    OneTemplateIsDistinct(fields);
    assert [foo, fields][..1] == [foo] && [foo][..0] == [];
    var symbols := TemplateSymbols([foo, fields]);
    assert TemplateSymbols([foo]) == ExportedSymbols(foo);
    assert symbols[1] == symbols[3] == "FooFields";
  }
}
