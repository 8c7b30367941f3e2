/** Project-wide output names: package, module and file paths, namespace aliases and class names. */
module ProjectNames {
  import opened Wrappers
  import opened Decimals
  import opened NameResolution

  datatype ModuleId = ModuleId(packageId: string, moduleName: string)

  datatype Template = Template(id: ModuleId, templateName: string)

  datatype ResolvedModule = ResolvedModule(directoryPath: string, namespaceAlias: string)

  datatype ResolvedTemplate = ResolvedTemplate(filePath: string, namespaceAlias: string, className: string)

  /** The name normalisations: kebab case for paths, Pascal case for types and aliases. */
  datatype Conventions = Conventions(
    packageDirectory: string -> string, moduleDirectory: string -> string, kebab: string -> string,
    typeName: string -> string, namespaceAlias: ModuleId -> string)

  /** Normalised package and file names, and hashes, hold no path separator. */
  ghost predicate SlashFree(c: Conventions, scheme: Scheme) {
    && (forall s :: '/' !in c.packageDirectory(s))
    && (forall s :: '/' !in c.kebab(s))
    && (forall s :: '/' !in scheme.hash(s))
  }

  function ModuleKey(m: ModuleId): string {
    m.packageId + "\0" + m.moduleName
  }

  function TemplateKey(t: Template): string {
    ModuleKey(t.id) + "\0" + t.templateName
  }

  /** `index` and `types` are taken by the files of the module itself. */
  function TemplateFileBaseName(t: Template, c: Conventions): string {
    var fileName := c.kebab(t.templateName);
    if fileName == "index" || fileName == "types" then fileName + "-template" else fileName
  }

  function PackageValue(packageId: string, c: Conventions): Named<string> {
    Named(packageId, "package\0" + packageId, c.packageDirectory(packageId), "packages", "-")
  }

  function ModuleValue(m: ModuleId, c: Conventions): Named<ModuleId> {
    Named(m, "module\0" + ModuleKey(m), c.moduleDirectory(m.moduleName), m.packageId, "-")
  }

  function FileValue(t: Template, c: Conventions): Named<Template> {
    Named(t, TemplateKey(t), TemplateFileBaseName(t, c), ModuleKey(t.id), "-")
  }

  function AliasValue(m: ModuleId, c: Conventions): Named<ModuleId> {
    Named(m, "namespace\0" + ModuleKey(m), c.namespaceAlias(m), "", "_")
  }

  function ClassValue(t: Template, c: Conventions): Named<Template> {
    Named(t, TemplateKey(t), c.typeName(t.templateName), "", "_")
  }

  function Map<A, B>(s: seq<A>, f: A -> B): (r: seq<B>)
    ensures |r| == |s| && forall i :: 0 <= i < |s| ==> r[i] == f(s[i])
  {
    seq(|s|, i requires 0 <= i < |s| => f(s[i]))
  }

  /** The first occurrences, as a JavaScript Set or Map keeps them. */
  function Dedup<A(==)>(s: seq<A>): seq<A> {
    if s == [] then []
    else
      var init := Dedup(s[..|s| - 1]);
      if s[|s| - 1] in init then init else init + [s[|s| - 1]]
  }

  ghost predicate Distinct<A>(s: seq<A>) {
    forall i, j :: 0 <= i < j < |s| ==> s[i] != s[j]
  }

  lemma {:induction false} DedupDistinct<A>(s: seq<A>)
    ensures Distinct(Dedup(s)) && forall x :: x in Dedup(s) <==> x in s
  {
    if s != [] {
      DedupDistinct(s[..|s| - 1]);
      assert s == s[..|s| - 1] + [s[|s| - 1]];
    }
  }

  function ModulesOf(templates: seq<Template>, definitions: seq<ModuleId>): seq<ModuleId> {
    Dedup(Map(templates, (t: Template) => t.id) + definitions)
  }

  function PackagesOf(modules: seq<ModuleId>): seq<string> {
    Dedup(Map(modules, (m: ModuleId) => m.packageId))
  }

  /** The five name tables of a project. */
  datatype Tables = Tables(
    packages: map<string, string>, modules: map<ModuleId, string>, files: map<Template, string>,
    aliases: map<ModuleId, string>, classes: map<Template, string>)

  function PackageNames(modules: seq<ModuleId>, c: Conventions, scheme: Scheme): map<string, string> {
    ResolvedNames(Map(PackagesOf(modules), p => PackageValue(p, c)), map[], scheme)
  }

  function ModuleNames(modules: seq<ModuleId>, c: Conventions, scheme: Scheme): map<ModuleId, string> {
    ResolvedNames(Map(modules, m => ModuleValue(m, c)), map[], scheme)
  }

  function FileNames(templates: seq<Template>, c: Conventions, scheme: Scheme): map<Template, string> {
    ResolvedNames(Map(templates, t => FileValue(t, c)), map[], scheme)
  }

  function AliasNames(modules: seq<ModuleId>, c: Conventions, scheme: Scheme): map<ModuleId, string> {
    ResolvedNames(Map(modules, m => AliasValue(m, c)), map[], scheme)
  }

  function ClassNames(templates: seq<Template>, c: Conventions, scheme: Scheme): map<Template, string> {
    ResolvedNames(Map(templates, t => ClassValue(t, c)), map[], scheme)
  }

  function ProjectTables(templates: seq<Template>, modules: seq<ModuleId>, c: Conventions, scheme: Scheme): Tables {
    Tables(PackageNames(modules, c, scheme), ModuleNames(modules, c, scheme), FileNames(templates, c, scheme),
           AliasNames(modules, c, scheme), ClassNames(templates, c, scheme))
  }

  function DirectoryPath(packageDirectory: string, moduleDirectory: string): string {
    "generated/packages/" + packageDirectory + "/" + moduleDirectory
  }

  function FilePath(directoryPath: string, fileName: string): string {
    directoryPath + "/" + fileName + ".ts"
  }

  ghost predicate CoversModule(tables: Tables, m: ModuleId) {
    m.packageId in tables.packages && m in tables.modules && m in tables.aliases
  }

  ghost predicate CoversTemplate(tables: Tables, t: Template) {
    t in tables.files && t in tables.classes && CoversModule(tables, t.id)
  }

  ghost function ModuleOf(tables: Tables, m: ModuleId): ResolvedModule
    requires CoversModule(tables, m)
  {
    ResolvedModule(DirectoryPath(tables.packages[m.packageId], tables.modules[m]), tables.aliases[m])
  }

  ghost function TemplateOf(tables: Tables, t: Template): ResolvedTemplate
    requires CoversTemplate(tables, t)
  {
    var m := ModuleOf(tables, t.id);
    ResolvedTemplate(FilePath(m.directoryPath, tables.files[t]), m.namespaceAlias, tables.classes[t])
  }

  // Texts joined by a separator one side does not hold.

  lemma SplitFirst(a: string, b: string, c: string, d: string, sep: char)
    requires sep !in a && sep !in c && a + [sep] + b == c + [sep] + d
    ensures a == c && b == d
  {
    var s := a + [sep] + b;
    assert s[|a|] == sep && s[|c|] == sep;
    assert forall i :: 0 <= i < |a| ==> s[i] == a[i];
    assert forall i :: 0 <= i < |c| ==> s[i] == c[i];
    assert a == s[..|a|] && c == s[..|c|];
    assert b == s[|a| + 1..] && d == s[|c| + 1..];
  }

  lemma SplitLast(a: string, b: string, c: string, d: string, sep: char)
    requires sep !in b && sep !in d && a + [sep] + b == c + [sep] + d
    ensures a == c && b == d
  {
    var s := a + [sep] + b;
    assert s[|a|] == sep && s[|c|] == sep;
    assert forall k :: |a| < k < |s| ==> s[k] == b[k - |a| - 1];
    assert forall k :: |c| < k < |s| ==> s[k] == d[k - |c| - 1];
    assert |a| == |c|;
    assert a == s[..|a|] && c == s[..|c|];
    assert b == s[|a| + 1..] && d == s[|c| + 1..];
  }

  lemma FromBaseSlashFree<T>(v: Named<T>, shared: bool, name: string, scheme: Scheme)
    requires FromBase(v, shared, name, scheme)
    requires '/' !in v.baseName && '/' !in v.separator && '/' !in scheme.hash(v.key)
    ensures '/' !in name
  {
    var wanted := v.baseName + if shared then v.separator + scheme.hash(v.key) else "";
    assert '/' !in wanted;
    if name != wanted {
      var tail :| IsMark(tail, scheme.retry) && name == wanted + tail;
      assert '/' !in tail;
    }
  }

  /** A template file is never the index or the types file of its module. */
  lemma FileNotReserved(t: Template, shared: bool, name: string, c: Conventions, scheme: Scheme)
    requires FromBase(FileValue(t, c), shared, name, scheme) && !scheme.retry
    ensures name != "index" && name != "types"
  {
    var base := TemplateFileBaseName(t, c);
    var wanted := base + if shared then "-" + scheme.hash(TemplateKey(t)) else "";
    if shared {
      assert wanted[|base|] == '-' && name[|base|] == '-';
    } else if name != wanted {
      var tail :| IsMark(tail, scheme.retry) && name == wanted + tail;
      assert name[|base|] == '_';
    } else {
      assert name == base;
    }
  }

  /** The names of a list of values of a kind: separate in each scope, not reserved, made from their bases. */
  lemma KindResolves<A>(s: seq<A>, f: A -> Named<A>, reserved: map<string, set<string>>, scheme: Scheme)
    requires Distinct(s) && forall x :: x in s ==> f(x).value == x
    ensures var names := ResolvedNames(Map(s, f), reserved, scheme);
            && (forall x :: x in s ==> x in names && exists shared: bool :: FromBase(f(x), shared, names[x], scheme))
            && (forall x :: x in s ==> names[x] !in UsedIn(map[], reserved, f(x).scope))
            && (forall x, y :: x in s && y in s && x != y && f(x).scope == f(y).scope ==> names[x] != names[y])
  {
    var values := Map(s, f);
    assert DistinctValues(values);
    NamesSeparate(values, reserved, scheme);
    NamesFromBase(values, reserved, scheme);
    forall x | x in s
      ensures f(x) in values
    {
      MapElement(s, f, x);
    }
  }

  lemma MapElement<A, B>(s: seq<A>, f: A -> B, x: A)
    requires x in s
    ensures f(x) in Map(s, f)
  {
    var i :| 0 <= i < |s| && s[i] == x;
    assert Map(s, f)[i] == f(x);
  }

  /**
   * A name as it is given: the base, followed by the distinguisher when the base is shared, and marked only
   * when that is taken.
   */
  ghost predicate Given(name: string, base: string, distinguisher: string, shared: bool, taken: set<string>,
      retry: bool) {
    var wanted := base + if shared then distinguisher else "";
    && (name == wanted || exists tail :: IsMark(tail, retry) && name == wanted + tail)
    && (wanted !in taken ==> name == wanted)
  }

  /** The other things of the list whose names share a scope with that of `x`. */
  ghost function Others<A>(s: seq<A>, f: A -> Named<A>, x: A): set<A> {
    set y | y in s && y != x && f(y).scope == f(x).scope
  }

  lemma OthersAreValues<A>(s: seq<A>, f: A -> Named<A>, x: A)
    requires (forall y :: y in s ==> f(y).value == y) && x in s
    ensures forall y :: y in Others(s, f, x) ==> f(y) in Map(s, f) && f(y).value == y
    ensures forall w :: w in Map(s, f) && w.value != x && w.scope == f(x).scope ==>
              w.value in Others(s, f, x) && w == f(w.value)
  {
    forall y | y in Others(s, f, x)
      ensures f(y) in Map(s, f)
    {
      MapElement(s, f, y);
    }
  }

  lemma KindShares<A>(s: seq<A>, f: A -> Named<A>, x: A)
    requires (forall y :: y in s ==> f(y).value == y) && x in s
    ensures Shares(f(x), Map(s, f)) <==> exists y :: y in Others(s, f, x) && f(y).baseName == f(x).baseName
  {
    hide Map;
    OthersAreValues(s, f, x);
    if w :| w in Map(s, f) && w.value != f(x).value && w.scope == f(x).scope && w.baseName == f(x).baseName {
      assert w.value in Others(s, f, x) && f(w.value).baseName == f(x).baseName;
    }
  }

  lemma KindGiven<A>(s: seq<A>, f: A -> Named<A>, reserved: map<string, set<string>>, scheme: Scheme, x: A,
      names: map<A, string>, others: set<A>, taken: set<string>, shared: bool)
    requires Distinct(s) && (forall y :: y in s ==> f(y).value == y) && x in s
    requires names == ResolvedNames(Map(s, f), reserved, scheme)
    requires forall y :: y in others <==> y in s && y != x && f(y).scope == f(x).scope
    requires shared <==> exists y :: y in others && f(y).baseName == f(x).baseName
    requires forall y :: y in others && y in names ==> names[y] in taken
    requires UsedIn(map[], reserved, f(x).scope) <= taken
    ensures x in names && forall y :: y in others ==> y in names
    ensures Given(names[x], f(x).baseName, f(x).separator + scheme.hash(f(x).key), shared, taken, scheme.retry)
  {
    var values := Map(s, f);
    assert DistinctValues(values);
    MapElement(s, f, x);
    assert Others(s, f, x) == others;
    hide Map, ResolvedNames, Others;
    NamesFromBase(values, reserved, scheme);
    UnclaimedIsKept(values, reserved, scheme, f(x));
    OthersAreValues(s, f, x);
    KindShares(s, f, x);
    assert f(x).baseName + (f(x).separator + scheme.hash(f(x).key))
        == f(x).baseName + f(x).separator + scheme.hash(f(x).key);
  }

  lemma PackageNamesSound(modules: seq<ModuleId>, c: Conventions, scheme: Scheme)
    requires SlashFree(c, scheme)
    ensures var names := PackageNames(modules, c, scheme);
            && (forall m :: m in modules ==> m.packageId in names && '/' !in names[m.packageId])
            && (forall m, n :: m in modules && n in modules && m.packageId != n.packageId ==>
                  names[m.packageId] != names[n.packageId])
  {
    var names := PackageNames(modules, c, scheme);
    var ids := Map(modules, (m: ModuleId) => m.packageId);
    DedupDistinct(ids);
    KindResolves(PackagesOf(modules), p => PackageValue(p, c), map[], scheme);
    forall m | m in modules ensures m.packageId in PackagesOf(modules) && '/' !in names[m.packageId] {
      var i :| 0 <= i < |modules| && modules[i] == m;
      assert ids[i] == m.packageId;
      var shared: bool :| FromBase(PackageValue(m.packageId, c), shared, names[m.packageId], scheme);
      FromBaseSlashFree(PackageValue(m.packageId, c), shared, names[m.packageId], scheme);
    }
  }

  lemma ModuleNamesSound(modules: seq<ModuleId>, c: Conventions, scheme: Scheme)
    requires Distinct(modules)
    ensures var names := ModuleNames(modules, c, scheme);
            && (forall m :: m in modules ==> m in names)
            && (forall m, n :: m in modules && n in modules && m != n && m.packageId == n.packageId ==>
                  names[m] != names[n])
  {
    KindResolves(modules, m => ModuleValue(m, c), map[], scheme);
  }

  lemma AliasNamesSound(modules: seq<ModuleId>, c: Conventions, scheme: Scheme)
    requires Distinct(modules)
    ensures var names := AliasNames(modules, c, scheme);
            && (forall m :: m in modules ==> m in names)
            && (forall m, n :: m in modules && n in modules && m != n ==> names[m] != names[n])
  {
    KindResolves(modules, m => AliasValue(m, c), map[], scheme);
  }

  lemma ClassNamesSound(templates: seq<Template>, c: Conventions, scheme: Scheme)
    requires Distinct(templates)
    ensures var names := ClassNames(templates, c, scheme);
            && (forall t :: t in templates ==> t in names)
            && (forall t, u :: t in templates && u in templates && t != u ==> names[t] != names[u])
  {
    KindResolves(templates, t => ClassValue(t, c), map[], scheme);
  }

  lemma FileNamesSound(templates: seq<Template>, c: Conventions, scheme: Scheme)
    requires Distinct(templates) && SlashFree(c, scheme) && !scheme.retry
    ensures var names := FileNames(templates, c, scheme);
            && (forall t :: t in templates ==>
                  t in names && '/' !in names[t] && names[t] != "index" && names[t] != "types")
            && (forall t, u :: t in templates && u in templates && t != u && t.id == u.id ==> names[t] != names[u])
  {
    KindResolves(templates, t => FileValue(t, c), map[], scheme);
    var names := FileNames(templates, c, scheme);
    forall t | t in templates ensures '/' !in names[t] && names[t] != "index" && names[t] != "types" {
      var shared: bool :| FromBase(FileValue(t, c), shared, names[t], scheme);
      FromBaseSlashFree(FileValue(t, c), shared, names[t], scheme);
      FileNotReserved(t, shared, names[t], c, scheme);
    }
  }

  /** What the tables promise: injective where they have to be, free of separators, no reserved file. */
  ghost predicate Sound(tables: Tables, templates: seq<Template>, modules: seq<ModuleId>) {
    && (forall t :: t in templates ==> t.id in modules)
    && (forall m :: m in modules ==> CoversModule(tables, m) && '/' !in tables.packages[m.packageId])
    && (forall t :: t in templates ==>
          t in tables.files && t in tables.classes && '/' !in tables.files[t]
          && tables.files[t] != "index" && tables.files[t] != "types")
    && (forall m, n :: m in modules && n in modules && m.packageId != n.packageId ==>
          tables.packages[m.packageId] != tables.packages[n.packageId])
    && (forall m, n :: m in modules && n in modules && m != n && m.packageId == n.packageId ==>
          tables.modules[m] != tables.modules[n])
    && (forall m, n :: m in modules && n in modules && m != n ==> tables.aliases[m] != tables.aliases[n])
    && (forall t, u :: t in templates && u in templates && t != u && t.id == u.id ==>
          tables.files[t] != tables.files[u])
    && (forall t, u :: t in templates && u in templates && t != u ==> tables.classes[t] != tables.classes[u])
  }

  lemma TablesSound(templates: seq<Template>, definitions: seq<ModuleId>, c: Conventions, scheme: Scheme)
    requires Distinct(templates) && SlashFree(c, scheme) && !scheme.retry
    ensures var modules := ModulesOf(templates, definitions);
            Sound(ProjectTables(templates, modules, c, scheme), templates, modules)
  {
    var modules := ModulesOf(templates, definitions);
    ModulesOfElements(templates, definitions);
    PackageNamesSound(modules, c, scheme);
    ModuleNamesSound(modules, c, scheme);
    AliasNamesSound(modules, c, scheme);
    FileNamesSound(templates, c, scheme);
    ClassNamesSound(templates, c, scheme);
  }

  lemma DirectoryPathsDistinct(tables: Tables, templates: seq<Template>, modules: seq<ModuleId>, m: ModuleId,
      n: ModuleId)
    requires Sound(tables, templates, modules) && m in modules && n in modules
    requires ModuleOf(tables, m).directoryPath == ModuleOf(tables, n).directoryPath
    ensures m == n
  {
    var root := "generated/packages/";
    var p, q := tables.packages[m.packageId], tables.packages[n.packageId];
    var d, e := tables.modules[m], tables.modules[n];
    assert p + "/" + d == (root + p + "/" + d)[|root|..];
    assert q + "/" + e == (root + q + "/" + e)[|root|..];
    SplitFirst(p, d, q, e, '/');
  }

  /** Template files are globally distinct, and none is the index or types file of any module. */
  lemma FilePathsDistinct(tables: Tables, templates: seq<Template>, modules: seq<ModuleId>, t: Template, m: ModuleId,
      name: string)
    requires Sound(tables, templates, modules) && t in templates && t.id in modules && m in modules
    requires '/' !in name && TemplateOf(tables, t).filePath == FilePath(ModuleOf(tables, m).directoryPath, name)
    ensures m == t.id && name == tables.files[t]
  {
    var file := tables.files[t];
    var d, e := ModuleOf(tables, t.id).directoryPath, ModuleOf(tables, m).directoryPath;
    assert d + "/" + file + ".ts" == d + "/" + (file + ".ts");
    assert e + "/" + name + ".ts" == e + "/" + (name + ".ts");
    SplitLast(d, file + ".ts", e, name + ".ts", '/');
    assert file == (file + ".ts")[..|file|] && name == (name + ".ts")[..|name|];
    DirectoryPathsDistinct(tables, templates, modules, t.id, m);
  }

  ghost predicate Covers(tables: Tables, templates: seq<Template>, modules: seq<ModuleId>) {
    && (forall t :: t in templates ==> CoversTemplate(tables, t))
    && (forall m :: m in modules ==> CoversModule(tables, m))
  }

  ghost predicate DistinctOutputs(tables: Tables, templates: seq<Template>, modules: seq<ModuleId>)
    requires Covers(tables, templates, modules)
  {
    && (forall t, u :: t in templates && u in templates && t != u ==>
          TemplateOf(tables, t).filePath != TemplateOf(tables, u).filePath)
    && (forall t, u :: t in templates && u in templates && t != u ==>
          TemplateOf(tables, t).className != TemplateOf(tables, u).className)
    && (forall m, n :: m in modules && n in modules && m != n ==>
          ModuleOf(tables, m).directoryPath != ModuleOf(tables, n).directoryPath)
    && (forall m, n :: m in modules && n in modules && m != n ==>
          ModuleOf(tables, m).namespaceAlias != ModuleOf(tables, n).namespaceAlias)
    && (forall t, m :: t in templates && m in modules ==>
          TemplateOf(tables, t).filePath != FilePath(ModuleOf(tables, m).directoryPath, "types"))
    && (forall t, m :: t in templates && m in modules ==>
          TemplateOf(tables, t).filePath != FilePath(ModuleOf(tables, m).directoryPath, "index"))
  }

  lemma SoundTablesSeparate(tables: Tables, templates: seq<Template>, modules: seq<ModuleId>)
    requires Sound(tables, templates, modules)
    ensures Covers(tables, templates, modules) && DistinctOutputs(tables, templates, modules)
  {
    assert Covers(tables, templates, modules);
    forall t, u | t in templates && u in templates && t != u
      ensures TemplateOf(tables, t).filePath != TemplateOf(tables, u).filePath
    {
      if TemplateOf(tables, t).filePath == TemplateOf(tables, u).filePath {
        FilePathsDistinct(tables, templates, modules, t, u.id, tables.files[u]);
      }
    }
    forall m, n | m in modules && n in modules && m != n
      ensures ModuleOf(tables, m).directoryPath != ModuleOf(tables, n).directoryPath
    {
      if ModuleOf(tables, m).directoryPath == ModuleOf(tables, n).directoryPath {
        DirectoryPathsDistinct(tables, templates, modules, m, n);
      }
    }
    forall t, m | t in templates && m in modules
      ensures TemplateOf(tables, t).filePath != FilePath(ModuleOf(tables, m).directoryPath, "types")
      ensures TemplateOf(tables, t).filePath != FilePath(ModuleOf(tables, m).directoryPath, "index")
    {
      if TemplateOf(tables, t).filePath == FilePath(ModuleOf(tables, m).directoryPath, "types") {
        FilePathsDistinct(tables, templates, modules, t, m, "types");
      }
      if TemplateOf(tables, t).filePath == FilePath(ModuleOf(tables, m).directoryPath, "index") {
        FilePathsDistinct(tables, templates, modules, t, m, "index");
      }
    }
  }

  /**
   * Every output of a prepared project is distinct: module directories, template files
   * (also from the modules' own index and types files), namespace aliases and class names.
   */
  lemma OutputsDistinct(templates: seq<Template>, definitions: seq<ModuleId>, c: Conventions, scheme: Scheme)
    requires Distinct(templates) && SlashFree(c, scheme) && !scheme.retry
    ensures var modules := ModulesOf(templates, definitions);
            var tables := ProjectTables(templates, modules, c, scheme);
            Covers(tables, templates, modules) && DistinctOutputs(tables, templates, modules)
  {
    TablesSound(templates, definitions, c, scheme);
    var modules := ModulesOf(templates, definitions);
    SoundTablesSeparate(ProjectTables(templates, modules, c, scheme), templates, modules);
  }

  // The tables, spelled.

  /** Classes are told apart in the whole project, by "_" and the hash of the template's identity. */
  lemma ClassNamesSpelled(templates: seq<Template>, c: Conventions, scheme: Scheme, t: Template)
    requires Distinct(templates) && t in templates && !scheme.retry
    ensures var classes := ClassNames(templates, c, scheme);
            var others := set u | u in templates && u != t;
            && t in classes && (forall u :: u in others ==> u in classes)
            && Given(classes[t], c.typeName(t.templateName),
                     "_" + scheme.hash(t.id.packageId + "\0" + t.id.moduleName + "\0" + t.templateName),
                     exists u :: u in others && c.typeName(u.templateName) == c.typeName(t.templateName),
                     set u | u in others :: classes[u], false)
  {
    hide ResolvedNames, Given;
    var classes, others := ClassNames(templates, c, scheme), set u | u in templates && u != t;
    KindGiven(templates, u => ClassValue(u, c), map[], scheme, t, classes, others,
              set u | u in others && u in classes :: classes[u],
              exists u :: u in others && c.typeName(u.templateName) == c.typeName(t.templateName));
    assert (set u | u in others && u in classes :: classes[u]) == set u | u in others :: classes[u];
  }

  /** Template files are told apart in their module, by "-" and the same hash; two stems are the module's own. */
  lemma FileNamesSpelled(templates: seq<Template>, c: Conventions, scheme: Scheme, t: Template)
    requires Distinct(templates) && t in templates && !scheme.retry
    ensures var files := FileNames(templates, c, scheme);
            var others := set u | u in templates && u != t
                                  && u.id.packageId + "\0" + u.id.moduleName == t.id.packageId + "\0" + t.id.moduleName;
            var kebab := c.kebab(t.templateName);
            var stem := kebab + if kebab in {"index", "types"} then "-template" else "";
            && t in files && (forall u :: u in others ==> u in files)
            && Given(files[t], stem,
                     "-" + scheme.hash(t.id.packageId + "\0" + t.id.moduleName + "\0" + t.templateName),
                     exists u :: u in others && TemplateFileBaseName(u, c) == stem,
                     set u | u in others :: files[u], false)
  {
    hide ResolvedNames, Given;
    var files := FileNames(templates, c, scheme);
    var others := set u | u in templates && u != t
                          && u.id.packageId + "\0" + u.id.moduleName == t.id.packageId + "\0" + t.id.moduleName;
    KindGiven(templates, u => FileValue(u, c), map[], scheme, t, files, others,
              set u | u in others && u in files :: files[u],
              exists u :: u in others && TemplateFileBaseName(u, c) == TemplateFileBaseName(t, c));
    assert (set u | u in others && u in files :: files[u]) == set u | u in others :: files[u];
    assert c.kebab(t.templateName) + "" == c.kebab(t.templateName);
  }

  /** Namespace aliases are told apart in the whole project, by "_" and a hash of the module. */
  lemma AliasNamesSpelled(modules: seq<ModuleId>, c: Conventions, scheme: Scheme, m: ModuleId)
    requires Distinct(modules) && m in modules && !scheme.retry
    ensures var aliases := AliasNames(modules, c, scheme);
            var others := set n | n in modules && n != m;
            && m in aliases && (forall n :: n in others ==> n in aliases)
            && Given(aliases[m], c.namespaceAlias(m),
                     "_" + scheme.hash("namespace\0" + (m.packageId + "\0" + m.moduleName)),
                     exists n :: n in others && c.namespaceAlias(n) == c.namespaceAlias(m),
                     set n | n in others :: aliases[n], false)
  {
    hide ResolvedNames, Given;
    var aliases, others := AliasNames(modules, c, scheme), set n | n in modules && n != m;
    KindGiven(modules, n => AliasValue(n, c), map[], scheme, m, aliases, others,
              set n | n in others && n in aliases :: aliases[n],
              exists n :: n in others && c.namespaceAlias(n) == c.namespaceAlias(m));
    assert (set n | n in others && n in aliases :: aliases[n]) == set n | n in others :: aliases[n];
  }

  /** Module directories are told apart in their package, by "-" and a hash of the module. */
  lemma ModuleNamesSpelled(modules: seq<ModuleId>, c: Conventions, scheme: Scheme, m: ModuleId)
    requires Distinct(modules) && m in modules && !scheme.retry
    ensures var directories := ModuleNames(modules, c, scheme);
            var others := set n | n in modules && n != m && n.packageId == m.packageId;
            && m in directories && (forall n :: n in others ==> n in directories)
            && Given(directories[m], c.moduleDirectory(m.moduleName),
                     "-" + scheme.hash("module\0" + (m.packageId + "\0" + m.moduleName)),
                     exists n :: n in others && c.moduleDirectory(n.moduleName) == c.moduleDirectory(m.moduleName),
                     set n | n in others :: directories[n], false)
  {
    hide ResolvedNames, Given;
    var directories := ModuleNames(modules, c, scheme);
    var others := set n | n in modules && n != m && n.packageId == m.packageId;
    KindGiven(modules, n => ModuleValue(n, c), map[], scheme, m, directories, others,
              set n | n in others && n in directories :: directories[n],
              exists n :: n in others && c.moduleDirectory(n.moduleName) == c.moduleDirectory(m.moduleName));
    assert (set n | n in others && n in directories :: directories[n]) == set n | n in others :: directories[n];
  }

  /** Package directories are told apart by "-" and a hash of the package. */
  lemma PackageNamesSpelled(modules: seq<ModuleId>, c: Conventions, scheme: Scheme, m: ModuleId)
    requires m in modules && !scheme.retry
    ensures var directories := PackageNames(modules, c, scheme);
            var others := set n | n in modules && n.packageId != m.packageId :: n.packageId;
            && m.packageId in directories && (forall p :: p in others ==> p in directories)
            && Given(directories[m.packageId], c.packageDirectory(m.packageId),
                     "-" + scheme.hash("package\0" + m.packageId),
                     exists p :: p in others && c.packageDirectory(p) == c.packageDirectory(m.packageId),
                     set p | p in others :: directories[p], false)
  {
    hide ResolvedNames, Given;
    var ids, packages := Map(modules, (n: ModuleId) => n.packageId), PackagesOf(modules);
    DedupDistinct(ids);
    var directories := PackageNames(modules, c, scheme);
    var others := set n | n in modules && n.packageId != m.packageId :: n.packageId;
    forall p
      ensures p in packages <==> p in others || p == m.packageId
    {
      if n :| n in modules && n.packageId == p {
        var i :| 0 <= i < |modules| && modules[i] == n;
        assert ids[i] == p;
      }
      if p in ids {
        var i :| 0 <= i < |ids| && ids[i] == p;
        assert modules[i].packageId == p && modules[i] in modules;
      }
    }
    KindGiven(packages, p => PackageValue(p, c), map[], scheme, m.packageId, directories, others,
              set p | p in others && p in directories :: directories[p],
              exists p :: p in others && c.packageDirectory(p) == c.packageDirectory(m.packageId));
    assert (set p | p in others && p in directories :: directories[p]) == set p | p in others :: directories[p];
  }

  // Independence of the order in which templates and definitions are listed.

  lemma {:induction false} DistinctCount<A>(s: seq<A>, x: A)
    requires Distinct(s)
    ensures multiset(s)[x] == if x in s then 1 else 0
  {
    if s != [] {
      var init := s[..|s| - 1];
      assert s == init + [s[|s| - 1]];
      DistinctCount(init, x);
    }
  }

  ghost predicate SameElements<A>(a: seq<A>, b: seq<A>) {
    (set x | x in a) == (set x | x in b)
  }

  lemma InBoth<A>(a: seq<A>, b: seq<A>, x: A)
    requires SameElements(a, b)
    ensures x in a <==> x in b
  {
    var inA, inB := set y | y in a, set y | y in b;
    assert inA == inB && (x in a <==> x in inA) && (x in b <==> x in inB);
  }

  lemma SameMultiset<A>(a: seq<A>, b: seq<A>)
    requires Distinct(a) && Distinct(b) && SameElements(a, b)
    ensures multiset(a) == multiset(b)
  {
    forall x ensures multiset(a)[x] == multiset(b)[x] {
      DistinctCount(a, x);
      DistinctCount(b, x);
      InBoth(a, b, x);
    }
  }

  ghost predicate KeysTellApart<A>(s: seq<A>, f: A -> Named<A>) {
    && (forall x :: x in s ==> f(x).value == x)
    && (forall x, y :: x in s && y in s && f(x).key == f(y).key ==> x == y)
  }

  lemma KindIgnoresOrder<A>(a: seq<A>, b: seq<A>, f: A -> Named<A>, scheme: Scheme)
    requires Distinct(a) && Distinct(b) && SameElements(a, b)
    requires KeysTellApart(a, f) && StrictTotalOrder(scheme.before)
    ensures ResolvedNames(Map(a, f), map[], scheme) == ResolvedNames(Map(b, f), map[], scheme)
  {
    var s, t := Map(a, f), Map(b, f);
    forall i | 0 <= i < |b| ensures b[i] in a {
      InBoth(a, b, b[i]);
    }
    assert Distinct(s) && Distinct(t);
    forall v ensures v in s <==> v in t {
      if v in s {
        var i :| 0 <= i < |s| && s[i] == v;
        InBoth(a, b, a[i]);
        var j :| 0 <= j < |b| && b[j] == a[i];
        assert t[j] == v;
      }
      if v in t {
        var j :| 0 <= j < |t| && t[j] == v;
        InBoth(a, b, b[j]);
        var i :| 0 <= i < |a| && a[i] == b[j];
        assert s[i] == v;
      }
    }
    SameMultiset(s, t);
    NamesIgnoreOrder(s, t, map[], scheme);
  }

  predicate SeparatorFree(m: ModuleId) {
    '\0' !in m.moduleName
  }

  lemma ModuleKeysTellApart(m: ModuleId, n: ModuleId)
    requires SeparatorFree(m) && SeparatorFree(n) && ModuleKey(m) == ModuleKey(n)
    ensures m == n
  {
    SplitLast(m.packageId, m.moduleName, n.packageId, n.moduleName, '\0');
  }

  lemma PrefixedKeys(prefix: string, a: string, b: string)
    requires prefix + a == prefix + b
    ensures a == b
  {
    assert a == (prefix + a)[|prefix|..] && b == (prefix + b)[|prefix|..];
  }

  lemma TemplateKeysTellApart(t: Template, u: Template)
    requires SeparatorFree(t.id) && SeparatorFree(u.id) && '\0' !in t.templateName && '\0' !in u.templateName
    requires TemplateKey(t) == TemplateKey(u)
    ensures t == u
  {
    SplitLast(ModuleKey(t.id), t.templateName, ModuleKey(u.id), u.templateName, '\0');
    ModuleKeysTellApart(t.id, u.id);
  }

  lemma ModuleKindsIgnoreOrder(a: seq<ModuleId>, b: seq<ModuleId>, c: Conventions, scheme: Scheme)
    requires Distinct(a) && Distinct(b) && SameElements(a, b) && StrictTotalOrder(scheme.before)
    requires forall m :: m in a ==> SeparatorFree(m)
    ensures ModuleNames(a, c, scheme) == ModuleNames(b, c, scheme)
    ensures AliasNames(a, c, scheme) == AliasNames(b, c, scheme)
    ensures PackageNames(a, c, scheme) == PackageNames(b, c, scheme)
  {
    forall m, n | m in a && n in a && ModuleValue(m, c).key == ModuleValue(n, c).key ensures m == n {
      PrefixedKeys("module\0", ModuleKey(m), ModuleKey(n));
      ModuleKeysTellApart(m, n);
    }
    KindIgnoresOrder(a, b, m => ModuleValue(m, c), scheme);
    forall m, n | m in a && n in a && AliasValue(m, c).key == AliasValue(n, c).key ensures m == n {
      PrefixedKeys("namespace\0", ModuleKey(m), ModuleKey(n));
      ModuleKeysTellApart(m, n);
    }
    KindIgnoresOrder(a, b, m => AliasValue(m, c), scheme);
    PackageKindIgnoresOrder(a, b, c, scheme);
  }

  lemma PackageKindIgnoresOrder(a: seq<ModuleId>, b: seq<ModuleId>, c: Conventions, scheme: Scheme)
    requires SameElements(a, b) && StrictTotalOrder(scheme.before)
    ensures PackageNames(a, c, scheme) == PackageNames(b, c, scheme)
  {
    var p, q := PackagesOf(a), PackagesOf(b);
    var ids, jds := Map(a, (m: ModuleId) => m.packageId), Map(b, (m: ModuleId) => m.packageId);
    DedupDistinct(ids);
    DedupDistinct(jds);
    forall id ensures id in p <==> id in q {
      if id in ids {
        var i :| 0 <= i < |ids| && ids[i] == id;
        InBoth(a, b, a[i]);
        var j :| 0 <= j < |b| && b[j] == a[i];
        assert jds[j] == id;
      }
      if id in jds {
        var j :| 0 <= j < |jds| && jds[j] == id;
        InBoth(a, b, b[j]);
        var i :| 0 <= i < |a| && a[i] == b[j];
        assert ids[i] == id;
      }
    }
    assert SameElements(p, q);
    forall x, y | x in p && y in p && PackageValue(x, c).key == PackageValue(y, c).key ensures x == y {
      PrefixedKeys("package\0", x, y);
    }
    KindIgnoresOrder(p, q, x => PackageValue(x, c), scheme);
  }

  lemma TemplateKindsIgnoreOrder(a: seq<Template>, b: seq<Template>, c: Conventions, scheme: Scheme)
    requires Distinct(a) && Distinct(b) && SameElements(a, b) && StrictTotalOrder(scheme.before)
    requires forall t :: t in a ==> SeparatorFree(t.id) && '\0' !in t.templateName
    ensures FileNames(a, c, scheme) == FileNames(b, c, scheme)
    ensures ClassNames(a, c, scheme) == ClassNames(b, c, scheme)
  {
    forall t, u | t in a && u in a && TemplateKey(t) == TemplateKey(u) ensures t == u {
      TemplateKeysTellApart(t, u);
    }
    KindIgnoresOrder(a, b, t => FileValue(t, c), scheme);
    KindIgnoresOrder(a, b, t => ClassValue(t, c), scheme);
  }

  /** With a total order on keys, every generated name is independent of the order of the input. */
  lemma ProjectIgnoresOrder(a: seq<Template>, b: seq<Template>, definitionsA: seq<ModuleId>,
      definitionsB: seq<ModuleId>, c: Conventions, scheme: Scheme)
    requires Distinct(a) && Distinct(b) && SameElements(a, b) && SameElements(definitionsA, definitionsB)
    requires StrictTotalOrder(scheme.before)
    requires forall t :: t in a ==> SeparatorFree(t.id) && '\0' !in t.templateName
    requires forall m :: m in definitionsA ==> SeparatorFree(m)
    ensures ProjectTables(a, ModulesOf(a, definitionsA), c, scheme)
         == ProjectTables(b, ModulesOf(b, definitionsB), c, scheme)
  {
    var m, n := ModulesOf(a, definitionsA), ModulesOf(b, definitionsB);
    ModulesOfElements(a, definitionsA);
    ModulesOfElements(b, definitionsB);
    forall x ensures x in m <==> x in n {
      InBoth(definitionsA, definitionsB, x);
      if t :| t in a && t.id == x {
        InBoth(a, b, t);
      }
      if t :| t in b && t.id == x {
        InBoth(a, b, t);
      }
    }
    ModuleKindsIgnoreOrder(m, n, c, scheme);
    TemplateKindsIgnoreOrder(a, b, c, scheme);
  }

  lemma ModulesOfElements(templates: seq<Template>, definitions: seq<ModuleId>)
    ensures Distinct(ModulesOf(templates, definitions))
    ensures forall x ::
              x in ModulesOf(templates, definitions) <==> x in definitions || exists t :: t in templates && t.id == x
  {
    var ids := Map(templates, (t: Template) => t.id);
    DedupDistinct(ids + definitions);
    forall x ensures x in ids <==> exists t :: t in templates && t.id == x {
      if t :| t in templates && t.id == x {
        var i :| 0 <= i < |templates| && templates[i] == t;
        assert ids[i] == x;
      }
      if x in ids {
        var i :| 0 <= i < |ids| && ids[i] == x;
        assert templates[i].id == x;
      }
    }
  }

  /** Throws when two identities share an output; `outputs` holds identity and output. */
  method AssertDistinct<K(==)>(outputs: seq<(K, string)>) returns (r: Result<()>)
    ensures r.Ok? <==>
            forall i, j :: 0 <= i < j < |outputs| && outputs[i].1 == outputs[j].1 ==> outputs[i].0 == outputs[j].0
  {
    var owners: map<string, K> := map[];
    for i := 0 to |outputs|
      invariant forall j :: 0 <= j < i ==> outputs[j].1 in owners && owners[outputs[j].1] == outputs[j].0
      invariant forall output :: output in owners ==> exists j :: 0 <= j < i && outputs[j] == (owners[output], output)
    {
      var (identity, output) := outputs[i];
      if output in owners && owners[output] != identity {
        return Err;
      }
      owners := owners[output := identity];
      assert outputs[i] == (identity, output);
    }
    return Ok(());
  }

  /** The project-wide name table of an emitter. */
  class TypeScriptNameResolver {
    const conventions: Conventions
    const scheme: Scheme
    var resolvedTemplates: map<Template, ResolvedTemplate>
    var resolvedModules: map<ModuleId, ResolvedModule>

    constructor (conventions: Conventions, scheme: Scheme)
      ensures this.conventions == conventions && this.scheme == scheme
      ensures resolvedTemplates == map[] && resolvedModules == map[]
    {
      this.conventions := conventions;
      this.scheme := scheme;
      resolvedTemplates := map[];
      resolvedModules := map[];
    }

    method CollectModules(templates: seq<Template>, definitions: seq<ModuleId>) returns (modules: seq<ModuleId>)
      ensures modules == ModulesOf(templates, definitions)
    {
      var ids := Map(templates, (t: Template) => t.id) + definitions;
      modules := [];
      for i := 0 to |ids|
        invariant modules == Dedup(ids[..i])
      {
        assert ids[..i + 1][..i] == ids[..i];
        if ids[i] !in modules {
          modules := modules + [ids[i]];
        }
      }
      assert ids[..|ids|] == ids;
    }

    /** Throws for the second of two templates with one identity. */
    method CheckDuplicates(templates: seq<Template>) returns (r: Result<()>)
      ensures r.Ok? <==> Distinct(templates)
    {
      var seen: set<Template> := {};
      for i := 0 to |templates|
        invariant forall t :: t in seen <==> t in templates[..i]
        invariant Distinct(templates[..i])
      {
        if templates[i] in seen {
          var k :| 0 <= k < i && templates[k] == templates[i];
          return Err;
        }
        seen := seen + {templates[i]};
      }
      assert templates[..|templates|] == templates;
      return Ok(());
    }

    method ResolveModules(tables: Tables, modules: seq<ModuleId>) returns (r: Result<map<ModuleId, ResolvedModule>>)
      ensures r.Ok? <==> forall m :: m in modules ==> CoversModule(tables, m)
      ensures r.Ok? ==> r.value == map m | m in modules :: ModuleOf(tables, m)
    {
      var resolved := map[];
      for i := 0 to |modules|
        invariant forall m :: m in modules[..i] ==> CoversModule(tables, m)
        invariant resolved == map m | m in modules[..i] :: ModuleOf(tables, m)
      {
        var m := modules[i];
        assert m in modules;
        if m.packageId !in tables.packages || m !in tables.modules || m !in tables.aliases {
          assert !CoversModule(tables, m);
          return Err;
        }
        assert forall n :: n in modules[..i + 1] <==> n in modules[..i] || n == m;
        resolved := resolved[m :=
          ResolvedModule(DirectoryPath(tables.packages[m.packageId], tables.modules[m]), tables.aliases[m])];
      }
      assert modules[..|modules|] == modules;
      return Ok(resolved);
    }

    method ResolveTemplates(ghost tables: Tables, files: map<Template, string>, classes: map<Template, string>,
        modules: map<ModuleId, ResolvedModule>, templates: seq<Template>)
      returns (r: Result<map<Template, ResolvedTemplate>>)
      requires files == tables.files && classes == tables.classes
      requires forall m :: m in modules ==> CoversModule(tables, m) && modules[m] == ModuleOf(tables, m)
      ensures r.Ok? <==> forall t :: t in templates ==> t in files && t in classes && t.id in modules
      ensures r.Ok? ==> r.value == map t | t in templates :: TemplateOf(tables, t)
    {
      var resolved := map[];
      for i := 0 to |templates|
        invariant forall t :: t in templates[..i] ==> t in files && t in classes && t.id in modules
        invariant resolved == map t | t in templates[..i] :: TemplateOf(tables, t)
      {
        var t := templates[i];
        assert t in templates;
        if t !in classes || t !in files || t.id !in modules {
          return Err;
        }
        assert forall u :: u in templates[..i + 1] <==> u in templates[..i] || u == t;
        resolved := resolved[t := ResolvedTemplate(
          FilePath(modules[t.id].directoryPath, files[t]), modules[t.id].namespaceAlias, classes[t])];
      }
      assert templates[..|templates|] == templates;
      return Ok(resolved);
    }

    /**
     * Fails exactly for a duplicate template identity: the lookups always find their names,
     * and the final distinctness checks never throw.
     */
    method PrepareProjectOrThrow(templates: seq<Template>, definitions: seq<ModuleId>) returns (r: Result<()>)
      requires SlashFree(conventions, scheme) && !scheme.retry
      modifies this
      ensures r.Ok? <==> Distinct(templates)
      ensures r.Err? ==> resolvedTemplates == map[] && resolvedModules == map[]
      ensures r.Ok? ==>
        var modules := ModulesOf(templates, definitions);
        var tables := ProjectTables(templates, modules, conventions, scheme);
        && Covers(tables, templates, modules)
        && resolvedModules == (map m | m in modules :: ModuleOf(tables, m))
        && resolvedTemplates == (map t | t in templates :: TemplateOf(tables, t))
    {
      resolvedTemplates := map[];
      resolvedModules := map[];
      var duplicates := CheckDuplicates(templates);
      if duplicates.Err? {
        return Err;
      }
      OutputsDistinct(templates, definitions, conventions, scheme);
      TablesSound(templates, definitions, conventions, scheme);
      var modules := CollectModules(templates, definitions);
      var packages := ResolveNames(Map(PackagesOf(modules), p => PackageValue(p, conventions)), map[], scheme);
      var directories := ResolveNames(Map(modules, m => ModuleValue(m, conventions)), map[], scheme);
      var files := ResolveNames(Map(templates, t => FileValue(t, conventions)), map[], scheme);
      var aliases := ResolveNames(Map(modules, m => AliasValue(m, conventions)), map[], scheme);
      var classes := ResolveNames(Map(templates, t => ClassValue(t, conventions)), map[], scheme);
      var tables := Tables(packages, directories, files, aliases, classes);
      assert tables == ProjectTables(templates, modules, conventions, scheme);
      var byModule := ResolveModules(tables, modules);
      if byModule.Err? {
        assert false;
        return Err;
      }
      resolvedModules := byModule.value;
      var byTemplate := ResolveTemplates(tables, files, classes, resolvedModules, templates);
      if byTemplate.Err? {
        assert false;
        return Err;
      }
      resolvedTemplates := byTemplate.value;
      r := CheckOutputs(tables, templates, modules);
    }

    /** The final distinctness checks: file paths, namespace aliases, class names. */
    method CheckOutputs(ghost tables: Tables, templates: seq<Template>, modules: seq<ModuleId>) returns (r: Result<()>)
      requires Covers(tables, templates, modules) && DistinctOutputs(tables, templates, modules)
      requires resolvedModules == map m | m in modules :: ModuleOf(tables, m)
      requires resolvedTemplates == map t | t in templates :: TemplateOf(tables, t)
      ensures r.Ok?
    {
      var byTemplate, byModule := resolvedTemplates, resolvedModules;
      assert forall i :: 0 <= i < |templates| ==> templates[i] in templates;
      assert forall i :: 0 <= i < |modules| ==> modules[i] in modules;
      var files := AssertDistinct(
        seq(|templates|, i requires 0 <= i < |templates| && templates[i] in byTemplate =>
          (templates[i], byTemplate[templates[i]].filePath)));
      var namespaces := AssertDistinct(
        seq(|modules|, i requires 0 <= i < |modules| && modules[i] in byModule =>
          (modules[i], byModule[modules[i]].namespaceAlias)));
      var classes := AssertDistinct(
        seq(|templates|, i requires 0 <= i < |templates| && templates[i] in byTemplate =>
          (templates[i], byTemplate[templates[i]].className)));
      return if files.Ok? && namespaces.Ok? && classes.Ok? then Ok(()) else Err;
    }
  }
}
