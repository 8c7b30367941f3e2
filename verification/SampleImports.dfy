/** Imports of a generated spec: collision-safe local names, threaded from one sample to the next. */
module SampleImports {
  import opened Decimals
  import opened NameAllocation

  datatype ImportKey = ImportKey(modulePath: string, exportedName: string, typeOnly: bool)

  /** A dependency a sample asks for; the alias tells equal exported names apart. */
  datatype Request = Request(key: ImportKey, namespaceAlias: string)

  datatype Imports = Imports(byKey: map<ImportKey, string>, localNames: set<string>)

  function Qualified(r: Request): string {
    r.namespaceAlias + r.key.exportedName
  }

  function LocalName(r: Request, used: set<string>): string {
    var first := if r.key.exportedName in used then Qualified(r) else r.key.exportedName;
    if first !in used then first else FirstFree(Qualified(r), used, 2)
  }

  function Added(i: Imports, r: Request): Imports {
    if r.key in i.byKey then i
    else
      var name := LocalName(r, i.localNames);
      Imports(i.byKey[r.key := name], i.localNames + {name})
  }

  function AddedAll(i: Imports, requests: seq<Request>): Imports {
    if requests == [] then i
    else Added(AddedAll(i, requests[..|requests| - 1]), requests[|requests| - 1])
  }

  /** One sample: a collector of the imports so far, with the names the spec declares reserved. */
  function Collector(imports: map<ImportKey, string>, reserved: set<string>): Imports {
    Imports(imports, imports.Values + reserved)
  }

  function AfterSample(imports: map<ImportKey, string>, reserved: set<string>,
      requests: seq<Request>): map<ImportKey, string> {
    AddedAll(Collector(imports, reserved), requests).byKey
  }

  function AfterSamples(imports: map<ImportKey, string>, reserved: set<string>,
      samples: seq<seq<Request>>): map<ImportKey, string> {
    if samples == [] then imports
    else AfterSample(AfterSamples(imports, reserved, samples[..|samples| - 1]), reserved, samples[|samples| - 1])
  }

  /** No two imports share a local name, and none takes a reserved one. */
  ghost predicate Safe(imports: map<ImportKey, string>, reserved: set<string>) {
    && (forall k :: k in imports ==> imports[k] !in reserved)
    && (forall j, k :: j in imports && k in imports && j != k ==> imports[j] != imports[k])
  }

  ghost predicate Keeps(before: map<ImportKey, string>, after: map<ImportKey, string>) {
    forall k :: k in before ==> k in after && after[k] == before[k]
  }

  lemma LocalNameIsFree(r: Request, used: set<string>)
    ensures LocalName(r, used) !in used
  {
    FirstFreeIsFree(Qualified(r), used, 2);
  }

  /**
   * A new import keeps its exported name if that is free, else the name behind its namespace, else that
   * with the least free number from 2 on.
   */
  lemma LocalNameSpelled(r: Request, used: set<string>)
    ensures var name, qualified := LocalName(r, used), r.namespaceAlias + r.key.exportedName;
            if r.key.exportedName !in used then name == r.key.exportedName
            else if qualified !in used then name == qualified
            else exists k: nat :: k >= 2 && name == qualified + "_" + NatText(k) && name !in used
                                  && forall j: nat :: 2 <= j < k ==> qualified + "_" + NatText(j) in used
  {
    if r.key.exportedName in used && Qualified(r) in used {
      var k := FirstFreeIsLeast(Qualified(r), used, 2);
      forall j: nat | 2 <= j < k
        ensures Qualified(r) + "_" + NatText(j) in used
      {
        assert Candidate(Qualified(r), j) in used;
      }
    }
  }

  lemma {:induction false} AddedAllSafe(i: Imports, reserved: set<string>, requests: seq<Request>)
    requires Safe(i.byKey, reserved) && reserved + i.byKey.Values <= i.localNames
    ensures var after := AddedAll(i, requests);
            && Safe(after.byKey, reserved) && reserved + after.byKey.Values <= after.localNames
            && Keeps(i.byKey, after.byKey)
            && forall r :: r in requests ==> r.key in after.byKey
  {
    if requests != [] {
      var init, r := requests[..|requests| - 1], requests[|requests| - 1];
      AddedAllSafe(i, reserved, init);
      var before := AddedAll(i, init);
      LocalNameIsFree(r, before.localNames);
      assert forall x :: x in requests ==> x in init || x == r;
      var name := LocalName(r, before.localNames);
      assert forall k :: k in before.byKey ==> before.byKey[k] in before.byKey.Values;
      assert before.byKey[r.key := name].Values <= before.byKey.Values + {name};
    }
  }

  /**
   * Over any samples, each asking for any imports: local names stay pairwise distinct and
   * unreserved, every import asked for gets one, and an import keeps its first local name.
   */
  lemma {:induction false} SamplesKeepImportsSafe(imports: map<ImportKey, string>, reserved: set<string>,
      samples: seq<seq<Request>>)
    requires Safe(imports, reserved)
    ensures var after := AfterSamples(imports, reserved, samples);
            && Safe(after, reserved) && Keeps(imports, after)
            && forall sample, r :: sample in samples && r in sample ==> r.key in after
  {
    if samples != [] {
      var init, last := samples[..|samples| - 1], samples[|samples| - 1];
      SamplesKeepImportsSafe(imports, reserved, init);
      var before := AfterSamples(imports, reserved, init);
      AddedAllSafe(Collector(before, reserved), reserved, last);
      assert forall x :: x in samples ==> x in init || x == last;
    }
  }

  /** A sample that asks again for known imports changes nothing. */
  lemma {:induction false} KnownImportsAddNothing(i: Imports, requests: seq<Request>)
    requires forall r :: r in requests ==> r.key in i.byKey
    ensures AddedAll(i, requests) == i
  {
    if requests != [] {
      KnownImportsAddNothing(i, requests[..|requests| - 1]);
      assert requests[|requests| - 1] in requests;
    }
  }

  class GeneratedTestSampleImportCollector {
    var importsByKey: map<ImportKey, string>
    var localNames: set<string>

    ghost function State(): Imports
      reads this
    {
      Imports(importsByKey, localNames)
    }

    constructor (imports: map<ImportKey, string>)
      ensures State() == Collector(imports, {})
    {
      importsByKey := imports;
      localNames := imports.Values;
    }

    method ReserveLocalNames(names: set<string>)
      modifies this`localNames
      ensures localNames == old(localNames) + names
    {
      localNames := localNames + names;
    }

    method Add(r: Request) returns (localName: string)
      modifies this
      ensures State() == Added(old(State()), r)
      ensures r.key in importsByKey && localName == importsByKey[r.key]
    {
      if r.key in importsByKey {
        return importsByKey[r.key];
      }
      var first := if r.key.exportedName in localNames then Qualified(r) else r.key.exportedName;
      localName := Escalate(first, Qualified(r), localNames);
      localNames := localNames + {localName};
      importsByKey := importsByKey[r.key := localName];
    }
  }

  /** One sample with a collector of its own. */
  method EmitSample(imports: map<ImportKey, string>, reserved: set<string>, requests: seq<Request>)
    returns (after: map<ImportKey, string>)
    ensures after == AfterSample(imports, reserved, requests)
  {
    var collector := new GeneratedTestSampleImportCollector(imports);
    collector.ReserveLocalNames(reserved);
    ghost var start := collector.State();
    assert start == Collector(imports, reserved);
    for i := 0 to |requests|
      invariant collector.State() == AddedAll(start, requests[..i])
    {
      assert requests[..i + 1][..i] == requests[..i];
      var _ := collector.Add(requests[i]);
    }
    assert requests[..|requests|] == requests;
    return collector.importsByKey;
  }

  /** The closure of a spec emitter: each sample starts from the imports the one before left. */
  method EmitSamples(reserved: set<string>, samples: seq<seq<Request>>) returns (imports: map<ImportKey, string>)
    ensures imports == AfterSamples(map[], reserved, samples)
    ensures Safe(imports, reserved)
  {
    imports := map[];
    SamplesKeepImportsSafe(imports, reserved, samples);
    for i := 0 to |samples|
      invariant imports == AfterSamples(map[], reserved, samples[..i])
    {
      assert samples[..i + 1][..i] == samples[..i];
      imports := EmitSample(imports, reserved, samples[i]);
    }
    assert samples[..|samples|] == samples;
  }
}
