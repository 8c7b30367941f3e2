/** Allocation of generated names: values sorted by key, one set of used names a scope. */
module NameResolution {
  import opened Decimals
  import opened NameAllocation

  datatype Named<T> = Named(value: T, key: string, baseName: string, scope: string, separator: string)

  /** How a project compares keys and hashes them: a locale order and any hash. */
  datatype Scheme = Scheme(before: (string, string) -> bool, hash: string -> string, retry: bool)

  datatype Allocation<T> = Allocation(names: map<T, string>, used: map<string, set<string>>)

  // Sorting by key.

  function Insert<T>(x: Named<T>, sorted: seq<Named<T>>, before: (string, string) -> bool): seq<Named<T>> {
    if sorted == [] then [x]
    else if before(x.key, sorted[0].key) then [x] + sorted
    else [sorted[0]] + Insert(x, sorted[1..], before)
  }

  /** A stable sort: a later value goes behind those it is not before. */
  function SortByKey<T>(values: seq<Named<T>>, before: (string, string) -> bool): seq<Named<T>> {
    if values == [] then []
    else Insert(values[|values| - 1], SortByKey(values[..|values| - 1], before), before)
  }

  ghost predicate StrictTotalOrder(before: (string, string) -> bool) {
    && (forall a, b :: before(a, b) ==> !before(b, a))
    && (forall a, b, c :: before(a, b) && before(b, c) ==> before(a, c))
    && (forall a, b :: before(a, b) || before(b, a) || a == b)
  }

  ghost predicate DistinctValues<T>(values: seq<Named<T>>) {
    forall i, j :: 0 <= i < j < |values| ==> values[i].value != values[j].value
  }

  ghost predicate DistinctNamedKeys<T>(values: seq<Named<T>>) {
    forall i, j :: 0 <= i < j < |values| ==> values[i].key != values[j].key
  }

  ghost predicate SortedByKey<T>(values: seq<Named<T>>, before: (string, string) -> bool) {
    forall i, j :: 0 <= i < j < |values| ==> before(values[i].key, values[j].key)
  }

  lemma {:induction false} InsertKeeps<T>(x: Named<T>, sorted: seq<Named<T>>, before: (string, string) -> bool)
    ensures multiset(Insert(x, sorted, before)) == multiset(sorted) + multiset{x}
  {
    if sorted != [] {
      assert sorted == [sorted[0]] + sorted[1..];
      InsertKeeps(x, sorted[1..], before);
    }
  }

  lemma {:induction false} SortKeeps<T>(values: seq<Named<T>>, before: (string, string) -> bool)
    ensures multiset(SortByKey(values, before)) == multiset(values)
  {
    if values != [] {
      var init := values[..|values| - 1];
      assert values == init + [values[|values| - 1]];
      SortKeeps(init, before);
      InsertKeeps(values[|values| - 1], SortByKey(init, before), before);
    }
  }

  lemma SortedIsIn<T>(values: seq<Named<T>>, before: (string, string) -> bool, i: nat)
    requires i < |SortByKey(values, before)|
    ensures SortByKey(values, before)[i] in values
  {
    SortKeeps(values, before);
    var v := SortByKey(values, before)[i];
    assert v in multiset(SortByKey(values, before));
    assert v in multiset(values);
  }

  lemma ConsSorts<T>(x: Named<T>, rest: seq<Named<T>>, before: (string, string) -> bool)
    requires SortedByKey(rest, before) && forall y :: y in rest ==> before(x.key, y.key)
    ensures SortedByKey([x] + rest, before)
  {
    var s := [x] + rest;
    forall i, j | 0 <= i < j < |s| ensures before(s[i].key, s[j].key) {
      assert s[j] == rest[j - 1];
      assert i > 0 ==> s[i] == rest[i - 1];
    }
  }

  lemma HeadIsFirst<T>(a: seq<Named<T>>, y: Named<T>, before: (string, string) -> bool)
    requires SortedByKey(a, before) && y in a
    ensures y == a[0] || before(a[0].key, y.key)
    ensures y == a[0] || y in a[1..]
  {
    var j :| 0 <= j < |a| && a[j] == y;
    assert j > 0 ==> a[1..][j - 1] == y;
  }

  lemma {:induction false} InsertSorts<T>(x: Named<T>, sorted: seq<Named<T>>, before: (string, string) -> bool)
    requires StrictTotalOrder(before) && SortedByKey(sorted, before)
    requires forall y :: y in sorted ==> y.key != x.key
    ensures SortedByKey(Insert(x, sorted, before), before)
  {
    if sorted == [] {
    } else if before(x.key, sorted[0].key) {
      forall y | y in sorted ensures before(x.key, y.key) {
        HeadIsFirst(sorted, y, before);
      }
      ConsSorts(x, sorted, before);
    } else {
      var rest := Insert(x, sorted[1..], before);
      InsertSorts(x, sorted[1..], before);
      InsertKeeps(x, sorted[1..], before);
      forall y | y in rest ensures before(sorted[0].key, y.key) {
        assert y in multiset(rest);
        if y != x {
          assert y in multiset(sorted[1..]);
          var k :| 0 <= k < |sorted| - 1 && sorted[1..][k] == y;
          assert before(sorted[0].key, sorted[k + 1].key);
        }
      }
      ConsSorts(sorted[0], rest, before);
    }
  }

  lemma {:induction false} SortSorts<T>(values: seq<Named<T>>, before: (string, string) -> bool)
    requires StrictTotalOrder(before) && DistinctNamedKeys(values)
    ensures SortedByKey(SortByKey(values, before), before)
  {
    if values != [] {
      var n := |values| - 1;
      var init := values[..n];
      SortSorts(init, before);
      var sorted := SortByKey(init, before);
      forall i | 0 <= i < |sorted| ensures sorted[i].key != values[n].key {
        SortedIsIn(init, before, i);
        var k :| 0 <= k < n && init[k] == sorted[i];
        assert values[k] == init[k];
      }
      InsertSorts(values[n], sorted, before);
    }
  }

  /** The values with one key, in the order they stand in. */
  ghost function WithKey<T>(values: seq<Named<T>>, key: string): seq<Named<T>> {
    if values == [] then []
    else (if values[0].key == key then [values[0]] else []) + WithKey(values[1..], key)
  }

  ghost predicate WeaklySorted<T>(values: seq<Named<T>>, before: (string, string) -> bool) {
    forall i, j :: 0 <= i < j < |values| ==> !before(values[j].key, values[i].key)
  }

  lemma {:induction false} WithKeyAppend<T>(a: seq<Named<T>>, b: seq<Named<T>>, key: string)
    ensures WithKey(a + b, key) == WithKey(a, key) + WithKey(b, key)
    decreases a
  {
    if a == [] {
      assert a + b == b;
    } else {
      assert (a + b)[1..] == a[1..] + b;
      WithKeyAppend(a[1..], b, key);
    }
  }

  lemma {:induction false} NoneWithKey<T>(values: seq<Named<T>>, key: string)
    requires forall v :: v in values ==> v.key != key
    ensures WithKey(values, key) == []
    decreases values
  {
    if values != [] {
      NoneWithKey(values[1..], key);
    }
  }

  lemma ConsWeaklySorts<T>(x: Named<T>, rest: seq<Named<T>>, before: (string, string) -> bool)
    requires WeaklySorted(rest, before) && forall y :: y in rest ==> !before(y.key, x.key)
    ensures WeaklySorted([x] + rest, before)
  {
    var s := [x] + rest;
    forall i, j | 0 <= i < j < |s|
      ensures !before(s[j].key, s[i].key)
    {
      assert s[j] == rest[j - 1];
      assert i > 0 ==> s[i] == rest[i - 1];
    }
  }

  /** Nothing sorted is before the head. */
  lemma HeadIsLeast<T>(sorted: seq<Named<T>>, before: (string, string) -> bool, y: Named<T>)
    requires WeaklySorted(sorted, before) && y in sorted
    ensures y == sorted[0] || !before(y.key, sorted[0].key)
  {
    var j :| 0 <= j < |sorted| && sorted[j] == y;
  }

  lemma {:induction false} InsertWeaklySorts<T>(x: Named<T>, sorted: seq<Named<T>>, before: (string, string) -> bool)
    requires StrictTotalOrder(before) && WeaklySorted(sorted, before)
    ensures WeaklySorted(Insert(x, sorted, before), before)
    decreases sorted
  {
    if sorted == [] {
    } else if before(x.key, sorted[0].key) {
      forall y | y in sorted
        ensures !before(y.key, x.key)
      {
        HeadIsLeast(sorted, before, y);
      }
      ConsWeaklySorts(x, sorted, before);
    } else {
      var rest := Insert(x, sorted[1..], before);
      InsertWeaklySorts(x, sorted[1..], before);
      InsertKeeps(x, sorted[1..], before);
      forall y | y in rest
        ensures !before(y.key, sorted[0].key)
      {
        assert y in multiset(rest);
        if y != x {
          assert y in multiset(sorted[1..]);
          HeadIsLeast(sorted, before, y);
        }
      }
      ConsWeaklySorts(sorted[0], rest, before);
    }
  }

  /** A value goes behind those with its key. */
  lemma {:induction false} InsertIsStable<T>(x: Named<T>, sorted: seq<Named<T>>, before: (string, string) -> bool,
      key: string)
    requires StrictTotalOrder(before) && WeaklySorted(sorted, before)
    ensures WithKey(Insert(x, sorted, before), key) == WithKey(sorted, key) + WithKey([x], key)
    decreases sorted
  {
    if sorted == [] {
    } else if before(x.key, sorted[0].key) {
      WithKeyAppend([x], sorted, key);
      if x.key == key {
        forall y | y in sorted
          ensures y.key != key
        {
          HeadIsLeast(sorted, before, y);
        }
        NoneWithKey(sorted, key);
      }
    } else {
      var rest := Insert(x, sorted[1..], before);
      assert Insert(x, sorted, before) == [sorted[0]] + rest;
      hide Insert, WithKey;
      InsertIsStable(x, sorted[1..], before, key);
      WithKeyAppend([sorted[0]], rest, key);
      WithKeyAppend([sorted[0]], sorted[1..], key);
      assert sorted == [sorted[0]] + sorted[1..];
    }
  }

  /** Sorting by key is stable, also where keys repeat. */
  lemma {:induction false} SortIsStable<T>(values: seq<Named<T>>, before: (string, string) -> bool, key: string)
    requires StrictTotalOrder(before)
    ensures WeaklySorted(SortByKey(values, before), before)
    ensures WithKey(SortByKey(values, before), key) == WithKey(values, key)
    ensures multiset(SortByKey(values, before)) == multiset(values)
  {
    SortKeeps(values, before);
    if values != [] {
      var n := |values| - 1;
      var init, last := values[..n], values[n];
      assert values == init + [last];
      SortIsStable(init, before, key);
      InsertWeaklySorts(last, SortByKey(init, before), before);
      InsertIsStable(last, SortByKey(init, before), before, key);
      WithKeyAppend(init, [last], key);
    }
  }

  lemma {:induction false} SortedIsUnique<T>(a: seq<Named<T>>, b: seq<Named<T>>, before: (string, string) -> bool)
    requires StrictTotalOrder(before) && SortedByKey(a, before) && SortedByKey(b, before)
    requires multiset(a) == multiset(b)
    ensures a == b
    decreases |a|
  {
    if a == [] {
      assert |multiset(a)| == |multiset(b)|;
    } else {
      assert b != [] by {
        assert |multiset(a)| == |multiset(b)|;
      }
      assert a[0] == b[0] by {
        assert a[0] in multiset(b) && b[0] in multiset(a);
        HeadIsFirst(a, b[0], before);
        HeadIsFirst(b, a[0], before);
      }
      assert multiset(a[1..]) == multiset(b[1..]) by {
        assert a == [a[0]] + a[1..] && b == [b[0]] + b[1..];
        assert multiset(a) == multiset{a[0]} + multiset(a[1..]);
        assert multiset(b) == multiset{b[0]} + multiset(b[1..]);
        assert multiset(a[1..]) == multiset(a) - multiset{a[0]};
      }
      SortedIsUnique(a[1..], b[1..], before);
      assert a == [a[0]] + a[1..] && b == [b[0]] + b[1..];
    }
  }

  // Allocation.

  function GroupSize<T>(values: seq<Named<T>>, scope: string, baseName: string): nat {
    if values == [] then 0
    else
      GroupSize(values[..|values| - 1], scope, baseName)
      + (if values[|values| - 1].scope == scope && values[|values| - 1].baseName == baseName then 1 else 0)
  }

  /** A base shared in its scope is told apart by the hash of the value's key. */
  function BaseCandidate<T>(v: Named<T>, groupSize: nat, hash: string -> string): string {
    if groupSize == 1 then v.baseName else v.baseName + v.separator + hash(v.key)
  }

  function FirstTry(base: string, used: set<string>, retry: bool): string {
    if retry && base in used then base + "Type" else base
  }

  function Choose(base: string, used: set<string>, retry: bool): string {
    var first := FirstTry(base, used, retry);
    if first !in used then first else FirstFree(base, used, 2)
  }

  function UsedIn(used: map<string, set<string>>, reserved: map<string, set<string>>, scope: string): set<string> {
    if scope in used then used[scope]
    else if scope in reserved then reserved[scope]
    else {}
  }

  function Allocate<T>(a: Allocation<T>, v: Named<T>, groupSize: nat, reserved: map<string, set<string>>,
      scheme: Scheme): Allocation<T>
  {
    var used := UsedIn(a.used, reserved, v.scope);
    var name := Choose(BaseCandidate(v, groupSize, scheme.hash), used, scheme.retry);
    Allocation(a.names[v.value := name], a.used[v.scope := used + {name}])
  }

  /** Allocates the values in the order given; `all` decides which bases are shared. */
  function AllocateAll<T>(sorted: seq<Named<T>>, all: seq<Named<T>>, reserved: map<string, set<string>>,
      scheme: Scheme): Allocation<T>
  {
    if sorted == [] then Allocation(map[], map[])
    else
      var v := sorted[|sorted| - 1];
      Allocate(AllocateAll(sorted[..|sorted| - 1], all, reserved, scheme), v,
               GroupSize(all, v.scope, v.baseName), reserved, scheme)
  }

  function ResolvedNames<T>(values: seq<Named<T>>, reserved: map<string, set<string>>, scheme: Scheme): map<T, string> {
    AllocateAll(SortByKey(values, scheme.before), values, reserved, scheme).names
  }

  lemma ChooseIsFree(base: string, used: set<string>, retry: bool)
    ensures Choose(base, used, retry) !in used
  {
    FirstFreeIsFree(base, used, 2);
  }

  ghost predicate Separate<T>(values: seq<Named<T>>, names: map<T, string>, reserved: map<string, set<string>>) {
    && (forall v :: v in values ==> v.value in names && names[v.value] !in UsedIn(map[], reserved, v.scope))
    && (forall v, w :: v in values && w in values && v.value != w.value && v.scope == w.scope ==>
          names[v.value] != names[w.value])
  }

  /** What the loop keeps: allocated names are separate, and all of them are in the used sets. */
  ghost predicate Tracked<T>(done: seq<Named<T>>, a: Allocation<T>, reserved: map<string, set<string>>) {
    && a.names.Keys == (set v | v in done :: v.value)
    && Separate(done, a.names, reserved)
    && (forall scope :: UsedIn(map[], reserved, scope) <= UsedIn(a.used, reserved, scope))
    && (forall v :: v in done ==> a.names[v.value] in UsedIn(a.used, reserved, v.scope))
  }

  lemma AllocateTracks<T>(done: seq<Named<T>>, a: Allocation<T>, v: Named<T>, groupSize: nat,
      reserved: map<string, set<string>>, scheme: Scheme)
    requires Tracked(done, a, reserved)
    requires forall w :: w in done ==> w.value != v.value
    ensures Tracked(done + [v], Allocate(a, v, groupSize, reserved, scheme), reserved)
  {
    var base := BaseCandidate(v, groupSize, scheme.hash);
    var used := UsedIn(a.used, reserved, v.scope);
    ChooseIsFree(base, used, scheme.retry);
    var name := Choose(base, used, scheme.retry);
    var next := Allocate(a, v, groupSize, reserved, scheme);
    var all := done + [v];
    assert next.names == a.names[v.value := name];
    assert next.used == a.used[v.scope := used + {name}];
    forall w | w in all
      ensures w.value in next.names && next.names[w.value] in UsedIn(next.used, reserved, w.scope)
      ensures next.names[w.value] !in UsedIn(map[], reserved, w.scope)
    {
      if w !in done {
        assert w == v;
      }
    }
    forall w, x | w in all && x in all && w.value != x.value && w.scope == x.scope
      ensures next.names[w.value] != next.names[x.value]
    {
      if w !in done {
        assert w == v && x in done;
      } else if x !in done {
        assert x == v;
      }
    }
    assert next.names.Keys == (set w | w in all :: w.value);
  }

  /** Each value occurs once. */
  ghost predicate Once<T>(values: seq<Named<T>>) {
    && (forall x :: x in multiset(values) ==> multiset(values)[x] == 1)
    && (forall x, y :: x in values && y in values && x.value == y.value ==> x == y)
  }

  lemma {:induction false} DistinctIsOnce<T>(values: seq<Named<T>>)
    requires DistinctValues(values)
    ensures Once(values)
  {
    if values != [] {
      var n := |values| - 1;
      var init := values[..n];
      DistinctIsOnce(init);
      assert values == init + [values[n]];
      forall w | w in init ensures w.value != values[n].value {
        var k :| 0 <= k < n && init[k] == w;
        assert values[k] == w;
      }
      assert values[n] !in multiset(init);
    }
  }

  lemma OnceInit<T>(values: seq<Named<T>>)
    requires Once(values) && values != []
    ensures Once(values[..|values| - 1])
    ensures forall w :: w in values[..|values| - 1] ==> w.value != values[|values| - 1].value
    ensures forall w :: w in values <==> w in values[..|values| - 1] || w == values[|values| - 1]
  {
    var n := |values| - 1;
    var init, v := values[..n], values[n];
    assert values == init + [v];
    assert multiset(values) == multiset(init) + multiset{v};
    assert v !in multiset(init) by {
      assert multiset(values)[v] == multiset(init)[v] + 1;
      assert v in multiset(values);
    }
    forall w | w in init ensures w in values && w.value != v.value {
      assert w in multiset(init);
    }
    forall x | x in multiset(init) ensures multiset(init)[x] == 1 {
      assert x in multiset(values);
    }
  }

  lemma {:induction false} AllocationSeparates<T>(sorted: seq<Named<T>>, all: seq<Named<T>>,
      reserved: map<string, set<string>>, scheme: Scheme)
    requires Once(sorted)
    ensures Tracked(sorted, AllocateAll(sorted, all, reserved, scheme), reserved)
  {
    if sorted != [] {
      var n := |sorted| - 1;
      var init, v := sorted[..n], sorted[n];
      OnceInit(sorted);
      AllocationSeparates(init, all, reserved, scheme);
      AllocateTracks(init, AllocateAll(init, all, reserved, scheme), v,
                     GroupSize(all, v.scope, v.baseName), reserved, scheme);
    }
  }

  /**
   * Whatever the hash and the order, every value gets a name, names in one scope are
   * pairwise distinct and none of them is reserved there.
   */
  lemma NamesSeparate<T>(values: seq<Named<T>>, reserved: map<string, set<string>>, scheme: Scheme)
    requires DistinctValues(values)
    ensures Separate(values, ResolvedNames(values, reserved, scheme), reserved)
  {
    var sorted := SortByKey(values, scheme.before);
    SortedOnce(values, scheme.before);
    hide SortByKey;
    AllocationSeparates(sorted, values, reserved, scheme);
  }

  ghost predicate Among<T>(a: seq<Named<T>>, b: seq<Named<T>>) {
    forall v :: v in a ==> v in b
  }

  /** Sorting keeps the values, each once. */
  lemma SortedOnce<T>(values: seq<Named<T>>, before: (string, string) -> bool)
    requires DistinctValues(values)
    ensures Once(values) && Once(SortByKey(values, before))
    ensures Among(SortByKey(values, before), values) && Among(values, SortByKey(values, before))
  {
    SortKeeps(values, before);
    DistinctIsOnce(values);
    OnceOfMultiset(values, SortByKey(values, before));
    SameElementsAmong(values, SortByKey(values, before));
    SameElementsAmong(SortByKey(values, before), values);
  }

  lemma SameElementsAmong<T>(a: seq<Named<T>>, b: seq<Named<T>>)
    requires multiset(a) == multiset(b)
    ensures Among(a, b)
  {
    forall v | v in a
      ensures v in b
    {
      assert v in multiset(a);
    }
  }

  lemma OnceOfMultiset<T>(a: seq<Named<T>>, b: seq<Named<T>>)
    requires Once(a) && multiset(a) == multiset(b)
    ensures Once(b) && forall v :: v in a <==> v in b
  {
    forall v ensures v in a <==> v in b {
      assert v in a <==> v in multiset(a);
      assert v in b <==> v in multiset(b);
    }
  }

  /** Another value of the scope has the same base. */
  ghost predicate Shares<T>(v: Named<T>, values: seq<Named<T>>) {
    exists w :: w in values && w.value != v.value && w.scope == v.scope && w.baseName == v.baseName
  }

  /** The base of a name, told apart by the hash of its key when it is shared. */
  ghost function Wanted<T>(v: Named<T>, shared: bool, hash: string -> string): string {
    v.baseName + if shared then v.separator + hash(v.key) else ""
  }

  /** A mark that tells apart names whose bases and hashes agree. */
  ghost predicate IsMark(tail: string, retry: bool) {
    (retry && tail == "Type") || exists k: nat :: k >= 2 && tail == "_" + NatText(k)
  }

  /** A name is what its value wants, with at most one mark appended. */
  ghost predicate FromBase<T>(v: Named<T>, shared: bool, name: string, scheme: Scheme) {
    var wanted := v.baseName + if shared then v.separator + scheme.hash(v.key) else "";
    name == wanted || exists tail :: IsMark(tail, scheme.retry) && name == wanted + tail
  }

  lemma {:induction false} GroupEmpty<T>(values: seq<Named<T>>, scope: string, baseName: string)
    ensures GroupSize(values, scope, baseName) == 0 <==>
            forall w :: w in values ==> w.scope != scope || w.baseName != baseName
  {
    if values != [] {
      var init, last := values[..|values| - 1], values[|values| - 1];
      assert values == init + [last];
      GroupEmpty(init, scope, baseName);
    }
  }

  /** A group has one member exactly when the base is not shared. */
  lemma AloneInGroup<T>(values: seq<Named<T>>, v: Named<T>)
    requires Once(values) && v in values
    ensures GroupOf(v, values) == 1 <==> !Shares(v, values)
  {
    var rest := TakeOut(values, v, v.scope, v.baseName);
    assert [v][..0] == [];
    GroupEmpty(rest, v.scope, v.baseName);
    forall w
      ensures w in rest <==> w in values && w.value != v.value
    {
      assert w in rest <==> w in multiset(rest);
      assert w in values <==> w in multiset(values);
      assert v in multiset(values);
    }
  }

  lemma CandidateIsWanted<T>(values: seq<Named<T>>, v: Named<T>, hash: string -> string)
    requires Once(values) && v in values
    ensures BaseCandidate(v, GroupOf(v, values), hash) == Wanted(v, Shares(v, values), hash)
  {
    AloneInGroup(values, v);
    assert v.baseName + "" == v.baseName;
    assert v.baseName + (v.separator + hash(v.key)) == v.baseName + v.separator + hash(v.key);
  }

  lemma ChooseFromBase<T>(v: Named<T>, shared: bool, used: set<string>, scheme: Scheme)
    ensures FromBase(v, shared, Choose(Wanted(v, shared, scheme.hash), used, scheme.retry), scheme)
  {
    var base := Wanted(v, shared, scheme.hash);
    var name := Choose(base, used, scheme.retry);
    var first := FirstTry(base, used, scheme.retry);
    if first == base && first !in used {
      assert name == base;
    } else if first !in used {
      assert IsMark("Type", scheme.retry) && name == base + "Type";
    } else {
      var k := FirstFreeIsLeast(base, used, 2);
      var tail := "_" + NatText(k);
      assert IsMark(tail, scheme.retry) && name == base + tail;
    }
  }

  function GroupOf<T>(v: Named<T>, values: seq<Named<T>>): nat {
    GroupSize(values, v.scope, v.baseName)
  }

  lemma {:induction false} AllocatedFromBase<T>(sorted: seq<Named<T>>, all: seq<Named<T>>,
      reserved: map<string, set<string>>, scheme: Scheme)
    requires Once(sorted) && Once(all) && Among(sorted, all)
    ensures AllocateAll(sorted, all, reserved, scheme).names.Keys == (set v | v in sorted :: v.value)
    ensures forall v :: v in sorted ==>
              FromBase(v, Shares(v, all), AllocateAll(sorted, all, reserved, scheme).names[v.value], scheme)
  {
    if sorted != [] {
      var n := |sorted| - 1;
      var init, v := sorted[..n], sorted[n];
      OnceInit(sorted);
      AllocatedFromBase(init, all, reserved, scheme);
      var before := AllocateAll(init, all, reserved, scheme);
      CandidateIsWanted(all, v, scheme.hash);
      ChooseFromBase(v, Shares(v, all), UsedIn(before.used, reserved, v.scope), scheme);
    }
  }

  /**
   * Every name starts with its base; the hash follows exactly when the base is shared in its
   * scope, and after that at most one mark.
   */
  lemma NamesFromBase<T>(values: seq<Named<T>>, reserved: map<string, set<string>>, scheme: Scheme)
    requires DistinctValues(values)
    ensures var names := ResolvedNames(values, reserved, scheme);
            forall v :: v in values ==> v.value in names && FromBase(v, Shares(v, values), names[v.value], scheme)
  {
    var sorted := SortByKey(values, scheme.before);
    SortedOnce(values, scheme.before);
    hide SortByKey;
    AllocatedFromBase(sorted, values, reserved, scheme);
  }

  /** Used names are reserved or given to a value of their scope. */
  lemma {:induction false} UsedIsGiven<T>(sorted: seq<Named<T>>, all: seq<Named<T>>,
      reserved: map<string, set<string>>, scheme: Scheme, scope: string, name: string)
    requires Once(sorted)
    requires var a := AllocateAll(sorted, all, reserved, scheme);
             name in UsedIn(a.used, reserved, scope) && name !in UsedIn(map[], reserved, scope)
    ensures exists w :: w in sorted && w.scope == scope
                        && w.value in AllocateAll(sorted, all, reserved, scheme).names
                        && AllocateAll(sorted, all, reserved, scheme).names[w.value] == name
    decreases |sorted|
  {
    if sorted != [] {
      var n := |sorted| - 1;
      var init, v := sorted[..n], sorted[n];
      OnceInit(sorted);
      var a := AllocateAll(init, all, reserved, scheme);
      if name in UsedIn(a.used, reserved, scope) {
        UsedIsGiven(init, all, reserved, scheme, scope, name);
        var w :| w in init && w.scope == scope && w.value in a.names && a.names[w.value] == name;
        assert w in sorted;
      } else {
        assert v in sorted;
      }
    }
  }

  lemma {:induction false} AllocatedUnmarked<T>(sorted: seq<Named<T>>, all: seq<Named<T>>,
      reserved: map<string, set<string>>, scheme: Scheme, v: Named<T>)
    requires Once(sorted) && Once(all) && v in sorted && v in all
    requires AllocateAll(sorted, all, reserved, scheme).names.Keys == (set w | w in sorted :: w.value)
    requires Wanted(v, Shares(v, all), scheme.hash) !in UsedIn(map[], reserved, v.scope)
    requires forall w :: w in sorted && w.value != v.value && w.scope == v.scope ==>
               AllocateAll(sorted, all, reserved, scheme).names[w.value] != Wanted(v, Shares(v, all), scheme.hash)
    ensures AllocateAll(sorted, all, reserved, scheme).names[v.value] == Wanted(v, Shares(v, all), scheme.hash)
    decreases |sorted|
  {
    var n := |sorted| - 1;
    var init, last := sorted[..n], sorted[n];
    var wanted := Wanted(v, Shares(v, all), scheme.hash);
    var a, after := AllocateAll(init, all, reserved, scheme), AllocateAll(sorted, all, reserved, scheme);
    OnceInit(sorted);
    AllocationSeparates(init, all, reserved, scheme);
    assert forall w :: w in init ==> w.value in a.names && after.names[w.value] == a.names[w.value];
    if last == v {
      CandidateIsWanted(all, v, scheme.hash);
      if wanted in UsedIn(a.used, reserved, v.scope) {
        UsedIsGiven(init, all, reserved, scheme, v.scope, wanted);
      }
    } else {
      AllocatedUnmarked(init, all, reserved, scheme, v);
    }
  }

  /**
   * A base that no other value of the scope has is kept as the name, and a shared one is kept with the hash,
   * unless that is reserved or given to another value of the scope.
   */
  lemma UnclaimedIsKept<T>(values: seq<Named<T>>, reserved: map<string, set<string>>, scheme: Scheme, v: Named<T>)
    requires DistinctValues(values) && v in values
    ensures var names := ResolvedNames(values, reserved, scheme);
            var shared := exists w :: w in values && w.value != v.value && w.scope == v.scope
                                      && w.baseName == v.baseName;
            var wanted := v.baseName + if shared then v.separator + scheme.hash(v.key) else "";
            && (forall w :: w in values ==> w.value in names)
            && (wanted !in UsedIn(map[], reserved, v.scope)
                && (forall w :: w in values && w.value != v.value && w.scope == v.scope ==> names[w.value] != wanted)
                ==> names[v.value] == wanted)
  {
    var sorted := SortByKey(values, scheme.before);
    SortedOnce(values, scheme.before);
    hide SortByKey;
    AllocatedFromBase(sorted, values, reserved, scheme);
    var names := ResolvedNames(values, reserved, scheme);
    var wanted := Wanted(v, Shares(v, values), scheme.hash);
    if wanted !in UsedIn(map[], reserved, v.scope)
       && forall w :: w in values && w.value != v.value && w.scope == v.scope ==> names[w.value] != wanted {
      AllocatedUnmarked(sorted, values, reserved, scheme, v);
    }
  }

  /** Wanted names are free: not reserved, and wanted once in their scope. */
  ghost predicate WantedFree<T>(sorted: seq<Named<T>>, all: seq<Named<T>>, reserved: map<string, set<string>>,
      scheme: Scheme)
  {
    && (forall v :: v in sorted ==> Wanted(v, Shares(v, all), scheme.hash) !in UsedIn(map[], reserved, v.scope))
    && (forall v, w :: v in sorted && w in sorted && v.value != w.value && v.scope == w.scope ==>
          Wanted(v, Shares(v, all), scheme.hash) != Wanted(w, Shares(w, all), scheme.hash))
  }

  ghost predicate GivenAsWanted<T>(done: seq<Named<T>>, a: Allocation<T>, all: seq<Named<T>>,
      reserved: map<string, set<string>>, scheme: Scheme)
  {
    && (forall v :: v in done ==> v.value in a.names && a.names[v.value] == Wanted(v, Shares(v, all), scheme.hash))
    && (forall scope, name :: name in UsedIn(a.used, reserved, scope) ==>
          || name in UsedIn(map[], reserved, scope)
          || exists v :: v in done && v.scope == scope && name == Wanted(v, Shares(v, all), scheme.hash))
  }

  lemma {:induction false} AllocatedAsWanted<T>(sorted: seq<Named<T>>, all: seq<Named<T>>,
      reserved: map<string, set<string>>, scheme: Scheme)
    requires Once(sorted) && Once(all) && WantedFree(sorted, all, reserved, scheme)
    requires Among(sorted, all)
    ensures GivenAsWanted(sorted, AllocateAll(sorted, all, reserved, scheme), all, reserved, scheme)
  {
    hide Shares, Wanted, Choose, BaseCandidate, GroupSize, UsedIn;
    if sorted != [] {
      var n := |sorted| - 1;
      var init, v := sorted[..n], sorted[n];
      OnceInit(sorted);
      AllocatedAsWanted(init, all, reserved, scheme);
      var before := AllocateAll(init, all, reserved, scheme);
      WantedStaysFree(init, sorted, before, v, all, reserved, scheme);
      AsWantedStep(init, before, v, all, reserved, scheme);
      assert sorted == init + [v];
    }
  }

  lemma WantedStaysFree<T>(done: seq<Named<T>>, sorted: seq<Named<T>>, a: Allocation<T>, v: Named<T>,
      all: seq<Named<T>>, reserved: map<string, set<string>>, scheme: Scheme)
    requires GivenAsWanted(done, a, all, reserved, scheme) && WantedFree(sorted, all, reserved, scheme)
    requires v in sorted && forall w :: w in done ==> w in sorted && w.value != v.value
    ensures Wanted(v, Shares(v, all), scheme.hash) !in UsedIn(a.used, reserved, v.scope)
  {
    hide Shares, Wanted;
  }

  lemma AsWantedStep<T>(done: seq<Named<T>>, a: Allocation<T>, v: Named<T>, all: seq<Named<T>>,
      reserved: map<string, set<string>>, scheme: Scheme)
    requires GivenAsWanted(done, a, all, reserved, scheme) && Once(all) && v in all
    requires forall w :: w in done ==> w.value != v.value
    requires Wanted(v, Shares(v, all), scheme.hash) !in UsedIn(a.used, reserved, v.scope)
    ensures GivenAsWanted(done + [v], Allocate(a, v, GroupOf(v, all), reserved, scheme), all, reserved, scheme)
  {
    var next := Allocate(a, v, GroupOf(v, all), reserved, scheme);
    var name := Wanted(v, Shares(v, all), scheme.hash);
    CandidateIsWanted(all, v, scheme.hash);
    assert next.names == a.names[v.value := name];
    assert next.used == a.used[v.scope := UsedIn(a.used, reserved, v.scope) + {name}];
    forall scope, x | x in UsedIn(next.used, reserved, scope)
      ensures x in UsedIn(map[], reserved, scope)
           || exists w :: w in done + [v] && w.scope == scope && x == Wanted(w, Shares(w, all), scheme.hash)
    {
      if scope == v.scope && x == name {
        assert v in done + [v];
      } else if x !in UsedIn(map[], reserved, scope) {
        var w :| w in done && w.scope == scope && x == Wanted(w, Shares(w, all), scheme.hash);
        assert w in done + [v];
      }
    }
  }

  lemma SameElementsWantedFree<T>(a: seq<Named<T>>, b: seq<Named<T>>, all: seq<Named<T>>,
      reserved: map<string, set<string>>, scheme: Scheme)
    requires WantedFree(a, all, reserved, scheme) && forall v :: v in a <==> v in b
    ensures WantedFree(b, all, reserved, scheme)
  {
  }

  /** Values whose wanted names do not clash get exactly those: no mark is added without need. */
  lemma NamesAsWanted<T>(values: seq<Named<T>>, reserved: map<string, set<string>>, scheme: Scheme, v: Named<T>)
    requires DistinctValues(values) && WantedFree(values, values, reserved, scheme) && v in values
    ensures var names := ResolvedNames(values, reserved, scheme);
            v.value in names && names[v.value] == Wanted(v, Shares(v, values), scheme.hash)
  {
    var sorted := SortByKey(values, scheme.before);
    SortedOnce(values, scheme.before);
    hide SortByKey;
    SameElementsWantedFree(values, sorted, values, reserved, scheme);
    AllocatedAsWanted(sorted, values, reserved, scheme);
    assert v in sorted;
  }

  /** Takes one occurrence of x out of a sequence. */
  lemma TakeOut<T>(b: seq<Named<T>>, x: Named<T>, scope: string, baseName: string) returns (rest: seq<Named<T>>)
    requires x in multiset(b)
    ensures multiset(rest) == multiset(b) - multiset{x}
    ensures GroupSize(b, scope, baseName) == GroupSize(rest, scope, baseName) + GroupSize([x], scope, baseName)
  {
    var i :| 0 <= i < |b| && b[i] == x;
    rest := b[..i] + b[i + 1..];
    assert b == b[..i] + ([x] + b[i + 1..]);
    assert multiset(b) == multiset(b[..i]) + (multiset{x} + multiset(b[i + 1..]));
    GroupSizeAppend(b[..i], [x] + b[i + 1..], scope, baseName);
    GroupSizeAppend([x], b[i + 1..], scope, baseName);
    GroupSizeAppend(b[..i], b[i + 1..], scope, baseName);
  }

  lemma {:induction false} GroupSizeOfMultiset<T>(a: seq<Named<T>>, b: seq<Named<T>>, scope: string, baseName: string)
    requires multiset(a) == multiset(b)
    ensures GroupSize(a, scope, baseName) == GroupSize(b, scope, baseName)
    decreases |a|
  {
    if a == [] {
      assert |multiset(a)| == |multiset(b)|;
    } else {
      var init, x := a[..|a| - 1], a[|a| - 1];
      assert a == init + [x];
      var rest := TakeOut(b, x, scope, baseName);
      assert multiset(init) == multiset(a) - multiset{x};
      GroupSizeOfMultiset(init, rest, scope, baseName);
      GroupSizeAppend(init, [x], scope, baseName);
    }
  }

  lemma {:induction false} GroupSizeAppend<T>(a: seq<Named<T>>, b: seq<Named<T>>, scope: string, baseName: string)
    ensures GroupSize(a + b, scope, baseName) == GroupSize(a, scope, baseName) + GroupSize(b, scope, baseName)
    decreases |b|
  {
    if b == [] {
      assert a + b == a;
    } else {
      var init := b[..|b| - 1];
      assert (a + b)[..|a + b| - 1] == a + init;
      GroupSizeAppend(a, init, scope, baseName);
    }
  }

  /** With distinct keys under a total order, the names do not depend on the order of the input. */
  lemma NamesIgnoreOrder<T>(a: seq<Named<T>>, b: seq<Named<T>>, reserved: map<string, set<string>>, scheme: Scheme)
    requires StrictTotalOrder(scheme.before) && DistinctNamedKeys(a) && DistinctNamedKeys(b)
    requires multiset(a) == multiset(b)
    ensures ResolvedNames(a, reserved, scheme) == ResolvedNames(b, reserved, scheme)
  {
    SortKeeps(a, scheme.before);
    SortKeeps(b, scheme.before);
    SortSorts(a, scheme.before);
    SortSorts(b, scheme.before);
    SortedIsUnique(SortByKey(a, scheme.before), SortByKey(b, scheme.before), scheme.before);
    SameGroupsSameNames(SortByKey(a, scheme.before), a, b, reserved, scheme);
  }

  lemma {:induction false} SameGroupsSameNames<T>(sorted: seq<Named<T>>, a: seq<Named<T>>, b: seq<Named<T>>,
      reserved: map<string, set<string>>, scheme: Scheme)
    requires multiset(a) == multiset(b)
    ensures AllocateAll(sorted, a, reserved, scheme) == AllocateAll(sorted, b, reserved, scheme)
    decreases |sorted|
  {
    if sorted != [] {
      var v := sorted[|sorted| - 1];
      GroupSizeOfMultiset(a, b, v.scope, v.baseName);
      SameGroupsSameNames(sorted[..|sorted| - 1], a, b, reserved, scheme);
    }
  }

  // The loops.

  lemma {:induction false} GroupSizePositive<T>(values: seq<Named<T>>, v: Named<T>)
    requires v in values
    ensures GroupOf(v, values) > 0
  {
    var n := |values| - 1;
    if values[n] != v {
      assert v in values[..n];
      GroupSizePositive(values[..n], v);
    }
  }

  function CountIn(groups: map<(string, string), nat>, group: (string, string)): nat {
    if group in groups then groups[group] else 0
  }

  /** How many values share each scope and base name. */
  method CountGroups<T>(values: seq<Named<T>>) returns (groups: map<(string, string), nat>)
    ensures forall v :: v in values ==>
              (v.scope, v.baseName) in groups && groups[(v.scope, v.baseName)] == GroupOf(v, values)
  {
    groups := map[];
    for i := 0 to |values|
      invariant forall scope, base :: CountIn(groups, (scope, base)) == GroupSize(values[..i], scope, base)
    {
      var v := values[i];
      var group := (v.scope, v.baseName);
      assert values[..i + 1][..i] == values[..i];
      groups := groups[group := CountIn(groups, group) + 1];
    }
    assert values[..|values|] == values;
    forall v | v in values
      ensures (v.scope, v.baseName) in groups && groups[(v.scope, v.baseName)] == GroupOf(v, values)
    {
      GroupSizePositive(values, v);
      assert CountIn(groups, (v.scope, v.baseName)) == GroupSize(values, v.scope, v.baseName);
    }
  }

  /** The allocation loop of both emitters: every value ends with the name ResolvedNames gives it. */
  method ResolveNames<T(==)>(values: seq<Named<T>>, reserved: map<string, set<string>>, scheme: Scheme)
    returns (names: map<T, string>)
    ensures names == ResolvedNames(values, reserved, scheme)
  {
    hide GroupSize, SortByKey, FirstFree;
    var groups := CountGroups(values);
    var sorted := SortByKey(values, scheme.before);
    var used: map<string, set<string>> := map[];
    names := map[];
    for i := 0 to |sorted|
      invariant Allocation(names, used) == AllocateAll(sorted[..i], values, reserved, scheme)
    {
      var v := sorted[i];
      SortedIsIn(values, scheme.before, i);
      var base := BaseCandidate(v, groups[(v.scope, v.baseName)], scheme.hash);
      var taken := UsedIn(used, reserved, v.scope);
      var name := Escalate(FirstTry(base, taken, scheme.retry), base, taken);
      assert sorted[..i + 1][..i] == sorted[..i];
      used := used[v.scope := taken + {name}];
      names := names[v.value := name];
    }
    assert sorted[..|sorted|] == sorted;
  }
}
