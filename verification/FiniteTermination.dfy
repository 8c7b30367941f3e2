/**
 * When the finite sample search ends: exactly when a search that may enter references of some finite
 * set only, and needs no stack bound, never asks for a reference outside that set.
 */
module FiniteTermination {
  import opened Wrappers
  import opened JsValues
  import opened DamlTypes
  import opened DescriptorCompiler
  import opened SampleEmitter
  import opened ScopedTypes
  import opened FiniteSamples

  datatype Verdict = Found | Nothing | Leaves

  /** The search confined to the references of `allowed`: it cuts at visited ones and gives up outside. */
  ghost function Search(t: DamlType, keys: Keys, project: Project, visited: set<Fingerprint>,
      allowed: set<Fingerprint>): Verdict
    decreases |allowed - visited|, 1, t
  {
    match t
    case Record(fields) => SearchFields(fields, keys, project, visited, allowed)
    case Variant(constructors) => SearchFirst(constructors, keys, project, visited, allowed)
    case Enum(names) => if names == [] then Nothing else Found
    case Var(variable) => if variable in keys then SearchKey(keys[variable], project, visited, allowed) else Nothing
    case Ref(identity, arguments) => SearchKey(FRef(identity, KeysOf(arguments, keys)), project, visited, allowed)
    case _ => Found
  }

  ghost function SearchFields(fields: seq<Field>, keys: Keys, project: Project, visited: set<Fingerprint>,
      allowed: set<Fingerprint>): Verdict
    decreases |allowed - visited|, 1, fields
  {
    if fields == [] then Found
    else
      var first := Search(fields[0].ty, keys, project, visited, allowed);
      if first.Found? then SearchFields(fields[1..], keys, project, visited, allowed) else first
  }

  ghost function SearchFirst(constructors: seq<Constructor>, keys: Keys, project: Project, visited: set<Fingerprint>,
      allowed: set<Fingerprint>): Verdict
    decreases |allowed - visited|, 1, constructors
  {
    if constructors == [] then Nothing
    else
      var payload := Search(constructors[0].payload, keys, project, visited, allowed);
      if payload.Nothing? then SearchFirst(constructors[1..], keys, project, visited, allowed) else payload
  }

  ghost function SearchKey(key: Fingerprint, project: Project, visited: set<Fingerprint>,
      allowed: set<Fingerprint>): Verdict
    decreases |allowed - visited|, 0
  {
    match key
    case FPrim(_, _) => Found
    case FKind(_) => Found
    case FVar(_) => Nothing
    case FRef(identity, arguments) =>
      if key in visited then Nothing
      else if key !in allowed then Leaves
      else if identity !in project.definitions then Nothing
      else if |arguments| != |project.definitions[identity].Parameters()| then Nothing
      else
        assert allowed - visited == (allowed - (visited + {key})) + {key};
        Search(BodyOf(identity, project), BindKeys(map[], project.definitions[identity].Parameters(), arguments),
               project, visited + {key}, allowed)
  }

  /** A closed type is searched as its fingerprint is. */
  lemma ClosedSearch(t: DamlType, keys: Keys, project: Project, visited: set<Fingerprint>, allowed: set<Fingerprint>)
    requires Closed(t, project.definitions)
    ensures Search(t, keys, project, visited, allowed) == SearchKey(KeyOf(t, map[]), project, visited, allowed)
  {
    ClosedKey(t, map[], keys, project.definitions, 0);
  }

  // ----- a search that stays inside is the emitter's -----

  ghost predicate Agrees<T>(verdict: Verdict, sample: Outcome<T>) {
    (verdict.Found? && sample.Value?) || (verdict.Nothing? && sample.Missing?)
  }

  /**
   * Stack a search needs when `left` references are still unvisited: two units for each, and one
   * more when variables (`open`) may be in scope.
   */
  predicate Enough(fuel: nat, left: nat, open: bool) {
    fuel >= 2 * left + if open then 2 else 1
  }

  ghost predicate Unvisited(allowed: set<Fingerprint>, visited: set<Fingerprint>, left: nat) {
    |allowed - visited| == left
  }

  lemma FewerLeft(allowed: set<Fingerprint>, visited: set<Fingerprint>, left: nat, key: Fingerprint)
    requires key in allowed && key !in visited && Unvisited(allowed, visited, left)
    ensures left > 0 && Unvisited(allowed, visited + {key}, left - 1)
  {
    assert allowed - visited == (allowed - (visited + {key})) + {key};
  }

  lemma {:induction false} StayingEnds(t: DamlType, scope: Scope, bindings: Bindings, keys: Keys,
      representation: Representation, project: Project, visited: set<Fingerprint>, fuel: nat,
      allowed: set<Fingerprint>, left: nat, open: bool)
    requires WellFormed(project)
    requires Scoped(t, scope, project.definitions, true) && KeyLinked(scope, bindings, keys, project.definitions)
    requires Unvisited(allowed, visited, left) && Enough(fuel, left, open) && (open || scope == map[])
    requires !Search(t, keys, project, visited, allowed).Leaves?
    ensures Agrees(Search(t, keys, project, visited, allowed),
                   EmitFinite(t, representation, project, bindings, visited, fuel))
    decreases fuel, t
  {
    match t
    case Prim(builtin, scale) =>
    case Record(fields) =>
      StayingFieldsEnd(fields, scope, bindings, keys, representation, project, visited, fuel, allowed, left, open);
    case Variant(constructors) =>
      StayingFirstEnds(constructors, scope, bindings, keys, representation, project, visited, fuel, allowed, left,
                       open);
    case Var(variable) =>
      StayingVariableEnds(variable, scope, bindings, keys, representation, project, visited, fuel, allowed, left, open);
    case Ref(identity, arguments) =>
      StayingReferenceEnds(identity, arguments, scope, bindings, keys, representation, project, visited, fuel, allowed,
                           left, open);
    case _ =>
  }

  lemma {:induction false} StayingVariableEnds(variable: VarKey, scope: Scope, bindings: Bindings, keys: Keys,
      representation: Representation, project: Project, visited: set<Fingerprint>, fuel: nat,
      allowed: set<Fingerprint>, left: nat, open: bool)
    requires WellFormed(project) && Scoped(Var(variable), scope, project.definitions, true)
    requires KeyLinked(scope, bindings, keys, project.definitions)
    requires Unvisited(allowed, visited, left) && Enough(fuel, left, open) && (open || scope == map[])
    requires !Search(Var(variable), keys, project, visited, allowed).Leaves?
    ensures Agrees(Search(Var(variable), keys, project, visited, allowed),
                   EmitFinite(Var(variable), representation, project, bindings, visited, fuel))
    decreases fuel, Var(variable), 0
  {
    assert KeyLinkedAt(scope[variable.index], bindings, keys, project.definitions);
    InlineWeaker(bindings[variable], map[], project.definitions);
    ClosedSearch(bindings[variable], keys, project, visited, allowed);
    StayingEnds(bindings[variable], map[], bindings, keys, representation, project, visited, fuel - 1, allowed, left,
                false);
  }

  lemma {:induction false} StayingReferenceEnds(identity: Identity, arguments: seq<DamlType>, scope: Scope,
      bindings: Bindings, keys: Keys, representation: Representation, project: Project, visited: set<Fingerprint>,
      fuel: nat, allowed: set<Fingerprint>, left: nat, open: bool)
    requires WellFormed(project) && Scoped(Ref(identity, arguments), scope, project.definitions, true)
    requires KeyLinked(scope, bindings, keys, project.definitions)
    requires Unvisited(allowed, visited, left) && Enough(fuel, left, open)
    requires !Search(Ref(identity, arguments), keys, project, visited, allowed).Leaves?
    ensures Agrees(Search(Ref(identity, arguments), keys, project, visited, allowed),
                   EmitFinite(Ref(identity, arguments), representation, project, bindings, visited, fuel))
    decreases fuel, Ref(identity, arguments), 0
  {
    EnterKeys(project, identity, arguments, scope, bindings, keys, fuel);
    EnterReference(identity, arguments, scope, bindings, keys, representation, project, visited, fuel);
    var key := FRef(identity, KeysOf(arguments, keys));
    if key !in visited {
      var parameters := project.definitions[identity].Parameters();
      FewerLeft(allowed, visited, left, key);
      StayingEnds(BodyOf(identity, project), ScopeOf(parameters),
                  BindVariables(bindings, parameters, ResolveAll(arguments, bindings)),
                  BindKeys(map[], parameters, KeysOf(arguments, keys)), representation, project, visited + {key},
                  fuel - 1, allowed, left - 1, true);
    }
  }

  lemma {:induction false} StayingFieldsEnd(fields: seq<Field>, scope: Scope, bindings: Bindings, keys: Keys,
      representation: Representation, project: Project, visited: set<Fingerprint>, fuel: nat,
      allowed: set<Fingerprint>, left: nat, open: bool)
    requires WellFormed(project)
    requires ScopedFields(fields, scope, project.definitions) && KeyLinked(scope, bindings, keys, project.definitions)
    requires Unvisited(allowed, visited, left) && Enough(fuel, left, open) && (open || scope == map[])
    requires !SearchFields(fields, keys, project, visited, allowed).Leaves?
    ensures Agrees(SearchFields(fields, keys, project, visited, allowed),
                   EmitFiniteFields(fields, representation, project, bindings, visited, fuel))
    decreases fuel, fields
  {
    if fields != [] {
      StayingEnds(fields[0].ty, scope, bindings, keys, representation, project, visited, fuel, allowed, left, open);
      if Search(fields[0].ty, keys, project, visited, allowed).Found? {
        StayingFieldsEnd(fields[1..], scope, bindings, keys, representation, project, visited, fuel, allowed, left,
                         open);
      }
    }
  }

  lemma {:induction false} StayingFirstEnds(constructors: seq<Constructor>, scope: Scope, bindings: Bindings,
      keys: Keys, representation: Representation, project: Project, visited: set<Fingerprint>, fuel: nat,
      allowed: set<Fingerprint>, left: nat, open: bool)
    requires WellFormed(project)
    requires ScopedConstructors(constructors, scope, project.definitions)
    requires KeyLinked(scope, bindings, keys, project.definitions)
    requires Unvisited(allowed, visited, left) && Enough(fuel, left, open) && (open || scope == map[])
    requires !SearchFirst(constructors, keys, project, visited, allowed).Leaves?
    ensures Agrees(SearchFirst(constructors, keys, project, visited, allowed),
                   EmitFirstFinite(constructors, representation, project, bindings, visited, fuel))
    decreases fuel, constructors
  {
    if constructors != [] {
      StayingEnds(constructors[0].payload, scope, bindings, keys, representation, project, visited, fuel, allowed, left,
                  open);
      if Search(constructors[0].payload, keys, project, visited, allowed).Nothing? {
        StayingFirstEnds(constructors[1..], scope, bindings, keys, representation, project, visited, fuel, allowed,
                         left, open);
      }
    }
  }

  // ----- a search that ends stays inside some finite set -----

  /** Allowing more references changes no verdict that was reached. */
  lemma {:induction false} SearchGrows(t: DamlType, keys: Keys, project: Project, visited: set<Fingerprint>,
      allowed: set<Fingerprint>, more: set<Fingerprint>)
    requires allowed <= more && !Search(t, keys, project, visited, allowed).Leaves?
    ensures Search(t, keys, project, visited, more) == Search(t, keys, project, visited, allowed)
    decreases |allowed - visited|, 1, t
  {
    match t
    case Record(fields) => SearchFieldsGrow(fields, keys, project, visited, allowed, more);
    case Variant(constructors) => SearchFirstGrows(constructors, keys, project, visited, allowed, more);
    case Var(variable) =>
      if variable in keys {
        SearchKeyGrows(keys[variable], project, visited, allowed, more);
      }
    case Ref(identity, arguments) =>
      SearchKeyGrows(FRef(identity, KeysOf(arguments, keys)), project, visited, allowed, more);
    case _ =>
  }

  lemma {:induction false} SearchKeyGrows(key: Fingerprint, project: Project, visited: set<Fingerprint>,
      allowed: set<Fingerprint>, more: set<Fingerprint>)
    requires allowed <= more && !SearchKey(key, project, visited, allowed).Leaves?
    ensures SearchKey(key, project, visited, more) == SearchKey(key, project, visited, allowed)
    decreases |allowed - visited|, 0
  {
    if key.FRef? && key in allowed && key !in visited && key.identity in project.definitions
       && |key.arguments| == |project.definitions[key.identity].Parameters()| {
      FewerLeft(allowed, visited, |allowed - visited|, key);
      SearchGrows(BodyOf(key.identity, project),
                  BindKeys(map[], project.definitions[key.identity].Parameters(), key.arguments), project,
                  visited + {key}, allowed, more);
    }
  }

  lemma {:induction false} SearchFieldsGrow(fields: seq<Field>, keys: Keys, project: Project,
      visited: set<Fingerprint>, allowed: set<Fingerprint>, more: set<Fingerprint>)
    requires allowed <= more && !SearchFields(fields, keys, project, visited, allowed).Leaves?
    ensures SearchFields(fields, keys, project, visited, more) == SearchFields(fields, keys, project, visited, allowed)
    decreases |allowed - visited|, 1, fields
  {
    if fields != [] {
      SearchGrows(fields[0].ty, keys, project, visited, allowed, more);
      if Search(fields[0].ty, keys, project, visited, allowed).Found? {
        SearchFieldsGrow(fields[1..], keys, project, visited, allowed, more);
      }
    }
  }

  lemma {:induction false} SearchFirstGrows(constructors: seq<Constructor>, keys: Keys, project: Project,
      visited: set<Fingerprint>, allowed: set<Fingerprint>, more: set<Fingerprint>)
    requires allowed <= more && !SearchFirst(constructors, keys, project, visited, allowed).Leaves?
    ensures SearchFirst(constructors, keys, project, visited, more)
         == SearchFirst(constructors, keys, project, visited, allowed)
    decreases |allowed - visited|, 1, constructors
  {
    if constructors != [] {
      SearchGrows(constructors[0].payload, keys, project, visited, allowed, more);
      if Search(constructors[0].payload, keys, project, visited, allowed).Nothing? {
        SearchFirstGrows(constructors[1..], keys, project, visited, allowed, more);
      }
    }
  }

  /** The references an ended search entered. */
  lemma {:induction false} EndedStays(t: DamlType, scope: Scope, bindings: Bindings, keys: Keys,
      representation: Representation, project: Project, visited: set<Fingerprint>, fuel: nat)
      returns (allowed: set<Fingerprint>)
    requires WellFormed(project)
    requires Scoped(t, scope, project.definitions, true) && KeyLinked(scope, bindings, keys, project.definitions)
    requires !EmitFinite(t, representation, project, bindings, visited, fuel).Diverges?
    ensures Agrees(Search(t, keys, project, visited, allowed),
                   EmitFinite(t, representation, project, bindings, visited, fuel))
    decreases fuel, t
  {
    allowed := {};
    match t
    case Record(fields) =>
      allowed := EndedFieldsStay(fields, scope, bindings, keys, representation, project, visited, fuel);
    case Variant(constructors) =>
      allowed := EndedFirstStays(constructors, scope, bindings, keys, representation, project, visited, fuel);
    case Var(variable) =>
      assert KeyLinkedAt(scope[variable.index], bindings, keys, project.definitions);
      InlineWeaker(bindings[variable], map[], project.definitions);
      allowed := EndedStays(bindings[variable], map[], bindings, keys, representation, project, visited, fuel - 1);
      ClosedSearch(bindings[variable], keys, project, visited, allowed);
    case Ref(identity, arguments) =>
      EnterKeys(project, identity, arguments, scope, bindings, keys, fuel);
      EnterReference(identity, arguments, scope, bindings, keys, representation, project, visited, fuel);
      var key := FRef(identity, KeysOf(arguments, keys));
      if key !in visited {
        var parameters := project.definitions[identity].Parameters();
        var inner := BindKeys(map[], parameters, KeysOf(arguments, keys));
        var below := EndedStays(BodyOf(identity, project), ScopeOf(parameters),
                                BindVariables(bindings, parameters, ResolveAll(arguments, bindings)), inner,
                                representation, project, visited + {key}, fuel - 1);
        allowed := below + {key};
        SearchGrows(BodyOf(identity, project), inner, project, visited + {key}, below, allowed);
      }
    case _ =>
  }

  lemma {:induction false} EndedFieldsStay(fields: seq<Field>, scope: Scope, bindings: Bindings, keys: Keys,
      representation: Representation, project: Project, visited: set<Fingerprint>, fuel: nat)
      returns (allowed: set<Fingerprint>)
    requires WellFormed(project)
    requires ScopedFields(fields, scope, project.definitions) && KeyLinked(scope, bindings, keys, project.definitions)
    requires !EmitFiniteFields(fields, representation, project, bindings, visited, fuel).Diverges?
    ensures Agrees(SearchFields(fields, keys, project, visited, allowed),
                   EmitFiniteFields(fields, representation, project, bindings, visited, fuel))
    decreases fuel, fields
  {
    allowed := {};
    if fields != [] {
      var first := EndedStays(fields[0].ty, scope, bindings, keys, representation, project, visited, fuel);
      allowed := first;
      if Search(fields[0].ty, keys, project, visited, first).Found? {
        var rest := EndedFieldsStay(fields[1..], scope, bindings, keys, representation, project, visited, fuel);
        allowed := first + rest;
        SearchGrows(fields[0].ty, keys, project, visited, first, allowed);
        SearchFieldsGrow(fields[1..], keys, project, visited, rest, allowed);
      }
    }
  }

  lemma {:induction false} EndedFirstStays(constructors: seq<Constructor>, scope: Scope, bindings: Bindings,
      keys: Keys, representation: Representation, project: Project, visited: set<Fingerprint>, fuel: nat)
      returns (allowed: set<Fingerprint>)
    requires WellFormed(project)
    requires ScopedConstructors(constructors, scope, project.definitions)
    requires KeyLinked(scope, bindings, keys, project.definitions)
    requires !EmitFirstFinite(constructors, representation, project, bindings, visited, fuel).Diverges?
    ensures Agrees(SearchFirst(constructors, keys, project, visited, allowed),
                   EmitFirstFinite(constructors, representation, project, bindings, visited, fuel))
    decreases fuel, constructors
  {
    allowed := {};
    if constructors != [] {
      var first := EndedStays(constructors[0].payload, scope, bindings, keys, representation, project, visited, fuel);
      allowed := first;
      if Search(constructors[0].payload, keys, project, visited, first).Nothing? {
        var rest := EndedFirstStays(constructors[1..], scope, bindings, keys, representation, project, visited, fuel);
        allowed := first + rest;
        SearchGrows(constructors[0].payload, keys, project, visited, first, allowed);
        SearchFirstGrows(constructors[1..], keys, project, visited, rest, allowed);
      }
    }
  }

  ghost predicate EndsAt(t: DamlType, representation: Representation, project: Project, fuel: nat) {
    !EmitFinite(t, representation, project, map[], {}, fuel).Diverges?
  }

  ghost predicate StaysIn(t: DamlType, project: Project, allowed: set<Fingerprint>) {
    !Search(t, map[], project, {}, allowed).Leaves?
  }

  /**
   * The search ends with some stack if and only if it never leaves some finite set of references;
   * twice the size of that set, and one more, is then enough.
   */
  lemma FiniteEndsExactly(t: DamlType, representation: Representation, project: Project)
    requires WellFormed(project) && Scoped(t, map[], project.definitions, true)
    ensures (exists fuel: nat :: EndsAt(t, representation, project, fuel))
       <==> (exists allowed :: StaysIn(t, project, allowed))
    ensures forall allowed, fuel: nat ::
              StaysIn(t, project, allowed) && fuel >= 2 * |allowed| + 1 ==> EndsAt(t, representation, project, fuel)
  {
    forall allowed, fuel: nat | StaysIn(t, project, allowed) && fuel >= 2 * |allowed| + 1
      ensures EndsAt(t, representation, project, fuel)
    {
      StackSuffices(t, representation, project, allowed, fuel);
    }
    forall allowed | StaysIn(t, project, allowed)
      ensures exists fuel: nat :: EndsAt(t, representation, project, fuel)
    {
      assert EndsAt(t, representation, project, 2 * |allowed| + 1);
    }
    forall fuel: nat | EndsAt(t, representation, project, fuel)
      ensures exists allowed :: StaysIn(t, project, allowed)
    {
      var allowed := EndedStays(t, map[], map[], map[], representation, project, {}, fuel);
      assert StaysIn(t, project, allowed);
    }
  }

  lemma StackSuffices(t: DamlType, representation: Representation, project: Project, allowed: set<Fingerprint>,
      fuel: nat)
    requires WellFormed(project) && Scoped(t, map[], project.definitions, true)
    requires StaysIn(t, project, allowed) && fuel >= 2 * |allowed| + 1
    ensures Agrees(Search(t, map[], project, {}, allowed), EmitFinite(t, representation, project, map[], {}, fuel))
  {
    assert allowed - {} == allowed;
    StayingEnds(t, map[], map[], map[], representation, project, {}, fuel, allowed, |allowed|, false);
  }

  // ----- finitely many reachable references -----

  /** References the search may enter next: through fields and constructors, never into containers. */
  function Visible(t: DamlType, keys: Keys): set<Fingerprint> {
    match t
    case Record(fields) => VisibleFields(fields, keys)
    case Variant(constructors) => VisibleConstructors(constructors, keys)
    case Var(variable) => if variable in keys && keys[variable].FRef? then {keys[variable]} else {}
    case Ref(identity, arguments) => {FRef(identity, KeysOf(arguments, keys))}
    case _ => {}
  }

  function VisibleFields(fields: seq<Field>, keys: Keys): set<Fingerprint> {
    if fields == [] then {} else Visible(fields[0].ty, keys) + VisibleFields(fields[1..], keys)
  }

  function VisibleConstructors(constructors: seq<Constructor>, keys: Keys): set<Fingerprint> {
    if constructors == [] then {}
    else Visible(constructors[0].payload, keys) + VisibleConstructors(constructors[1..], keys)
  }

  /** A finite set of references closed under what their bodies show. */
  ghost predicate Regular(reachable: set<Fingerprint>, project: Project) {
    forall key {:trigger RegularKey(key, reachable, project)} ::
      key in reachable ==> RegularKey(key, reachable, project)
  }

  ghost predicate RegularKey(key: Fingerprint, reachable: set<Fingerprint>, project: Project) {
    && key.FRef?
    && key.identity in project.definitions
    && |key.arguments| == |project.definitions[key.identity].Parameters()|
    && Visible(BodyOf(key.identity, project),
               BindKeys(map[], project.definitions[key.identity].Parameters(), key.arguments)) <= reachable
  }

  /** A search over a closed set stays in it, whatever the verdict. */
  lemma {:induction false} RegularStays(t: DamlType, keys: Keys, project: Project, visited: set<Fingerprint>,
      reachable: set<Fingerprint>)
    requires Regular(reachable, project) && Visible(t, keys) <= reachable
    ensures !Search(t, keys, project, visited, reachable).Leaves?
    decreases |reachable - visited|, 1, t
  {
    match t
    case Record(fields) => RegularFieldsStay(fields, keys, project, visited, reachable);
    case Variant(constructors) => RegularFirstStays(constructors, keys, project, visited, reachable);
    case Var(variable) =>
      if variable in keys {
        RegularKeyStays(keys[variable], project, visited, reachable);
      }
    case Ref(identity, arguments) =>
      RegularKeyStays(FRef(identity, KeysOf(arguments, keys)), project, visited, reachable);
    case _ =>
  }

  lemma {:induction false} RegularKeyStays(key: Fingerprint, project: Project, visited: set<Fingerprint>,
      reachable: set<Fingerprint>)
    requires Regular(reachable, project) && (key.FRef? ==> key in reachable)
    ensures !SearchKey(key, project, visited, reachable).Leaves?
    decreases |reachable - visited|, 0
  {
    if key.FRef? && key !in visited {
      assert RegularKey(key, reachable, project);
      FewerLeft(reachable, visited, |reachable - visited|, key);
      RegularStays(BodyOf(key.identity, project),
                   BindKeys(map[], project.definitions[key.identity].Parameters(), key.arguments), project,
                   visited + {key}, reachable);
    }
  }

  lemma {:induction false} RegularFieldsStay(fields: seq<Field>, keys: Keys, project: Project,
      visited: set<Fingerprint>, reachable: set<Fingerprint>)
    requires Regular(reachable, project) && VisibleFields(fields, keys) <= reachable
    ensures !SearchFields(fields, keys, project, visited, reachable).Leaves?
    decreases |reachable - visited|, 1, fields
  {
    if fields != [] {
      RegularStays(fields[0].ty, keys, project, visited, reachable);
      RegularFieldsStay(fields[1..], keys, project, visited, reachable);
    }
  }

  lemma {:induction false} RegularFirstStays(constructors: seq<Constructor>, keys: Keys, project: Project,
      visited: set<Fingerprint>, reachable: set<Fingerprint>)
    requires Regular(reachable, project) && VisibleConstructors(constructors, keys) <= reachable
    ensures !SearchFirst(constructors, keys, project, visited, reachable).Leaves?
    decreases |reachable - visited|, 1, constructors
  {
    if constructors != [] {
      RegularStays(constructors[0].payload, keys, project, visited, reachable);
      RegularFirstStays(constructors[1..], keys, project, visited, reachable);
    }
  }
}
