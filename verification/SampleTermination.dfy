/**
 * When sample emission ends: exactly when the finite searches it starts stay in some finite set of
 * references, and always when only finitely many references are reachable.
 */
module SampleTermination {
  import opened Wrappers
  import opened DamlTypes
  import opened DescriptorCompiler
  import opened SampleEmitter
  import opened ScopedTypes
  import opened SampleSoundness
  import opened FiniteSamples
  import opened FiniteTermination
  import opened Inhabitation
  import opened SampleLimits

  /** Keys of all references in a type, inside containers and arguments too. */
  function AllRefs(t: DamlType, keys: Keys): set<Fingerprint> {
    match t
    case Optional(element) => AllRefs(element, keys)
    case List(element) => AllRefs(element, keys)
    case TextMap(value) => AllRefs(value, keys)
    case GenMap(key, value) => AllRefs(key, keys) + AllRefs(value, keys)
    case Record(fields) => FieldRefs(fields, keys)
    case Variant(constructors) => ConstructorRefs(constructors, keys)
    case Var(variable) => if variable in keys && keys[variable].FRef? then {keys[variable]} else {}
    case Ref(identity, arguments) => {FRef(identity, KeysOf(arguments, keys))} + RefsOfAll(arguments, keys)
    case _ => {}
  }

  function RefsOfAll(ts: seq<DamlType>, keys: Keys): set<Fingerprint> {
    if ts == [] then {} else AllRefs(ts[0], keys) + RefsOfAll(ts[1..], keys)
  }

  function FieldRefs(fields: seq<Field>, keys: Keys): set<Fingerprint> {
    if fields == [] then {} else AllRefs(fields[0].ty, keys) + FieldRefs(fields[1..], keys)
  }

  function ConstructorRefs(constructors: seq<Constructor>, keys: Keys): set<Fingerprint> {
    if constructors == [] then {} else AllRefs(constructors[0].payload, keys) + ConstructorRefs(constructors[1..], keys)
  }

  /** A finite set of references closed under everything their bodies mention. */
  ghost predicate Saturated(reachable: set<Fingerprint>, project: Project) {
    forall key {:trigger SaturatedKey(key, reachable, project)} ::
      key in reachable ==> SaturatedKey(key, reachable, project)
  }

  ghost predicate SaturatedKey(key: Fingerprint, reachable: set<Fingerprint>, project: Project) {
    && key.FRef?
    && key.identity in project.definitions
    && |key.arguments| == |project.definitions[key.identity].Parameters()|
    && AllRefs(BodyOf(key.identity, project),
               BindKeys(map[], project.definitions[key.identity].Parameters(), key.arguments)) <= reachable
  }

  lemma {:induction false} VisibleRefs(t: DamlType, keys: Keys)
    ensures Visible(t, keys) <= AllRefs(t, keys)
    decreases t
  {
    match t
    case Record(fields) => VisibleFieldRefs(fields, keys);
    case Variant(constructors) => VisibleConstructorRefs(constructors, keys);
    case _ =>
  }

  lemma {:induction false} VisibleFieldRefs(fields: seq<Field>, keys: Keys)
    ensures VisibleFields(fields, keys) <= FieldRefs(fields, keys)
    decreases fields
  {
    if fields != [] {
      VisibleRefs(fields[0].ty, keys);
      VisibleFieldRefs(fields[1..], keys);
    }
  }

  lemma {:induction false} VisibleConstructorRefs(constructors: seq<Constructor>, keys: Keys)
    ensures VisibleConstructors(constructors, keys) <= ConstructorRefs(constructors, keys)
    decreases constructors
  {
    if constructors != [] {
      VisibleRefs(constructors[0].payload, keys);
      VisibleConstructorRefs(constructors[1..], keys);
    }
  }

  lemma SaturatedIsRegular(reachable: set<Fingerprint>, project: Project)
    requires Saturated(reachable, project)
    ensures Regular(reachable, project)
  {
    forall key | key in reachable ensures RegularKey(key, reachable, project) {
      assert SaturatedKey(key, reachable, project);
      VisibleRefs(BodyOf(key.identity, project),
                  BindKeys(map[], project.definitions[key.identity].Parameters(), key.arguments));
    }
  }

  /** Types bound to the variables in scope mention reachable references only. */
  ghost predicate BindingsWithin(scope: Scope, bindings: Bindings, reachable: set<Fingerprint>) {
    forall i <- scope.Keys :: BoundWithin(scope[i], bindings, reachable)
  }

  ghost predicate BoundWithin(variable: VarKey, bindings: Bindings, reachable: set<Fingerprint>) {
    variable in bindings && AllRefs(bindings[variable], map[]) <= reachable
  }

  lemma {:induction false} ResolvedRefs(t: DamlType, scope: Scope, bindings: Bindings, keys: Keys,
      definitions: Definitions, reachable: set<Fingerprint>)
    requires Scoped(t, scope, definitions, false) && KeyLinked(scope, bindings, keys, definitions)
    requires BindingsWithin(scope, bindings, reachable) && AllRefs(t, keys) <= reachable
    ensures AllRefs(ResolveVariables(t, bindings), map[]) <= reachable
    decreases t
  {
    match t
    case Optional(element) => ResolvedRefs(element, scope, bindings, keys, definitions, reachable);
    case List(element) => ResolvedRefs(element, scope, bindings, keys, definitions, reachable);
    case TextMap(value) => ResolvedRefs(value, scope, bindings, keys, definitions, reachable);
    case GenMap(key, value) =>
      ResolvedRefs(key, scope, bindings, keys, definitions, reachable);
      ResolvedRefs(value, scope, bindings, keys, definitions, reachable);
    case Var(variable) =>
      assert BoundWithin(scope[variable.index], bindings, reachable)
           && KeyLinkedAt(scope[variable.index], bindings, keys, definitions);
    case Ref(identity, arguments) =>
      FingerprintsAreKeys(arguments, scope, bindings, keys, definitions, 1);
      ResolvedRefsOfAll(arguments, scope, bindings, keys, definitions, reachable);
    case _ =>
  }

  lemma {:induction false} ResolvedRefsOfAll(ts: seq<DamlType>, scope: Scope, bindings: Bindings, keys: Keys,
      definitions: Definitions, reachable: set<Fingerprint>)
    requires ScopedAll(ts, scope, definitions) && KeyLinked(scope, bindings, keys, definitions)
    requires BindingsWithin(scope, bindings, reachable) && RefsOfAll(ts, keys) <= reachable
    ensures RefsOfAll(ResolveAll(ts, bindings), map[]) <= reachable
    decreases ts
  {
    if ts != [] {
      ResolvedRefs(ts[0], scope, bindings, keys, definitions, reachable);
      ResolvedRefsOfAll(ts[1..], scope, bindings, keys, definitions, reachable);
      assert ResolveAll(ts, bindings)[1..] == ResolveAll(ts[1..], bindings);
    }
  }

  lemma {:induction false} BindWithin(parameters: seq<VarKey>, types: seq<DamlType>, scope: Scope, bindings: Bindings,
      reachable: set<Fingerprint>)
    requires |parameters| == |types| && RefsOfAll(types, map[]) <= reachable
    requires BindingsWithin(scope, bindings, reachable)
    requires forall i <- scope.Keys :: scope[i].index == i
    ensures BindingsWithin(ScopeOf(parameters, scope), BindVariables(bindings, parameters, types), reachable)
    decreases parameters
  {
    if parameters != [] {
      var p := parameters[0];
      var scope', bindings' := scope[p.index := p], bindings[p := types[0]];
      forall i <- scope'.Keys ensures BoundWithin(scope'[i], bindings', reachable) {
        if i != p.index {
          assert BoundWithin(scope[i], bindings, reachable);
        }
      }
      BindWithin(parameters[1..], types[1..], scope', bindings', reachable);
    }
  }

  /** The references of a scoped type depend only on the keys of the variables in scope. */
  lemma {:induction false} OwnKeysRefs(t: DamlType, scope: Scope, bindings: Bindings, keys: Keys,
      definitions: Definitions)
    requires Scoped(t, scope, definitions, true) && KeyLinked(scope, bindings, keys, definitions)
    ensures AllRefs(t, KeysFor(bindings)) == AllRefs(t, keys)
    decreases t
  {
    match t
    case Optional(element) => OwnKeysRefs(element, scope, bindings, keys, definitions);
    case List(element) => OwnKeysRefs(element, scope, bindings, keys, definitions);
    case TextMap(value) => OwnKeysRefs(value, scope, bindings, keys, definitions);
    case GenMap(key, value) =>
      OwnKeysRefs(key, scope, bindings, keys, definitions);
      OwnKeysRefs(value, scope, bindings, keys, definitions);
    case Record(fields) => OwnKeysFieldRefs(fields, scope, bindings, keys, definitions);
    case Variant(constructors) => OwnKeysConstructorRefs(constructors, scope, bindings, keys, definitions);
    case Var(variable) => assert KeyLinkedAt(scope[variable.index], bindings, keys, definitions);
    case Ref(identity, arguments) => OwnKeysRefsOfAll(arguments, scope, bindings, keys, definitions);
    case _ =>
  }

  lemma {:induction false} OwnKeysRefsOfAll(ts: seq<DamlType>, scope: Scope, bindings: Bindings, keys: Keys,
      definitions: Definitions)
    requires ScopedAll(ts, scope, definitions) && KeyLinked(scope, bindings, keys, definitions)
    ensures RefsOfAll(ts, KeysFor(bindings)) == RefsOfAll(ts, keys)
    ensures KeysOf(ts, KeysFor(bindings)) == KeysOf(ts, keys)
    decreases ts
  {
    OwnKeysLinked(scope, bindings, keys, definitions);
    FingerprintsAreKeys(ts, scope, bindings, keys, definitions, 1);
    FingerprintsAreKeys(ts, scope, bindings, KeysFor(bindings), definitions, 1);
    if ts != [] {
      InlineWeaker(ts[0], scope, definitions);
      OwnKeysRefs(ts[0], scope, bindings, keys, definitions);
      OwnKeysRefsOfAll(ts[1..], scope, bindings, keys, definitions);
    }
  }

  lemma {:induction false} OwnKeysFieldRefs(fields: seq<Field>, scope: Scope, bindings: Bindings, keys: Keys,
      definitions: Definitions)
    requires ScopedFields(fields, scope, definitions) && KeyLinked(scope, bindings, keys, definitions)
    ensures FieldRefs(fields, KeysFor(bindings)) == FieldRefs(fields, keys)
    decreases fields
  {
    if fields != [] {
      OwnKeysRefs(fields[0].ty, scope, bindings, keys, definitions);
      OwnKeysFieldRefs(fields[1..], scope, bindings, keys, definitions);
    }
  }

  lemma {:induction false} OwnKeysConstructorRefs(constructors: seq<Constructor>, scope: Scope, bindings: Bindings,
      keys: Keys, definitions: Definitions)
    requires ScopedConstructors(constructors, scope, definitions) && KeyLinked(scope, bindings, keys, definitions)
    ensures ConstructorRefs(constructors, KeysFor(bindings)) == ConstructorRefs(constructors, keys)
    decreases constructors
  {
    if constructors != [] {
      OwnKeysRefs(constructors[0].payload, scope, bindings, keys, definitions);
      OwnKeysConstructorRefs(constructors[1..], scope, bindings, keys, definitions);
    }
  }

  // ----- emission confined to a set of references -----

  function Levels(depth: int): nat {
    if depth > 0 then depth else 0
  }

  /**
   * Emission without a stack bound whose finite searches may enter references of `allowed` only.
   * `open` says whether variables may occur: what a variable is bound to is closed.
   */
  ghost function EmissionSearch(t: DamlType, st: State, open: bool, allowed: set<Fingerprint>): Verdict
    decreases Levels(st.depth), open, t
  {
    var keys := KeysFor(st.bindings);
    if st.depth <= 0 then Search(t, keys, st.project, {}, allowed) else
    match t
    case List(element) => EmissionSearch(element, st.Descend(), open, allowed)
    case TextMap(value) => EmissionSearch(value, st.Descend(), open, allowed)
    case GenMap(key, value) =>
      var first := EmissionSearch(key, st.Descend(), open, allowed);
      if first.Found? then EmissionSearch(value, st.Descend(), open, allowed) else first
    case Record(fields) => EmissionFieldsSearch(fields, st.Descend(), open, allowed)
    case Variant(constructors) =>
      if constructors == [] then Nothing else EmissionSearch(constructors[0].payload, st.Descend(), open, allowed)
    case Var(variable) =>
      if open && variable in st.bindings then EmissionSearch(st.bindings[variable], st, false, allowed) else Nothing
    case Ref(identity, arguments) =>
      if !Expands(identity, arguments, st) then Search(t, keys, st.project, {}, allowed)
      else EmissionSearch(Entered(identity, st), Expanded(identity, arguments, st), true, allowed)
    case _ => Found
  }

  ghost function EmissionFieldsSearch(fields: seq<Field>, st: State, open: bool, allowed: set<Fingerprint>): Verdict
    decreases Levels(st.depth), open, fields
  {
    if fields == [] then Found
    else
      var first := EmissionSearch(fields[0].ty, st, open, allowed);
      if first.Found? then EmissionFieldsSearch(fields[1..], st, open, allowed) else first
  }

  /** A reference above the limit that is not being emitted already. */
  predicate Expands(identity: Identity, arguments: seq<DamlType>, st: State) {
    && st.depth > 1
    && FRef(identity, KeysOf(arguments, KeysFor(st.bindings))) !in st.active
    && identity in st.project.definitions
    && |arguments| == |st.project.definitions[identity].Parameters()|
  }

  function Expanded(identity: Identity, arguments: seq<DamlType>, st: State): State
    requires Expands(identity, arguments, st)
  {
    st.(depth := st.depth - 1,
        active := st.active + {FRef(identity, KeysOf(arguments, KeysFor(st.bindings)))},
        bindings := BindVariables(st.bindings, st.project.definitions[identity].Parameters(),
                                  ResolveAll(arguments, st.bindings)))
  }

  ghost predicate Accords<T>(verdict: Verdict, sample: Outcome<T>) {
    (verdict.Found? && sample.Value?) || (verdict.Nothing? && sample.Throws?)
  }

  /** Stack units: two for an allowed reference, two for a level of depth, one or two for variables. */
  predicate EnoughStack(fuel: nat, allowed: nat, depth: int, open: bool) {
    fuel >= 2 * allowed + 2 * Levels(depth) + if open then 2 else 1
  }

  /** Everything one emission step may assume: variables in scope stand for closed types. */
  ghost predicate Bound(scope: Scope, st: State, open: bool) {
    && WellFormed(st.project)
    && KeyLinked(scope, st.bindings, KeysFor(st.bindings), st.project.definitions)
    && (open || scope == map[])
  }

  /** Expanding a reference: the emitter takes the same step, into bindings of closed types. */
  lemma ExpandReference(identity: Identity, arguments: seq<DamlType>, scope: Scope, st: State, fuel: nat)
    requires st.depth > 0 && fuel > 0 && Bound(scope, st, true)
    requires Scoped(Ref(identity, arguments), scope, st.project.definitions, true)
    ensures Emit(Ref(identity, arguments), st, fuel) ==
            if Expands(identity, arguments, st) then
              Emit(Entered(identity, st), Expanded(identity, arguments, st), fuel - 1)
            else st.Finite(Ref(identity, arguments), fuel)
    ensures Expands(identity, arguments, st) ==>
              var body := ScopeOf(st.project.definitions[identity].Parameters());
              && Scoped(Entered(identity, st), body, st.project.definitions, true)
              && Bound(body, Expanded(identity, arguments, st), true)
  {
    var keys := KeysFor(st.bindings);
    EnterKeys(st.project, identity, arguments, scope, st.bindings, keys, fuel);
    EmitReferenceCases(identity, arguments, st, fuel);
    if Expands(identity, arguments, st) {
      assert Inside(identity, arguments, st, fuel) == Expanded(identity, arguments, st);
      var parameters := st.project.definitions[identity].Parameters();
      OwnKeysLinked(ScopeOf(parameters), Expanded(identity, arguments, st).bindings,
                    BindKeys(map[], parameters, KeysOf(arguments, keys)), st.project.definitions);
    }
  }

  lemma OwnKeysLinked(scope: Scope, bindings: Bindings, keys: Keys, definitions: Definitions)
    requires KeyLinked(scope, bindings, keys, definitions)
    ensures KeyLinked(scope, bindings, KeysFor(bindings), definitions)
  {
    forall i <- scope.Keys
      ensures KeyLinkedAt(scope[i], bindings, KeysFor(bindings), definitions)
    {
      assert KeyLinkedAt(scope[i], bindings, keys, definitions);
    }
  }

  // ----- confined emission is the emitter's -----

  lemma {:induction false} ConfinedEnds(t: DamlType, scope: Scope, st: State, fuel: nat, allowed: set<Fingerprint>,
      open: bool)
    requires Bound(scope, st, open) && Scoped(t, scope, st.project.definitions, true)
    requires EnoughStack(fuel, |allowed|, st.depth, open)
    requires !EmissionSearch(t, st, open, allowed).Leaves?
    ensures Accords(EmissionSearch(t, st, open, allowed), Emit(t, st, fuel))
    decreases fuel, t
  {
    if st.depth <= 0 {
      ConfinedBoundaryEnds(t, scope, st, fuel, allowed, open);
    } else {
      match t
      case List(element) => ConfinedEnds(element, scope, st.Descend(), fuel, allowed, open);
      case TextMap(value) => ConfinedEnds(value, scope, st.Descend(), fuel, allowed, open);
      case GenMap(key, value) =>
        ConfinedEnds(key, scope, st.Descend(), fuel, allowed, open);
        if EmissionSearch(key, st.Descend(), open, allowed).Found? {
          ConfinedEnds(value, scope, st.Descend(), fuel, allowed, open);
        }
      case Record(fields) => ConfinedFieldsEnd(fields, scope, st.Descend(), fuel, allowed, open);
      case Variant(constructors) =>
        if constructors != [] {
          ConfinedEnds(constructors[0].payload, scope, st.Descend(), fuel, allowed, open);
        }
      case Var(variable) =>
        assert KeyLinkedAt(scope[variable.index], st.bindings, KeysFor(st.bindings), st.project.definitions);
        InlineWeaker(st.bindings[variable], map[], st.project.definitions);
        ConfinedEnds(st.bindings[variable], map[], st, fuel - 1, allowed, false);
      case Ref(identity, arguments) => ConfinedReferenceEnds(identity, arguments, scope, st, fuel, allowed, open);
      case _ =>
    }
  }

  lemma {:induction false} ConfinedReferenceEnds(identity: Identity, arguments: seq<DamlType>, scope: Scope,
      st: State, fuel: nat, allowed: set<Fingerprint>, open: bool)
    requires st.depth > 0 && Bound(scope, st, open)
    requires Scoped(Ref(identity, arguments), scope, st.project.definitions, true)
    requires EnoughStack(fuel, |allowed|, st.depth, open)
    requires !EmissionSearch(Ref(identity, arguments), st, open, allowed).Leaves?
    ensures Accords(EmissionSearch(Ref(identity, arguments), st, open, allowed),
                    Emit(Ref(identity, arguments), st, fuel))
    decreases fuel, Ref(identity, arguments), 0
  {
    ExpandReference(identity, arguments, scope, st, fuel);
    if Expands(identity, arguments, st) {
      ConfinedEnds(Entered(identity, st), ScopeOf(st.project.definitions[identity].Parameters()),
                   Expanded(identity, arguments, st), fuel - 1, allowed, true);
    } else {
      ConfinedBoundaryEnds(Ref(identity, arguments), scope, st, fuel, allowed, open);
    }
  }

  lemma ConfinedBoundaryEnds(t: DamlType, scope: Scope, st: State, fuel: nat, allowed: set<Fingerprint>, open: bool)
    requires Bound(scope, st, open) && Scoped(t, scope, st.project.definitions, true)
    requires EnoughStack(fuel, |allowed|, st.depth, open)
    requires !Search(t, KeysFor(st.bindings), st.project, {}, allowed).Leaves?
    ensures Accords(Search(t, KeysFor(st.bindings), st.project, {}, allowed), st.Finite(t, fuel))
  {
    assert allowed - {} == allowed;
    StayingEnds(t, scope, st.bindings, KeysFor(st.bindings), st.representation, st.project, {}, fuel, allowed,
                |allowed|, open);
  }

  lemma {:induction false} ConfinedFieldsEnd(fields: seq<Field>, scope: Scope, st: State, fuel: nat,
      allowed: set<Fingerprint>, open: bool)
    requires Bound(scope, st, open) && ScopedFields(fields, scope, st.project.definitions)
    requires EnoughStack(fuel, |allowed|, st.depth, open)
    requires !EmissionFieldsSearch(fields, st, open, allowed).Leaves?
    ensures Accords(EmissionFieldsSearch(fields, st, open, allowed), EmitFields(fields, st, fuel))
    decreases fuel, fields
  {
    if fields != [] {
      ConfinedEnds(fields[0].ty, scope, st, fuel, allowed, open);
      if EmissionSearch(fields[0].ty, st, open, allowed).Found? {
        ConfinedFieldsEnd(fields[1..], scope, st, fuel, allowed, open);
      }
    }
  }

  // ----- emission that ends is confined -----

  lemma {:induction false} EmissionGrows(t: DamlType, st: State, open: bool, allowed: set<Fingerprint>,
      more: set<Fingerprint>)
    requires allowed <= more && !EmissionSearch(t, st, open, allowed).Leaves?
    ensures EmissionSearch(t, st, open, more) == EmissionSearch(t, st, open, allowed)
    decreases Levels(st.depth), open, t
  {
    var keys := KeysFor(st.bindings);
    if st.depth <= 0 {
      SearchGrows(t, keys, st.project, {}, allowed, more);
    } else {
      match t
      case List(element) => EmissionGrows(element, st.Descend(), open, allowed, more);
      case TextMap(value) => EmissionGrows(value, st.Descend(), open, allowed, more);
      case GenMap(key, value) =>
        EmissionGrows(key, st.Descend(), open, allowed, more);
        if EmissionSearch(key, st.Descend(), open, allowed).Found? {
          EmissionGrows(value, st.Descend(), open, allowed, more);
        }
      case Record(fields) => EmissionFieldsGrow(fields, st.Descend(), open, allowed, more);
      case Variant(constructors) =>
        if constructors != [] {
          EmissionGrows(constructors[0].payload, st.Descend(), open, allowed, more);
        }
      case Var(variable) =>
        if open && variable in st.bindings {
          EmissionGrows(st.bindings[variable], st, false, allowed, more);
        }
      case Ref(identity, arguments) =>
        if Expands(identity, arguments, st) {
          EmissionGrows(Entered(identity, st), Expanded(identity, arguments, st), true, allowed, more);
        } else {
          SearchGrows(t, keys, st.project, {}, allowed, more);
        }
      case _ =>
    }
  }

  lemma {:induction false} EmissionFieldsGrow(fields: seq<Field>, st: State, open: bool, allowed: set<Fingerprint>,
      more: set<Fingerprint>)
    requires allowed <= more && !EmissionFieldsSearch(fields, st, open, allowed).Leaves?
    ensures EmissionFieldsSearch(fields, st, open, more) == EmissionFieldsSearch(fields, st, open, allowed)
    decreases Levels(st.depth), open, fields
  {
    if fields != [] {
      EmissionGrows(fields[0].ty, st, open, allowed, more);
      if EmissionSearch(fields[0].ty, st, open, allowed).Found? {
        EmissionFieldsGrow(fields[1..], st, open, allowed, more);
      }
    }
  }

  lemma {:induction false} EndedIsConfined(t: DamlType, scope: Scope, st: State, fuel: nat, open: bool)
      returns (allowed: set<Fingerprint>)
    requires Bound(scope, st, open) && Scoped(t, scope, st.project.definitions, true)
    requires !Emit(t, st, fuel).Diverges?
    ensures Accords(EmissionSearch(t, st, open, allowed), Emit(t, st, fuel))
    decreases fuel, t
  {
    allowed := {};
    if st.depth <= 0 {
      allowed := EndedBoundaryStays(t, scope, st, fuel);
    } else {
      match t
      case List(element) => allowed := EndedIsConfined(element, scope, st.Descend(), fuel, open);
      case TextMap(value) => allowed := EndedIsConfined(value, scope, st.Descend(), fuel, open);
      case GenMap(key, value) =>
        var first := EndedIsConfined(key, scope, st.Descend(), fuel, open);
        allowed := first;
        if EmissionSearch(key, st.Descend(), open, first).Found? {
          var rest := EndedIsConfined(value, scope, st.Descend(), fuel, open);
          allowed := first + rest;
          EmissionGrows(key, st.Descend(), open, first, allowed);
          EmissionGrows(value, st.Descend(), open, rest, allowed);
        }
      case Record(fields) => allowed := EndedFieldsAreConfined(fields, scope, st.Descend(), fuel, open);
      case Variant(constructors) =>
        if constructors != [] {
          allowed := EndedIsConfined(constructors[0].payload, scope, st.Descend(), fuel, open);
        }
      case Var(variable) =>
        assert KeyLinkedAt(scope[variable.index], st.bindings, KeysFor(st.bindings), st.project.definitions);
        InlineWeaker(st.bindings[variable], map[], st.project.definitions);
        allowed := EndedIsConfined(st.bindings[variable], map[], st, fuel - 1, false);
      case Ref(identity, arguments) =>
        allowed := EndedReferenceIsConfined(identity, arguments, scope, st, fuel, open);
      case _ =>
    }
  }

  lemma {:induction false} EndedReferenceIsConfined(identity: Identity, arguments: seq<DamlType>, scope: Scope,
      st: State, fuel: nat, open: bool) returns (allowed: set<Fingerprint>)
    requires st.depth > 0 && Bound(scope, st, open)
    requires Scoped(Ref(identity, arguments), scope, st.project.definitions, true)
    requires !Emit(Ref(identity, arguments), st, fuel).Diverges?
    ensures Accords(EmissionSearch(Ref(identity, arguments), st, open, allowed),
                    Emit(Ref(identity, arguments), st, fuel))
    decreases fuel, Ref(identity, arguments), 0
  {
    ExpandReference(identity, arguments, scope, st, fuel);
    if Expands(identity, arguments, st) {
      allowed := EndedIsConfined(Entered(identity, st), ScopeOf(st.project.definitions[identity].Parameters()),
                                 Expanded(identity, arguments, st), fuel - 1, true);
    } else {
      allowed := EndedBoundaryStays(Ref(identity, arguments), scope, st, fuel);
    }
  }

  lemma EndedBoundaryStays(t: DamlType, scope: Scope, st: State, fuel: nat) returns (allowed: set<Fingerprint>)
    requires Bound(scope, st, true) && Scoped(t, scope, st.project.definitions, true)
    requires !st.Finite(t, fuel).Diverges?
    ensures Accords(Search(t, KeysFor(st.bindings), st.project, {}, allowed), st.Finite(t, fuel))
  {
    allowed := EndedStays(t, scope, st.bindings, KeysFor(st.bindings), st.representation, st.project, {}, fuel);
  }

  lemma {:induction false} EndedFieldsAreConfined(fields: seq<Field>, scope: Scope, st: State, fuel: nat, open: bool)
      returns (allowed: set<Fingerprint>)
    requires Bound(scope, st, open) && ScopedFields(fields, scope, st.project.definitions)
    requires !EmitFields(fields, st, fuel).Diverges?
    ensures Accords(EmissionFieldsSearch(fields, st, open, allowed), EmitFields(fields, st, fuel))
    decreases fuel, fields
  {
    allowed := {};
    if fields != [] {
      var first := EndedIsConfined(fields[0].ty, scope, st, fuel, open);
      allowed := first;
      if EmissionSearch(fields[0].ty, st, open, first).Found? {
        var rest := EndedFieldsAreConfined(fields[1..], scope, st, fuel, open);
        allowed := first + rest;
        EmissionGrows(fields[0].ty, st, open, first, allowed);
        EmissionFieldsGrow(fields[1..], st, open, rest, allowed);
      }
    }
  }

  ghost predicate EmissionEndsAt(t: DamlType, st: State, fuel: nat) {
    !Emit(t, st, fuel).Diverges?
  }

  ghost predicate EmissionStaysIn(t: DamlType, st: State, allowed: set<Fingerprint>) {
    !EmissionSearch(t, st, true, allowed).Leaves?
  }

  /**
   * Emission ends with some stack if and only if the finite searches it starts all stay in some finite
   * set of references. Its outcome is then the verdict of the confined search, with a stack linear
   * in that set and the depth.
   */
  lemma EmissionEndsExactly(t: DamlType, scope: Scope, st: State)
    requires Bound(scope, st, true) && Scoped(t, scope, st.project.definitions, true)
    ensures (exists fuel: nat :: EmissionEndsAt(t, st, fuel)) <==> (exists allowed :: EmissionStaysIn(t, st, allowed))
    ensures forall allowed, fuel: nat ::
              EmissionStaysIn(t, st, allowed) && EnoughStack(fuel, |allowed|, st.depth, true) ==>
                EmissionEndsAt(t, st, fuel) && Accords(EmissionSearch(t, st, true, allowed), Emit(t, st, fuel))
  {
    forall allowed, fuel: nat | EmissionStaysIn(t, st, allowed) && EnoughStack(fuel, |allowed|, st.depth, true)
      ensures EmissionEndsAt(t, st, fuel) && Accords(EmissionSearch(t, st, true, allowed), Emit(t, st, fuel))
    {
      ConfinedEnds(t, scope, st, fuel, allowed, true);
    }
    forall allowed | EmissionStaysIn(t, st, allowed)
      ensures exists fuel: nat :: EmissionEndsAt(t, st, fuel)
    {
      assert EmissionEndsAt(t, st, 2 * |allowed| + 2 * Levels(st.depth) + 2);
    }
    forall fuel: nat | EmissionEndsAt(t, st, fuel)
      ensures exists allowed :: EmissionStaysIn(t, st, allowed)
    {
      var allowed := EndedIsConfined(t, scope, st, fuel, true);
      assert EmissionStaysIn(t, st, allowed);
    }
  }

  // ----- finitely many reachable references -----

  /** With every reachable reference allowed, no search of the emission leaves the set. */
  lemma {:induction false} SaturatedStays(t: DamlType, scope: Scope, st: State, open: bool, reachable: set<Fingerprint>)
    requires Bound(scope, st, open) && Scoped(t, scope, st.project.definitions, true)
    requires Saturated(reachable, st.project) && BindingsWithin(scope, st.bindings, reachable)
    requires AllRefs(t, KeysFor(st.bindings)) <= reachable
    ensures !EmissionSearch(t, st, open, reachable).Leaves?
    decreases Levels(st.depth), open, t
  {
    var keys := KeysFor(st.bindings);
    VisibleRefs(t, keys);
    SaturatedIsRegular(reachable, st.project);
    RegularStays(t, keys, st.project, {}, reachable);
    if st.depth > 0 {
      match t
      case List(element) => SaturatedStays(element, scope, st.Descend(), open, reachable);
      case TextMap(value) => SaturatedStays(value, scope, st.Descend(), open, reachable);
      case GenMap(key, value) =>
        SaturatedStays(key, scope, st.Descend(), open, reachable);
        SaturatedStays(value, scope, st.Descend(), open, reachable);
      case Record(fields) => SaturatedFieldsStay(fields, scope, st.Descend(), open, reachable);
      case Variant(constructors) =>
        if constructors != [] {
          SaturatedStays(constructors[0].payload, scope, st.Descend(), open, reachable);
        }
      case Var(variable) =>
        if open {
          assert KeyLinkedAt(scope[variable.index], st.bindings, keys, st.project.definitions);
          assert BoundWithin(scope[variable.index], st.bindings, reachable);
          InlineWeaker(st.bindings[variable], map[], st.project.definitions);
          OwnKeysRefs(st.bindings[variable], map[], st.bindings, map[], st.project.definitions);
          SaturatedStays(st.bindings[variable], map[], st, false, reachable);
        }
      case Ref(identity, arguments) =>
        if Expands(identity, arguments, st) {
          SaturatedReferenceStays(identity, arguments, scope, st, reachable);
        }
      case _ =>
    }
  }

  lemma {:induction false} SaturatedReferenceStays(identity: Identity, arguments: seq<DamlType>, scope: Scope,
      st: State, reachable: set<Fingerprint>)
    requires Bound(scope, st, true) && Scoped(Ref(identity, arguments), scope, st.project.definitions, true)
    requires Saturated(reachable, st.project) && BindingsWithin(scope, st.bindings, reachable)
    requires AllRefs(Ref(identity, arguments), KeysFor(st.bindings)) <= reachable
    requires Expands(identity, arguments, st)
    ensures !EmissionSearch(Entered(identity, st), Expanded(identity, arguments, st), true, reachable).Leaves?
    decreases Levels(st.depth), false, Ref(identity, arguments), 0
  {
    var keys := KeysFor(st.bindings);
    var parameters := st.project.definitions[identity].Parameters();
    var inside := Expanded(identity, arguments, st);
    ExpandReference(identity, arguments, scope, st, 1);
    EnterKeys(st.project, identity, arguments, scope, st.bindings, keys, 1);
    assert SaturatedKey(FRef(identity, KeysOf(arguments, keys)), reachable, st.project);
    ResolvedRefsOfAll(arguments, scope, st.bindings, keys, st.project.definitions, reachable);
    BindWithin(parameters, ResolveAll(arguments, st.bindings), map[], st.bindings, reachable);
    OwnKeysRefs(Entered(identity, st), ScopeOf(parameters), inside.bindings,
                BindKeys(map[], parameters, KeysOf(arguments, keys)), st.project.definitions);
    SaturatedStays(Entered(identity, st), ScopeOf(parameters), inside, true, reachable);
  }

  lemma {:induction false} SaturatedFieldsStay(fields: seq<Field>, scope: Scope, st: State, open: bool,
      reachable: set<Fingerprint>)
    requires Bound(scope, st, open) && ScopedFields(fields, scope, st.project.definitions)
    requires Saturated(reachable, st.project) && BindingsWithin(scope, st.bindings, reachable)
    requires FieldRefs(fields, KeysFor(st.bindings)) <= reachable
    ensures !EmissionFieldsSearch(fields, st, open, reachable).Leaves?
    decreases Levels(st.depth), open, fields
  {
    if fields != [] {
      SaturatedStays(fields[0].ty, scope, st, open, reachable);
      SaturatedFieldsStay(fields[1..], scope, st, open, reachable);
    }
  }

  /**
   * A closed type with finitely many reachable references always gets an answer: a sample exactly
   * when what the emitter asks for at the depth limit is inhabited, and a thrown error otherwise.
   */
  lemma EmissionDecides(t: DamlType, representation: Representation, project: Project, depth: int, fuel: nat,
      reachable: set<Fingerprint>)
    requires WellFormed(project) && Saturated(reachable, project)
    requires Scoped(t, map[], project.definitions, true) && AllRefs(t, map[]) <= reachable
    requires EnoughStack(fuel, |reachable|, depth, false)
    ensures var st := State(representation, project, depth, map[], {});
            var sample := EmitOrThrow(t, representation, project, depth, map[], fuel);
            && (sample.Value? <==> FrontierInhabited(t, map[], st, fuel))
            && (sample.Throws? <==> !FrontierInhabited(t, map[], st, fuel))
  {
    var st := State(representation, project, depth, map[], {});
    assert KeysFor(st.bindings) == map[];
    SaturatedStays(t, map[], st, false, reachable);
    ConfinedEnds(t, map[], st, fuel, reachable, false);
    EmitSucceeds(t, map[], map[], st, fuel);
  }

  // ----- monomorphic projects -----

  lemma {:induction false} MonomorphicRefs(t: DamlType, keys: Keys, project: Project)
    requires Monomorphic(project) && Scoped(t, map[], project.definitions, true)
    ensures AllRefs(t, keys) <= MonomorphicKeys(project)
    decreases t
  {
    match t
    case Optional(element) => MonomorphicRefs(element, keys, project);
    case List(element) => MonomorphicRefs(element, keys, project);
    case TextMap(value) => MonomorphicRefs(value, keys, project);
    case GenMap(key, value) =>
      MonomorphicRefs(key, keys, project);
      MonomorphicRefs(value, keys, project);
    case Record(fields) => MonomorphicFieldRefs(fields, keys, project);
    case Variant(constructors) => MonomorphicConstructorRefs(constructors, keys, project);
    case Ref(identity, arguments) => assert FRef(identity, []) in MonomorphicKeys(project);
    case _ =>
  }

  lemma {:induction false} MonomorphicFieldRefs(fields: seq<Field>, keys: Keys, project: Project)
    requires Monomorphic(project) && ScopedFields(fields, map[], project.definitions)
    ensures FieldRefs(fields, keys) <= MonomorphicKeys(project)
    decreases fields
  {
    if fields != [] {
      MonomorphicRefs(fields[0].ty, keys, project);
      MonomorphicFieldRefs(fields[1..], keys, project);
    }
  }

  lemma {:induction false} MonomorphicConstructorRefs(constructors: seq<Constructor>, keys: Keys, project: Project)
    requires Monomorphic(project) && ScopedConstructors(constructors, map[], project.definitions)
    ensures ConstructorRefs(constructors, keys) <= MonomorphicKeys(project)
    decreases constructors
  {
    if constructors != [] {
      MonomorphicRefs(constructors[0].payload, keys, project);
      MonomorphicConstructorRefs(constructors[1..], keys, project);
    }
  }

  lemma MonomorphicIsSaturated(project: Project)
    requires WellFormed(project) && Monomorphic(project)
    ensures Saturated(MonomorphicKeys(project), project) && |MonomorphicKeys(project)| == |project.definitions|
  {
    MonomorphicIsRegular(project);
    forall key | key in MonomorphicKeys(project)
      ensures SaturatedKey(key, MonomorphicKeys(project), project)
    {
      BodiesAgree(project, key.identity);
      assert ScopedDefinition(key.identity, project);
      MonomorphicRefs(BodyOf(key.identity, project), map[], project);
    }
  }

  /** Without generic definitions, emission of every closed type ends with a sample or an error. */
  lemma MonomorphicEmissionDecides(t: DamlType, representation: Representation, project: Project, depth: int, fuel: nat)
    requires WellFormed(project) && Monomorphic(project) && Scoped(t, map[], project.definitions, true)
    requires EnoughStack(fuel, |project.definitions|, depth, false)
    ensures var sample := EmitOrThrow(t, representation, project, depth, map[], fuel);
            && !sample.Diverges?
            && (sample.Value? <==> FrontierInhabited(t, map[], State(representation, project, depth, map[], {}), fuel))
  {
    MonomorphicIsSaturated(project);
    MonomorphicRefs(t, map[], project);
    EmissionDecides(t, representation, project, depth, fuel, MonomorphicKeys(project));
  }
}
