/**
 * The sample search decides inhabitation: it succeeds if and only if the decoder accepts some
 * JSON value for the type.
 */
module Inhabitation {
  import opened Wrappers
  import opened JsValues
  import opened DamlTypes
  import opened DescriptorCompiler
  import opened LedgerValues
  import opened ValueConverter
  import opened SampleEmitter
  import opened ScopedTypes
  import opened FiniteSamples
  import opened FiniteTermination
  import opened SampleSoundness

  ghost predicate Inhabited(d: Descriptor, project: Project) {
    exists js :: DecodeJson(js, d, project).Ok?
  }

  function Max(m: nat, n: nat): nat {
    if m < n then n else m
  }

  // ----- a decoded value is a derivation -----

  /** A type's variables under the three readings used here: types, descriptors and keys. */
  ghost predicate AllLinked(scope: Scope, bindings: Bindings, substitution: map<int, Descriptor>, keys: Keys,
      definitions: Definitions) {
    Linked(scope, bindings, substitution, definitions) && KeyLinked(scope, bindings, keys, definitions)
  }

  lemma {:induction false} DecodedIsGrounded(js: Js, t: DamlType, scope: Scope, bindings: Bindings,
      substitution: map<int, Descriptor>, keys: Keys, project: Project)
      returns (n: nat)
    requires WellFormed(project)
    requires Scoped(t, scope, project.definitions, true)
    requires AllLinked(scope, bindings, substitution, keys, project.definitions)
    requires Compile(t, substitution).Ok? && DecodeJson(js, Compile(t, substitution).value, project).Ok?
    ensures Grounded(t, keys, project, n)
    decreases js, Rank(Compile(t, substitution).value), if t.Var? then 2 else 1, 0
  {
    n := 0;
    match t
    case Record(fields) =>
      CompileResolvedFields(fields, scope, bindings, substitution, project.definitions);
      if js.Array? {
        n := PositionalIsGrounded(js.elems, fields, scope, bindings, substitution, keys, project);
      } else if js.Object? {
        n := LabelledIsGrounded(js, fields, scope, bindings, substitution, keys, project);
      } else {
        assert fields == [];
      }
    case Variant(constructors) =>
      n := VariantIsGrounded(js, constructors, scope, bindings, substitution, keys, project);
    case Var(variable) =>
      assert LinkedAt(variable.index, scope[variable.index], bindings, substitution, project.definitions);
      assert KeyLinkedAt(scope[variable.index], bindings, keys, project.definitions);
      InlineWeaker(bindings[variable], map[], project.definitions);
      n := DecodedIsGrounded(js, bindings[variable], map[], bindings, map[], keys, project);
      ClosedGrounded(bindings[variable], keys, project, n);
    case Ref(identity, arguments) =>
      n := ReferenceIsGrounded(js, identity, arguments, scope, bindings, substitution, keys, project);
    case _ =>
  }

  lemma {:induction false} ReferenceIsGrounded(js: Js, identity: Identity, arguments: seq<DamlType>, scope: Scope,
      bindings: Bindings, substitution: map<int, Descriptor>, keys: Keys, project: Project)
      returns (n: nat)
    requires WellFormed(project)
    requires Scoped(Ref(identity, arguments), scope, project.definitions, true)
    requires AllLinked(scope, bindings, substitution, keys, project.definitions)
    requires CompileAll(arguments, substitution).Ok?
    requires DecodeJson(js, DRef(identity, CompileAll(arguments, substitution).value), project).Ok?
    ensures Grounded(Ref(identity, arguments), keys, project, n)
    decreases js, Rank(DRef(identity, CompileAll(arguments, substitution).value)), 0, 0
  {
    EnterDefinition(project, identity, arguments, scope, bindings, substitution);
    EnterKeys(project, identity, arguments, scope, bindings, keys, 1);
    var parameters := project.definitions[identity].Parameters();
    n := DecodedIsGrounded(js, BodyOf(identity, project), ScopeOf(parameters),
                           BindVariables(bindings, parameters, ResolveAll(arguments, bindings)),
                           BindIndices(map[], parameters, CompileAll(arguments, substitution).value),
                           BindKeys(map[], parameters, KeysOf(arguments, keys)), project);
    n := n + 1;
  }

  lemma {:induction false} VariantIsGrounded(js: Js, constructors: seq<Constructor>, scope: Scope, bindings: Bindings,
      substitution: map<int, Descriptor>, keys: Keys, project: Project)
      returns (n: nat)
    requires WellFormed(project)
    requires Scoped(Variant(constructors), scope, project.definitions, true)
    requires AllLinked(scope, bindings, substitution, keys, project.definitions)
    requires CompileConstructors(constructors, substitution).Ok?
    requires DecodeJson(js, DVariant(CompileConstructors(constructors, substitution).value), project).Ok?
    ensures Grounded(Variant(constructors), keys, project, n)
    decreases js, 0, 0, 0
  {
    var ds := CompileConstructors(constructors, substitution).value;
    var c := FindConstructor(ds, js.members[Find(js.members, "tag")].value.s);
    ConstructorsKept(constructors, substitution, c);
    ScopedConstructorAt(constructors, scope, project.definitions, c);
    n := DecodedIsGrounded(js.members[Find(js.members, "value")].value, constructors[c].payload, scope, bindings,
                           substitution, keys, project);
    OneGrounded(constructors, c, keys, project, n);
  }

  lemma {:induction false} PositionalIsGrounded(elems: seq<Js>, fields: seq<Field>, scope: Scope, bindings: Bindings,
      substitution: map<int, Descriptor>, keys: Keys, project: Project)
      returns (n: nat)
    requires WellFormed(project) && |elems| == |fields|
    requires ScopedFields(fields, scope, project.definitions)
    requires AllLinked(scope, bindings, substitution, keys, project.definitions)
    requires CompileFields(fields, substitution).Ok?
    requires DecodePositional(elems, CompileFields(fields, substitution).value, project).Ok?
    ensures GroundedFields(fields, keys, project, n)
    decreases elems, 0, 0, |fields|
  {
    if fields == [] {
      n := 0;
    } else {
      var ds := CompileFields(fields, substitution).value;
      assert ds[1..] == CompileFields(fields[1..], substitution).value;
      var first := DecodedIsGrounded(elems[0], fields[0].ty, scope, bindings, substitution, keys, project);
      var rest := PositionalIsGrounded(elems[1..], fields[1..], scope, bindings, substitution, keys, project);
      n := Max(first, rest);
      GroundedHigher(fields[0].ty, keys, project, first, n);
      FieldsHigher(fields[1..], keys, project, rest, n);
    }
  }

  lemma {:induction false} LabelledIsGrounded(js: Js, fields: seq<Field>, scope: Scope, bindings: Bindings,
      substitution: map<int, Descriptor>, keys: Keys, project: Project)
      returns (n: nat)
    requires WellFormed(project) && js.Object?
    requires ScopedFields(fields, scope, project.definitions)
    requires AllLinked(scope, bindings, substitution, keys, project.definitions)
    requires CompileFields(fields, substitution).Ok?
    requires DecodeLabelled(js, CompileFields(fields, substitution).value, project).Ok?
    ensures GroundedFields(fields, keys, project, n)
    decreases js, 0, 0, |fields|
  {
    if fields == [] {
      n := 0;
    } else {
      var ds := CompileFields(fields, substitution).value;
      assert ds[1..] == CompileFields(fields[1..], substitution).value;
      var i := Find(js.members, fields[0].damlLabel);
      var first := DecodedIsGrounded(js.members[i].value, fields[0].ty, scope, bindings, substitution, keys, project);
      var rest := LabelledIsGrounded(js, fields[1..], scope, bindings, substitution, keys, project);
      n := Max(first, rest);
      GroundedHigher(fields[0].ty, keys, project, first, n);
      FieldsHigher(fields[1..], keys, project, rest, n);
    }
  }

  lemma {:induction false} ScopedConstructorAt(constructors: seq<Constructor>, scope: Scope, definitions: Definitions,
      i: nat)
    requires ScopedConstructors(constructors, scope, definitions) && i < |constructors|
    ensures Scoped(constructors[i].payload, scope, definitions, true)
    decreases constructors
  {
    if i > 0 {
      ScopedConstructorAt(constructors[1..], scope, definitions, i - 1);
    }
  }

  lemma {:induction false} OneGrounded(constructors: seq<Constructor>, i: nat, keys: Keys, project: Project, n: nat)
    requires i < |constructors| && Grounded(constructors[i].payload, keys, project, n)
    ensures SomeGrounded(constructors, keys, project, n)
    decreases constructors
  {
    if i > 0 {
      OneGrounded(constructors[1..], i - 1, keys, project, n);
    }
  }

  // ----- exactness -----

  function KeysFor(bindings: Bindings): Keys {
    map v <- bindings.Keys :: KeyOf(bindings[v], map[])
  }

  lemma KeysForLinked(scope: Scope, bindings: Bindings, substitution: map<int, Descriptor>, definitions: Definitions)
    requires Linked(scope, bindings, substitution, definitions)
    ensures KeyLinked(scope, bindings, KeysFor(bindings), definitions)
  {
    forall i <- scope.Keys
      ensures KeyLinkedAt(scope[i], bindings, KeysFor(bindings), definitions)
    {
      assert LinkedAt(i, scope[i], bindings, substitution, definitions);
    }
  }

  /** Unless the search runs forever, it returns a sample if and only if some JSON value decodes as the type. */
  lemma FiniteIsExact(t: DamlType, scope: Scope, bindings: Bindings, substitution: map<int, Descriptor>,
      representation: Representation, project: Project, fuel: nat)
    requires WellFormed(project)
    requires Scoped(t, scope, project.definitions, true) && Linked(scope, bindings, substitution, project.definitions)
    ensures Compile(t, substitution).Ok?
    ensures var sample := EmitFinite(t, representation, project, bindings, {}, fuel);
            && !sample.Throws?
            && (sample.Value? ==> Inhabited(Compile(t, substitution).value, project))
            && (sample.Missing? ==> !Inhabited(Compile(t, substitution).value, project))
  {
    FiniteTracks(t, scope, bindings, substitution, project, {}, fuel);
    var d := Compile(t, substitution).value;
    var sample := EmitFinite(t, representation, project, bindings, {}, fuel);
    var ledger := EmitFinite(t, Ledger, project, bindings, {}, fuel);
    KeysForLinked(scope, bindings, substitution, project.definitions);
    FiniteNeverThrows(t, scope, bindings, KeysFor(bindings), representation, project, {}, fuel);
    if ledger.Value? {
      assert DecodeJson(ledger.value, d, project).Ok?;
    }
    if Inhabited(d, project) {
      var js :| DecodeJson(js, d, project).Ok?;
      var n := DecodedIsGrounded(js, t, scope, bindings, substitution, KeysFor(bindings), project);
      FiniteFinds(t, scope, bindings, KeysFor(bindings), representation, project, {}, fuel, n);
    }
  }

  // ----- decision -----

  /** A search that stays in a finite set of references decides inhabitation, by its verdict and by its sample. */
  lemma StayingDecides(t: DamlType, representation: Representation, project: Project, fuel: nat,
      allowed: set<Fingerprint>)
    requires WellFormed(project) && Scoped(t, map[], project.definitions, true)
    requires StaysIn(t, project, allowed) && fuel >= 2 * |allowed| + 1
    ensures Compile(t, map[]).Ok?
    ensures var inhabited := Inhabited(Compile(t, map[]).value, project);
            && (EmitFinite(t, representation, project, map[], {}, fuel).Value? <==> inhabited)
            && (Search(t, map[], project, {}, allowed).Found? <==> inhabited)
  {
    StackSuffices(t, representation, project, allowed, fuel);
    FiniteIsExact(t, map[], map[], map[], representation, project, fuel);
  }

  /** On regular types the search is a decision procedure for inhabitation. */
  lemma FiniteDecides(t: DamlType, representation: Representation, project: Project, fuel: nat,
      reachable: set<Fingerprint>)
    requires WellFormed(project) && Regular(reachable, project)
    requires Scoped(t, map[], project.definitions, true) && Visible(t, map[]) <= reachable
    requires fuel >= 2 * |reachable| + 1
    ensures Compile(t, map[]).Ok?
    ensures EmitFinite(t, representation, project, map[], {}, fuel).Value?
       <==> Inhabited(Compile(t, map[]).value, project)
  {
    RegularStays(t, map[], project, {}, reachable);
    StayingDecides(t, representation, project, fuel, reachable);
  }

  // ----- monomorphic projects -----

  ghost predicate Monomorphic(project: Project) {
    forall id <- project.definitions.Keys :: project.definitions[id].Parameters() == []
  }

  function MonomorphicKeys(project: Project): set<Fingerprint> {
    set id <- project.definitions.Keys :: FRef(id, [])
  }

  lemma {:induction false} MonomorphicVisible(t: DamlType, scope: Scope, keys: Keys, project: Project)
    requires Monomorphic(project) && scope == map[] && Scoped(t, scope, project.definitions, true)
    ensures Visible(t, keys) <= MonomorphicKeys(project)
    decreases t
  {
    match t
    case Record(fields) => MonomorphicFields(fields, scope, keys, project);
    case Variant(constructors) => MonomorphicConstructors(constructors, scope, keys, project);
    case Ref(identity, arguments) => assert FRef(identity, []) in MonomorphicKeys(project);
    case _ =>
  }

  lemma {:induction false} MonomorphicFields(fields: seq<Field>, scope: Scope, keys: Keys, project: Project)
    requires Monomorphic(project) && scope == map[] && ScopedFields(fields, scope, project.definitions)
    ensures VisibleFields(fields, keys) <= MonomorphicKeys(project)
    decreases fields
  {
    if fields != [] {
      MonomorphicVisible(fields[0].ty, scope, keys, project);
      MonomorphicFields(fields[1..], scope, keys, project);
    }
  }

  lemma {:induction false} MonomorphicConstructors(constructors: seq<Constructor>, scope: Scope, keys: Keys,
      project: Project)
    requires Monomorphic(project) && scope == map[] && ScopedConstructors(constructors, scope, project.definitions)
    ensures VisibleConstructors(constructors, keys) <= MonomorphicKeys(project)
    decreases constructors
  {
    if constructors != [] {
      MonomorphicVisible(constructors[0].payload, scope, keys, project);
      MonomorphicConstructors(constructors[1..], scope, keys, project);
    }
  }

  lemma {:induction false} KeyCount(ids: set<Identity>)
    ensures |set id <- ids :: FRef(id, [])| == |ids|
  {
    if ids != {} {
      var id :| id in ids;
      KeyCount(ids - {id});
      assert (set i <- ids :: FRef(i, [])) == (set i <- ids - {id} :: FRef(i, [])) + {FRef(id, [])};
    }
  }

  lemma MonomorphicIsRegular(project: Project)
    requires WellFormed(project) && Monomorphic(project)
    ensures Regular(MonomorphicKeys(project), project)
    ensures |MonomorphicKeys(project)| == |project.definitions|
  {
    KeyCount(project.definitions.Keys);
    forall key <- MonomorphicKeys(project)
      ensures RegularKey(key, MonomorphicKeys(project), project)
    {
      BodiesAgree(project, key.identity);
      assert ScopedDefinition(key.identity, project);
      MonomorphicVisible(BodyOf(key.identity, project), map[], map[], project);
    }
  }

  /** Without generic definitions, a stack of twice the number of definitions decides inhabitation of every type. */
  lemma MonomorphicDecides(t: DamlType, representation: Representation, project: Project, fuel: nat)
    requires WellFormed(project) && Monomorphic(project)
    requires Scoped(t, map[], project.definitions, true)
    requires fuel >= 2 * |project.definitions| + 1
    ensures Compile(t, map[]).Ok?
    ensures EmitFinite(t, representation, project, map[], {}, fuel).Value?
       <==> Inhabited(Compile(t, map[]).value, project)
  {
    MonomorphicIsRegular(project);
    MonomorphicVisible(t, map[], map[], project);
    FiniteDecides(t, representation, project, fuel, MonomorphicKeys(project));
  }
}
