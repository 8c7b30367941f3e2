/**
 * Exactness of the finite sample search: it finds a sample exactly for the types some JSON value
 * decodes against, because cutting at a visited reference never loses a smallest inhabitant.
 */
module FiniteSamples {
  import opened Wrappers
  import opened JsValues
  import opened DamlTypes
  import opened DescriptorCompiler
  import opened LedgerValues
  import opened ValueConverter
  import opened SampleEmitter
  import opened ScopedTypes
  import SampleSoundness

  type Keys = map<VarKey, Fingerprint>

  // ----- fingerprints under keys instead of types -----

  function KeyOf(t: DamlType, keys: Keys): Fingerprint {
    match t
    case Prim(builtin, scale) => FPrim(builtin, scale)
    case ContractId => FKind(KContractId)
    case Optional(_) => FKind(KOptional)
    case List(_) => FKind(KList)
    case TextMap(_) => FKind(KTextMap)
    case GenMap(_, _) => FKind(KGenMap)
    case Record(_) => FKind(KRecord)
    case Variant(_) => FKind(KVariant)
    case Enum(_) => FKind(KEnum)
    case Var(variable) => if variable in keys then keys[variable] else FVar(variable)
    case Ref(identity, arguments) => FRef(identity, KeysOf(arguments, keys))
  }

  function KeysOf(ts: seq<DamlType>, keys: Keys): (r: seq<Fingerprint>)
    ensures |r| == |ts|
  {
    if ts == [] then [] else [KeyOf(ts[0], keys)] + KeysOf(ts[1..], keys)
  }

  function BindKeys(keys: Keys, parameters: seq<VarKey>, arguments: seq<Fingerprint>): Keys
    requires |parameters| == |arguments|
    decreases parameters
  {
    if parameters == [] then keys
    else BindKeys(keys[parameters[0] := arguments[0]], parameters[1..], arguments[1..])
  }

  ghost predicate KeyLinked(scope: Scope, bindings: Bindings, keys: Keys, definitions: Definitions) {
    forall i <- scope.Keys :: KeyLinkedAt(scope[i], bindings, keys, definitions)
  }

  ghost predicate KeyLinkedAt(variable: VarKey, bindings: Bindings, keys: Keys, definitions: Definitions) {
    && variable in bindings
    && Closed(bindings[variable], definitions)
    && variable in keys
    && keys[variable] == KeyOf(bindings[variable], map[])
  }

  lemma {:induction false} ClosedKey(t: DamlType, bindings: Bindings, keys: Keys, definitions: Definitions, fuel: nat)
    requires Closed(t, definitions)
    ensures FingerprintOf(t, bindings, fuel) == Some(KeyOf(t, map[]))
    ensures KeyOf(t, keys) == KeyOf(t, map[])
    decreases t
  {
    match t
    case Ref(_, arguments) => ClosedKeys(arguments, bindings, keys, definitions, fuel);
    case _ =>
  }

  lemma {:induction false} ClosedKeys(ts: seq<DamlType>, bindings: Bindings, keys: Keys, definitions: Definitions,
      fuel: nat)
    requires ScopedAll(ts, map[], definitions)
    ensures FingerprintsOf(ts, bindings, fuel) == Some(KeysOf(ts, map[]))
    ensures KeysOf(ts, keys) == KeysOf(ts, map[])
    decreases ts
  {
    if ts != [] {
      ClosedKey(ts[0], bindings, keys, definitions, fuel);
      ClosedKeys(ts[1..], bindings, keys, definitions, fuel);
    }
  }

  /** Under closed bindings fingerprints are always found, and resolving variables first gives the same. */
  lemma {:induction false} FingerprintIsKey(t: DamlType, scope: Scope, bindings: Bindings, keys: Keys,
      definitions: Definitions, fuel: nat)
    requires Scoped(t, scope, definitions, false) && KeyLinked(scope, bindings, keys, definitions) && fuel > 0
    ensures FingerprintOf(t, bindings, fuel) == Some(KeyOf(t, keys))
    ensures KeyOf(ResolveVariables(t, bindings), map[]) == KeyOf(t, keys)
    ensures Closed(ResolveVariables(t, bindings), definitions)
    decreases t
  {
    match t
    case Optional(element) => FingerprintIsKey(element, scope, bindings, keys, definitions, fuel);
    case List(element) => FingerprintIsKey(element, scope, bindings, keys, definitions, fuel);
    case TextMap(value) => FingerprintIsKey(value, scope, bindings, keys, definitions, fuel);
    case GenMap(key, value) =>
      FingerprintIsKey(key, scope, bindings, keys, definitions, fuel);
      FingerprintIsKey(value, scope, bindings, keys, definitions, fuel);
    case Var(variable) =>
      assert KeyLinkedAt(scope[variable.index], bindings, keys, definitions);
      ClosedKey(bindings[variable], bindings, keys, definitions, fuel - 1);
    case Ref(_, arguments) => FingerprintsAreKeys(arguments, scope, bindings, keys, definitions, fuel);
    case _ =>
  }

  lemma {:induction false} FingerprintsAreKeys(ts: seq<DamlType>, scope: Scope, bindings: Bindings, keys: Keys,
      definitions: Definitions, fuel: nat)
    requires ScopedAll(ts, scope, definitions) && KeyLinked(scope, bindings, keys, definitions) && fuel > 0
    ensures FingerprintsOf(ts, bindings, fuel) == Some(KeysOf(ts, keys))
    ensures KeysOf(ResolveAll(ts, bindings), map[]) == KeysOf(ts, keys)
    ensures ScopedAll(ResolveAll(ts, bindings), map[], definitions)
    decreases ts
  {
    if ts != [] {
      FingerprintIsKey(ts[0], scope, bindings, keys, definitions, fuel);
      FingerprintsAreKeys(ts[1..], scope, bindings, keys, definitions, fuel);
      assert ResolveAll(ts, bindings)[1..] == ResolveAll(ts[1..], bindings);
    }
  }

  lemma {:induction false} BindKeyLinked(parameters: seq<VarKey>, types: seq<DamlType>, scope: Scope,
      bindings: Bindings, keys: Keys, definitions: Definitions)
    requires |parameters| == |types| && ScopedAll(types, map[], definitions)
    requires KeyLinked(scope, bindings, keys, definitions)
    requires forall i <- scope.Keys :: scope[i].index == i
    ensures KeyLinked(ScopeOf(parameters, scope), BindVariables(bindings, parameters, types),
                      BindKeys(keys, parameters, KeysOf(types, map[])), definitions)
    decreases parameters
  {
    if parameters != [] {
      var p := parameters[0];
      var scope', bindings', keys' := scope[p.index := p], bindings[p := types[0]], keys[p := KeyOf(types[0], map[])];
      forall i <- scope'.Keys
        ensures KeyLinkedAt(scope'[i], bindings', keys', definitions)
      {
        if i != p.index {
          assert KeyLinkedAt(scope[i], bindings, keys, definitions);
        }
      }
      BindKeyLinked(parameters[1..], types[1..], scope', bindings', keys', definitions);
    }
  }

  // ----- inhabitants by height -----

  function BodyOf(identity: Identity, project: Project): DamlType
    requires identity in project.definitions
  {
    Body(identity, project.definitions[identity], SampleNames(project.files, identity))
  }

  /** A derivation that the type has a value, entering at most n references on any path. */
  ghost predicate Grounded(t: DamlType, keys: Keys, project: Project, n: nat)
    decreases n, 1, t
  {
    match t
    case Record(fields) => GroundedFields(fields, keys, project, n)
    case Variant(constructors) => SomeGrounded(constructors, keys, project, n)
    case Enum(names) => names != []
    case Var(variable) => variable in keys && KeyGrounded(keys[variable], project, n)
    case Ref(identity, arguments) => KeyGrounded(FRef(identity, KeysOf(arguments, keys)), project, n)
    case _ => true
  }

  ghost predicate GroundedFields(fields: seq<Field>, keys: Keys, project: Project, n: nat)
    decreases n, 1, fields
  {
    fields == [] || (Grounded(fields[0].ty, keys, project, n) && GroundedFields(fields[1..], keys, project, n))
  }

  ghost predicate SomeGrounded(constructors: seq<Constructor>, keys: Keys, project: Project, n: nat)
    decreases n, 1, constructors
  {
    constructors != []
    && (Grounded(constructors[0].payload, keys, project, n) || SomeGrounded(constructors[1..], keys, project, n))
  }

  ghost predicate KeyGrounded(key: Fingerprint, project: Project, n: nat)
    decreases n, 0
  {
    match key
    case FPrim(_, _) => true
    case FKind(kind) => !kind.KRecord? && !kind.KVariant? && !kind.KEnum?
    case FVar(_) => false
    case FRef(identity, arguments) =>
      && n > 0
      && identity in project.definitions
      && |arguments| == |project.definitions[identity].Parameters()|
      && Grounded(BodyOf(identity, project),
                  BindKeys(map[], project.definitions[identity].Parameters(), arguments), project, n - 1)
  }

  lemma {:induction false} GroundedHigher(t: DamlType, keys: Keys, project: Project, n: nat, m: nat)
    requires n <= m && Grounded(t, keys, project, n)
    ensures Grounded(t, keys, project, m)
    decreases n, 1, t
  {
    match t
    case Record(fields) => FieldsHigher(fields, keys, project, n, m);
    case Variant(constructors) => SomeHigher(constructors, keys, project, n, m);
    case Var(variable) => KeyHigher(keys[variable], project, n, m);
    case Ref(identity, arguments) => KeyHigher(FRef(identity, KeysOf(arguments, keys)), project, n, m);
    case _ =>
  }

  lemma {:induction false} FieldsHigher(fields: seq<Field>, keys: Keys, project: Project, n: nat, m: nat)
    requires n <= m && GroundedFields(fields, keys, project, n)
    ensures GroundedFields(fields, keys, project, m)
    decreases n, 1, fields
  {
    if fields != [] {
      GroundedHigher(fields[0].ty, keys, project, n, m);
      FieldsHigher(fields[1..], keys, project, n, m);
    }
  }

  lemma {:induction false} SomeHigher(constructors: seq<Constructor>, keys: Keys, project: Project, n: nat, m: nat)
    requires n <= m && SomeGrounded(constructors, keys, project, n)
    ensures SomeGrounded(constructors, keys, project, m)
    decreases n, 1, constructors
  {
    if Grounded(constructors[0].payload, keys, project, n) {
      GroundedHigher(constructors[0].payload, keys, project, n, m);
    } else {
      SomeHigher(constructors[1..], keys, project, n, m);
    }
  }

  lemma {:induction false} KeyHigher(key: Fingerprint, project: Project, n: nat, m: nat)
    requires n <= m && KeyGrounded(key, project, n)
    ensures KeyGrounded(key, project, m)
    decreases n, 0
  {
    match key
    case FRef(identity, arguments) =>
      GroundedHigher(BodyOf(identity, project), BindKeys(map[], project.definitions[identity].Parameters(), arguments),
                     project, n - 1, m - 1);
    case _ =>
  }

  lemma {:induction false} LeastHeight(key: Fingerprint, project: Project, n: nat) returns (m: nat)
    requires KeyGrounded(key, project, n) && key.FRef?
    ensures 0 < m <= n && KeyGrounded(key, project, m) && !KeyGrounded(key, project, m - 1)
  {
    if KeyGrounded(key, project, n - 1) {
      m := LeastHeight(key, project, n - 1);
    } else {
      m := n;
    }
  }

  /** A closed type is inhabited exactly as its fingerprint is: what the fingerprint forgets does not matter. */
  lemma ClosedGrounded(t: DamlType, keys: Keys, project: Project, n: nat)
    requires Closed(t, project.definitions)
    ensures Grounded(t, keys, project, n) <==> KeyGrounded(KeyOf(t, map[]), project, n)
  {
    ClosedKey(t, map[], keys, project.definitions, 0);
  }

  /** Entering a reference: its body is scoped and linked to the keys of its arguments. */
  lemma EnterKeys(project: Project, identity: Identity, arguments: seq<DamlType>, scope: Scope, bindings: Bindings,
      keys: Keys, fuel: nat)
    requires WellFormed(project) && fuel > 0
    requires Scoped(Ref(identity, arguments), scope, project.definitions, true)
    requires KeyLinked(scope, bindings, keys, project.definitions)
    ensures FingerprintsOf(arguments, bindings, fuel) == Some(KeysOf(arguments, keys))
    ensures var parameters := project.definitions[identity].Parameters();
            && Scoped(BodyOf(identity, project), ScopeOf(parameters), project.definitions, true)
            && KeyLinked(ScopeOf(parameters), BindVariables(bindings, parameters, ResolveAll(arguments, bindings)),
                         BindKeys(map[], parameters, KeysOf(arguments, keys)), project.definitions)
  {
    FingerprintsAreKeys(arguments, scope, bindings, keys, project.definitions, fuel);
    BodiesAgree(project, identity);
    assert ScopedDefinition(identity, project);
    BindKeyLinked(project.definitions[identity].Parameters(), ResolveAll(arguments, bindings), map[], bindings, map[],
                  project.definitions);
  }

  lemma EnterReference(identity: Identity, arguments: seq<DamlType>, scope: Scope, bindings: Bindings, keys: Keys,
      representation: Representation, project: Project, visited: set<Fingerprint>, fuel: nat)
    requires WellFormed(project) && fuel > 0
    requires Scoped(Ref(identity, arguments), scope, project.definitions, true)
    requires KeyLinked(scope, bindings, keys, project.definitions)
    ensures var parameters := project.definitions[identity].Parameters();
            var key := FRef(identity, KeysOf(arguments, keys));
            EmitFinite(Ref(identity, arguments), representation, project, bindings, visited, fuel) ==
            if key in visited then Missing
            else EmitFinite(BodyOf(identity, project), representation, project,
                            BindVariables(bindings, parameters, ResolveAll(arguments, bindings)), visited + {key},
                            fuel - 1)
  {
    EnterKeys(project, identity, arguments, scope, bindings, keys, fuel);
    SampleSoundness.EnterFinite(identity, arguments, representation, project, bindings, visited, fuel);
  }

  // ----- the search never throws, and never misses an inhabited type -----

  lemma {:induction false} FiniteNeverThrows(t: DamlType, scope: Scope, bindings: Bindings, keys: Keys,
      representation: Representation, project: Project, visited: set<Fingerprint>, fuel: nat)
    requires WellFormed(project)
    requires Scoped(t, scope, project.definitions, true) && KeyLinked(scope, bindings, keys, project.definitions)
    ensures !EmitFinite(t, representation, project, bindings, visited, fuel).Throws?
    decreases fuel, t
  {
    match t
    case Record(fields) => FieldsNeverThrow(fields, scope, bindings, keys, representation, project, visited, fuel);
    case Variant(constructors) =>
      FirstNeverThrows(constructors, scope, bindings, keys, representation, project, visited, fuel);
    case Var(variable) =>
      assert KeyLinkedAt(scope[variable.index], bindings, keys, project.definitions);
      if fuel > 0 {
        InlineWeaker(bindings[variable], map[], project.definitions);
        FiniteNeverThrows(bindings[variable], map[], bindings, keys, representation, project, visited, fuel - 1);
      }
    case Ref(identity, arguments) =>
      if fuel > 0 {
        EnterKeys(project, identity, arguments, scope, bindings, keys, fuel);
        var parameters := project.definitions[identity].Parameters();
        var key := FRef(identity, KeysOf(arguments, keys));
        EnterReference(identity, arguments, scope, bindings, keys, representation, project, visited, fuel);
        FiniteNeverThrows(BodyOf(identity, project), ScopeOf(parameters),
                          BindVariables(bindings, parameters, ResolveAll(arguments, bindings)),
                          BindKeys(map[], parameters, KeysOf(arguments, keys)), representation, project,
                          visited + {key}, fuel - 1);
      }
    case _ =>
  }

  lemma {:induction false} FieldsNeverThrow(fields: seq<Field>, scope: Scope, bindings: Bindings, keys: Keys,
      representation: Representation, project: Project, visited: set<Fingerprint>, fuel: nat)
    requires WellFormed(project)
    requires ScopedFields(fields, scope, project.definitions) && KeyLinked(scope, bindings, keys, project.definitions)
    ensures !EmitFiniteFields(fields, representation, project, bindings, visited, fuel).Throws?
    decreases fuel, fields
  {
    if fields != [] {
      FiniteNeverThrows(fields[0].ty, scope, bindings, keys, representation, project, visited, fuel);
      FieldsNeverThrow(fields[1..], scope, bindings, keys, representation, project, visited, fuel);
    }
  }

  lemma {:induction false} FirstNeverThrows(constructors: seq<Constructor>, scope: Scope, bindings: Bindings,
      keys: Keys, representation: Representation, project: Project, visited: set<Fingerprint>, fuel: nat)
    requires WellFormed(project)
    requires ScopedConstructors(constructors, scope, project.definitions)
    requires KeyLinked(scope, bindings, keys, project.definitions)
    ensures !EmitFirstFinite(constructors, representation, project, bindings, visited, fuel).Throws?
    decreases fuel, constructors
  {
    if constructors != [] {
      FiniteNeverThrows(constructors[0].payload, scope, bindings, keys, representation, project, visited, fuel);
      FirstNeverThrows(constructors[1..], scope, bindings, keys, representation, project, visited, fuel);
    }
  }

  ghost predicate NoneGrounded(visited: set<Fingerprint>, project: Project, n: nat) {
    forall key <- visited :: !KeyGrounded(key, project, n)
  }

  /**
   * If no visited reference has an inhabitant of height n but the type does, the search does not
   * come back empty: a smallest inhabitant never repeats a reference on a path.
   */
  lemma {:induction false} FiniteFinds(t: DamlType, scope: Scope, bindings: Bindings, keys: Keys,
      representation: Representation, project: Project, visited: set<Fingerprint>, fuel: nat, n: nat)
    requires WellFormed(project)
    requires Scoped(t, scope, project.definitions, true) && KeyLinked(scope, bindings, keys, project.definitions)
    requires Grounded(t, keys, project, n) && NoneGrounded(visited, project, n)
    ensures !EmitFinite(t, representation, project, bindings, visited, fuel).Missing?
    decreases fuel, t
  {
    match t
    case Record(fields) => FieldsFound(fields, scope, bindings, keys, representation, project, visited, fuel, n);
    case Variant(constructors) =>
      FirstFound(constructors, scope, bindings, keys, representation, project, visited, fuel, n);
    case Var(variable) =>
      assert KeyLinkedAt(scope[variable.index], bindings, keys, project.definitions);
      if fuel > 0 {
        ClosedGrounded(bindings[variable], keys, project, n);
        InlineWeaker(bindings[variable], map[], project.definitions);
        FiniteFinds(bindings[variable], map[], bindings, keys, representation, project, visited, fuel - 1, n);
      }
    case Ref(identity, arguments) =>
      if fuel > 0 {
        EnterKeys(project, identity, arguments, scope, bindings, keys, fuel);
        var parameters := project.definitions[identity].Parameters();
        var key := FRef(identity, KeysOf(arguments, keys));
        assert key !in visited;
        var m := LeastHeight(key, project, n);
        forall k <- visited + {key}
          ensures !KeyGrounded(k, project, m - 1)
        {
          if k in visited && KeyGrounded(k, project, m - 1) {
            KeyHigher(k, project, m - 1, n);
          }
        }
        EnterReference(identity, arguments, scope, bindings, keys, representation, project, visited, fuel);
        FiniteFinds(BodyOf(identity, project), ScopeOf(parameters),
                    BindVariables(bindings, parameters, ResolveAll(arguments, bindings)),
                    BindKeys(map[], parameters, KeysOf(arguments, keys)), representation, project,
                    visited + {key}, fuel - 1, m - 1);
      }
    case _ =>
  }

  lemma {:induction false} FieldsFound(fields: seq<Field>, scope: Scope, bindings: Bindings, keys: Keys,
      representation: Representation, project: Project, visited: set<Fingerprint>, fuel: nat, n: nat)
    requires WellFormed(project)
    requires ScopedFields(fields, scope, project.definitions) && KeyLinked(scope, bindings, keys, project.definitions)
    requires GroundedFields(fields, keys, project, n) && NoneGrounded(visited, project, n)
    ensures !EmitFiniteFields(fields, representation, project, bindings, visited, fuel).Missing?
    decreases fuel, fields
  {
    if fields != [] {
      FiniteFinds(fields[0].ty, scope, bindings, keys, representation, project, visited, fuel, n);
      FieldsFound(fields[1..], scope, bindings, keys, representation, project, visited, fuel, n);
    }
  }

  lemma {:induction false} FirstFound(constructors: seq<Constructor>, scope: Scope, bindings: Bindings, keys: Keys,
      representation: Representation, project: Project, visited: set<Fingerprint>, fuel: nat, n: nat)
    requires WellFormed(project)
    requires ScopedConstructors(constructors, scope, project.definitions)
    requires KeyLinked(scope, bindings, keys, project.definitions)
    requires SomeGrounded(constructors, keys, project, n) && NoneGrounded(visited, project, n)
    ensures !EmitFirstFinite(constructors, representation, project, bindings, visited, fuel).Missing?
    decreases fuel, constructors
  {
    if Grounded(constructors[0].payload, keys, project, n) {
      FiniteFinds(constructors[0].payload, scope, bindings, keys, representation, project, visited, fuel, n);
    } else {
      FirstFound(constructors[1..], scope, bindings, keys, representation, project, visited, fuel, n);
    }
  }
}
