/**
 * All samples of one generation run. The spec of a module asks for a sample of every definition at
 * Text arguments, and this is what decides whether any sample of the run is refused.
 */
module GenerationRun {
  import opened Wrappers
  import JsValues
  import opened DamlTypes
  import opened DescriptorCompiler
  import opened ValueConverter
  import opened SampleEmitter
  import opened ScopedTypes
  import opened SampleSoundness
  import opened GeneratedSpecs
  import opened FiniteSamples
  import opened Inhabitation
  import opened SampleLimits
  import opened SampleTermination

  const TEXT := Prim(Primitive.Text, None)
  const TEXT_KEY := FPrim(Primitive.Text, None)

  /** The type arguments under which named type specs sample a definition. */
  function TextArguments(definition: Definition): (r: seq<DamlType>)
    ensures |r| == |definition.Parameters()|
  {
    seq(|definition.Parameters()|, _ => TEXT)
  }

  function TextDescriptors(definition: Definition): (r: seq<Descriptor>)
    ensures |r| == |definition.Parameters()|
  {
    seq(|definition.Parameters()|, _ => DPrim(Primitive.Text, None))
  }

  function TextKeys(definition: Definition): (r: seq<Fingerprint>)
    ensures |r| == |definition.Parameters()|
  {
    seq(|definition.Parameters()|, _ => TEXT_KEY)
  }

  datatype Request = Request(t: DamlType, representation: Representation, bindings: Bindings)

  /** Named type specs: every definition at Text arguments, and every constructor of a variant by itself. */
  ghost predicate RequestedFor(r: Request, id: Identity, project: Project)
    requires id in project.definitions
  {
    var definition := project.definitions[id];
    var arguments := TextArguments(definition);
    || r == Request(Ref(id, arguments), TypeScript, map[])
    || (definition.VariantDefinition? && exists c <- definition.constructors ::
          r == Request(Variant([c]), TypeScript, BindVariables(map[], definition.Parameters(), arguments)))
  }

  /** Template and choice specs: the types of create fields, arguments and results, in both representations. */
  ghost predicate Requested(r: Request, project: Project, roots: set<DamlType>) {
    || (r.t in roots && r.bindings == map[])
    || exists id <- project.definitions.Keys :: RequestedFor(r, id, project)
  }

  function Sample(r: Request, project: Project, fuel: nat): Outcome<JsValues.Js> {
    EmitOrThrow(r.t, r.representation, project, DEFAULT_DEPTH, r.bindings, fuel)
  }

  // ----- better arguments give better references -----

  /** k' is k with some Text arguments replaced by keys derivable within height m. */
  ghost predicate Improves(k: Fingerprint, k': Fingerprint, project: Project, m: nat)
    decreases k
  {
    || k == k'
    || (k == TEXT_KEY && KeyGrounded(k', project, m))
    || (k.FRef? && k'.FRef? && k.identity == k'.identity && |k.arguments| == |k'.arguments|
        && forall i :: 0 <= i < |k.arguments| ==> Improves(k.arguments[i], k'.arguments[i], project, m))
  }

  ghost predicate KeysImprove(keys: Keys, keys': Keys, project: Project, m: nat) {
    keys.Keys == keys'.Keys && forall v <- keys.Keys :: Improves(keys[v], keys'[v], project, m)
  }

  lemma {:induction false} KeyImproves(t: DamlType, keys: Keys, keys': Keys, project: Project, m: nat)
    requires KeysImprove(keys, keys', project, m)
    ensures Improves(KeyOf(t, keys), KeyOf(t, keys'), project, m)
    decreases t
  {
    if t.Ref? {
      forall i | 0 <= i < |t.arguments|
        ensures Improves(KeysOf(t.arguments, keys)[i], KeysOf(t.arguments, keys')[i], project, m)
      {
        KeysOfAt(t.arguments, keys, i);
        KeysOfAt(t.arguments, keys', i);
        KeyImproves(t.arguments[i], keys, keys', project, m);
      }
    }
  }

  lemma {:induction false} KeysOfAt(ts: seq<DamlType>, keys: Keys, i: nat)
    requires i < |ts|
    ensures KeysOf(ts, keys)[i] == KeyOf(ts[i], keys)
  {
    if i > 0 {
      KeysOfAt(ts[1..], keys, i - 1);
    }
  }

  lemma {:induction false} BindImproves(parameters: seq<VarKey>, arguments: seq<Fingerprint>,
      arguments': seq<Fingerprint>, keys: Keys, keys': Keys, project: Project, m: nat)
    requires |parameters| == |arguments| == |arguments'| && KeysImprove(keys, keys', project, m)
    requires forall i :: 0 <= i < |arguments| ==> Improves(arguments[i], arguments'[i], project, m)
    ensures KeysImprove(BindKeys(keys, parameters, arguments), BindKeys(keys', parameters, arguments'), project, m)
    decreases parameters
  {
    if parameters != [] {
      var v := parameters[0];
      BindImproves(parameters[1..], arguments[1..], arguments'[1..], keys[v := arguments[0]], keys'[v := arguments'[0]],
                   project, m);
    }
  }

  /** A derivation survives when the keys its variables stand for improve; its height grows by theirs. */
  lemma {:induction false} ImprovedKeyGrounded(k: Fingerprint, k': Fingerprint, project: Project, n: nat, m: nat)
    requires Improves(k, k', project, m) && KeyGrounded(k, project, n)
    ensures KeyGrounded(k', project, n + m)
    decreases n, 0
  {
    if k == k' {
      KeyHigher(k, project, n, n + m);
    } else if k == TEXT_KEY && KeyGrounded(k', project, m) {
      KeyHigher(k', project, m, n + m);
    } else {
      var parameters := project.definitions[k.identity].Parameters();
      BindImproves(parameters, k.arguments, k'.arguments, map[], map[], project, m);
      ImprovedGrounded(BodyOf(k.identity, project), BindKeys(map[], parameters, k.arguments),
                       BindKeys(map[], parameters, k'.arguments), project, n - 1, m);
    }
  }

  lemma {:induction false} ImprovedGrounded(t: DamlType, keys: Keys, keys': Keys, project: Project, n: nat, m: nat)
    requires KeysImprove(keys, keys', project, m) && Grounded(t, keys, project, n)
    ensures Grounded(t, keys', project, n + m)
    decreases n, 1, t
  {
    match t
    case Record(fields) => ImprovedFieldsGrounded(fields, keys, keys', project, n, m);
    case Variant(constructors) => ImprovedSomeGrounded(constructors, keys, keys', project, n, m);
    case Var(variable) => ImprovedKeyGrounded(keys[variable], keys'[variable], project, n, m);
    case Ref(_, _) =>
      KeyImproves(t, keys, keys', project, m);
      ImprovedKeyGrounded(KeyOf(t, keys), KeyOf(t, keys'), project, n, m);
    case _ =>
  }

  lemma {:induction false} ImprovedFieldsGrounded(fields: seq<Field>, keys: Keys, keys': Keys, project: Project,
      n: nat, m: nat)
    requires KeysImprove(keys, keys', project, m) && GroundedFields(fields, keys, project, n)
    ensures GroundedFields(fields, keys', project, n + m)
    decreases n, 1, fields
  {
    if fields != [] {
      ImprovedGrounded(fields[0].ty, keys, keys', project, n, m);
      ImprovedFieldsGrounded(fields[1..], keys, keys', project, n, m);
    }
  }

  lemma {:induction false} ImprovedSomeGrounded(constructors: seq<Constructor>, keys: Keys, keys': Keys,
      project: Project, n: nat, m: nat)
    requires KeysImprove(keys, keys', project, m) && SomeGrounded(constructors, keys, project, n)
    ensures SomeGrounded(constructors, keys', project, n + m)
    decreases n, 1, constructors
  {
    if Grounded(constructors[0].payload, keys, project, n) {
      ImprovedGrounded(constructors[0].payload, keys, keys', project, n, m);
    } else {
      ImprovedSomeGrounded(constructors[1..], keys, keys', project, n, m);
    }
  }

  // ----- closed types of a project whose definitions are derivable -----

  /** Every definition has a value at Text arguments, of height at most n. */
  ghost predicate AllDerivable(project: Project, n: nat) {
    forall id <- project.definitions.Keys :: Derivable(id, project, n)
  }

  ghost predicate Derivable(id: Identity, project: Project, n: nat)
    requires id in project.definitions
  {
    KeyGrounded(FRef(id, TextKeys(project.definitions[id])), project, n)
  }

  lemma {:induction false} ClosedIsGrounded(t: DamlType, project: Project, n: nat) returns (m: nat)
    requires Closed(t, project.definitions) && AllDerivable(project, n)
    ensures KeyGrounded(KeyOf(t, map[]), project, m)
    decreases t
  {
    m := 0;
    if t.Ref? {
      var arguments := KeysOf(t.arguments, map[]);
      m := ClosedAllGrounded(t.arguments, project, n);
      var key := FRef(t.identity, TextKeys(project.definitions[t.identity]));
      assert Derivable(t.identity, project, n);
      assert Improves(key, FRef(t.identity, arguments), project, m);
      ImprovedKeyGrounded(key, FRef(t.identity, arguments), project, n, m);
      m := n + m;
    }
  }

  lemma {:induction false} ClosedAllGrounded(ts: seq<DamlType>, project: Project, n: nat) returns (m: nat)
    requires ScopedAll(ts, map[], project.definitions) && AllDerivable(project, n)
    ensures forall i :: 0 <= i < |ts| ==> KeyGrounded(KeysOf(ts, map[])[i], project, m)
    decreases ts
  {
    m := 0;
    if ts != [] {
      var first := ClosedIsGrounded(ts[0], project, n);
      var rest := ClosedAllGrounded(ts[1..], project, n);
      m := Max(first, rest);
      KeyHigher(KeyOf(ts[0], map[]), project, first, m);
      forall i | 0 < i < |ts|
        ensures KeyGrounded(KeysOf(ts, map[])[i], project, m)
      {
        KeyHigher(KeysOf(ts[1..], map[])[i - 1], project, rest, m);
      }
    }
  }

  predicate HasConstructors(t: DamlType) {
    (t.Variant? ==> t.constructors != []) && (t.Enum? ==> t.names != [])
  }

  lemma DerivableHasConstructors(id: Identity, project: Project, n: nat)
    requires id in project.definitions && AllDerivable(project, n)
    ensures HasConstructors(BodyOf(id, project))
  {
    assert Derivable(id, project, n);
    var definition := project.definitions[id];
    var keys := BindKeys(map[], definition.Parameters(), TextKeys(definition));
    var body := BodyOf(id, project);
    assert Grounded(body, keys, project, n - 1);
    if body.Variant? {
      assert SomeGrounded(body.constructors, keys, project, n - 1);
    }
  }

  lemma {:induction false} PlainIsGrounded(t: DamlType, scope: Scope, bindings: Bindings, keys: Keys,
      project: Project, n: nat) returns (m: nat)
    requires Plain(t, scope, project.definitions) && HasConstructors(t) && AllDerivable(project, n)
    requires KeyLinked(scope, bindings, keys, project.definitions)
    ensures Grounded(t, keys, project, m)
  {
    match t
    case Record(fields) => m := PlainFieldsAreGrounded(fields, scope, bindings, keys, project, n);
    case Variant(constructors) =>
      m := MemberIsGrounded(constructors[0].payload, scope, bindings, keys, project, n);
    case Enum(_) => m := 0;
    case _ => m := MemberIsGrounded(t, scope, bindings, keys, project, n);
  }

  lemma MemberIsGrounded(t: DamlType, scope: Scope, bindings: Bindings, keys: Keys, project: Project, n: nat)
      returns (m: nat)
    requires Scoped(t, scope, project.definitions, false) && AllDerivable(project, n)
    requires KeyLinked(scope, bindings, keys, project.definitions)
    ensures Grounded(t, keys, project, m)
  {
    FingerprintIsKey(t, scope, bindings, keys, project.definitions, 1);
    m := ClosedIsGrounded(ResolveVariables(t, bindings), project, n);
    if t.Var? {
      assert KeyLinkedAt(scope[t.variable.index], bindings, keys, project.definitions);
    }
  }

  lemma {:induction false} PlainFieldsAreGrounded(fields: seq<Field>, scope: Scope, bindings: Bindings, keys: Keys,
      project: Project, n: nat) returns (m: nat)
    requires forall i :: 0 <= i < |fields| ==> Scoped(fields[i].ty, scope, project.definitions, false)
    requires AllDerivable(project, n) && KeyLinked(scope, bindings, keys, project.definitions)
    ensures GroundedFields(fields, keys, project, m)
    decreases fields
  {
    m := 0;
    if fields != [] {
      var first := MemberIsGrounded(fields[0].ty, scope, bindings, keys, project, n);
      var rest := PlainFieldsAreGrounded(fields[1..], scope, bindings, keys, project, n);
      m := Max(first, rest);
      GroundedHigher(fields[0].ty, keys, project, first, m);
      FieldsHigher(fields[1..], keys, project, rest, m);
    }
  }

  // ----- emission never throws -----

  ghost predicate Sound(project: Project, n: nat) {
    WellFormed(project) && PlainMembers(project) && AllDerivable(project, n)
  }

  /** With all definitions derivable, every closed type is sampled at every depth unless the stack ends. */
  lemma {:induction false} NeverThrows(t: DamlType, scope: Scope, keys: Keys, st: State, fuel: nat, n: nat)
    requires Sound(st.project, n)
    requires Plain(t, scope, st.project.definitions) && HasConstructors(t)
    requires KeyLinked(scope, st.bindings, keys, st.project.definitions)
    ensures var sample := Emit(t, st, fuel);
            !sample.Throws? && !sample.Missing?
    decreases fuel, t, 1
  {
    BoundarySucceeds(t, scope, keys, st, fuel, n);
    if st.depth > 0 {
      match t
      case List(element) => MemberNeverThrows(element, scope, keys, st.Descend(), fuel, n);
      case TextMap(value) => MemberNeverThrows(value, scope, keys, st.Descend(), fuel, n);
      case GenMap(key, value) =>
        MemberNeverThrows(key, scope, keys, st.Descend(), fuel, n);
        MemberNeverThrows(value, scope, keys, st.Descend(), fuel, n);
      case Record(fields) => FieldsThrowNever(fields, scope, keys, st.Descend(), fuel, n);
      case Variant(constructors) => MemberNeverThrows(constructors[0].payload, scope, keys, st.Descend(), fuel, n);
      case Var(variable) =>
        assert KeyLinkedAt(scope[variable.index], st.bindings, keys, st.project.definitions);
        if fuel > 0 {
          MemberNeverThrows(st.bindings[variable], map[], keys, st, fuel - 1, n);
        }
      case Ref(identity, arguments) => ReferenceNeverThrows(identity, arguments, scope, keys, st, fuel, n);
      case _ =>
    }
  }

  lemma {:induction false} MemberNeverThrows(t: DamlType, scope: Scope, keys: Keys, st: State, fuel: nat, n: nat)
    requires Sound(st.project, n)
    requires Scoped(t, scope, st.project.definitions, false)
    requires KeyLinked(scope, st.bindings, keys, st.project.definitions)
    ensures var sample := Emit(t, st, fuel);
            !sample.Throws? && !sample.Missing?
    decreases fuel, t, 2
  {
    InlineWeaker(t, scope, st.project.definitions);
    NeverThrows(t, scope, keys, st, fuel, n);
  }

  lemma {:induction false} FieldsThrowNever(fields: seq<Field>, scope: Scope, keys: Keys, st: State, fuel: nat, n: nat)
    requires Sound(st.project, n)
    requires forall i :: 0 <= i < |fields| ==> Scoped(fields[i].ty, scope, st.project.definitions, false)
    requires KeyLinked(scope, st.bindings, keys, st.project.definitions)
    ensures var sample := EmitFields(fields, st, fuel);
            !sample.Throws? && !sample.Missing?
    decreases fuel, fields
  {
    if fields != [] {
      MemberNeverThrows(fields[0].ty, scope, keys, st, fuel, n);
      FieldsThrowNever(fields[1..], scope, keys, st, fuel, n);
    }
  }

  lemma BoundarySucceeds(t: DamlType, scope: Scope, keys: Keys, st: State, fuel: nat, n: nat)
    requires Sound(st.project, n)
    requires Plain(t, scope, st.project.definitions) && HasConstructors(t)
    requires KeyLinked(scope, st.bindings, keys, st.project.definitions)
    ensures !st.Finite(t, fuel).Throws? && !st.Finite(t, fuel).Missing?
  {
    var m := PlainIsGrounded(t, scope, st.bindings, keys, st.project, n);
    FiniteFinds(t, scope, st.bindings, keys, st.representation, st.project, {}, fuel, m);
    FiniteNeverThrows(t, scope, st.bindings, keys, st.representation, st.project, {}, fuel);
  }

  lemma {:induction false} ReferenceNeverThrows(identity: Identity, arguments: seq<DamlType>, scope: Scope,
      keys: Keys, st: State, fuel: nat, n: nat)
    requires Sound(st.project, n) && st.depth > 0
    requires Scoped(Ref(identity, arguments), scope, st.project.definitions, true)
    requires KeyLinked(scope, st.bindings, keys, st.project.definitions)
    ensures var sample := Emit(Ref(identity, arguments), st, fuel);
            !sample.Throws? && !sample.Missing?
    decreases fuel, Ref(identity, arguments), 0
  {
    BoundarySucceeds(Ref(identity, arguments), scope, keys, st, fuel, n);
    EmitReferenceCases(identity, arguments, st, fuel);
    if fuel > 0 && Enters(identity, arguments, st, fuel) && st.depth > 1 {
      EnterKeys(st.project, identity, arguments, scope, st.bindings, keys, fuel);
      DerivableHasConstructors(identity, st.project, n);
      BodiesAgree(st.project, identity);
      assert PlainDefinition(identity, st.project);
      var parameters := st.project.definitions[identity].Parameters();
      NeverThrows(Entered(identity, st), ScopeOf(parameters), BindKeys(map[], parameters, KeysOf(arguments, keys)),
                  Inside(identity, arguments, st, fuel), fuel - 1, n);
    }
  }

  // ----- Text arguments under the three readings -----

  lemma {:induction false} TextsCompile(n: nat, definitions: Definitions)
    ensures CompileAll(seq(n, _ => TEXT), map[]) == Ok(seq(n, _ => DPrim(Primitive.Text, None)))
    ensures KeysOf(seq(n, _ => TEXT), map[]) == seq(n, _ => TEXT_KEY)
    ensures ScopedAll(seq(n, _ => TEXT), map[], definitions)
  {
    var types, ds, keys := seq(n, _ => TEXT), seq(n, _ => DPrim(Primitive.Text, None)), seq(n, _ => TEXT_KEY);
    if n > 0 {
      TextsCompile(n - 1, definitions);
      assert types[1..] == seq(n - 1, _ => TEXT);
      assert ds == [DPrim(Primitive.Text, None)] + seq(n - 1, _ => DPrim(Primitive.Text, None));
      assert keys == [TEXT_KEY] + seq(n - 1, _ => TEXT_KEY);
    }
  }

  /** The reference a named type spec samples: closed, with Text descriptors and Text keys. */
  lemma TextReference(id: Identity, project: Project)
    requires id in project.definitions
    ensures var definition := project.definitions[id];
            var t := Ref(id, TextArguments(definition));
            && Closed(t, project.definitions)
            && Compile(t, map[]) == Ok(DRef(id, TextDescriptors(definition)))
            && KeyOf(t, map[]) == FRef(id, TextKeys(definition))
  {
    TextsCompile(|project.definitions[id].Parameters()|, project.definitions);
  }

  // ----- the whole run -----

  ghost predicate AllInhabited(project: Project) {
    forall id <- project.definitions.Keys :: InhabitedAtText(id, project)
  }

  ghost predicate InhabitedAtText(id: Identity, project: Project)
    requires id in project.definitions
  {
    Inhabited(DRef(id, TextDescriptors(project.definitions[id])), project)
  }

  lemma InhabitedIsDerivable(id: Identity, project: Project) returns (n: nat)
    requires WellFormed(project) && id in project.definitions && InhabitedAtText(id, project)
    ensures Derivable(id, project, n)
  {
    var definition := project.definitions[id];
    var t := Ref(id, TextArguments(definition));
    TextReference(id, project);
    InlineWeaker(t, map[], project.definitions);
    var d := DRef(id, TextDescriptors(definition));
    var js :| DecodeJson(js, d, project).Ok?;
    n := DecodedIsGrounded(js, t, map[], map[], map[], map[], project);
  }

  lemma {:induction false} UniformHeight(project: Project, ids: set<Identity>) returns (n: nat)
    requires WellFormed(project) && ids <= project.definitions.Keys && AllInhabited(project)
    ensures forall id <- ids :: Derivable(id, project, n)
    decreases ids
  {
    n := 0;
    if ids != {} {
      var id :| id in ids;
      assert InhabitedAtText(id, project);
      var first := InhabitedIsDerivable(id, project);
      var rest := UniformHeight(project, ids - {id});
      n := Max(first, rest);
      forall other <- ids
        ensures Derivable(other, project, n)
      {
        assert other != id ==> Derivable(other, project, rest);
        KeyHigher(FRef(other, TextKeys(project.definitions[other])), project, if other == id then first else rest, n);
      }
    }
  }

  function Started(r: Request, project: Project): State {
    State(r.representation, project, DEFAULT_DEPTH, r.bindings, {})
  }

  /** Every requested type is plain in the scope of its bindings, which are closed. */
  lemma RequestBound(r: Request, project: Project, roots: set<DamlType>) returns (scope: Scope, keys: Keys)
    requires WellFormed(project) && PlainMembers(project) && Requested(r, project, roots)
    requires forall t <- roots :: Closed(t, project.definitions)
    ensures Plain(r.t, scope, project.definitions) && HasConstructors(r.t)
    ensures KeyLinked(scope, r.bindings, keys, project.definitions)
    ensures Monomorphic(project) ==> scope == map[]
  {
    scope, keys := map[], map[];
    if r.t in roots && r.bindings == map[] {
      InlineWeaker(r.t, map[], project.definitions);
    } else {
      var id :| id in project.definitions && RequestedFor(r, id, project);
      TextReference(id, project);
      if r == Request(Ref(id, TextArguments(project.definitions[id])), TypeScript, map[]) {
        InlineWeaker(r.t, map[], project.definitions);
      } else {
        scope, keys := ConstructorBound(r, id, project);
      }
    }
  }

  lemma ConstructorBound(r: Request, id: Identity, project: Project) returns (scope: Scope, keys: Keys)
    requires WellFormed(project) && PlainMembers(project)
    requires id in project.definitions && project.definitions[id].VariantDefinition?
    requires var definition := project.definitions[id];
             exists c <- definition.constructors ::
               r == Request(Variant([c]), TypeScript,
                            BindVariables(map[], definition.Parameters(), TextArguments(definition)))
    ensures Plain(r.t, scope, project.definitions) && HasConstructors(r.t)
    ensures KeyLinked(scope, r.bindings, keys, project.definitions)
    ensures project.definitions[id].Parameters() == [] ==> scope == map[]
  {
    var definition := project.definitions[id];
    var parameters, arguments := definition.Parameters(), TextArguments(definition);
    var i :| 0 <= i < |definition.constructors| && r.t == Variant([definition.constructors[i]]);
    scope, keys := ScopeOf(parameters), BindKeys(map[], parameters, KeysOf(arguments, map[]));
    assert PlainDefinition(id, project);
    assert Scoped(definition.constructors[i].payload, scope, project.definitions, false);
    InlineWeaker(definition.constructors[i].payload, scope, project.definitions);
    assert [definition.constructors[i]][1..] == [];
    assert ScopedConstructors([], scope, project.definitions);
    TextsCompile(|parameters|, project.definitions);
    BindKeyLinked(parameters, arguments, map[], map[], map[], project.definitions);
  }

  lemma RequestNeverThrows(r: Request, project: Project, roots: set<DamlType>, fuel: nat, n: nat)
    requires Sound(project, n) && Requested(r, project, roots)
    requires forall t <- roots :: Closed(t, project.definitions)
    ensures !Sample(r, project, fuel).Throws? && !Sample(r, project, fuel).Missing?
  {
    var scope, keys := RequestBound(r, project, roots);
    NeverThrows(r.t, scope, keys, Started(r, project), fuel, n);
  }

  /**
   * No sample of a run is refused if and only if every definition of the project has a value at
   * Text arguments. Which constructor is tried first plays no part in whether a run succeeds.
   */
  lemma RunSucceedsExactly(project: Project, roots: set<DamlType>, fuel: nat)
    requires WellFormed(project) && PlainMembers(project) && WithoutEmptyEnums(project)
    requires forall t <- roots :: Closed(t, project.definitions)
    requires forall r :: Requested(r, project, roots) ==> !Sample(r, project, fuel).Diverges?
    ensures (forall r :: Requested(r, project, roots) ==> !Sample(r, project, fuel).Throws?) <==> AllInhabited(project)
  {
    if AllInhabited(project) {
      var n := UniformHeight(project, project.definitions.Keys);
      forall r | Requested(r, project, roots)
        ensures !Sample(r, project, fuel).Throws?
      {
        RequestNeverThrows(r, project, roots, fuel, n);
      }
    }
    if forall r :: Requested(r, project, roots) ==> !Sample(r, project, fuel).Throws? {
      forall id <- project.definitions.Keys
        ensures InhabitedAtText(id, project)
      {
        var r := Request(Ref(id, TextArguments(project.definitions[id])), TypeScript, map[]);
        assert RequestedFor(r, id, project);
        assert Requested(r, project, roots);
        SampledIsInhabited(id, project, fuel);
      }
    }
  }

  /** All searches of a run stay in one finite set of references. */
  ghost predicate RunStaysIn(project: Project, roots: set<DamlType>, allowed: set<Fingerprint>) {
    forall r :: Requested(r, project, roots) ==> EmissionStaysIn(r.t, Started(r, project), allowed)
  }

  /** A run whose searches stay in a finite set ends, and decides whether all definitions have values. */
  lemma RunDecides(project: Project, roots: set<DamlType>, allowed: set<Fingerprint>, fuel: nat)
    requires WellFormed(project) && PlainMembers(project) && WithoutEmptyEnums(project)
    requires forall t <- roots :: Closed(t, project.definitions)
    requires RunStaysIn(project, roots, allowed) && EnoughStack(fuel, |allowed|, DEFAULT_DEPTH, true)
    ensures forall r :: Requested(r, project, roots) ==> !Sample(r, project, fuel).Diverges?
    ensures (forall r :: Requested(r, project, roots) ==> !Sample(r, project, fuel).Throws?) <==> AllInhabited(project)
  {
    forall r | Requested(r, project, roots)
      ensures !Sample(r, project, fuel).Diverges?
    {
      var scope, keys := RequestBound(r, project, roots);
      OwnKeysLinked(scope, r.bindings, keys, project.definitions);
      EmissionEndsExactly(r.t, scope, Started(r, project));
      assert EmissionStaysIn(r.t, Started(r, project), allowed);
      assert EmissionEndsAt(r.t, Started(r, project), fuel);
    }
    RunSucceedsExactly(project, roots, fuel);
  }

  /** Without generic definitions every run ends, with a stack of twice the number of definitions and a constant. */
  lemma MonomorphicRunDecides(project: Project, roots: set<DamlType>, fuel: nat)
    requires WellFormed(project) && PlainMembers(project) && WithoutEmptyEnums(project) && Monomorphic(project)
    requires forall t <- roots :: Closed(t, project.definitions)
    requires EnoughStack(fuel, |project.definitions|, DEFAULT_DEPTH, true)
    ensures forall r :: Requested(r, project, roots) ==> !Sample(r, project, fuel).Diverges?
    ensures (forall r :: Requested(r, project, roots) ==> !Sample(r, project, fuel).Throws?) <==> AllInhabited(project)
  {
    var allowed := MonomorphicKeys(project);
    MonomorphicIsSaturated(project);
    forall r | Requested(r, project, roots)
      ensures EmissionStaysIn(r.t, Started(r, project), allowed)
    {
      var scope, keys := RequestBound(r, project, roots);
      MonomorphicRefs(r.t, KeysFor(r.bindings), project);
      SaturatedStays(r.t, map[], Started(r, project), true, allowed);
    }
    RunDecides(project, roots, allowed, fuel);
  }

  /** A definition whose own sample is emitted has a value. */
  lemma SampledIsInhabited(id: Identity, project: Project, fuel: nat)
    requires WellFormed(project) && WithoutEmptyEnums(project) && id in project.definitions
    requires var t := Ref(id, TextArguments(project.definitions[id]));
             var sample := EmitOrThrow(t, TypeScript, project, DEFAULT_DEPTH, map[], fuel);
             !sample.Diverges? && !sample.Throws?
    ensures InhabitedAtText(id, project)
  {
    var t := Ref(id, TextArguments(project.definitions[id]));
    TextReference(id, project);
    InlineWeaker(t, map[], project.definitions);
    NotInlineHasEnums(t, map[], project.definitions);
    SamplesRoundTrip(t, map[], map[], map[], project, DEFAULT_DEPTH, fuel);
    NeverReachesEmptyEnum(t, Start(project, DEFAULT_DEPTH), fuel);
    EmitSucceeds(t, map[], map[], Start(project, DEFAULT_DEPTH), fuel);
    var ledger := EmitOrThrow(t, Ledger, project, DEFAULT_DEPTH, map[], fuel);
    assert DecodeJson(ledger.value, Compile(t, map[]).value, project).Ok?;
  }

  /** The descriptor spec: the registry resolves every definition at Text descriptors. */
  lemma DescriptorSpecHolds(id: Identity, project: Project)
    requires WellFormed(project) && id in project.definitions
    ensures Resolve(project, id, TextDescriptors(project.definitions[id])).Ok?
  {
    TextReference(id, project);
    ResolveIsSubstitution(project, id, TextArguments(project.definitions[id]));
  }
}
