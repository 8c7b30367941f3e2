/**
 * When the representative sample exists, two families of inhabited types it is not found for, and one
 * it is found for although infinitely many references are reachable.
 */
module SampleLimits {
  import opened Wrappers
  import opened JsValues
  import opened DamlTypes
  import opened DescriptorCompiler
  import opened LedgerValues
  import opened ValueConverter
  import opened ValueMaterializer
  import opened SampleEmitter
  import opened ScopedTypes
  import opened FiniteSamples
  import opened FiniteTermination
  import opened Inhabitation
  import opened SampleSoundness

  /**
   * Above the depth limit the emitter makes one choice everywhere: one element per container, the
   * first constructor per variant. The frontier is what those choices still ask for at the limit.
   */
  ghost predicate FrontierInhabited(t: DamlType, substitution: map<int, Descriptor>, st: State, fuel: nat)
    decreases fuel, t
  {
    if st.depth <= 0 then InhabitedType(t, substitution, st.project) else
    match t
    case List(element) => FrontierInhabited(element, substitution, st.Descend(), fuel)
    case TextMap(value) => FrontierInhabited(value, substitution, st.Descend(), fuel)
    case GenMap(key, value) =>
      FrontierInhabited(key, substitution, st.Descend(), fuel)
      && FrontierInhabited(value, substitution, st.Descend(), fuel)
    case Record(fields) => FrontierFieldsInhabited(fields, substitution, st.Descend(), fuel)
    case Variant(constructors) =>
      constructors != [] && FrontierInhabited(constructors[0].payload, substitution, st.Descend(), fuel)
    case Var(variable) =>
      variable in st.bindings && fuel > 0 && FrontierInhabited(st.bindings[variable], map[], st, fuel - 1)
    case Ref(identity, arguments) =>
      var compiled := CompileAll(arguments, substitution);
      if fuel > 0 && st.depth > 1 && Enters(identity, arguments, st, fuel) && compiled.Ok? then
        FrontierInhabited(Entered(identity, st),
                          BindIndices(map[], st.project.definitions[identity].Parameters(), compiled.value),
                          Inside(identity, arguments, st, fuel), fuel - 1)
      else InhabitedType(t, substitution, st.project)
    case _ => true
  }

  ghost predicate FrontierFieldsInhabited(fields: seq<Field>, substitution: map<int, Descriptor>, st: State, fuel: nat)
    decreases fuel, fields
  {
    fields == [] ||
    (FrontierInhabited(fields[0].ty, substitution, st, fuel)
     && FrontierFieldsInhabited(fields[1..], substitution, st, fuel))
  }

  ghost predicate InhabitedType(t: DamlType, substitution: map<int, Descriptor>, project: Project) {
    var d := Compile(t, substitution);
    d.Ok? && Inhabited(d.value, project)
  }

  lemma {:induction false} EmitSucceeds(t: DamlType, scope: Scope, substitution: map<int, Descriptor>, st: State,
      fuel: nat)
    requires WellFormed(st.project)
    requires Scoped(t, scope, st.project.definitions, true)
    requires Linked(scope, st.bindings, substitution, st.project.definitions)
    ensures var sample := Emit(t, st, fuel);
            && !sample.Missing?
            && (sample.Value? ==> FrontierInhabited(t, substitution, st, fuel))
            && (sample.Throws? ==> !FrontierInhabited(t, substitution, st, fuel))
    decreases fuel, t
  {
    if st.depth <= 0 {
      FiniteIsExact(t, scope, st.bindings, substitution, st.representation, st.project, fuel);
    } else {
      match t
      case Prim(builtin, scale) => PrimitiveTracks(builtin, scale, st.project);
      case List(element) => EmitSucceeds(element, scope, substitution, st.Descend(), fuel);
      case TextMap(value) => EmitSucceeds(value, scope, substitution, st.Descend(), fuel);
      case GenMap(key, value) =>
        EmitSucceeds(key, scope, substitution, st.Descend(), fuel);
        EmitSucceeds(value, scope, substitution, st.Descend(), fuel);
      case Record(fields) => EmitFieldsSucceed(fields, scope, substitution, st.Descend(), fuel);
      case Variant(constructors) =>
        if constructors != [] {
          EmitSucceeds(constructors[0].payload, scope, substitution, st.Descend(), fuel);
        }
      case Var(variable) =>
        assert LinkedAt(variable.index, scope[variable.index], st.bindings, substitution, st.project.definitions);
        if fuel > 0 {
          InlineWeaker(st.bindings[variable], map[], st.project.definitions);
          EmitSucceeds(st.bindings[variable], map[], map[], st, fuel - 1);
        }
      case Ref(identity, arguments) => EmitReferenceSucceeds(identity, arguments, scope, substitution, st, fuel);
      case _ =>
    }
  }

  lemma {:induction false} EmitReferenceSucceeds(identity: Identity, arguments: seq<DamlType>, scope: Scope,
      substitution: map<int, Descriptor>, st: State, fuel: nat)
    requires WellFormed(st.project) && st.depth > 0
    requires Scoped(Ref(identity, arguments), scope, st.project.definitions, true)
    requires Linked(scope, st.bindings, substitution, st.project.definitions)
    ensures var t := Ref(identity, arguments);
            var sample := Emit(t, st, fuel);
            && !sample.Missing?
            && (sample.Value? ==> FrontierInhabited(t, substitution, st, fuel))
            && (sample.Throws? ==> !FrontierInhabited(t, substitution, st, fuel))
    decreases fuel, Ref(identity, arguments), 0
  {
    FiniteIsExact(Ref(identity, arguments), scope, st.bindings, substitution, st.representation, st.project, fuel);
    EnterDefinition(st.project, identity, arguments, scope, st.bindings, substitution);
    EmitReferenceCases(identity, arguments, st, fuel);
    if fuel > 0 && Enters(identity, arguments, st, fuel) && st.depth > 1 {
      var parameters := st.project.definitions[identity].Parameters();
      EmitSucceeds(Entered(identity, st), ScopeOf(parameters),
                   BindIndices(map[], parameters, CompileAll(arguments, substitution).value),
                   Inside(identity, arguments, st, fuel), fuel - 1);
    }
  }

  lemma {:induction false} EmitFieldsSucceed(fields: seq<Field>, scope: Scope, substitution: map<int, Descriptor>,
      st: State, fuel: nat)
    requires WellFormed(st.project)
    requires ScopedFields(fields, scope, st.project.definitions)
    requires Linked(scope, st.bindings, substitution, st.project.definitions)
    ensures var sample := EmitFields(fields, st, fuel);
            && !sample.Missing?
            && (sample.Value? ==> FrontierFieldsInhabited(fields, substitution, st, fuel))
            && (sample.Throws? ==> !FrontierFieldsInhabited(fields, substitution, st, fuel))
    decreases fuel, fields
  {
    if fields != [] {
      EmitSucceeds(fields[0].ty, scope, substitution, st, fuel);
      EmitFieldsSucceed(fields[1..], scope, substitution, st, fuel);
    }
  }

  // ----- lists of one or two elements -----

  lemma OneArgument(t: DamlType, substitution: map<int, Descriptor>, bindings: Bindings, keys: Keys, fuel: nat)
    ensures Compile(t, substitution).Ok? ==> CompileAll([t], substitution) == Ok([Compile(t, substitution).value])
    ensures KeysOf([t], keys) == [KeyOf(t, keys)]
    ensures FingerprintOf(t, bindings, fuel).Some? ==>
            FingerprintsOf([t], bindings, fuel) == Some([FingerprintOf(t, bindings, fuel).value])
    ensures ResolveAll([t], bindings) == [ResolveVariables(t, bindings)]
  {
    assert [t][1..] == [];
    if Compile(t, substitution).Ok? {
      assert [Compile(t, substitution).value] + [] == [Compile(t, substitution).value];
    }
    if FingerprintOf(t, bindings, fuel).Some? {
      var key := FingerprintOf(t, bindings, fuel).value;
      assert [key] + [] == [key];
    }
  }

  lemma TwoConstructors(first: Constructor, second: Constructor, substitution: map<int, Descriptor>)
    requires Compile(first.payload, substitution).Ok? && Compile(second.payload, substitution).Ok?
    ensures CompileConstructors([first, second], substitution) ==
            Ok([ConstructorDescriptor(first.name, Compile(first.payload, substitution).value),
                ConstructorDescriptor(second.name, Compile(second.payload, substitution).value)])
  {
    assert [first, second][1..] == [second];
    assert [second][1..] == [];
    var d := ConstructorDescriptor(second.name, Compile(second.payload, substitution).value);
    assert [d] + [] == [d];
    assert CompileConstructors([second], substitution) == Ok([d]);
    var c := ConstructorDescriptor(first.name, Compile(first.payload, substitution).value);
    assert [c] + [d] == [c, d];
  }

  lemma SecondConstructorDecodes(ds: seq<ConstructorDescriptor>, payload: Js, project: Project)
    requires |ds| == 2 && ds[0].name != ds[1].name && DecodeJson(payload, ds[1].payload, project).Ok?
    ensures Inhabited(DVariant(ds), project)
  {
    var js := VariantObject(ds[1].name, payload);
    assert Find(js.members, "tag") == 0;
    assert js.members[1].key == "value";
    assert Find(js.members, "value") == 1;
    assert FindConstructor(ds, ds[1].name) == 1;
    assert DecodeJson(js, DVariant(ds), project).Ok?;
  }

  lemma ResolvedInhabited(identity: Identity, arguments: seq<Descriptor>, project: Project)
    requires Resolve(project, identity, arguments).Ok?
    requires Inhabited(Resolve(project, identity, arguments).value, project)
    ensures Inhabited(DRef(identity, arguments), project)
  {
    hide Resolve;
    var js :| DecodeJson(js, Resolve(project, identity, arguments).value, project).Ok?;
    assert DecodeJson(js, DRef(identity, arguments), project).Ok?;
  }

  // ----- an inhabited type that is rejected -----

  const VOID := Identity("p", "M", "Void")
  const CHOICE := Identity("p", "M", "Choice")
  const BLOCKED := Constructor("Blocked", Ref(VOID, []))
  const OPEN := Constructor("Open", Prim(Unit, None))

  /** `data Void` and `data Choice = Blocked Void | Open ()`. */
  const CHOICES := Project(map[VOID := VariantDefinition([], []), CHOICE := VariantDefinition([], [BLOCKED, OPEN])], [])

  /**
   * One call to the emitter refuses Choice, because above the depth limit only the first constructor
   * is tried. A run never gets as far as blaming Choice: the sample of Void itself is refused too.
   */
  lemma FirstConstructorOnly(representation: Representation, fuel: nat)
    requires fuel >= 2
    ensures WellFormed(CHOICES)
    ensures EmitOrThrow(Ref(CHOICE, []), representation, CHOICES, DEFAULT_DEPTH, map[], fuel).Throws?
    ensures Inhabited(DRef(CHOICE, []), CHOICES)
    ensures EmitOrThrow(Ref(VOID, []), representation, CHOICES, DEFAULT_DEPTH, map[], fuel).Throws?
  {
    ChoicesWellFormed();
    var st := State(representation, CHOICES, DEFAULT_DEPTH, map[], {});
    EmitReferenceCases(VOID, [], st, fuel);
    EmitReferenceCases(CHOICE, [], st, fuel);
    EnterFinite(VOID, [], representation, CHOICES, map[], {}, fuel - 1);
    assert Inside(CHOICE, [], st, fuel).Descend().Finite(BLOCKED.payload, fuel - 1).Throws?;
    ChoiceIsInhabited();
  }

  lemma ChoicesWellFormed()
    ensures WellFormed(CHOICES)
  {
    assert [OPEN][1..] == [] && [BLOCKED, OPEN][1..] == [OPEN];
    assert ScopedConstructors([], map[], CHOICES.definitions);
    assert ScopedConstructors([OPEN], map[], CHOICES.definitions);
    assert ScopedDefinition(VOID, CHOICES);
    assert ScopedDefinition(CHOICE, CHOICES);
  }

  lemma ChoiceIsInhabited()
    ensures Inhabited(DRef(CHOICE, []), CHOICES)
  {
    var ds := [ConstructorDescriptor("Blocked", DRef(VOID, [])), ConstructorDescriptor("Open", DPrim(Unit, None))];
    TwoConstructors(BLOCKED, OPEN, map[]);
    assert Resolve(CHOICES, CHOICE, []) == Ok(DVariant(ds));
    assert DecodeJson(Object(Plain, []), DPrim(Unit, None), CHOICES) == Ok(UnitValue);
    SecondConstructorDecodes(ds, Object(Plain, []), CHOICES);
    ResolvedInhabited(CHOICE, [], CHOICES);
  }

  // ----- an inhabited type the search never returns for -----

  const NEST := Identity("p", "M", "Nest")
  const WRAP := Identity("p", "M", "Wrap")
  const A := VarKey(Some("a"), 0)
  const DEEPER := Constructor("Deeper", Ref(NEST, [Ref(WRAP, [Var(A)])]))
  const FLAT := Constructor("Flat", Prim(Primitive.Text, None))

  /** `data Wrap a = Wrap with w : a` and `data Nest a = Deeper (Nest (Wrap a)) | Flat Text`. */
  const NESTED := Project(map[WRAP := RecordDefinition([A], [Field("w", "w", Var(A))]),
                              NEST := VariantDefinition([A], [DEEPER, FLAT])], [])

  function Wraps(key: Fingerprint): nat {
    if key.FRef? && key.identity == WRAP && |key.arguments| == 1 then 1 + Wraps(key.arguments[0]) else 0
  }

  ghost predicate NestsBelow(visited: set<Fingerprint>, n: nat) {
    forall key <- visited :: key.FRef? && |key.arguments| == 1 && Wraps(key.arguments[0]) < n
  }

  lemma NestedIsWellFormed()
    ensures WellFormed(NESTED)
  {
    var definitions := NESTED.definitions;
    assert ScopeOf([A]) == map[0 := A] by {
      assert [A][1..] == [];
      assert ScopeOf([A]) == ScopeOf([], map[0 := A]);
    }
    assert ScopedAll([], map[0 := A], definitions);
    assert [Var(A)][1..] == [];
    assert ScopedAll([Var(A)], map[0 := A], definitions);
    assert [Ref(WRAP, [Var(A)])][1..] == [];
    assert ScopedAll([Ref(WRAP, [Var(A)])], map[0 := A], definitions);
    assert Scoped(DEEPER.payload, map[0 := A], definitions, true);
    assert [FLAT][1..] == [] && [DEEPER, FLAT][1..] == [FLAT];
    assert Scoped(FLAT.payload, map[0 := A], definitions, true);
    assert ScopedConstructors([], map[0 := A], definitions);
    assert ScopedConstructors([FLAT], map[0 := A], definitions);
    assert ScopedDefinition(NEST, NESTED);
    var renamed := RenameFields(WRAP, [Field("w", "w", Var(A))], map[]);
    assert renamed == [renamed[0]];
    assert ScopedDefinition(WRAP, NESTED);
  }

  /** Inside Nest at argument key k, the next argument is the wrapped one, with k bound to `a`. */
  lemma NestStep(argument: DamlType, scope: Scope, bindings: Bindings, keys: Keys, fuel: nat)
    requires Scoped(argument, scope, NESTED.definitions, false) && KeyLinked(scope, bindings, keys, NESTED.definitions)
    requires fuel > 0
    ensures var extended := BindVariables(bindings, [A], ResolveAll([argument], bindings));
            var keys' := keys[A := KeyOf(argument, keys)];
            && KeyLinked(map[0 := A], extended, keys', NESTED.definitions)
            && KeyOf(Ref(WRAP, [Var(A)]), keys') == FRef(WRAP, [KeyOf(argument, keys)])
  {
    FingerprintIsKey(argument, scope, bindings, keys, NESTED.definitions, fuel);
    OneArgument(argument, map[], bindings, keys, fuel);
    var resolved := ResolveVariables(argument, bindings);
    assert [A][1..] == [] && [resolved][1..] == [];
    assert BindVariables(bindings, [A], [resolved]) == bindings[A := resolved];
    var keys' := keys[A := KeyOf(argument, keys)];
    assert KeyLinkedAt(A, bindings[A := resolved], keys', NESTED.definitions);
    OneArgument(Var(A), map[], bindings, keys', fuel);
  }

  lemma WrappedScoped()
    ensures Scoped(Ref(WRAP, [Var(A)]), map[0 := A], NESTED.definitions, false)
  {
    assert [Var(A)][1..] == [];
    assert ScopedAll([], map[0 := A], NESTED.definitions);
  }

  /** Every entry to Nest wraps its argument once more, so no key repeats and the search only goes deeper. */
  lemma {:induction false} NestNeverEnds(argument: DamlType, scope: Scope, bindings: Bindings, keys: Keys,
      representation: Representation, visited: set<Fingerprint>, fuel: nat)
    requires Scoped(argument, scope, NESTED.definitions, false) && KeyLinked(scope, bindings, keys, NESTED.definitions)
    requires NestsBelow(visited, Wraps(KeyOf(argument, keys)))
    ensures EmitFinite(Ref(NEST, [argument]), representation, NESTED, bindings, visited, fuel) == Diverges
    decreases fuel
  {
    if fuel > 0 {
      NestStep(argument, scope, bindings, keys, fuel);
      WrappedScoped();
      var key := FRef(NEST, [KeyOf(argument, keys)]);
      NestNeverEnds(Ref(WRAP, [Var(A)]), map[0 := A], BindVariables(bindings, [A], ResolveAll([argument], bindings)),
                    keys[A := KeyOf(argument, keys)], representation, visited + {key}, fuel - 1);
      NestUnfolds(argument, scope, bindings, keys, representation, visited, fuel);
    }
  }

  lemma NestUnfolds(argument: DamlType, scope: Scope, bindings: Bindings, keys: Keys, representation: Representation,
      visited: set<Fingerprint>, fuel: nat)
    requires Scoped(argument, scope, NESTED.definitions, false) && KeyLinked(scope, bindings, keys, NESTED.definitions)
    requires fuel > 0
    requires FRef(NEST, [KeyOf(argument, keys)]) !in visited
    requires EmitFinite(DEEPER.payload, representation, NESTED,
                        BindVariables(bindings, [A], ResolveAll([argument], bindings)),
                        visited + {FRef(NEST, [KeyOf(argument, keys)])}, fuel - 1) == Diverges
    ensures EmitFinite(Ref(NEST, [argument]), representation, NESTED, bindings, visited, fuel) == Diverges
  {
    NestedIsWellFormed();
    OneArgument(argument, map[], bindings, keys, fuel);
    assert [argument][1..] == [];
    EnterReference(NEST, [argument], scope, bindings, keys, representation, NESTED, visited, fuel);
    assert BodyOf(NEST, NESTED) == Variant([DEEPER, FLAT]);
  }

  /**
   * Nested types overflow the generator at any stack depth, although values as simple as
   * `Flat "x"` inhabit them.
   */
  lemma NestedTypesOverflow(representation: Representation, fuel: nat)
    ensures WellFormed(NESTED)
    ensures EmitOrThrow(Ref(NEST, [Prim(Primitive.Text, None)]), representation, NESTED, DEFAULT_DEPTH, map[], fuel)
         == Diverges
    ensures Inhabited(DRef(NEST, [DPrim(Primitive.Text, None)]), NESTED)
  {
    NestedIsWellFormed();
    var text := Prim(Primitive.Text, None);
    if fuel > 0 {
      NestEmitDiverges(text, representation, fuel);
    }
    NestIsInhabited();
  }

  lemma NestEmitDiverges(text: DamlType, representation: Representation, fuel: nat)
    requires text == Prim(Primitive.Text, None) && fuel > 0
    ensures Emit(Ref(NEST, [text]), State(representation, NESTED, DEFAULT_DEPTH, map[], {}), fuel) == Diverges
  {
    var st := State(representation, NESTED, DEFAULT_DEPTH, map[], {});
    var key := FPrim(Primitive.Text, None);
    OneArgument(text, map[], map[], map[], fuel);
    EmitReferenceCases(NEST, [text], st, fuel);
    assert BindVariables(map[], [A], [text]) == map[A := text] by {
      assert [A][1..] == [];
    }
    var inside := Inside(NEST, [text], st, fuel);
    assert inside.bindings == map[A := text];
    assert KeyLinkedAt(A, inside.bindings, map[A := key], NESTED.definitions);
    assert [Var(A)][1..] == [];
    NestNeverEnds(Ref(WRAP, [Var(A)]), map[0 := A], inside.bindings, map[A := key], representation, {}, fuel - 1);
  }

  lemma NestIsInhabited()
    ensures Inhabited(DRef(NEST, [DPrim(Primitive.Text, None)]), NESTED)
  {
    var text := DPrim(Primitive.Text, None);
    var substitution := map[0 := text];
    NestResolves(text, substitution);
    var ds := [ConstructorDescriptor("Deeper", DRef(NEST, [DRef(WRAP, [text])])), ConstructorDescriptor("Flat", text)];
    assert DecodeJson(JsValues.Text("x"), text, NESTED).Ok?;
    SecondConstructorDecodes(ds, JsValues.Text("x"), NESTED);
    ResolvedInhabited(NEST, [text], NESTED);
  }

  lemma NestResolves(text: Descriptor, substitution: map<int, Descriptor>)
    requires text == DPrim(Primitive.Text, None) && substitution == map[0 := text]
    ensures Resolve(NESTED, NEST, [text]) ==
            Ok(DVariant([ConstructorDescriptor("Deeper", DRef(NEST, [DRef(WRAP, [text])])),
                         ConstructorDescriptor("Flat", text)]))
  {
    assert BindIndices(map[], [A], [text]) == substitution by {
      assert [A][1..] == [] && [text][1..] == [];
    }
    OneArgument(Var(A), substitution, map[], map[], 0);
    OneArgument(Ref(WRAP, [Var(A)]), substitution, map[], map[], 0);
    TwoConstructors(DEEPER, FLAT, substitution);
  }

  // ----- a search that ends among infinitely many references -----

  /** The nested type with its constructors swapped: `data Nest a = Flat Text | Deeper (Nest (Wrap a))`. */
  const SWAPPED := Project(map[WRAP := RecordDefinition([A], [Field("w", "w", Var(A))]),
                               NEST := VariantDefinition([A], [FLAT, DEEPER])], [])

  function Nesting(n: nat): Fingerprint {
    if n == 0 then FPrim(Primitive.Text, None) else FRef(WRAP, [Nesting(n - 1)])
  }

  function NestKey(n: nat): Fingerprint {
    FRef(NEST, [Nesting(n)])
  }

  lemma {:induction false} NestKeyShown(n: nat, reachable: set<Fingerprint>)
    requires Regular(reachable, SWAPPED) && NestKey(0) in reachable
    ensures NestKey(n) in reachable
  {
    if n > 0 {
      NestKeyShown(n - 1, reachable);
      assert RegularKey(NestKey(n - 1), reachable, SWAPPED);
      var keys := BindKeys(map[], [A], [Nesting(n - 1)]);
      assert keys == map[A := Nesting(n - 1)] by {
        assert [A][1..] == [] && [Nesting(n - 1)][1..] == [];
        assert BindKeys(map[A := Nesting(n - 1)], [], []) == map[A := Nesting(n - 1)];
      }
      OneArgument(Var(A), map[], map[], keys, 0);
      OneArgument(Ref(WRAP, [Var(A)]), map[], map[], keys, 0);
      assert Visible(DEEPER.payload, keys) == {NestKey(n)};
      assert [FLAT, DEEPER][1..] == [DEEPER] && [DEEPER][1..] == [];
      assert VisibleConstructors([DEEPER], keys) == {NestKey(n)};
      assert VisibleConstructors([FLAT, DEEPER], keys) == {NestKey(n)};
      assert BodyOf(NEST, SWAPPED) == Variant([FLAT, DEEPER]);
    }
  }

  lemma {:induction false} NestingsDiffer(m: nat, n: nat)
    requires m < n
    ensures Nesting(m) != Nesting(n)
  {
    if m > 0 {
      NestingsDiffer(m - 1, n - 1);
    }
  }

  lemma {:induction false} CountNestKeys(n: nat)
    ensures |set i: nat | i < n :: NestKey(i)| == n
  {
    var keys := set i: nat | i < n :: NestKey(i);
    if n > 0 {
      CountNestKeys(n - 1);
      var fewer := set i: nat | i < n - 1 :: NestKey(i);
      forall i: nat | i < n - 1
        ensures NestKey(i) != NestKey(n - 1)
      {
        NestingsDiffer(i, n - 1);
      }
      assert keys == fewer + {NestKey(n - 1)};
    }
  }

  /**
   * Having finitely many reachable references is not necessary: the search of the swapped type enters
   * one reference and finds `Flat "..."`, while no finite set is closed under what bodies show.
   */
  lemma EndsWithoutClosedSet(reachable: set<Fingerprint>)
    ensures Search(Ref(NEST, [Prim(Primitive.Text, None)]), map[], SWAPPED, {}, {NestKey(0)}) == Found
    ensures NestKey(0) in reachable ==> !Regular(reachable, SWAPPED)
  {
    OneArgument(Prim(Primitive.Text, None), map[], map[], map[], 0);
    assert Search(FLAT.payload, BindKeys(map[], [A], [Nesting(0)]), SWAPPED, {} + {NestKey(0)}, {NestKey(0)}) == Found;
    if NestKey(0) in reachable && Regular(reachable, SWAPPED) {
      var keys := set i: nat | i < |reachable| + 1 :: NestKey(i);
      forall i: nat | i < |reachable| + 1
        ensures NestKey(i) in reachable
      {
        NestKeyShown(i, reachable);
      }
      CountNestKeys(|reachable| + 1);
      SubsetSize(keys, reachable);
      assert false;
    }
  }

  lemma {:induction false} SubsetSize(part: set<Fingerprint>, whole: set<Fingerprint>)
    requires part <= whole
    ensures |part| <= |whole|
  {
    assert whole == part + (whole - part);
  }
}
