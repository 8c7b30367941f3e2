# DAML interface generator: verification model

This project models the part of the Canton TypeScript SDK that generates TypeScript bindings from
DAML-LF, together with the runtime those bindings use, and proves what the two promise each other.
A few smaller protocols of the SDK (the `google.rpc.ErrorInfo` wire reader, stream cleanup,
deadlines, timestamp canonicalisation) are modelled beside it.

`dafny verify dfyconfig.toml` checks everything.

## How the model is built

- **Values, not texts.** A generated expression is modelled by the JavaScript value it denotes
  (`JsValues.Js`). Descriptors, DAML-LF types and analyzed types are datatypes. A descriptor factory
  applied to argument descriptors is `DescriptorCompiler.Resolve`.
- **Errors.** A thrown error is `Err` or `Throws`; messages and error paths are not modelled.
- **Recursion that may not end.** Sample emission recurses through type variables and named
  references without a bound of its own, so these two steps spend one unit of `fuel`, and running out
  of it is the outcome `Diverges`. Theorems about results hold for every `fuel`; the termination
  theorems say exactly when some amount is enough and how much, and
  `SampleLimits.NestedTypesOverflow` gives a model for which no amount is.
- **Loops and state.** Where the source fills an object or moves a cursor, the model is a class or a
  method with the same loop, proved equal to a function of its input. The lemmas are about that
  function.
- **Parameters.** Hashes are arbitrary functions, locale order is an arbitrary order on keys (a strict
  total order where the statement needs one), name normalisation, property renaming and UTF-8 decoding
  are function parameters. Clocks, stream results and callbacks are inputs.
- **Meaning.** `LedgerTyping` and `LfTyping` say which ledger values a type has and what each of them means,
  on the types themselves. The analyzer, the descriptor factories and both decoders are measured by them.
- **Identities.** Package, module and type names are assumed to hold no separator character.

| area | files |
|---|---|
| data model | `Wrappers`, `JsValues`, `DamlTypes`, `LfModel`, `LedgerValues` |
| what types mean | `LedgerTyping`, `LfTyping` |
| analysis | `TypeAnalyzer`, `Analysis`, `LfSupport` |
| descriptors and decoding | `DescriptorCompiler`, `ValueConverter`, `ProtobufConverter`, `ValueMaterializer`, `Decimals`, `DamlNumerics`, `EventSources`, `WirePayloads`, `DecoderAgreement`, `ProtobufTyping`, `JsonTyping`, `RecordEncodings`, `DecodedConformance`, `RecordLoops` |
| samples and specs | `SampleEmitter`, `ScopedTypes`, `SampleSoundness`, `SampleShapes`, `GeneratedSpecs`, `TemplateSpecs`, `FiniteSamples`, `FiniteTermination`, `Inhabitation`, `SampleLimits`, `SampleTermination`, `GenerationRun`, `SampleImports`, `Pipeline` |
| names | `NameAllocation`, `NameResolution`, `ProjectNames`, `ModuleExports` |
| ErrorInfo reader | `Varints`, `ErrorInfo`, `WireReading` |
| streams, deadlines, timestamps | `UpdateStreams`, `Deadlines`, `Calendar`, `Timestamps` |

## What the proofs found

- An enum without constructors is emitted, above the depth limit, as the text of `undefined`
  instead of being rejected. A pair of samples fails to round trip exactly when the traversal meets such
  an enum (`GeneratedSpecs.SamplesRoundTrip`, `GeneratedSpecs.EmptyEnumBreaksItsSpec`).
- A created event whose payload has the shape of a protobuf record is read as one. The generated
  spec of a template fails exactly when its samples meet an empty enum or its payload has that shape
  (`TemplateSpecs.TemplateSpecHolds`). The second takes a list field named `fields`, and no other field
  than one named `recordId` (`TemplateSpecs.WirePayloadHasLabels`); `TemplateSpecs.JournalSpecFails` is
  such a template.
- Above the depth limit only the first constructor of a variant and one element of a list or map are
  tried, so a single call of the emitter refuses some inhabited types (`SampleLimits.EmitSucceeds`,
  `SampleLimits.FirstConstructorOnly`). This is never why a whole run is rejected: named type specs
  sample every definition at Text arguments, and no sample of a run is refused if and only if every
  definition has a value there (`GenerationRun.RunSucceedsExactly`). That is what the design asks
  (`docs/superpowers/specs/2026-07-29-generated-daml-file-specs-design.md`, lines 97-101).
- Nested generic types (`Nest a` holding a `Nest (Wrap a)`) overflow the stack although they have
  small values (`SampleLimits.NestedTypesOverflow`). Emission ends exactly when the finite searches it
  starts stay in some finite set of references (`FiniteTermination.FiniteEndsExactly`,
  `SampleTermination.EmissionEndsExactly`); having only finitely many reachable references is
  sufficient for that, not necessary (`SampleLimits.EndsWithoutClosedSet`).
- Two templates `Foo` and `FooFields` of one module get distinct classes and are still rejected,
  because both export `FooFields` (`ModuleExports.TemplatesCanCollide`). The other collision errors of
  the naming code cannot occur in the pipeline (`ProjectNames.OutputsDistinct`,
  `ModuleExports.OnlyTemplatesCollide`).

## Model

| member | source | states |
|---|---|---|
| Pipeline.AcceptedModelsHaveSoundSpecs | src/daml-interface/emission/generated-spec-emitter.ts:206-244 | for every model analysis accepts and every type a template or choice mentions: the two sample emitters succeed or fail alike, and a ledger sample decodes with the compiled descriptor and materialises to the TypeScript sample |
| Pipeline.AcceptedTemplatesHaveSoundSpecs | src/daml-interface/emission/generated-spec-emitter.ts:73-105 | for every template of an accepted model: payload and expected fields are emitted or refused together, and the created event materialises to the expected fields if and only if the payload does not pass for a protobuf record, which takes a list field `fields` beside at most a field `recordId` |
| Pipeline.AcceptedModelsDecodeTheirValues | src/daml-interface/emission/support-file-emitter.ts:256-332 | for every model analysis accepts, every type a template or choice mentions and every protobuf value: the decoder generated for the type returns `x` if and only if the value has that LF type and means `x`, and the JSON form of such a value is decoded to the same. Having an LF type is said of the model's own data types: a list type holds lists element by element, an optional present or absent content, a map its keys and values in that order, a reference the labels or constructors of its data type under its arguments |
| Pipeline.AcceptedModelsGenerate | src/daml-interface/emission/generated-spec-emitter.ts:140-184 | when nothing overflows, an accepted model is generated without refusing a sample if and only if each of its definitions has a value at Text arguments |
| GeneratedSpecs.SamplesRoundTrip | src/daml-interface/emission/generated-test-sample-emitter.ts:185-446 | for every scoped type, depth and stack: both emitters have the same outcome, and the pair of samples round trips if and only if the traversal meets no enum without constructors |
| GeneratedSpecs.PayloadDecodes | src/daml-interface/emission/generated-spec-emitter.ts:73-105 | the payload built from the ledger samples of the create fields decodes as JSON with the template's record descriptor and materialises to the object of expected fields if and only if no field meets an empty enum |
| TemplateSpecs.TemplateSpecHolds | src/daml-interface/runtime/daml-event-source-normalizer.ts:409-446 | through the created-event normaliser: the equation of a template spec holds if and only if no sample meets an empty enum and the payload is not recognised as a protobuf record, however the 64-bit texts of such a record are parsed |
| TemplateSpecs.WirePayloadFails | src/daml-interface/runtime/daml-event-source-normalizer.ts:409-446 | a payload recognised as a protobuf record never gives the expected fields: its one list element is read as a field, whose value reads as an empty list at best |
| TemplateSpecs.FiniteIsFlat | src/daml-interface/emission/generated-test-sample-emitter.ts:227-309 | finite ledger samples hold no list element at any depth |
| TemplateSpecs.WirePayloadHasLabels | src/daml-interface/runtime/daml-event-source-normalizer.ts:438-455 | only templates with a list field `fields`, and no label but `fields` and `recordId`, have payloads recognised as protobuf records |
| TemplateSpecs.JournalSpecFails | src/daml-interface/runtime/daml-event-source-normalizer.ts:409-417 | a well-formed template without enums whose spec fails with any stack of two units or more: its payload is `{fields: [{value: {party: "Alice"}}]}` |
| WirePayloads.CompleteSurvives | src/daml-interface/runtime/daml-event-source-normalizer.ts:438-600 | every ledger value without absent parts is recognised in its protobuf JSON mapping and read back as itself |
| WirePayloads.CreatedRecordIsRead | src/daml-interface/runtime/daml-event-source-normalizer.ts:409-436 | a created payload in that mapping is decoded as the protobuf record it was written from |
| WirePayloads.RecognisedExactly | src/daml-interface/runtime/daml-event-source-normalizer.ts:438-455 | a created payload is taken for a protobuf record if and only if it is an object with a list of record fields under `fields`, at most an identifier of three texts under `recordId`, and nothing else |
| GeneratedSpecs.ChoiceSpecHolds | src/daml-interface/emission/generated-spec-emitter.ts:206-244 | argument and result equations of a choice spec, in projects whose enums have constructors |
| GeneratedSpecs.NeverReachesEmptyEnum | src/daml-interface/emission/generated-test-sample-emitter.ts:185-225 | when no definition has an empty enum, no traversal meets one at any depth and under any bindings without one |
| GeneratedSpecs.EmptyEnumBreaksItsSpec | src/daml-interface/emission/generated-test-sample-emitter.ts:218-219 | for a reference to an enum without constructors both emitters yield `undefined`, which the decoder rejects |
| SampleSoundness.EmitTracks | src/daml-interface/emission/generated-test-sample-emitter.ts:185-225 | the induction behind the specs: under any linked bindings and depth the two samples of a type stand in the decode-and-materialise relation to the descriptor compiled with the matching substitution, and fail to decode where an empty enum is met |
| SampleSoundness.FiniteTracks | src/daml-interface/emission/generated-test-sample-emitter.ts:227-309 | the same for the finite search under any visited set, where empty enums are skipped |
| SampleShapes.SamplesAreRepresentative | src/daml-interface/emission/generated-test-sample-emitter.ts:165-225 | the ledger sample of a closed type is representative to depth two: constants for primitives, one element for each list and map, absent optionals, first constructors of variants and enums, records with all labels in order, a named type as its definition unless the limit is reached or the same reference is being emitted, and a smallest value there; said of descriptors, whose values `ProtobufTyping.ReadsExactly` and `JsonTyping.DecodesExactly` give |
| SampleShapes.EmitIsRepresentative | src/daml-interface/emission/generated-test-sample-emitter.ts:185-225 | the induction behind it, under any linked bindings, depth and active set |
| SampleShapes.FiniteIsSmallest | src/daml-interface/emission/generated-test-sample-emitter.ts:227-309 | finite samples under any visited set: empty containers, absent optionals, first enum constructors, some constructor of a variant with a finite payload |
| SampleSoundness.NumericSampleDecodes | src/daml-interface/emission/generated-test-sample-emitter.ts:311-363 | the numeric sample of every scale 0 to 37 decodes to itself under that scale |
| SampleSoundness.PrimitiveSampleMeans | src/daml-interface/emission/generated-test-sample-emitter.ts:311-363 | what the ledger sample of each primitive type decodes to |
| SampleSoundness.MaterializeRecord | src/daml-interface/runtime/daml-value-materializer.ts:23-37 | assigning record fields and then materialising them gives the object literal of the materialised fields, for repeated names too |
| FiniteSamples.FiniteNeverThrows | src/daml-interface/emission/generated-test-sample-emitter.ts:227-309 | on well-formed projects the finite search ends with a sample, with none, or not at all, but never with an error |
| FiniteSamples.FiniteFinds | src/daml-interface/emission/generated-test-sample-emitter.ts:227-309 | the visited-set cut loses nothing: a type with a derivation of height n, none of whose visited references is derivable below its own, is not reported as missing |
| Inhabitation.DecodedIsGrounded | src/daml-interface/runtime/daml-value-converter.ts:238-379 | every successfully decoded JSON value yields a finite derivation of its type |
| Inhabitation.FiniteIsExact | src/daml-interface/emission/generated-test-sample-emitter.ts:227-309 | whenever the search from the empty visited set ends, it returns a sample if and only if some JSON value decodes as the type; generics included |
| SampleLimits.EndsWithoutClosedSet | src/daml-interface/emission/generated-test-sample-emitter.ts:227-309 | with the constructors of the nested type swapped the search enters one reference and succeeds, although no finite set holding it is closed under what bodies show |
| FiniteTermination.FiniteEndsExactly | src/daml-interface/emission/generated-test-sample-emitter.ts:227-309 | the search ends on some stack if and only if the search confined to some finite set of references never asks for one outside; a stack of twice that set and one is then enough |
| FiniteTermination.StayingEnds | src/daml-interface/emission/generated-test-sample-emitter.ts:227-309 | under any bindings and visited set, a confined search that stays inside has the emitter's outcome |
| FiniteTermination.EndedStays | src/daml-interface/emission/generated-test-sample-emitter.ts:281-306 | conversely the references an ended search entered confine it, with the same verdict |
| FiniteTermination.RegularStays | src/daml-interface/emission/generated-test-sample-emitter.ts:227-309 | a set closed under the references its bodies show confines the search from every visited set |
| Inhabitation.StayingDecides | src/daml-interface/emission/generated-test-sample-emitter.ts:227-309 | a search that stays in a finite set decides inhabitation |
| Inhabitation.FiniteDecides | src/daml-interface/emission/generated-test-sample-emitter.ts:227-309 | on such types the search decides inhabitation |
| Inhabitation.MonomorphicDecides | src/daml-interface/emission/generated-test-sample-emitter.ts:227-309 | without generic definitions a stack of twice the number of definitions decides inhabitation of every type |
| SampleLimits.EmitSucceeds | src/daml-interface/emission/generated-test-sample-emitter.ts:185-225 | emission yields a sample only if the frontier its choices lead to at the depth limit is inhabited, and throws only if it is not |
| SampleLimits.EmitReferenceSucceeds | src/daml-interface/emission/generated-test-sample-emitter.ts:403-446 | the same for a named reference, expanded or searched |
| SampleLimits.FirstConstructorOnly | src/daml-interface/emission/generated-test-sample-emitter.ts:375-386 | for a variant whose second constructor is inhabited and whose first is not, one call of the emitter throws although a value decodes; the sample of the empty type behind the first constructor is refused as well |
| SampleLimits.NestNeverEnds | src/daml-interface/emission/generated-test-sample-emitter.ts:281-306 | with a nested generic every entry makes a new fingerprint, so the visited set never cuts and every stack is exhausted |
| SampleLimits.NestedTypesOverflow | src/daml-interface/emission/generated-test-sample-emitter.ts:403-446 | a well-formed, inhabited nested type exhausts every stack |
| SampleTermination.EmissionEndsExactly | src/daml-interface/emission/generated-test-sample-emitter.ts:185-225 | under any closed bindings, depth and active set: emission ends on some stack if and only if the finite searches it starts stay in some finite set of references; a stack linear in that set and the depth is then enough, and the outcome is the confined verdict |
| SampleTermination.ConfinedEnds | src/daml-interface/emission/generated-test-sample-emitter.ts:185-225 | the induction behind it: confined emission that stays inside has the emitter's outcome, thrown errors included |
| SampleTermination.SaturatedStays | src/daml-interface/emission/generated-test-sample-emitter.ts:185-225 | with all references reachable from the type, its bindings and their bodies in a finite set, no search of the emission leaves it |
| SampleTermination.EmissionDecides | src/daml-interface/emission/generated-test-sample-emitter.ts:165-225 | for closed types with finitely many reachable references the outcome is a sample if and only if the frontier is inhabited, and an error otherwise |
| SampleTermination.MonomorphicEmissionDecides | src/daml-interface/emission/generated-test-sample-emitter.ts:165-225 | the same for every closed type of a project without generic definitions |
| GenerationRun.RunSucceedsExactly | src/daml-interface/emission/generated-spec-emitter.ts:140-184 | over all samples of a run (every definition at Text arguments, every constructor by itself, all template and choice types): when none overflows, none is refused if and only if every definition has a value at Text arguments |
| GenerationRun.RunDecides | src/daml-interface/emission/generated-spec-emitter.ts:140-184 | a run whose searches all stay in one finite set of references ends on a stack linear in it, and is refused no sample if and only if every definition has a value at Text arguments |
| GenerationRun.MonomorphicRunDecides | src/daml-interface/emission/generated-spec-emitter.ts:140-184 | without generic definitions every run ends on a stack linear in their number, with the same outcome |
| GenerationRun.NeverThrows | src/daml-interface/emission/generated-test-sample-emitter.ts:185-225 | when all definitions have values at Text arguments, every closed type and every definition body under closed bindings is sampled without an error at every depth |
| GenerationRun.ClosedIsGrounded | src/daml-interface/emission/generated-spec-emitter.ts:417-429 | Text arguments are representative: if all definitions are derivable there, every closed type is derivable |
| GenerationRun.ImprovedKeyGrounded | src/daml-interface/emission/generated-spec-emitter.ts:417-429 | a reference derivable at Text arguments stays derivable when they are replaced by derivable ones, with the heights added |
| GenerationRun.DescriptorSpecHolds | src/daml-interface/emission/generated-spec-emitter.ts:354-385 | the registry resolves every definition at Text descriptors, as the descriptor spec asserts |
| ScopedTypes.CompileResolved | src/daml-interface/emission/support-file-emitter.ts:278-306 | substitution commutes with compilation: replacing variables by closed types and compiling equals compiling with the argument descriptors, and the result is closed |
| ScopedTypes.BindLinked | src/daml-interface/emission/generated-test-sample-emitter.ts:574-595 | binding closed arguments to parameters keeps types and descriptors of all variables in step, also for repeated parameter indices |
| ScopedTypes.EnterDefinition | src/daml-interface/emission/support-file-emitter.ts:256-332 | entering a reference from linked bindings: arguments compile, the body is scoped by its own parameters, the new bindings are linked, and the registry entry is the compiled body |
| ScopedTypes.ResolveIsSubstitution | src/daml-interface/emission/support-file-emitter.ts:308-332 | resolving a closed reference gives the descriptor of its definition's body with the argument types substituted, with no variable left |
| ScopedTypes.BodiesAgree | src/daml-interface/emission/support-file-emitter.ts:334-352 | the descriptor emitter and the sample emitter use the same property names for every definition |
| RecordLoops.EmitFiniteRecord | src/daml-interface/emission/generated-test-sample-emitter.ts:487-514 | the loop pushing record fields equals the recursive search, first missing field included |
| RecordLoops.EmitFiniteVariant | src/daml-interface/emission/generated-test-sample-emitter.ts:263-273 | the loop over constructors returns the first one with a finite payload |
| RecordLoops.FirstFiniteIsTaken | src/daml-interface/emission/generated-test-sample-emitter.ts:263-273 | the sample of a variant is of the first constructor with a finite payload |
| RecordLoops.DecodeProtobufRecord | src/daml-interface/runtime/daml-value-converter.ts:189-236 | the loops filling the output by label or by position equal the recursive record decoder |
| RecordLoops.DecodeProtobufLabelled | src/daml-interface/runtime/daml-value-converter.ts:212-220 | the loop by label succeeds exactly when every descriptor field is found and decodes, and leaves the assignments of all fields in order |
| RecordLoops.DecodeProtobufPositional | src/daml-interface/runtime/daml-value-converter.ts:230-232 | the loop by position likewise |
| RecordLoops.DecodeJsonRecord | src/daml-interface/runtime/daml-value-converter.ts:329-363 | the loops over an array or an object, with the check for unexpected labels, equal the JSON decoder |
| RecordLoops.DecodeJsonLabelled | src/daml-interface/runtime/daml-value-converter.ts:354-360 | the object loop succeeds exactly when every label decodes, and leaves the assignments of all fields in order |
| RecordLoops.DecodeJsonPositional | src/daml-interface/runtime/daml-value-converter.ts:337-339 | the array loop likewise, by position |
| ProtobufTyping.DecodersAgree | src/daml-interface/runtime/daml-value-converter.ts:64-187 | for every closed type: the protobuf decoder returns `x` if and only if the value has the type and means `x`, and the JSON decoder returns the same for its JSON form |
| ProtobufTyping.ReadsExactly | src/daml-interface/runtime/daml-value-converter.ts:85-236 | the same under any type arguments. Having a type and meaning `x` are defined on types, without descriptors and without the decoder: an enum holds each of its names, a numeric its own scale, a date the day it names, a boolean itself, lists and maps their entries in order, a record its labels or positions read into the properties its file names, a variant each constructor, a variable the argument in its slot, a reference its definition |
| JsonTyping.DecodesExactly | src/daml-interface/runtime/daml-value-converter.ts:238-379 | for every closed type the JSON decoder returns `x` if and only if the JSON value has the type and means `x`, which is defined on types too: null for an absent optional, an array or an object without other labels for a record, `tag` and `value` for a variant, arrays of two for map entries |
| ProtobufTyping.BodyIsNamed | src/daml-interface/emission/support-file-emitter.ts:334-352 | the records of the registry carry exactly the property names their definition's file gives, and the fields' own where it gives none |
| DecoderAgreement.Agree | src/daml-interface/runtime/daml-value-converter.ts:85-187 | the induction behind it, under linked bindings |
| DecoderAgreement.OptionalAgrees | src/daml-interface/runtime/daml-value-converter.ts:64-83 | a present Optional whose content is null in JSON reads as absent on both sides |
| DecoderAgreement.NoUnexpectedField | src/daml-interface/runtime/daml-value-converter.ts:189-236 | a labelled record that decodes holds exactly the expected labels, by counting |
| DecoderAgreement.LabelCount | src/daml-interface/runtime/daml-value-converter.ts:189-212 | a labelled record has as many distinct labels as fields exactly when no label repeats |
| RecordEncodings.FieldOrderIrrelevant | src/daml-interface/runtime/daml-value-converter.ts:189-236 | every permutation of a labelled protobuf record has the same decoding, errors included |
| RecordEncodings.LabelledIsPositional | src/daml-interface/runtime/daml-value-converter.ts:189-236 | a record labelled in any order decodes like its positional encoding |
| DecodedConformance.DecodedConforms | src/daml-interface/runtime/daml-value-converter.ts:238-379 | every decoded JSON value conforms to its descriptor: shapes, exactly the descriptor's properties, 64-bit, date, timestamp and numeric ranges |
| DecodedConformance.ProtoConforms | src/daml-interface/runtime/daml-value-converter.ts:85-236 | the same for every protobuf value the decoder accepts, text maps that repeat a key included |
| DamlNumerics.DecodeNumericExact | src/daml-interface/runtime/daml-value-converter.ts:488-534 | numeric decoding succeeds exactly when the precision and scale checks pass; the result has the same exact value and fraction digits, at most 38 digits, and decodes to itself |
| DamlNumerics.CanonicalAccepted | src/core/types/daml-numeric.ts:7-12 | every canonicalised text is in DamlNumeric's grammar, so the error handler around the constructor is dead |
| DamlNumerics.CanonicalKeepsValue | src/daml-interface/runtime/daml-value-converter.ts:516-534 | canonicalisation keeps the exact rational, the sign and the scale, and never adds digits |
| DamlNumerics.DamlNumericIsCanonical | src/daml-interface/runtime/daml-value-converter.ts:516-534 | texts in DamlNumeric's grammar are fixed points of canonicalisation |
| ValueMaterializer.MaterializeShows | src/daml-interface/runtime/daml-value-materializer.ts:23-37 | every decoded value is exposed as its own kind of value: lists element by element, records and maps entry by entry, dates and texts with what they hold |
| ValueMaterializer.MapSetAllHolds | src/daml-interface/runtime/daml-value-materializer.ts:31-31 | a Map built from pairs has one entry for each key, in the order of first occurrence, with the value set last; objects are never the same key |
| JsValues.PutAllAssigns | src/daml-interface/runtime/daml-value-materializer.ts:25-25 | assigning properties leaves one for each name, in the order of first assignment, with the value assigned last |
| Analysis.AnalyzeOrThrow | src/daml-interface/analysis/daml-interface-analyzer.ts:44-79 | analysis succeeds if and only if some set of analyzable types covers the templates and the serializable data types; its definitions are closed under reference, without repeats, and contained in every such set; it ends on cyclic types |
| Analysis.GetTypeDefinitions | src/daml-interface/analysis/daml-interface-analyzer.ts:321-333 | fails exactly when an entry is unfinished, and lists the definitions in registration order |
| Analysis.AnalysisIsWellFormed | src/daml-interface/analysis/daml-interface-analyzer.ts:345-443 | in an analysis result every variable is bound by its own definition, every reference resolves with matching arity, members of definitions are no inline structures, and template types are closed |
| LfTyping.KeepsValues | src/daml-interface/analysis/daml-interface-analyzer.ts:190-305 | the analyzed type has exactly the values of the LF type, with the same meanings, under any type arguments |
| LfSupport.SupportedExactly | src/daml-interface/analysis/daml-interface-analyzer.ts:190-371 | a type elaborates, referring to given data types only, if and only if it is supported: variables named and in scope, references with all parameters, of kind `*`, builtins with their arguments and numerics with a scale from 0 to 37 |
| LfSupport.CoversExactly | src/daml-interface/analysis/daml-interface-analyzer.ts:44-79 | what the analyzer needs to accept a model is a set of supported data types that holds the serializable ones and all that its templates lead to |
| TypeAnalyzer.AnalyzedDamlTypeBuilder.BuildOrThrow | src/daml-interface/analysis/daml-interface-analyzer.ts:190-305 | on success the type is the elaboration of the LF type, whose values `LfTyping.KeepsValues` gives, and all its references are registered; the table only grows, new keys are appended, and it is exactly what the type leads to; ends by unregistered keys, then type size |
| TypeAnalyzer.AnalyzedDamlTypeBuilder.BuildNamedReferenceOrThrow | src/daml-interface/analysis/daml-interface-analyzer.ts:345-371 | the same for a reference: arity and parameter kinds are checked before arguments, and its definition is registered |
| TypeAnalyzer.AnalyzedDamlTypeBuilder.RegisterNamedDefinitionOrThrow | src/daml-interface/analysis/daml-interface-analyzer.ts:373-392 | a key is marked before its definition is built, so cycles end; afterwards the entry is finished unless building threw |
| TypeAnalyzer.AnalyzedDamlTypeBuilder.BuildNamedDefinitionOrThrow | src/daml-interface/analysis/daml-interface-analyzer.ts:394-443 | a definition is built in the scope of its own parameters |
| NameAllocation.Escalate | src/daml-interface/emission/type-script-name-resolver.ts:496-503 | the escalation loop ends and returns the first free of its candidates |
| NameAllocation.FirstFreeIsLeast | src/daml-interface/emission/type-script-name-resolver.ts:500-503 | the suffix chosen is the least one whose name is free |
| NameAllocation.TriesBounded | src/daml-interface/emission/type-script-name-resolver.ts:500-503 | by pigeonhole, the loop fails at most once for each used name |
| NameResolution.ResolveNames | src/daml-interface/emission/type-script-name-resolver.ts:463-511 | the grouping and allocation loops compute the allocation function over the values sorted by key; the lookup of a group never fails |
| NameResolution.CountGroups | src/daml-interface/emission/type-script-name-resolver.ts:464-470 | the group counts are the numbers of values with the same scope and base name |
| NameResolution.NamesSeparate | src/daml-interface/emission/named-type-emitter.ts:576-623 | for any hash and any order every value gets a name, names in a scope are pairwise distinct, and none is reserved there |
| NameResolution.NamesFromBase | src/daml-interface/emission/type-script-name-resolver.ts:488-503 | a name is its base when no other value of the scope shares the base, and the base with separator and hash when one does, with at most one mark appended |
| NameResolution.UnclaimedIsKept | src/daml-interface/emission/type-script-name-resolver.ts:488-508 | a value whose base no other value of its scope has is named exactly its base, and one that shares its base the base, the separator and the hash, unless that is reserved or given to another value of the scope |
| NameResolution.NamesAsWanted | src/daml-interface/emission/type-script-name-resolver.ts:488-508 | values whose bases, with separator and hash where shared, neither clash nor are reserved get exactly those, so no mark is added without need |
| NameResolution.SortIsStable | src/daml-interface/emission/type-script-name-resolver.ts:476-477 | values are taken in the order of their keys, and those with one key in the order given |
| NameResolution.NamesIgnoreOrder | src/daml-interface/emission/type-script-name-resolver.ts:476-508 | with distinct keys under a total order the names do not depend on the input order |
| ProjectNames.TypeScriptNameResolver.PrepareProjectOrThrow | src/daml-interface/emission/type-script-name-resolver.ts:86-242 | fails exactly for a duplicate template identity, leaving no names; otherwise the tables hold the resolved paths, aliases and class names, and the lookups and final distinctness checks never throw |
| ProjectNames.TypeScriptNameResolver.CheckOutputs | src/daml-interface/emission/type-script-name-resolver.ts:513-553 | the three final checks pass on resolved tables |
| ProjectNames.AssertDistinct | src/daml-interface/emission/type-script-name-resolver.ts:513-533 | throws exactly when two identities share an output |
| ProjectNames.OutputsDistinct | src/daml-interface/emission/type-script-name-resolver.ts:132-241 | module directories, template files, namespace aliases and class names of a project are globally distinct, and no template file is the types or index file of a module |
| ProjectNames.FilePathsDistinct | src/daml-interface/emission/type-script-name-resolver.ts:180-241 | a generated path determines its package, module and file name |
| ProjectNames.FileNotReserved | src/daml-interface/emission/type-script-name-resolver.ts:606-612 | no resolved template file name is `index` or `types` |
| ProjectNames.ProjectIgnoresOrder | src/daml-interface/emission/type-script-name-resolver.ts:116-178 | all generated names are independent of the order of templates and type definitions |
| ProjectNames.ClassNamesSpelled | src/daml-interface/emission/type-script-name-resolver.ts:175-182 | a class keeps its type name, with `_` and the hash of the template's identity when another template of the project has that name; a number is added only to what is taken |
| ProjectNames.FileNamesSpelled | src/daml-interface/emission/type-script-name-resolver.ts:155-162 | the same for files in their module, with `-`; the stems `index` and `types` become `index-template` and `types-template` |
| ProjectNames.AliasNamesSpelled | src/daml-interface/emission/type-script-name-resolver.ts:164-173 | the same for namespace aliases in the project, with `_` |
| ProjectNames.ModuleNamesSpelled | src/daml-interface/emission/type-script-name-resolver.ts:146-153 | the same for module directories in their package, with `-` |
| ProjectNames.PackageNamesSpelled | src/daml-interface/emission/type-script-name-resolver.ts:137-144 | the same for package directories, with `-` |
| ModuleExports.GetReservedModuleExports | src/daml-interface/emission/named-type-emitter.ts:625-650 | the reserved names of a module are the symbols its templates export |
| ModuleExports.ResolveDefinitionNamesOrThrow | src/daml-interface/emission/named-type-emitter.ts:543-574 | fails exactly for duplicate definitions; otherwise gives every definition its collision-safe name |
| ModuleExports.TypeExportsSeparate | src/daml-interface/emission/named-type-emitter.ts:576-688 | named type exports of a module are pairwise distinct and avoid all template exports and runtime bindings, for any hash |
| ModuleExports.DefinitionNamesSpelled | src/daml-interface/emission/named-type-emitter.ts:576-623 | a named type keeps its type name, with `_` and a hash when another of its module has that name; `Type` or a number is added only to what a template, the runtime or another type of the module holds |
| ModuleExports.TypesAvoidTemplates | src/daml-interface/emission/named-type-emitter.ts:625-650 | no named type is called like a class of its module, its `Fields`, its `CreatedEvent`, or the `Choice` or `ExercisedEvent` type of one of its choices |
| ModuleExports.AssertDistinctModuleExportedSymbols | src/daml-interface/emission/support-file-emitter.ts:141-175 | passes exactly when all template symbols and type names together are distinct |
| ModuleExports.OnlyTemplatesCollide | src/daml-interface/emission/project-emitter.ts:38-58 | in the pipeline that check fails exactly when template symbols collide among themselves |
| ModuleExports.OneTemplateIsDistinct | src/daml-interface/emission/support-file-emitter.ts:177-189 | the symbols of one template are distinct when its choice stems are |
| ModuleExports.TemplatesCanCollide | src/daml-interface/emission/support-file-emitter.ts:141-160 | templates Foo and FooFields have distinct classes but share a symbol |
| SampleImports.SamplesKeepImportsSafe | src/daml-interface/emission/generated-spec-emitter.ts:55-71 | over any samples threading imports forward, local names stay pairwise distinct and unreserved, every import asked for has one, and an import keeps its first local name |
| SampleImports.EmitSamples | src/daml-interface/emission/generated-spec-emitter.ts:55-71 | the closure reassigning `imports` computes that run |
| SampleImports.EmitSample | src/daml-interface/emission/generated-test-sample-emitter.ts:134-163 | one emission: a collector of the imports so far, the reserved names, then the requests of the sample |
| SampleImports.GeneratedTestSampleImportCollector.Add | src/daml-interface/emission/generated-test-sample-emitter.ts:51-88 | returns the recorded local name of a known import; a new one gets the first free name of exported, qualified, qualified_2, ... |
| SampleImports.KnownImportsAddNothing | src/daml-interface/emission/generated-test-sample-emitter.ts:58-64 | asking again for known imports changes nothing |
| SampleImports.LocalNameSpelled | src/daml-interface/emission/generated-test-sample-emitter.ts:66-88 | a new import keeps its exported name if that is free, else the name behind its namespace alias, else that with the least free number from 2 on |
| Varints.VarintRoundTrip | src/core/errors/grpc-transport-error.ts:212-236 | a number written in up to eight bytes, overlong ones included, reads back as its double, which is the number itself up to seven bytes |
| Varints.EncodedVarint | src/core/errors/grpc-transport-error.ts:212-236 | whatever reads as a varint was written as one |
| Varints.DoubleIsNearest | src/core/errors/grpc-transport-error.ts:212-236 | a number of up to 56 bits is held as the nearest double, ties to even (IEEE 754) |
| WireReading.WireReader.ReadVarint | src/core/errors/grpc-transport-error.ts:212-236 | the accumulating loop in doubles reads exactly the varint at the cursor and moves behind it |
| WireReading.WireReader.ReadRawBytes | src/core/errors/grpc-transport-error.ts:238-250 | reads a length and that many bytes, or fails |
| WireReading.WireReader.Skip | src/core/errors/grpc-transport-error.ts:256-272 | moves behind a field of wire type 0, 1, 2 or 5 inside the bytes, and fails otherwise |
| WireReading.ReadErrorInfo | src/core/errors/grpc-transport-error.ts:155-207 | the nested reading loops return the fold over the fields, and nothing for malformed bytes or an empty reason |
| WireReading.DecodeErrorInfo | src/core/errors/grpc-transport-error.ts:139-153 | returns the first ErrorInfo detail that reads, and nothing exactly when none does |
| ErrorInfo.ReadsExactlyEncodings | src/core/errors/grpc-transport-error.ts:165-200 | the reader accepts exactly the encodings of lists of well-formed fields whose left fold succeeds, with that result (section "Message Structure" of the Protocol Buffers Encoding specification) |
| ErrorInfo.ReadAppend | src/core/errors/grpc-transport-error.ts:165-200 | reading a followed by b is reading b from the state a leaves |
| ErrorInfo.UnknownFieldsChangeNothing | src/core/errors/grpc-transport-error.ts:197-200 | unknown fields of wire types 0, 1, 2 and 5 change nothing, wherever they stand |
| ErrorInfo.LastOneWins | src/core/errors/grpc-transport-error.ts:172-175 | a later reason or domain replaces an earlier one (section "Last One Wins") |
| ErrorInfo.ParsedExactly | src/core/errors/grpc-transport-error.ts:155-207 | bytes are read as an info if and only if they encode fields whose texts are UTF-8 and whose metadata reads, the last reason is not empty, and the info is the last reason, the last domain and the entries with a key, later ones replacing earlier ones |
| ErrorInfo.EntryReads | src/core/errors/grpc-transport-error.ts:177-193 | a metadata entry is the last key and the last value of its fields |
| ErrorInfo.InfoRoundTrip | src/core/errors/grpc-transport-error.ts:155-207 | writing a reason, a domain and keyed metadata, each field in tag and length widths of its own up to seven bytes, and reading them gives the same info, the last entry of a key kept |
| UpdateStreams.Session.MatchResumedUpdate | examples/shared/update-stream-lifecycle.ts:115-151 | the result is the primary outcome, or the first cleanup error when there is no primary one; after the reads the stream is cancelled (when possible) and released once each, in every case |
| UpdateStreams.Session.SubmitAndMatchUpdate | examples/shared/update-stream-lifecycle.ts:153-202 | a failed submission cancels the stream and is rethrown unmasked; in every case the iterator is released once |
| UpdateStreams.Session.CleanupStream | examples/shared/update-stream-lifecycle.ts:218-250 | both operations are attempted in order; the first failure surfaces unless a primary one did |
| UpdateStreams.Session.ReadUntilMatched | examples/shared/update-stream-lifecycle.ts:127-143 | the loop ends in the primary outcome after one `next` for every read behind the first |
| UpdateStreams.MatchIsFirst | examples/shared/update-stream-lifecycle.ts:129-143 | a match is returned exactly at the first matching update, which and all before which passed `reject` |
| UpdateStreams.MatchSurfaces | examples/shared/update-stream-lifecycle.ts:115-151 | a match surfaces if and only if the reads end in it and no cleanup fails; a read failure is never replaced |
| UpdateStreams.FailureSurfaces | examples/shared/update-stream-lifecycle.ts:115-151 | which error surfaces: that of the first failing read, rejection or matcher, with a deadline that ran out wrapped as a timeout, else after a match that of cancelling, else that of the release |
| UpdateStreams.DisposedAtMostOnce | examples/shared/update-stream-lifecycle.ts:30-62 | under any interleaving of calls and promise jobs the client is disposed at most once, and once when disposal was asked for and ran |
| UpdateStreams.ClientDisposalLifecycle.StartDisposal | examples/shared/update-stream-lifecycle.ts:40-49 | only the first call creates the disposal promise |
| Deadlines.OperationDeadline.RemainingTimeoutMs | src/core/types/operation-deadline.ts:28-38 | updates the remaining time to the least seen, throws when it is 0, and leaves it alone for a bad clock |
| Deadlines.RemainingIsLeast | src/core/types/operation-deadline.ts:28-38 | after any readings, backwards ones included, the remaining time is the least any of them left, attained, and never more than the timeout |
| Deadlines.TimeoutsNeverIncrease | src/core/types/operation-deadline.ts:28-38 | timeouts never increase and expiry is permanent |
| Deadlines.ExpiredExactly | src/core/types/operation-deadline.ts:28-38 | a deadline is expired exactly when some reading reached its end |
| Deadlines.AnswerIsLeast | src/core/types/operation-deadline.ts:28-38 | each answer is the least time that this or any earlier reading left, or expiry once one of them reached the end |
| Deadlines.CreateDeadline | src/core/types/operation-deadline.ts:10-26 | construction fails exactly for a timeout that is no positive safe integer, an unsafe clock or an unsafe end |
| Deadlines.PollUntil | src/core/polling/poll-until-async.ts:11-42 | returns the first observed value that matches; fails only when none observed does and the clock has reached the deadline after the last read or the sleep behind it, and at no earlier read; reads at most max(1, ceil(timeout / interval)) times |
| Deadlines.WaitForCompleteOriginalHistory | examples/shared/contract-lifecycle-audit.ts:130-195 | returns the first complete response; times out only when the clock has reached the end of the deadline, naming what the last response missed; fails on the clock only at a reading that is no safe integer; every read starts before the end; at most ceil(left / 100) reads |
| Timestamps.CanonicalIsoExact | src/daml-interface/runtime/daml-event-source-normalizer.ts:677-695 | an ISO text is accepted exactly when it matches the grammar and names a calendar second of the years 0001 to 9999, and becomes the text of its instant |
| Timestamps.IsoPartsExact | src/daml-interface/runtime/daml-event-source-normalizer.ts:677-695 | an ISO text splits into seconds and fraction exactly when it is those seconds, a point before a fraction of one to nine digits, and Z |
| Timestamps.CanonicalProtobufExact | src/daml-interface/runtime/daml-event-source-normalizer.ts:697-721 | seconds and nanos are accepted exactly in bounds and become the text of their instant |
| Timestamps.CanonicalDateExact | src/daml-interface/runtime/daml-event-source-normalizer.ts:723-733 | a Date is accepted exactly in bounds and becomes the text of its instant |
| Timestamps.FormsAgree | src/daml-interface/runtime/daml-event-source-normalizer.ts:663-733 | the Date, ISO and protobuf forms of one instant have the same canonical text |
| Timestamps.CanonicalIsoIdempotent | src/daml-interface/runtime/daml-event-source-normalizer.ts:677-695 | canonicalising a canonical text changes nothing |
| Timestamps.TextOrderIsTimeOrder | src/daml-interface/runtime/daml-event-source-normalizer.ts:677-733 | comparing canonical texts is comparing instants, and equal texts are equal instants |
| Timestamps.LedgerRangesAreYears | src/daml-interface/runtime/daml-value-converter.ts:466-486 | the ranges of decoded dates and timestamps are exactly the years 0001 to 9999 of the calendar |
| Timestamps.BoundsAreYears | src/daml-interface/runtime/daml-event-source-normalizer.ts:735-739 | the bounds are exactly the years 0001 to 9999 |
| Timestamps.TextSaysInstant | src/daml-interface/runtime/daml-event-source-normalizer.ts:663-733 | a canonical text has its digits at fixed places; read off them, the date exists in the calendar, its time in closed form is the second of the instant, and the fraction is its nanoseconds |
| Calendar.MonthStarts | src/daml-interface/runtime/daml-event-source-normalizer.ts:686-690 | in every year the months start on days 0, 31, 59, 90, 120, 151, 181, 212, 243, 273, 304 and 334, and from March on a day later when the year is divisible by 4 and not by 100, or by 400 (section 21.4.1 of ECMA-262) |
| Calendar.DatesExist | src/daml-interface/runtime/daml-event-source-normalizer.ts:686-690 | the dates that exist, by the lengths of the months and the leap day |
| Calendar.SecondsAreClosedForm | src/daml-interface/runtime/daml-event-source-normalizer.ts:697-721 | the time of a date in closed form, with years that begin in March, without any month table |
| Calendar.FieldsRoundTrip | src/daml-interface/runtime/daml-event-source-normalizer.ts:686-690 | valid calendar fields are the fields of their time, the check behind comparing toISOString with the input (section 21.4.1 of ECMA-262) |

## Left out

- Text of generated files: `satisfies` annotations, import statements, quoting, and the type names written in them.
- Error messages and the paths inside them.
- JavaScript object quirks: integer-like keys, `__proto__`, freezing and cloning, the cache of canonical identities.
- Normalisation of names to kebab and Pascal case, and its error for names without letters or digits; field property names and choice stems are taken as resolved.
- ProjectNames.OutputsDistinct: takes package directories, kebab-case names and hashes to hold no slash, which is what the normalisations produce.
- Varints.VarintRoundTrip: exactness is claimed up to seven bytes; eight-byte values are rounded to doubles as the source does.
- ErrorInfo.InfoRoundTrip: UTF-8 decoding is a parameter with a right inverse.
- ProtobufTyping.DecodersAgree: text maps hold distinct keys, which a JSON object must.
- Analysis.AnalyzeOrThrow: the naming errors of templates, template fields and choices are outside its if-and-only-if.
- ProjectNames.TypeScriptNameResolver.PrepareProjectOrThrow: normalisation errors and the field and choice names of each template are not modelled.
- GenerationRun.RunSucceedsExactly: assumes that no sample overflows (GenerationRun.RunDecides does not) and that enums have constructors, as DAML requires; the order of samples within a run is not modelled.
- EventSources: of the protobuf runtime's JSON mapping only the shapes the recogniser lets through; parsing of 64-bit integer texts is a parameter.
- UpdateStreams.Session.MatchResumedUpdate: streams whose results are a finite list followed by the end of the stream; reads that never settle are not modelled.
- UpdateStreams.Session.SubmitAndMatchUpdate: shares the reading loop, with a callback that rejects nothing.
- Deadlines.PollUntil: the polling interval is positive and the clock does not move back; a non-positive interval polls without a bound.
- Deadlines.WaitForCompleteOriginalHistory: the checks of a response are one flag.
- Aliases of imported named types, type parameter names, descriptor constant names and spec-local names: the same escalation loops once more.
- Relative module specifiers, namespace index files and the registry file.
- Numeric scales that are not integers.
- Transports, authentication, the command line, file writing, queries, the contract cache, the LF evaluator and the replay debugger.
