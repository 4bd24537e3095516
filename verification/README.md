# StateSpec in Dafny

This project models the parts of the StateSpec toolchain whose correctness spans many steps, and
proves what they are for. `dafny verify dfyconfig.toml` checks all of it. Code that the toolchain
writes as loops over mutable state is a class or a method here, proved against a function; the
results are lemmas about those functions.

**Composing includes.** `SpecFiles` holds the include graph and the order of a depth-first visit,
`IncludeGraph` what such a visit finds, `Composition` the walk as a function of the state it
carries, `CompositionResults` what an error-free walk guarantees, `CompositionReports` which
diagnostics any walk reports, `DeclaredVersions` when the versions that files declare must agree,
and `Composing.Composer` the walk as it updates its stack, loaded files and diagnostics in place. A
file is an identifier with what parsing it gives: a version, its includes, its system and its
diagnostics.

**Formatting.** `FormatTokens` is one pass over a token list as a function, `TokenLayout` and
`TokenConservation` what its output looks like, `TokenGaps` exactly what stands between any two
tokens, told from their kinds, lines and blocks alone, and `TokenFormatting.TokenFormatter` the pass
in place. `Expressions` tidies the spacing of an expression and `ExpressionSpacing` says exactly
when it succeeds. `WorkflowText` says which nested lines workflow statements are printed as and how
to read the lines back; `WorkflowReading` is the grammar of a printed statement and a reader from
lines to statements; `AstPrinting.AstFormatter` prints them to one stream with a running
indentation.

**Generated entity runtime.** `MemoryStore` and `MemoryBackend` are the in-memory backend's
transactions, `Interleavings` any number of them interleaved one operation at a time, under either
binding's rule for a key read again, and `LatestReads` what holds of runs under the Java rule.
`EntityLifecycle` is the generated create, update_status and delete handlers over such runs,
`StatusResponses` what the latter two write and answer, and `EntityHandlers` the handlers on a
transaction of their own. `Json` and `EntityKeys` make record keys from canonical text and
`CanonicalJson` is a strict reader that gives the values back; `MetadataTable` and
`MetadataRepository` are the operator metadata of external systems, and `MappingPlan` the plans that
map it to requests. `Codecs` encodes and decodes responses.

**Generators.** `Routes` extracts parameters from paths and checks key routes, `ApiPaths` and
`EntityConstants` split a path into literals and constants, `ApiDomains` and `CodecSlices` regroup
APIs and codecs, and `Durations` reads duration literals.

## What the proofs turned up

Each point is a lemma below; the model does what the code does.

- Composition compares versions only along the edges on which it first enters a file, so a file that
  declares none hides a difference between its includer and what it includes
  (`UndeclaredVersionHidesMismatch`). Call a versioned file a head if it is the root or is first
  entered from an unversioned one. The declared versions of an error-free composition agree exactly if
  those of its heads do (`VersionsAgreeIffHeadsDo`), and whatever is declared they must agree exactly
  if there is at most one head (`VersionsMustAgreeIff`).
- On the in-memory backend a read of a missing key records version 0 while erasing a key raises its
  version. So a transaction commits only if it touches no key that was ever erased
  (`CommitsAloneIff`), and an erased key can never be created again (`ErasedStaysErased`,
  `RemovedCannotReturn`): a record that garbage collection removes is gone for good
  (`RemovedForGood`), and creating it anew is a conflict (`CreateRecord`).
- The Java transaction keeps the last version it read of a key, not the first, while the repository's
  `README.md:436-442` asks for observed versions to be current. A run under that rule is equivalent to
  running its commits one after another exactly if each committed transaction's reads of the store
  returned, for each key, the version last read of it (`SerializableIffSteady`); there is a run in
  which one that read two different records commits (`UnsteadyRunCommits`).
- An update_status handler assembles its response after the commit, so an error can leave the status
  changed: exactly if the change was allowed and some field of the output shape is missing, null or of
  another type in the document (`ChangeStatus`, `UpdateFailsAfterCommit`). `AnswersBeforeIff` tells so
  from the record as it was before the call.
- A route is accepted if each key field is between braces anywhere in the path, but only a placeholder
  that fills a whole segment is extracted, so an accepted route can yield a null key
  (`AcceptedKeyCanBeNull`); `KeysNeverNullIff` is the exact condition.
- Normalising an expression may leave one of its own patterns behind where the text has two spaces in
  a row (`DoubleSpaceLeavesPattern`). It leaves none, and a second round changes nothing, exactly if
  the runs of spaces fit (`TidyIff`, `SecondRoundIff`, for every text): read from the left, a dot with
  spaces on both sides takes one from each, and then a run that touches bracket or comma patterns, or
  follows a dot that keeps a space before it, is no longer than the number of patterns it touches.
  Without dots this is a condition on each maximal run of spaces (`DotlessTidyIff`).
- `docs/style-guide.md:166` recommends the duration `P1D`, which reads as zero seconds: anything with
  days does (`LiteralParsesIff`, `OneDayIsNoSeconds`).
- Distinct names can get one constant, and the generated constants then do not compile
  (`NamesCanCollide`). They compile exactly if the identifiers of the fields, of the indexes, of the
  states and of the relations are pairwise distinct, no field's is another one followed by `TypeName`,
  no index's another one followed by `HelperName`, and no relation's that of a relation with a
  relation kind followed by `Relation` (`CompilesIff`).
- The descriptor catalog drops an API that is not CRUD and has the name of one that is
  (`CatalogListsEachOnceIff`, `CatalogDropsApi`).
- A response with a null in a JSON-typed field does not survive encoding (`RoundTripIff`, `NullIsLost`).
- A printed statement can be read in another way than it was meant where a part has a separator in it:
  an assignable with ` = `, a moved expression with ` from `. `AllReadBack` is the exact condition.
- `docs/includes.md` lists fewer merged declaration lists than the sixteen the code appends; the model
  appends the sixteen.

## Model

| member | source | states |
|---|---|---|
| IncludeGraph.EnterSound | cmd/statespec.cpp:195-317 | a visit enters only new, existing, reachable files, and each once |
| IncludeGraph.EnterClosed | cmd/statespec.cpp:205-234 | everything a finished file includes was finished before it or is still on the stack |
| IncludeGraph.SearchIsReachability | cmd/statespec.cpp:195-317 | a visit from the root enters exactly the files reachable through files with a system |
| IncludeGraph.BackEdgeIffCycle | cmd/statespec.cpp:205-221 | an include of a file on the stack is met exactly if a cycle is reachable |
| Composition.LoadIffFaultless | cmd/statespec.cpp:195-317 | a walk reports no error exactly if its visit meets no missing file, no unclean parse, no stacked file, no version or scope conflict; then its result gathers the visited files' declarations |
| CompositionReports.LoadReports | cmd/statespec.cpp:195-317 | a walk from any state, errors included, adds to its diagnostics those of a trace: each file is parsed once and on the stack of its includers; a file opened without errors has, in order, one SSPEC5001 for each missing and one SSPEC5002 for each stacked include, any other file none; a version or scope clash is reported only between files that differ and where nothing failed before |
| CompositionReports.WalkReports | cmd/statespec.cpp:195-317 | the same from the start: the diagnostics are exactly those of the parsed files in order of parsing and the errors of the trace |
| CompositionReports.ClashIsReported | cmd/statespec.cpp:284-300 | where all reachable files parse cleanly and no cycle is reachable, no other errors are reported; SSPEC5003 exactly if versions disagree on a first-entry edge, scopes agreeing; SSPEC5004 exactly if scopes differ, versions agreeing |
| CompositionResults.SucceedsIff | cmd/statespec.cpp:195-317 | composition is error-free iff every reachable file exists and parses cleanly, no cycle is reachable, versions agree along first-entry edges and any two reachable scopes agree |
| CompositionResults.CycleIsReported | cmd/statespec.cpp:205-221 | a reachable cycle always makes an error, whatever else is wrong |
| CompositionResults.ComposedOrder | cmd/statespec.cpp:258-317 | the order of an error-free composition lists each reachable file once, every included file before its includers |
| CompositionResults.LoadedIsReachable | cmd/statespec.cpp:223-234 | the loaded files of an error-free composition are exactly the reachable ones |
| CompositionResults.ComposedDeclarations | cmd/statespec.cpp:136-166 | each of the sixteen lists is the concatenation of the reachable files' own lists in that order, under the root's name and version |
| CompositionResults.ComposedTenancy | cmd/statespec.cpp:168-193 | a tenant scope is there iff some reachable file declares one, and all that do declare that one; the system tenant is the first in visiting order |
| DeclaredVersions.VersionsAreTheRoots | cmd/statespec.cpp:284-300 | if every reachable file declares a version, all are the root's |
| DeclaredVersions.VersionsAgreeIffHeadsDo | cmd/statespec.cpp:284-300 | the declared versions of an error-free composition agree iff those of the heads do: the root, if versioned, and each versioned file first entered from an unversioned one |
| DeclaredVersions.VersionsMustAgreeIff | cmd/statespec.cpp:284-300 | for fixed includes and declarers, every error-free choice of versions agrees iff there is at most one head |
| CompositionResults.UndeclaredVersionHidesMismatch | cmd/statespec.cpp:284-300 | an error-free composition whose root and one reachable file declare different versions, so that the condition of the rows above can fail |
| Composing.Composer.StackContains | cmd/statespec.cpp:121-134 | whether a file is being loaded |
| Composing.Composer.ReportsErrors | src/diagnostic.cpp:41-51 | whether any diagnostic is an error, warnings aside |
| Composing.Composer.LoadComposed | cmd/statespec.cpp:195-317 | the recursive walk terminates on every file graph, keeps the stack a simple path of includes from the root and restores it, parses no file twice, and its state, diagnostics and result are those of the specified walk |
| Composing.Composer.TakeInclude | cmd/statespec.cpp:260-309 | one turn of the include loop leaves the rest of the specified walk to be done |
| TokenLayout.RunConsistent | src/formatter.cpp:1507-1587 | in every run, unbalanced ones included, the indentation and both block stacks have the height of the brace depth and the lines so far hold the tokens so far |
| TokenLayout.LinesPlaced | src/formatter.cpp:1515-1640 | every token is on a line, each `}` alone on one, each `{` last on one, each line indented by its depth |
| TokenLayout.MatchingBracesAlign | src/formatter.cpp:1547-1587 | a `}` is alone on a line indented as the line that its matching `{` ends |
| TokenConservation.FormattedInterleaves | src/formatter.cpp:1532-1649 | the output is the tokens in order with white gaps, no gap between two words being empty, up to the newlines trimmed at its end |
| TokenConservation.TokensConserved | src/formatter.cpp:1532-1649 | white space aside the output is the tokens before the first end of file |
| TokenConservation.LexemesConserved | src/formatter.cpp:1532-1649 | and on a lexer's tokens, their lexemes |
| TokenConservation.NoTwoBlankLines | src/formatter.cpp:1515-1530 | with nonempty lexemes on one line each, no two blank lines in a row |
| TokenGaps.FormattedIsLaid | src/formatter.cpp:1507-1649 | for every token list the output is the tokens with these gaps: within a line one space or nothing, one on both sides of a binary operator, before `{` and after a comma, none before a comma and beside compact tokens; a line ends after `{`, `}` and `;`, before `}`, on a later source line and at a member of a feature flag, state or garbage-collection block; a blank line is kept from the source, though not after `{` or `;`, or follows a `}` at the top, never right after another |
| TokenGaps.InnermostIs | src/formatter.cpp:1547-1587 | the block that a token is in is that of the nearest `{` from which the braces balance |
| TokenFormatting.TokenFormatter.StepToken | src/formatter.cpp:1532-1640 | one turn of the loop takes the state in place to the next specified one, its look-ahead in bounds |
| TokenFormatting.TokenFormatter.WriteAll | src/formatter.cpp:1532-1640 | the loop ends at the first end of file in the specified state |
| TokenFormatting.Format | src/formatter.cpp:1497-1650 | the whole pass gives the specified text, or nothing after an error |
| TokenFormatting.CountIsFirst | src/formatter.cpp:1532-1538 | the pass stops at the first end of file |
| Expressions.Find | src/formatter.cpp:315-325 | the first occurrence at or after a position |
| Expressions.ReplaceAll | src/formatter.cpp:315-325 | the in-place loop terminates and replaces as the one-pass specification does |
| Expressions.NormalizedExpression | src/formatter.cpp:315-333 | the six replacements in their order |
| Expressions.NormalizedLosesSpaces | src/formatter.cpp:315-333 | input and output agree once their spaces are removed |
| Expressions.NormalizedIsTidy | src/formatter.cpp:315-333 | on text without two spaces in a row none of the six patterns is left |
| Expressions.NormalizedTwice | src/formatter.cpp:315-333 | there a second round changes nothing |
| Expressions.DoubleSpaceLeavesPattern | src/formatter.cpp:315-333 | with two spaces in a row a pattern can be left, and a second round changes the text |
| ExpressionSpacing.NormalizedIsShrunk | src/formatter.cpp:315-333 | after the dots are closed up, each run of spaces is shorter by one for a bracket before it and by one for a bracket or comma after it |
| ExpressionSpacing.TidyIff | src/formatter.cpp:315-333 | on every text, none of the six patterns is left iff the runs of spaces fit, read from the left |
| ExpressionSpacing.DotlessTidyIff | src/formatter.cpp:315-333 | without dots, none is left iff every maximal run of spaces touching bracket or comma patterns is no longer than the number it touches |
| ExpressionSpacing.SecondRoundIff | src/formatter.cpp:315-333 | a second round changes nothing iff the runs of spaces fit |
| WorkflowText.ReadLines | src/formatter.cpp:232-267 | a reader that tells lines by their ends, a lone brace, ` {` or neither, undoes printing at any depth, whatever follows |
| WorkflowText.LinesIndented | src/formatter.cpp:232-267 | every line is indented by two spaces for each block open, a closing brace as its header |
| WorkflowText.StatementsRecovered | src/formatter.cpp:1306-1454 | statements nested to any depth are recovered from their text, header by header and line by line |
| WorkflowReading.AllReadBack | src/formatter.cpp:1306-1454 | reading the printed statements by keywords and separators gives back kind, target, binding, assignables, expression, payload and nested statements of every printable one, up to tidied text, iff no part has in it the separator that the grammar puts after it |
| WorkflowReading.TextReadsBack | src/formatter.cpp:1306-1454 | the same from the text, at any indentation |
| AstPrinting.AstFormatter.Line | src/formatter.cpp:232-245 | one line at two spaces for each open block |
| AstPrinting.AstFormatter.OpenBlock | src/formatter.cpp:256-267 | a header line ending in ` {` and one more level |
| AstPrinting.AstFormatter.CloseBlock | src/formatter.cpp:256-267 | the closing brace at the level of its header |
| AstPrinting.AstFormatter.WritePayload | src/formatter.cpp:1306-1312 | appends the payload's lines and restores the indentation |
| AstPrinting.AstFormatter.WriteStatement | src/formatter.cpp:1314-1446 | appends exactly the lines of the statement's tree, which `WorkflowReading.AllReadBack` reads, and restores the indentation |
| AstPrinting.AstFormatter.WriteStatements | src/formatter.cpp:1448-1454 | likewise for a list |
| MemoryBackend.InMemoryTransaction.GetRecord | bindings/cpp/memory/transaction.hpp:285-316 | a read sees the transaction's own writes, else the store, and records the version: the one first read in C++, the one last read in Java |
| MemoryBackend.InMemoryTransaction.PutRecord | bindings/cpp/memory/transaction.hpp:387-397 | stages a write after reading the key |
| MemoryBackend.InMemoryTransaction.EraseRecord | bindings/cpp/memory/transaction.hpp:399-409 | stages an erasure after reading the key |
| MemoryBackend.InMemoryTransaction.Commit | bindings/cpp/memory/transaction.hpp:411-470 | publishes everything staged and closes, or changes nothing at all if a version read is no longer current |
| MemoryStore.VersionKeyParses | bindings/cpp/memory/transaction.hpp:156-176 | a version key gives back its pair iff the collection's name has no colon |
| Interleavings.PerformAgrees | bindings/cpp/memory/transaction.hpp:285-409 | an operation depends on the store only through the keys it read |
| Interleavings.CommitKeepsSound | bindings/cpp/memory/transaction.hpp:411-470 | a commit leaves alone every transaction whose reads it did not make stale |
| Interleavings.Serializable | README.md:436-442 | every interleaving is equivalent to running the committed transactions alone in commit order: the same results read and the same store |
| Interleavings.LastChangeCounts | bindings/cpp/memory/transaction.hpp:285-470 | what a transaction reads of a key after changing it, and what its commit leaves there, is its last change: the document of a write, nothing after an erasure |
| Interleavings.CommitsAloneIff | bindings/cpp/memory/transaction.hpp:411-421 | a transaction with the store to itself commits iff it touched no erased key |
| Interleavings.ErasedForGood | bindings/cpp/memory/transaction.hpp:457-461 | no step revives an erased key, and no transaction that touched it commits |
| Interleavings.ErasedStaysErased | bindings/cpp/memory/transaction.hpp:411-470 | over every run an erased key stays erased and no later commit has touched it |
| Interleavings.RemovedCannotReturn | bindings/cpp/memory/transaction.hpp:285-470 | a run that writes a record and removes it, after which no commit of a second write is possible |
| LatestReads.CommitRepeatsIff | bindings/java/com/statespec/backend/memory/InMemoryTransaction.java:277-303 | a transaction that keeps the latest versions and may commit returns the same when run alone on the store it commits to iff every read of the store showed the version last read of its key; then its effect there is the same |
| LatestReads.SerializableIffSteady | bindings/java/com/statespec/backend/memory/InMemoryTransaction.java:503-515 | under that rule a run is equivalent to its commits one after another iff each commit is of such a transaction |
| LatestReads.UnsteadyRunCommits | bindings/java/com/statespec/backend/memory/InMemoryTransaction.java:277-303 | a run of two transactions that both commit, one of which returned what it would return alone on no store |
| EntityKeys.KeyTextInjective | bindings/cpp/generated/entity_repository.hpp.tmpl:107-127 | for fixed key fields, different values have different string keys |
| EntityKeys.KeyTextBack | bindings/cpp/generated/entity_repository.hpp.tmpl:107-127 | a key is a line for each field, its name, an equals sign and a JSON text, from which the values are read back |
| EntityKeys.OverlayIs | bindings/cpp/generated/entity_repository.hpp.tmpl:149-161 | a field has the last value put over it, else the one it had |
| CanonicalJson.CanonicalUnique | bindings/cpp/json.hpp:235-391 | a canonical text can be told from what follows it, and belongs to one value |
| CanonicalJson.CanonicalBack | bindings/cpp/json.hpp:235-391 | a strict JSON reader, which allows no white space and demands member names in order, reads every canonical text back as its value, whatever stops it |
| CanonicalJson.CanonicalInjective | bindings/java/com/statespec/backend/Json.java:127-222 | different values have different canonical texts |
| EntityLifecycle.HandlerKeeps | src/generator_cpp_descriptors.cpp:498-598 | each handler's transaction that commits keeps every record of the entity alive as declared |
| EntityLifecycle.KeysUnchanged | src/generator_cpp_descriptors.cpp:739-845 | writing a new status puts back the key values the record had |
| EntityLifecycle.RecordsLive | src/generator_cpp_descriptors.cpp:739-922 | over every serial history, removals included, the committed documents of a record start in the initial state, follow declared transitions or stay, and change only status and updated_at; the last is stored unless the record was removed |
| EntityLifecycle.InterleavedRecordsLive | src/generator_cpp_descriptors.cpp:498-922 | the same over every interleaving of the handlers with each other, with removals and with writers of other collections |
| EntityLifecycle.RequestObeyed | src/generator_cpp_descriptors.cpp:498-922 | over every serial history the transaction of a request adds to the documents of one key only: a create the requested values, times and initial state and nothing else; a change, of the key asked for, a document with the requested status, or `Deleted`, the time of the request and every other field of the last document |
| EntityLifecycle.InterleavedRequestObeyed | src/generator_cpp_descriptors.cpp:498-922 | the same over every interleaving |
| EntityLifecycle.RemovedForGood | bindings/cpp/runtime/entity_gc_registration.hpp:44-50 | over every serial history a removed record never comes back: its documents are those it had by its removal |
| EntityLifecycle.InterleavedRemovedForGood | bindings/cpp/memory/transaction.hpp:399-470 | the same over every interleaving |
| EntityLifecycle.TerminalIsFinal | src/generator_cpp_descriptors.cpp:1001-1024 | a state without outgoing transitions is never left |
| EntityHandlers.ChangeStatus | src/generator_cpp_descriptors.cpp:739-922 | the record is rewritten iff it is there and the transition is allowed, else the store stays as it was; rewritten it has the requested status, or `Deleted`, the time of the request and its other fields as they were; the call succeeds iff moreover the response can be assembled, so an error leaves the store changed iff only the assembly fails; not found and conflict are told apart by erasure |
| StatusResponses.AnswersBeforeIff | src/generator_cpp_descriptors.cpp:422-434 | the assembly succeeds iff each output field is the status or the time of change as text or json, or is in the old document, not null and of its type |
| StatusResponses.BodyHoldsDocument | src/generator_cpp_descriptors.cpp:815-838 | the body of an update decodes, and each value read stands for what the new document holds in that field |
| StatusResponses.UpdateFailsAfterCommit | src/generator_cpp_descriptors.cpp:814-825 | a record, an allowed change and an output shape for which the change is committed and the response fails |
| EntityHandlers.CreateRecord | src/generator_cpp_descriptors.cpp:498-598 | the record is created iff every needed parent is there, the key fields have values and the key has no record and was never erased; a failure means a parent or key field is missing, a conflict that the key is taken or erased; what is created holds the requested value of each field, the times and the initial state, no other field, under the key of its key values, and nothing else changes |
| EntityHandlers.NewKeyIsRequested | src/generator_cpp_descriptors.cpp:549-575 | the key of a new record is that of the requested key values |
| EntityHandlers.CreatesApart | src/generator_cpp_descriptors.cpp:549-598 | a create is no conflict for one that requests another value of a key field |
| MetadataTable.UpsertReplaces | src/generator_java_artifacts.cpp:2561-2581 | with a complete key and the expected version the overlaid document goes under the tuple of key values and nowhere else; otherwise nothing is written |
| MetadataTable.SetStatusReplaces | src/generator_java_artifacts.cpp:2653-2681 | disable and delete need an existing record of the expected version, set its status and looked-up keys, keep its other fields and every other tuple |
| MetadataTable.GetReads | src/generator_java_artifacts.cpp:2582-2591 | a get reads the table at the tuple and changes nothing |
| MetadataTable.GetAfterUpsert | src/generator_java_artifacts.cpp:2561-2591 | after an upsert a get of the same tuple gives the overlaid document, of another tuple what it gave before |
| MetadataRepository.ExternalSystemMetadataKey | src/generator_java_artifacts.cpp:2324-2342 | the loop builds the specified key, or none for an incomplete lookup |
| MetadataRepository.MissingKeyFields | bindings/java/com/statespec/backend/ExternalSystem.java:62-82 | exactly the key fields without a value |
| MetadataRepository.UpsertMetadataTx | src/generator_java_artifacts.cpp:2561-2581 | upsert on a caller's transaction of either binding, as the table's specification says |
| MetadataRepository.GetMetadataTx | src/generator_java_artifacts.cpp:2582-2591 | get likewise |
| MetadataRepository.UpdateStatusTx | src/generator_java_artifacts.cpp:2653-2681 | disable and delete likewise |
| MappingPlan.MetadataMappingPlan | src/generator_cpp_descriptor_external_systems.cpp:83-123 | the plan builder's loop fills the three lists as specified |
| MappingPlan.PlanRestoresMappings | src/generator_cpp_descriptor_external_systems.cpp:83-123 | the plan's assignments give back, in order, exactly the mappings with a client or request target |
| MappingPlan.PlanMerges | src/generator_cpp_descriptor_external_systems.cpp:83-123 | the list of all assignments is an order-preserving merge of the client and the request ones |
| MappingPlan.TargetsAre | src/generator_cpp_descriptor_external_systems.cpp:83-123 | a target is `client` or `request`, a dot, and the field filled there |
| MappingPlan.SourcesAre | src/generator_java_artifacts.cpp:2405-2432 | the text before the first dot of a source names the inputs, one root each, in which the rest is looked up |
| MappingPlan.OtherSourcesAre | src/generator_java_artifacts.cpp:2405-2432 | any other root resolves to nothing |
| MappingPlan.ApplyMetadataMappings | src/generator_java_artifacts.cpp:2456-2489 | the applicator's loops give both configurations and the unresolved assignments in plan order |
| MappingPlan.LastPresentWins | src/generator_java_artifacts.cpp:2456-2489 | a field holds the value of the last assignment to it whose source is present, and is absent if none is |
| MappingPlan.MissingAre | src/generator_java_artifacts.cpp:2303-2323 | what is reported missing are, in order, the planned mappings whose source has no value |
| MappingPlan.NothingMissingIff | src/generator_java_artifacts.cpp:2303-2323 | if nothing is missing every planned field is filled; and given distinct targets, only then |
| Codecs.EncodeResponse | src/generator_cpp_descriptors.cpp:1187-1218 | encoding as specified, failing on a number that is not finite |
| Codecs.DecodeResponse | src/generator_cpp_descriptors.cpp:1220-1251 | decoding as specified, failing on a missing or null required field or a value of another type |
| Codecs.EncodedIff | src/generator_cpp_descriptors.cpp:1187-1218 | encoding fails only for numbers that are not finite |
| Codecs.BodyIs | src/generator_cpp_descriptors.cpp:1187-1218 | a body has the members that the record has, each with the JSON value it stands for |
| Codecs.DecodedIff | src/generator_cpp_descriptors.cpp:1220-1251 | a body decodes iff each field is there in its type, or is optional and absent or null; each value read stands for what is there |
| Codecs.Int32Wraps | src/generator_cpp_descriptors.cpp:322-325 | an integer is cut down to 32 bits by whole turns |
| Codecs.DoubleOfInteger | src/generator_cpp_descriptors.cpp:330-333 | an integer is read as the double with its digits |
| Codecs.RoundTripIff | src/generator_cpp_descriptors.cpp:1142-1255 | decoding undoes encoding, absent optionals staying absent, iff no JSON-typed field holds null |
| Codecs.NullIsLost | src/generator_cpp_descriptors.cpp:1142-1255 | a record whose optional JSON-typed member is null comes back without the member |
| Codecs.DecodedSurvives | src/generator_cpp_descriptors.cpp:1142-1255 | whatever body a record was decoded from, encoding and decoding it again changes nothing |
| EntityConstants.KeyExpressionsDenoteNames | src/generator_cpp_descriptor_support.cpp:102-161 | every key expression, through field constant, plural constant or literal, denotes the name it was made from |
| EntityConstants.FieldConstantOf | src/generator_cpp_descriptor_support.cpp:83-90 | a field of words gets `k`, the entity, `Field` and the words, each raised |
| EntityConstants.PluralOfWord | src/generator_cpp_descriptor_support.cpp:126-143 | the plural of a word: -y becomes -ies, after -s comes -es, else -s |
| EntityConstants.PascalJoins | src/identifier_case.cpp:8-28 | words are joined at anything but a letter or digit, the first letter after it raised |
| EntityConstants.IndexMethodOf | src/generator_entity_index_helpers.cpp:27-30 | the name of an index helper, a leading `by_` dropped |
| EntityConstants.FieldDenotes | src/generator_cpp_artifacts.cpp:1552-1560 | in a table that compiles, the constants of a field are its name and its type |
| EntityConstants.IndexDenotes | src/generator_cpp_artifacts.cpp:1561-1570 | those of an index its name and its helper |
| EntityConstants.StateDenotes | src/generator_cpp_artifacts.cpp:1571-1576 | that of a state its name |
| EntityConstants.RelationDenotes | src/generator_cpp_artifacts.cpp:1577-1597 | those of a relation its name, target, kind and options |
| EntityConstants.CompilesIff | src/generator_cpp_artifacts.cpp:1533-1600 | no constant is declared twice iff the identifiers of each kind of name are distinct, no field's is another with the suffix of a type, no index's another with that of a helper, and no relation's that of one with a relation kind followed by Relation |
| EntityConstants.NamesCanCollide | src/generator_cpp_artifacts.cpp:1552-1597 | distinct fields that collide by equal identifiers and by the constant of a type, and distinct relations that collide by their kinds |
| Routes.SplitApiPath | src/generator_go_artifacts.cpp:866-874 | the nonempty pieces between slashes |
| Routes.ExtractApiPathParameters | src/generator_go_artifacts.cpp:848-865 | the loop binds each whole-segment placeholder to the segment in its place |
| Routes.ExtractIs | src/generator_go_artifacts.cpp:848-865 | the parameters are the names that fill a segment between braces, each with the segment in the place of its last one |
| Routes.ExtractAfterFill | src/generator_go_artifacts.cpp:848-881 | extracting from a template filled with nonempty slash-free values gives exactly those values |
| Routes.PathParameterSet | src/generator_crud_contract.cpp:95-123 | exactly the nonempty names of the path's brace pairs |
| Routes.ParametersAre | src/generator_crud_contract.cpp:95-123 | a parameter is a nonempty name between a brace that opens where all before it are closed and the first brace to close it |
| Routes.KeysNeverNullIff | src/generator_crud_contract.cpp:172-185 | the key fields are non-null on every path with enough segments iff each is a placeholder filling a whole segment |
| Routes.AcceptedKeyCanBeNull | src/generator_crud_contract.cpp:172-185 | an accepted route and a path on which its key is null |
| ApiPaths.PathUsesEntityConstants | src/generator_cpp_artifacts.cpp:2622-2648 | whether any matched placeholder names a field of the entity |
| ApiPaths.UsesConstantsIff | src/generator_cpp_artifacts.cpp:2622-2648 | constants are used iff such a name is that of a field |
| ApiPaths.OptionalPathTerms | src/generator_cpp_artifacts.cpp:2650-2707 | the cursor loop emits the specified terms, or the whole path as one literal |
| ApiPaths.FieldsAreConstants | src/generator_cpp_artifacts.cpp:2650-2707 | if every brace is closed somewhere after it the constants among the terms are those of the fields named between braces, else there are none |
| ApiPaths.TermsDenotePath | src/generator_go_artifacts.cpp:3067-3124 | the terms add up to the path, whatever its braces |
| ApiPaths.MiddleTermsAreParameters | src/generator_crud_contract.cpp:95-123 | with no unmatched brace the nonempty names among the terms are exactly the path's parameters |
| ApiDomains.HomeHasStrongestClue | src/generator_cpp_artifacts.cpp:516-574 | an API goes to the first entity named by its output, else by its input, else by its name, else to the operations |
| ApiDomains.ApiHandlerDomains | src/generator_cpp_artifacts.cpp:540-588 | the loops give the specified domains |
| ApiDomains.HandlerDomainsPartition | src/generator_cpp_artifacts.cpp:540-588 | the domains are a partition of the APIs with no empty part, each part in order |
| ApiDomains.CrudApiHandlerDomains | src/generator_cpp_artifacts.cpp:673-698 | the loops give the specified grouping |
| ApiDomains.GroupedByEntity | src/generator_cpp_artifacts.cpp:673-698 | distinct names, each domain holding in order exactly the CRUD APIs of its entity |
| ApiDomains.CrudDomainsHoldEachOnce | src/generator_cpp_artifacts.cpp:673-698 | each CRUD API of the system is in the domain of its own entity, as often as declared |
| ApiDomains.ApiDescriptorCatalog | src/generator_cpp_artifacts.cpp:2831-2916 | the catalog lists the CRUD domains and then the APIs of other names |
| ApiDomains.CatalogListsEachOnceIff | src/generator_cpp_artifacts.cpp:2831-2916 | the catalog lists every API as often as declared iff no other API has a CRUD API's name |
| ApiDomains.CatalogDropsApi | src/generator_cpp_artifacts.cpp:2831-2916 | two APIs of one name of which the catalog lists only the CRUD one |
| CodecSlices.EntityApiShapeOwner | src/generator_cpp_artifacts.cpp:798-816 | the entity of the first CRUD API that uses the shape |
| CodecSlices.OwnerIsFirst | src/generator_cpp_artifacts.cpp:798-816 | the owner is the entity of the first API with an entity, an operation and the shape on a side, and none without such an API |
| CodecSlices.EntityApiShapes | src/generator_cpp_artifacts.cpp:818-833 | the shapes that an entity owns, in order |
| CodecSlices.WithCodecShapeApis | src/generator_cpp_artifacts.cpp:874-898 | the APIs cut down to one shape |
| CodecSlices.WithCodecShapesApis | src/generator_cpp_artifacts.cpp:910-939 | the APIs cut down to a set of shapes |
| CodecSlices.SliceIsFilter | src/generator_cpp_artifacts.cpp:874-939 | a slice emits exactly the codecs of its shapes, in order |
| CodecSlices.CodecsAre | src/generator_cpp_descriptors.cpp:1142-1254 | a codec of a declared shape is emitted once for each API that has the shape on that side, any other never |
| CodecSlices.ApiCodecFiles | src/generator_cpp_artifact_tier_builders.inc:257-278 | the files written: one for each unowned used shape, then one for each entity that owns any |
| CodecSlices.FilesHoldEachCodecOnce | src/generator_cpp_artifact_tier_builders.inc:257-278 | each codec is in one file if its shape has no owner or a declared one, else in none |
| CodecSlices.CodecsConservedIff | src/generator_cpp_artifacts.cpp:762-939 | no codec is lost or duplicated iff every codec's shape has no owner or a declared one |
| Durations.ParseDurationSeconds | src/generator_cpp_descriptor_support.cpp:296-336 | on every input the loop reads the specified seconds cut down to 64 bits, and exactly those where no step overflows |
| Durations.ParseGoDurationSeconds | src/generator_go_descriptor_support.cpp:292-331 | the Go generator's loop reads the same on every input |
| Durations.SecondsAdd | src/generator_cpp_descriptor_support.cpp:304-331 | cut after any character that is no digit, a text is worth the sum of its parts |
| Durations.RenderedParses | src/generator_cpp_descriptor_support.cpp:304-331 | numbers with units H, M and S add up to their worth in seconds |
| Durations.LiteralParses | src/generator_cpp_descriptor_support.cpp:296-336 | a literal without days is read as the sum of its components, any other as zero |
| Durations.LiteralParsesIff | src/generator_cpp_descriptor_support.cpp:296-336 | a literal is read as its worth iff it has no days or is worth nothing |
| Durations.OneDayIsNoSeconds | src/generator_cpp_descriptor_support.cpp:296-336 | `P1D` reads as zero |
| Durations.FifteenDigitsFit | src/generator_cpp_descriptor_support.cpp:296-336 | with at most fifteen digits no step overflows 64 bits |

## Left out

- Reading and writing files, canonical paths, the command line, and the literal text of headers and includes.
- The lexer, parser, validator and lowering; a token is a kind, a lexeme and a line, and all kinds that the formatter treats as words are one kind.
- The printer's other declarations and its blank lines; only workflow statements are printed.
- Durations.ParseDurationSeconds: wraps around where C++ leaves signed overflow undefined; `FifteenDigitsFit` bounds what does not overflow.
- MemoryBackend.InMemoryTransaction.Commit: does not model index tables, unique-index conflicts, queries or collection registration, so phantoms of queries are outside the serialisation result.
- Version keys are pairs of collection and key; they are strings in the code, and `VersionKeyParses` says when that is the same.
- Handlers for get and list, which only read; the body of a create's response, which is made of the request; timestamps are parameters.
- Which records garbage collection removes, and when; it is modelled as transactions that remove any records of an entity and write none.
- Decimals are identified by their canonical text: scale, rounding and the conversion of an integer to a double are not modelled beyond that.
- The names of constants are modelled for ASCII identifiers.
- The Rust generator, and the Java and Go variants of grouping and slicing, which repeat the C++ ones.
