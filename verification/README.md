# Verified models of the Hara runtime

Hara is a Lisp runtime.  This project models the parts of it whose correctness is hardest to
see by reading, and proves what they promise, in Dafny 4.11.  `dafny verify dfyconfig.toml`
checks everything.

| area | modules |
|---|---|
| the fiber evaluator (`core/rust/src/fiber.rs`) | `FiberSyntax`, `FiberMachine` (continuations as frames, one step per call), `FiberDirect` (a recursive evaluator without continuations, the reference), `FiberRuns`, `FiberAdequacy` (the two agree), `FiberScope`, `FiberPatterns`, `FiberCalls`, `FiberLaws` (what the reference means), `FiberTry`, `FiberTrace`, `EvalFibers` |
| the HTA0 codec (`core/rust/src/hta.rs`) | `HtaValues` (values and wire format), `HtaRoundTrip`, `HtaFrames`, `HtaWire`, `HtaCodec` (encoder with its buffer, reader with its cursor) |
| the memory filesystem (`core/rust/src/file.rs`) | `LogicalPaths`, `MemoryTree` (operations on values), `MemoryEffects` (when they succeed and what they leave), `MemoryFiles` (the provider that updates its map in place) |
| package ordering (`core/rust/src/package_catalog.rs`) | `Names`, `Packages` |
| mixed-number comparison (`core/rust/src/numeric.rs`) | `Numeric` |
| intern-all closure (`scripts/runtime/foundation_parity.py`) | `InternAll` |
| JSON (`core/rust/src/json.rs`) | `Decimal`, `Json`, `JsonRoundTrip`, `JsonSpelling` (the language the parser accepts), `JsonLayout` (the text the printers write), `JsonCodec` |
| the WebAssembly inspector (`core/rust/src/direct_wasm.rs`) | `Wasm`, `WasmRoundTrip`, `WasmModules`, `WasmForms` (what is accepted is a module), `WasmExamples`, `WasmInspector` |
| snapshot deltas (`core/rust/src/snapshot.rs`) | `Snapshots`, `SnapshotText` (what a digest tells), `SnapshotFaults`, `SnapshotFrames` (artifacts as bytes), `SnapshotWriter` |
| shared by several | `Optional`, `Results`, `ByteStrings`, `Sequences`, `Splitting`, `Words`, `Powers`, `Graphs` (in `Basics.dfy`), `Ordering` |

Code that updates things in place is modelled by classes and loops, each proved equal to a
function of its input; the theorems are about those functions.

Parameters of the models: the synchronous evaluator, macro expansion, registry lookups, native
functions and error objects behind the fiber are the fields of one record `Host`, arbitrary
functions of form, environment and world; the states in which awaited promises settle are an
arbitrary function `Answers`; UTF-8 validity, SHA-256 and the encoding of snapshot state are
arbitrary functions.

Where the code does something its documentation does not say, the model follows the code:

- A failing initialiser or pattern of `let` or `loop` leaves the bindings made before it in place, and
  a pattern that fails part of the way leaves the names it had bound; `FiberScope.FailedBindingUndoesNothing`
  says exactly which names that changes, and `FiberScope.FailedInitialiserLeaks` and
  `FiberScope.FailedPatternLeaks` are inputs.  When the bindings succeed, a bound name goes back to what
  it held when it was first bound (`FiberScope.ScopeRestores`), which is what it held on entry unless an
  initialiser up to and including its own assigned it.  `FiberScope.InertIsBalanced` gives forms of
  initialiser that cannot, and `FiberScope.EarlierInitialiserLeaks` is an input where one does.
- A malformed catch clause met after the body failed skips the finally forms, and this is the only
  case (`FiberTry.FinallyRunsIff`, with the input of `FiberTry.MalformedCatchSkipsFinally`).  The check
  that an unconditional clause comes last is never reached (`FiberTry.OnlySelectorsFail`).
- The HTA0 encoder counts one level fewer than the decoder inside a struct, so some frames it emits
  are refused (`HtaFrames.EncodedButRefused`); the round trip holds exactly on values within the
  decoder's count (`HtaFrames.FrameRoundTrip`).
- A failing move can leave new directories above its target; `MemoryTree.FailedMoveAddsAncestorsOnly`
  says exactly when, and `MemoryTree.FailedMoveLeavesDirectory` is an input.
- The final "invalid integer" error of the WebAssembly integer reader is never reached: the fifth
  byte either ends the integer or has too many bits (`WasmInspector.Cursor.Unsigned`).  Likewise the
  remainder test of the exact double-to-integer conversion never fails after the fraction test
  (`Numeric.FractionalMeans`).
- The snapshot reader accepts at most 1,000,000 items in a list, map or set, and the writer has no such
  limit: `SnapshotFrames.CrowdedRefused` is an artifact that is encoded and whose bytes are refused, and
  `SnapshotFrames.ArtifactRoundTrip` says that this is the only case.

## Model
| member | source | states |
|---|---|---|
| FiberAdequacy.MachineIffDirect | core/rust/src/fiber.rs:526-943 | for every form, environment, continuation, world and answers to awaits: the step machine calls that continuation with an outcome and a world exactly when the direct evaluator ends with them |
| FiberAdequacy.ProgramIffDirect | core/rust/src/fiber.rs:526-565 | the same, both ways, for a sequence of top-level forms |
| FiberAdequacy.CalledOnce | core/rust/src/fiber.rs:526-610 | the machine calls the continuation at one step and no earlier one, and until then every configuration still stands above it untouched |
| FiberAdequacy.LoopKeepsContinuation | core/rust/src/fiber.rs:902-943 | a `recur` brings the machine back to the loop's body above the very same continuation, so frames do not pile up |
| FiberAdequacy.OneAgrees | core/rust/src/fiber.rs:610-659 | one form, with any fuel: if the direct evaluator ends, the machine reaches the continuation with its result; if it runs out of fuel, the machine is still above the continuation after that many steps |
| FiberAdequacy.ListActs | core/rust/src/fiber.rs:668-736 | the same for every special form and for applications, dispatched on the head |
| FiberAdequacy.FormsAgree | core/rust/src/fiber.rs:526-565 | the same for forms in order, where a `recur` value ends the sequence |
| FiberAdequacy.ValuesAgree | core/rust/src/fiber.rs:567-608 | the same for operands evaluated left to right |
| FiberAdequacy.AndAgrees | core/rust/src/fiber.rs:738-758 | the same for `and`: later operands run only while values are truthy |
| FiberAdequacy.OrAgrees | core/rust/src/fiber.rs:760-781 | the same for `or`: later operands run only while values are falsy |
| FiberAdequacy.CondAgrees | core/rust/src/fiber.rs:783-804 | the same for `cond`: the first truthy test decides |
| FiberAdequacy.BindAgrees | core/rust/src/fiber.rs:816-851 | the same for the binding phase, including what it records of each name |
| FiberAdequacy.ScopeActs | core/rust/src/fiber.rs:862-900 | the same for `let` and `loop` as a whole |
| FiberAdequacy.LoopAgrees | core/rust/src/fiber.rs:902-943 | the same for a loop body with any number of `recur` steps |
| FiberAdequacy.ThrowActs | core/rust/src/fiber.rs:668-736 | the same for `throw` |
| FiberAdequacy.TryActs | core/rust/src/fiber.rs:1104-1193 | the same for `try` with its catch clauses and finally forms |
| FiberAdequacy.CatchActs | core/rust/src/fiber.rs:1132-1193 | the same for a selected catch clause: bind, run, put the name back, then finally |
| FiberAdequacy.FinallyAgrees | core/rust/src/fiber.rs:1232-1249 | the same for finally forms: their error wins, their value does not |
| FiberAdequacy.DefineActs | core/rust/src/fiber.rs:1007-1102 | the same for `def` and `var/set` |
| FiberAdequacy.SetActs | core/rust/src/fiber.rs:945-1005 | the same for `set!` on a name or a field, receiver before replacement |
| FiberAdequacy.ApplicationActs | core/rust/src/fiber.rs:1258-1373 | the same for applications of macros, functions, special names and computed heads |
| FiberAdequacy.CallAgrees | core/rust/src/fiber.rs:1420-1560 | the same for calls: arity dispatch, natives, arity and destructuring errors, body, namespace and trace |
| FiberCalls.CallHolds | core/rust/src/fiber.rs:1489-1527 | the environment of a call, name by name: what the pattern at a position gives a name, from the argument at that position, it holds; the rest name holds the list of the arguments after the parameters; a parameter no pattern rebinds holds its argument; any other name is as captured |
| FiberCalls.ParameterHolds | core/rust/src/fiber.rs:1492-1495 | a name that is the pattern at position i holds argument i |
| FiberCalls.BodyCell | core/rust/src/fiber.rs:1456-1533 | the body's cell holds exactly that environment, other cells are as before, and the namespace is the function's own unless it is caller-scoped |
| FiberCalls.CallRunsBody | core/rust/src/fiber.rs:1528-1560 | a call whose arity fits runs its body there and gives the last form's value, a stray `recur` apart, and ends in the caller's namespace |
| FiberCalls.ClauseChosen | core/rust/src/core/form.rs:633-646 | dispatch takes the first clause of that very arity, otherwise the variadic clause with room that has most parameters (the last of several), otherwise none |
| FiberCalls.ArityMeans | core/rust/src/fiber.rs:1437-1452 | the arity error is absent exactly when the parameters match, or are at most as many before a rest name |
| FiberCalls.RebindHolds | core/rust/src/fiber.rs:920-935 | a `recur` rebinds its loop's patterns from the left, position by position; a name bound twice keeps the last, any other name is as before |
| FiberPatterns.PatternHolds | core/rust/src/core/form.rs:494-570 | a pattern that was bound gives each of its names exactly one value, said position by position, and changes no other name |
| FiberPatterns.PositionHolds | core/rust/src/core/form.rs:521-567 | a name at position i of a vector pattern holds item i, or nil past the end |
| FiberPatterns.GivesHolds | core/rust/src/core/form.rs:521-567 | items, the rest after `&` and the whole after `:as` go to the patterns at their places |
| FiberLaws.IfMeans | core/rust/src/fiber.rs:668-736 | `if` takes its second branch on nil and false and its first on anything else |
| FiberLaws.AndMeans | core/rust/src/fiber.rs:738-758 | `and` evaluates its forms in order up to the first nil or false; its value is the last one evaluated |
| FiberLaws.OrMeans | core/rust/src/fiber.rs:760-781 | `or` evaluates its forms in order up to the first that is neither; its value is the last one evaluated |
| FiberLaws.CondMeans | core/rust/src/fiber.rs:783-804 | `cond` evaluates its tests in order up to the first that is neither, then that clause's expression; nil without one |
| FiberLaws.FormsMean | core/rust/src/fiber.rs:526-565 | a body evaluates its forms in order up to the first `recur`; its value is the last one evaluated |
| FiberLaws.ScopeBodyRuns | core/rust/src/fiber.rs:862-900 | the body of a `let` or `loop` is all its forms after the bindings, in order |
| FiberLaws.ValuesInOrder | core/rust/src/fiber.rs:567-608 | evaluating a list of forms is evaluating its front and then the others in the world that leaves |
| FiberLaws.ReceiverFirst | core/rust/src/fiber.rs:945-1005 | `set!` on a field does nothing more when its receiver fails |
| FiberLaws.HeadFirst | core/rust/src/fiber.rs:1258-1373 | a computed head is evaluated before the arguments, and these before the call |
| FiberLaws.FlatAt | core/rust/src/fiber.rs:610-659 | the entries of a map literal are evaluated key before value, entry by entry |
| FiberLaws.TrySplits | core/rust/src/fiber.rs:1104-1131 | a `try` is a body of forms that are no clauses and then clauses only; catch clauses and the forms of all finally clauses stay in order |
| FiberLaws.CatchChosen | core/rust/src/fiber.rs:1132-1193 | the first clause that takes the error is selected, with its own name and body, and none before it is malformed or takes it |
| FiberLaws.CatchAll | core/rust/src/fiber.rs:1195-1230 | a clause with a plain name takes every error |
| FiberLaws.CatchCode | core/rust/src/fiber.rs:1195-1230 | a clause with a namespaced keyword, `Exception` or `Throwable` names what it takes; its name and body follow |
| FiberAdequacy.NativeAgrees | core/rust/src/fiber.rs:1420-1440 | the same for natives that await: each await is answered and the rest goes on |
| FiberRuns.MeetsPush | core/rust/src/fiber.rs:567-608 | a call with a new continuation: once the callee ends the new frame is called, and the run as a whole ends as the frame's run does |
| FiberRuns.ReturnsOnce | core/rust/src/fiber.rs:526-565 | a run has one first call of its continuation, with one outcome and one world |
| EvalFibers.EvalFiber.StartForms | core/rust/src/fiber.rs:404-425 | a started fiber stands where the machine first ends or waits |
| EvalFibers.EvalFiber.Accept | core/rust/src/fiber.rs:495-523 | the accept loop ends Completed, Failed or Suspended as the machine does, storing promise and continuation together |
| EvalFibers.EvalFiber.Resume | core/rust/src/fiber.rs:435-448 | a fiber that is not suspended ignores the answer and changes nothing; a suspended one runs on from its stored continuation |
| EvalFibers.EvalFiber.Cancel | core/rust/src/fiber.rs:449-462 | cancelling is refused exactly on finished fibers; otherwise it is final, clears both stored fields and notifies the pending promise |
| EvalFibers.EvalFiber.DriveSync | core/rust/src/fiber.rs:463-494 | however often it suspends, the driven fiber ends in the state and world of the run in which every await answers at once |
| EvalFibers.RunProgram | core/rust/src/fiber.rs:404-523 | suspension is transparent: start and drive give the result and world of direct evaluation |
| EvalFibers.UpToStop | core/rust/src/fiber.rs:495-523 | a run that ends splits into a silent part up to its first stop and the rest |
| FiberScope.RestoreIsEarliest | core/rust/src/fiber.rs:853-860 | undoing gives each recorded name its earliest recorded state, repeated names included |
| FiberScope.PatternBinds | core/rust/src/fiber.rs:816-851 | a pattern changes only the names it binds, and records exactly those when it succeeds |
| FiberScope.BindingRecords | core/rust/src/fiber.rs:816-851 | a successful binding phase records each bound name with what it held when first bound, and no other name |
| FiberScope.UndoneName | core/rust/src/fiber.rs:853-860 | undoing after a successful binding phase puts bound names back as they were when first bound and leaves every other name alone |
| FiberScope.LoopEndsUndone | core/rust/src/fiber.rs:902-943 | every way out of a loop, after any number of `recur` steps, ends in the world the last body or rebinding left, with the bindings undone |
| FiberScope.ScopeRestores | core/rust/src/fiber.rs:862-943 | once its binding phase has succeeded, a `let` or `loop` that ends by value or error leaves each bound name as it was when first bound, and every other name as its body left it |
| FiberScope.InertIsBalanced | core/rust/src/fiber.rs:816-851 | when a name's own and earlier initialisers are `()`, quotations or vectors of those, and interrupt checks assign nothing, the name is first bound as on entry, so the scope leaves it as on entry |
| FiberScope.EarlierInitialiserLeaks | core/rust/src/fiber.rs:862-900 | a scope whose bindings succeed and that still leaves a name changed: an earlier initialiser defines it |
| FiberScope.FailureStops | core/rust/src/fiber.rs:816-851 | a failing binding phase stops at one pair: those before it are bound, and its initialiser fails or its pattern does not fit |
| FiberScope.BoundSoFar | core/rust/src/fiber.rs:816-851 | after each pair the world is what its initialiser left with its pattern bound in it |
| FiberScope.PartialNames | core/rust/src/fiber.rs:841-843 | a pattern that fails changed only names of its own, and only those it had bound; any other name is as its initialiser left it |
| FiberScope.StoppedName | core/rust/src/fiber.rs:841-860 | undoing all that a failing phase had bound, the failing pattern included, would put each name back as it was when first bound |
| FiberScope.FailedBindingUndoesNothing | core/rust/src/fiber.rs:841-849 | a failing binding phase ends the scope with its error and nothing undone; the names left changed are exactly those bound by the patterns before it or by the failing pattern before it failed that do not hold what they held before; any other name is as the last initialiser left it |
| FiberScope.FailedPatternLeaks | core/rust/src/core/form.rs:516-570 | a pattern that repeats a name fails and leaves it bound |
| FiberScope.FailedInitialiserLeaks | core/rust/src/fiber.rs:841-849 | a counterexample to balance without that condition: a first binding survives the failure of the second initialiser |
| FiberTry.OnlySelectorsFail | core/rust/src/fiber.rs:1132-1152 | the scan of catch clauses can only fail on a malformed selector; the check that an unconditional clause is last never fires |
| FiberTry.CatchRestores | core/rust/src/fiber.rs:1171-1189 | finally starts from the catch body's own result, with the caught name as it was on entering the clause and every other name as the body left it |
| FiberTry.FinallyRunsIff | core/rust/src/fiber.rs:1132-1193 | on the machine: the finally forms of a `try` that ends are reached exactly unless the body failed and a scanned clause is malformed, and then from the outcome and world of the body or of the selected clause; when skipped, the selector error is the result and the world is the body's |
| FiberTry.FinallyOnce | core/rust/src/fiber.rs:1232-1249 | whenever the machine is about to run the finally forms it is in that one outcome and world |
| FiberTry.MalformedCatchSkipsFinally | core/rust/src/fiber.rs:1144-1152 | an input where they are skipped: `(try (if) (catch) (finally cleanup))`, whatever `cleanup` is |
| FiberTrace.OneBalanced | core/rust/src/fiber.rs:610-659 | evaluating any form leaves the trace stack as it was |
| FiberTrace.CallBalanced | core/rust/src/fiber.rs:1437-1559 | a call leaves the trace stack as it was: return, stray `recur`, arity, destructuring and body errors |
| FiberTrace.CallRestoresNamespace | core/rust/src/fiber.rs:1420-1559 | a call of a function whose clauses have their own namespaces ends in the caller's, through any depth of arity dispatch and however it ends |
| FiberTrace.SelectedClauseMember | core/rust/src/fiber.rs:1420-1431 | arity dispatch picks one of the function's clauses, exact or widest variadic |
| FiberTrace.OldestLast | core/rust/src/core/value.rs:2278-2297 | a trace lists its frames from the newest down |
| FiberTrace.TracedOnce | core/rust/src/core/value.rs:2278-2297 | an error keeps its text in front and is given the trace only once |
| HtaRoundTrip.Decodes | core/rust/src/hta.rs:551-847 | self-delimitation: a value's bytes followed by any suffix read back as the value, with the reader exactly at the suffix |
| HtaRoundTrip.EncodingInjective | core/rust/src/hta.rs:217-506 | different values have different bytes, at any depth (this is what makes sorting maps on key bytes alone enough) |
| HtaRoundTrip.SetOrder | core/rust/src/hta.rs:285-296 | the sorted cells of a set are its members' encodings, each once, in dictionary order of their bytes |
| HtaRoundTrip.MapOrder | core/rust/src/hta.rs:343-355 | the sorted cells of a map are its entries' encodings, keys distinct and in dictionary order of their bytes |
| HtaRoundTrip.DecimalReads | core/rust/src/hta.rs:240-248 | the decimal text of any integer parses back to it |
| HtaFrames.FrameRoundTrip | core/rust/src/hta.rs:177-202 | a frame `encode` emits decodes to its value exactly when the value is within the decoder's count of levels, and is refused as too deep otherwise |
| HtaFrames.EmittedIsCanonical | core/rust/src/hta.rs:208-215 | within the decoder's limits every emitted frame passes `decode_canonical` and re-encodes to itself |
| HtaFrames.EncodedButRefused | core/rust/src/hta.rs:430-443 | a value the encoder accepts and the decoder refuses: struct fields are written at the struct's own depth and read one deeper |
| HtaFrames.DeepRefused | core/rust/src/hta.rs:551-847 | at every nesting level: the bytes of a value within the limit read back, those of a deeper one are refused, whatever follows |
| HtaFrames.ValueMore | core/rust/src/hta.rs:551-847 | a successful read depends only on the bytes it consumed: more input changes nothing but the remainder |
| HtaFrames.PrefixFree | core/rust/src/hta.rs:186-202 | no accepted frame is a strict prefix of another |
| HtaFrames.DecodedIsWellFormed | core/rust/src/hta.rs:551-847 | whatever the bytes, a decoded value is well formed |
| HtaFrames.FramesInjective | core/rust/src/hta.rs:177-184 | equal frames come from equal values |
| HtaWire.FrameStarts | core/rust/src/hta.rs:9-51 | every frame begins with the letters HTA0 and the tag of its kind of value |
| HtaWire.FrameExamples | core/rust/src/hta.rs:1003-1014 | the frames of a character and of a regular expression, byte for byte |
| HtaWire.LongBytes | core/rust/src/hta.rs:225-228 | an integer that fits is written as its 64-bit two's complement, most significant byte first |
| HtaWire.MapKeepsLast | core/rust/src/hta.rs:643-653 | a decoded map has exactly the keys read, each with the last value read for it |
| HtaWire.OrderedMapKeepsLast | core/rust/src/hta.rs:654-656 | a decoded ordered map keeps its keys in the order of their first places, each with the last value read for it |
| HtaWire.OrderedSetKeepsFirst | core/rust/src/hta.rs:637-639 | a decoded ordered set keeps every element once, in the order of their first places |
| HtaWire.FieldKeepsLast | core/rust/src/hta.rs:762-800 | a decoded struct gives a field the last value read for it |
| HtaCodec.CollectedSet | core/rust/src/hta.rs:285-296 | whatever order set members are met in, sorting their encodings gives the one order of the format |
| HtaCodec.CollectedMap | core/rust/src/hta.rs:343-355 | whatever order map entries are met in, sorting them by key bytes gives the one order of the format |
| HtaCodec.Encoder.Bare | core/rust/src/hta.rs:217-458 | appends exactly the value's encoding, or fails exactly when a length or the encoder's depth limit is exceeded |
| HtaCodec.Encoder.MapBody | core/rust/src/hta.rs:343-355 | the same for maps, entries met in any order |
| HtaCodec.Encoder.SetBody | core/rust/src/hta.rs:285-296 | the same for sets, members met in any order |
| HtaCodec.Encoder.PairLoop | core/rust/src/hta.rs:460-474 | the same for ordered maps and objects, entries in their own order |
| HtaCodec.Encoder.Sequence | core/rust/src/hta.rs:482-495 | the same for sequences |
| HtaCodec.Encoder.StructBody | core/rust/src/hta.rs:430-443 | the same for structs, whose fields and values count no extra level |
| HtaCodec.Encode | core/rust/src/hta.rs:177-184 | emits the value's frame, or the error of the depth, length or frame-size limit |
| HtaCodec.Reader.Value | core/rust/src/hta.rs:551-806 | advances the cursor over exactly what the format says of the bytes, with the same errors |
| HtaCodec.Reader.Sequence | core/rust/src/hta.rs:808-813 | the same for counted sequences, impossible lengths refused first |
| HtaCodec.Reader.EntryList | core/rust/src/hta.rs:815-822 | the same for counted entries |
| HtaCodec.DecodeFrame | core/rust/src/hta.rs:186-202 | accepts a frame exactly when magic, size, value and end of input agree, and returns that value |
| HtaCodec.DecodeCanonicalFrame | core/rust/src/hta.rs:208-215 | also demands that re-encoding gives the same bytes |
| LogicalPaths.Normalise | core/rust/src/file.rs:176-211 | the loop over segments computes the normal path: dots dropped, parents popped, escapes and forbidden text refused |
| LogicalPaths.NormalisedIsNormal | core/rust/src/file.rs:176-211 | a normalised path has only plain segments |
| LogicalPaths.NormalisedLeads | core/rust/src/file.rs:176-211 | normalisation leaves the root exactly when some prefix of the pieces goes up more often than down; otherwise segment i is the last piece entered at depth i and not left again |
| LogicalPaths.TextRefused | core/rust/src/file.rs:176-211 | text with a NUL, a backslash or a piece that begins like a drive letter is refused |
| LogicalPaths.RenderedIsFixed | core/rust/src/file.rs:176-211 | the text of a normal path is a fixed point of normalisation |
| LogicalPaths.RenderInjective | core/rust/src/file.rs:176-211 | different normal paths have different text |
| LogicalPaths.BeneathText | core/rust/src/file.rs:1128-1136 | the text test for lying beneath a path, the root included, is the strict segment-prefix test |
| LogicalPaths.ChildText | core/rust/src/file.rs:1137-1141 | a remainder without a further slash is the test for direct entries |
| LogicalPaths.SuffixText | core/rust/src/file.rs:1277-1280 | the target's text followed by the source's remainder is the text of the renamed path |
| LogicalPaths.ResolveSegment | core/rust/src/file.rs:213-225 | resolving one plain segment against a directory appends it |
| MemoryTree.RunKeepsTree | core/rust/src/file.rs:1072-1334 | over every sequence of write, mkdir, delete, copy, move and temp operations, successful or failing, the map stays a tree: root a directory, keys normal, every parent present and a directory |
| MemoryTree.PerformKeepsTree | core/rust/src/file.rs:1072-1334 | the same for one operation of any kind |
| MemoryTree.MoveIsRenaming | core/rust/src/file.rs:1229-1283 | a successful move renames exactly the subtree: same suffixes and contents, nothing left behind, every other node untouched but what stood at the target and missing target ancestors |
| MemoryTree.FailedWriteChangesNothing | core/rust/src/file.rs:1072-1107 | a failing write changes nothing, even when it may create parents |
| MemoryTree.FailedOperationsChangeNothing | core/rust/src/file.rs:1147-1227 | failing mkdir, delete and copy change nothing |
| MemoryEffects.WriteOutcome | core/rust/src/file.rs:1072-1107 | exactly when a write succeeds, and which error it gives otherwise, on the nodes before it |
| MemoryEffects.WriteLeaves | core/rust/src/file.rs:1072-1107 | a successful append leaves the old bytes followed by exactly the new ones, any other write exactly the new bytes; every other node is as before, and the only other new ones are directories above it, with parents on |
| MemoryEffects.MkdirOutcome | core/rust/src/file.rs:1147-1164 | exactly when a mkdir succeeds, and its error otherwise |
| MemoryEffects.MkdirLeaves | core/rust/src/file.rs:1147-1164 | a successful mkdir leaves a directory there, everything else as before, and new directories only above it |
| MemoryEffects.DeleteOutcome | core/rust/src/file.rs:1166-1187 | exactly when a delete succeeds, and its error otherwise |
| MemoryEffects.DeleteLeaves | core/rust/src/file.rs:1166-1187 | a successful delete leaves exactly the other nodes |
| MemoryEffects.CopyOutcome | core/rust/src/file.rs:1189-1228 | exactly when a copy succeeds, and its error otherwise |
| MemoryEffects.CopyLeaves | core/rust/src/file.rs:1189-1228 | a successful copy leaves the same bytes at both places and everything else as before |
| MemoryEffects.MoveOutcome | core/rust/src/file.rs:1229-1284 | exactly when a move succeeds, and its error otherwise |
| MemoryEffects.TempNamesDiffer | core/rust/src/file.rs:1285-1330 | temporary names differ when their numbers do |
| MemoryEffects.TempFirstFree | core/rust/src/file.rs:1285-1330 | a temporary entry takes the first number whose name is free, and is out of names only when all it may try are taken |
| MemoryTree.FailedMoveAddsAncestorsOnly | core/rust/src/file.rs:1229-1283 | a failing move changes the nodes exactly when the paths are acceptable, parents may be created, no file is in the way, the source is absent and a target ancestor is missing; all it does then is create the missing ancestors |
| MemoryTree.FailedMoveLeavesDirectory | core/rust/src/file.rs:1229-1283 | an input where it does: the missing `/a` to `/b/c` in the fresh tree |
| MemoryTree.AncestorsAreDirs | core/rust/src/file.rs:1011-1043 | in a tree everything above a node is a directory |
| MemoryFiles.MemoryFileProvider.MakeParents | core/rust/src/file.rs:1011-1043 | creates the missing ancestors, or stops at a file before anything was created |
| MemoryFiles.MemoryFileProvider.WriteBytes | core/rust/src/file.rs:1072-1107 | does what the operation on values says, keeps the tree, and changes nothing on error |
| MemoryFiles.MemoryFileProvider.MkdirPath | core/rust/src/file.rs:1147-1164 | the same for mkdir |
| MemoryFiles.MemoryFileProvider.DeletePath | core/rust/src/file.rs:1166-1187 | the same for delete |
| MemoryFiles.MemoryFileProvider.CopyPath | core/rust/src/file.rs:1189-1227 | the same for copy |
| MemoryFiles.MemoryFileProvider.MovePath | core/rust/src/file.rs:1229-1283 | does what the operation on values says and keeps the tree |
| MemoryFiles.MemoryFileProvider.Relocate | core/rust/src/file.rs:1269-1283 | taking nodes out and putting them back one by one renames the subtree, no two landing on one key |
| MemoryFiles.MemoryFileProvider.TempPath | core/rust/src/file.rs:1285-1334 | tries successive names, at most 1024, and keeps the tree |
| MemoryFiles.TempIsNew | core/rust/src/file.rs:1285-1334 | a temporary entry is made where nothing stood, beneath an existing directory, and nothing else changes |
| MemoryFiles.MemoryFileProvider.EntriesOf | core/rust/src/file.rs:1120-1145 | lists exactly the children of a directory, in order of path |
| MemoryFiles.MemoryFileProvider.WalkCollect | core/rust/src/file.rs:361-380 | collects exactly the files at or beneath a path, each once; terminates because every descent is strictly narrower |
| MemoryFiles.MemoryFileProvider.Walk | core/rust/src/file.rs:476-488 | returns exactly the files at or beneath an existing path, in order of path |
| MemoryFiles.FilesThroughChildren | core/rust/src/file.rs:361-380 | descending through entries misses no file; this needs the tree |
| MemoryFiles.InOrderFacts | core/rust/src/file.rs:476-488 | the order of a listing: dictionary order of the texts, no duplicates, exactly the set |
| Packages.OrderIffAcyclic | core/rust/src/package_catalog.rs:267-344 | the order exists exactly when every target names one package and nothing needed is ambiguous or on a cycle; then it lists each needed package once, dependencies first, and nothing else; otherwise the error names a real fault |
| Packages.VisitFinishes | core/rust/src/package_catalog.rs:291-344 | a visit that succeeds extends the order, keeps it dependency-first and adds only what the package reaches |
| Packages.VisitFails | core/rust/src/package_catalog.rs:291-344 | an error is the fault of something the package reaches: an ambiguous dependency, or a cycle through it or through the visit chain |
| Packages.ClosedAndAcyclic | core/rust/src/package_catalog.rs:291-344 | a dependency-first order contains all it reaches and leaves no cycle |
| Packages.InternalMeans | core/rust/src/package_catalog.rs:305-336 | dependencies resolve to exactly the internal packages they name; the first ambiguous one is the error |
| Packages.CandidatesMean | core/rust/src/package_catalog.rs:305-336 | a name stands for the package of that very name, or else for exactly the packages whose last part after a slash is its own |
| Packages.CatalogKeepsLast | core/rust/src/package_catalog.rs:267-290 | of several definitions of one name the last counts |
| Packages.SelectsMeans | core/rust/src/package_catalog.rs:477-489 | what a selector picks, by segments of the namespace: a subtree, a root with what lies beneath its `base`, or a subtree without others |
| Packages.DependencySearch.VisitPackage | core/rust/src/package_catalog.rs:291-344 | the in-place search over visiting, visited and ordered computes the visit |
| Packages.DependencyOrder | core/rust/src/package_catalog.rs:267-289 | the whole operation meets the if-and-only-if above, terminating on every graph |
| Packages.NamespacesAreOwned | core/rust/src/package_catalog.rs:193-217 | a package owns, ascending and without repeats, exactly the available namespaces some selector picks |
| Packages.Claim | core/rust/src/package_catalog.rs:247-256 | enters a package's namespaces, or reports one that already has an owner, exactly when there is one |
| Packages.Validate | core/rust/src/package_catalog.rs:242-262 | succeeds exactly when no namespace has two owners and the whole graph is unambiguous and acyclic; an overlap is reported exactly when there is one |
| Names.SortDedupIsSorted | core/rust/src/package_catalog.rs:337-338 | sorting and dropping equal neighbours gives the members in dictionary order, each once |
| Numeric.CompareIsExact | core/rust/src/numeric.rs:219-240 | on all integers and finite doubles, comparison is the order of exact values |
| Numeric.CompareIsATotalOrder | core/rust/src/numeric.rs:219-240 | so it is total, antisymmetric up to equality of value, transitive across kinds, and reversed by exchange |
| Numeric.CompareRefuses | core/rust/src/numeric.rs:219-240 | an infinity or NaN is an error against any number; a non-number is never ordered |
| Numeric.IntegerFloatExact | core/rust/src/numeric.rs:118-144 | comparing an integer with a double by shifting is comparing with the double's exact value, zeros and subnormals included |
| Numeric.FloatsExact | core/rust/src/numeric.rs:219-240 | the sign-and-magnitude order of the bits is the order of exact values |
| Numeric.ExactIntegerIff | core/rust/src/numeric.rs:329-361 | a double converts to n exactly when it is finite and its value is the integer n |
| Numeric.FractionalMeans | core/rust/src/numeric.rs:329-333 | the fraction-bit test holds exactly when the significand is not a multiple of its unit |
| Numeric.ToLongIsExact | core/rust/src/numeric.rs:374-378 | conversion to a long yields n exactly when the value is n and n fits |
| Numeric.CompactIsCanonical | core/rust/src/numeric.rs:91-96 | compacting keeps the value and gives the only canonical representation |
| Numeric.NegateIsExact | core/rust/src/numeric.rs:268-278 | negation succeeds on every finite number, negates the exact value, stays canonical and undoes itself, the least long included |
| InternAll.ResolveInternAll | scripts/runtime/foundation_parity.py:183-199 | the while-changed loop ends for every input, cyclic imports included, with every entry holding the sorted union of the original public names it reaches |
| InternAll.SettledIsClosure | scripts/runtime/foundation_parity.py:189-199 | a pass that changes nothing means every entry holds its closure |
| InternAll.ChangeIsProgress | scripts/runtime/foundation_parity.py:191-199 | every change keeps entries within their closure and strictly shrinks what is missing or out of order |
| InternAll.EntryOrderDoesNotMatter | scripts/runtime/foundation_parity.py:184-199 | with distinct namespaces an entry resolves to the same names whatever order the entries come in |
| JsonRoundTrip.PrintedReadsBack | core/rust/src/json.rs:7-97 | reading what either printer wrote gives the value back exactly when it is nested at most 256 deep, and the depth error otherwise |
| JsonRoundTrip.ReadsBack | core/rust/src/json.rs:164-278 | at any depth and indentation: printed text followed by anything that cannot continue a number reads back, and reading stops where it ends |
| JsonRoundTrip.PrintersInjective | core/rust/src/json.rs:17-97 | values with equal text, in either layout and however deep, are equal |
| JsonRoundTrip.ReadCanBeWritten | core/rust/src/json.rs:7-27 | whatever the parser accepts can be written in either layout and read again |
| JsonRoundTrip.ReadIsSound | core/rust/src/json.rs:164-278 | a value read has string keys, no repeated key and bounded depth |
| JsonRoundTrip.StringReads | core/rust/src/json.rs:105-123 | escaped text reads back, control characters and quotes included |
| JsonRoundTrip.NumberReads | core/rust/src/json.rs:197-222 | the decimal text of any integer reads back |
| JsonSpelling.ReadIffSpelled | core/rust/src/json.rs:7-15 | text is read as a value exactly when it spells that value, a tree of integers, strings, arrays and objects of distinct keys with any blanks and any escapes of single characters, nested at most 256 deep |
| JsonSpelling.SpellingRead | core/rust/src/json.rs:7-15 | a text that spells a value is read as it or refused for its depth alone |
| JsonSpelling.SpellsOne | core/rust/src/json.rs:7-15 | a text spells at most one value, however deep |
| JsonSpelling.SpelledReads | core/rust/src/json.rs:164-278 | a spelling followed by anything that cannot continue a number is read as what it says, and reading stops where it ends |
| JsonSpelling.ReadIsSpelled | core/rust/src/json.rs:164-278 | whatever is read was a spelling of it after blanks, and nothing of the text is lost |
| JsonSpelling.LettersSpelled | core/rust/src/json.rs:280-320 | the text of a string up to its closing quote is a sequence of characters, escapes and numbered characters that say what was read |
| JsonSpelling.PrintedSpells | core/rust/src/json.rs:17-97 | what either printer writes spells the value, however deep it is |
| JsonLayout.CompactIsShortest | core/rust/src/json.rs:29-123 | compact text is the shortest text that spells its value, and the only one as short with lower-case escapes |
| JsonLayout.PrettyIsLaid | core/rust/src/json.rs:29-103 | pretty text is compact text with a blank after every colon outside strings and a new line with two blanks a level before every item and every bracket that closes a non-empty container |
| JsonCodec.Printer.Encode | core/rust/src/json.rs:29-98 | pushes exactly the value's text, or fails exactly on values with no JSON form |
| JsonCodec.Printer.PushString | core/rust/src/json.rs:105-123 | pushes exactly the quoted, escaped text |
| JsonCodec.Write | core/rust/src/json.rs:17-27 | the text reads back as the value unless it is nested too deep |
| JsonCodec.Parser.ReadAny | core/rust/src/json.rs:164-187 | the moving offset reads what the grammar says of the remaining input, with the same errors |
| JsonCodec.Parser.ReadString | core/rust/src/json.rs:280-306 | the same for strings and escapes |
| JsonCodec.Parser.ReadEscape | core/rust/src/json.rs:290-303 | an escape stands for one character, or is refused |
| JsonCodec.Parser.UnicodeEscape | core/rust/src/json.rs:308-320 | four hexadecimal digits that name a scalar value, or the error |
| JsonCodec.Parser.ReadNumber | core/rust/src/json.rs:197-222 | the same for integers: no leading zero, no fraction, no exponent |
| JsonCodec.Parser.ReadList | core/rust/src/json.rs:224-244 | the same for arrays, trailing commas refused |
| JsonCodec.Parser.ReadMap | core/rust/src/json.rs:246-278 | the same for objects, duplicate keys refused |
| JsonCodec.ReadText | core/rust/src/json.rs:7-15 | the whole reader, and that its results can be written and read again |
| WasmModules.InspectsModule | core/rust/src/direct_wasm.rs:80-181 | inspecting any binary form of a module in order succeeds exactly when the module is valid, and then reports exactly its imports with signatures, its memories with sorted export names, its function exports resolved through the imports-first index space, and its start function |
| WasmForms.AcceptedIffForm | core/rust/src/direct_wasm.rs:80-181 | bytes are accepted with a report exactly when they are the header and some sections, each in a permitted binary form and used up exactly, and the report is what those sections tell |
| WasmForms.AcceptedIsValid | core/rust/src/direct_wasm.rs:80-181 | accepted bytes whose sections stand in the order of the standard are a valid module, and the report describes it |
| WasmForms.SectionForm | core/rust/src/direct_wasm.rs:96-133 | a section that was read is a permitted form of what it told |
| WasmForms.BodyForm | core/rust/src/direct_wasm.rs:99-133 | a payload that was read to its end is a permitted form of the section's types, imports, functions, memories, exports or start function |
| WasmRoundTrip.InspectsSections | core/rust/src/direct_wasm.rs:80-136 | for sections in any order and integers in any permitted form, inspection concludes what the sections tell, errors included |
| WasmRoundTrip.LebReads | core/rust/src/direct_wasm.rs:440-453 | an encoded integer is read back in any width it fits |
| WasmRoundTrip.ShortestIsProper | core/rust/src/direct_wasm.rs:440-453 | the shortest form of every 32-bit integer is one the reader reads as that integer |
| WasmRoundTrip.SectionReads | core/rust/src/direct_wasm.rs:96-133 | one section's bytes are consumed exactly and tell what the section tells |
| WasmRoundTrip.ImportReads | core/rust/src/direct_wasm.rs:211-262 | an import is read back and checked against the types read so far |
| WasmRoundTrip.LimitsRead | core/rust/src/direct_wasm.rs:364-387 | limits are read back with flag, minimum, maximum and sharing |
| WasmExamples.AddBytes | core/rust/src/direct_wasm.rs:459-461 | the bytes of a module that exports an addition |
| WasmExamples.AddReport | core/rust/src/direct_wasm.rs:465-471 | inspecting them reports that export with its 64-bit signature and nothing else |
| WasmModules.Learned | core/rust/src/direct_wasm.rs:80-136 | sections in order tell all the types, imports, functions, memories and exports of the module |
| WasmModules.FunctionsResolved | core/rust/src/direct_wasm.rs:138-163 | every function export gets the signature its index names, imports counted first |
| WasmModules.MemoriesConcluded | core/rust/src/direct_wasm.rs:165-174 | every memory gets exactly the names it is exported under, sorted |
| WasmInspector.Cursor.Unsigned | core/rust/src/direct_wasm.rs:440-453 | the loop of seven-bit groups reads exactly the integers of the binary grammar, and refuses the rest |
| WasmInspector.Cursor.Name | core/rust/src/direct_wasm.rs:419-430 | a length-prefixed name within the section, refused when it is not UTF-8 |
| WasmInspector.Cursor.LimitsOf | core/rust/src/direct_wasm.rs:364-387 | limits with their three refusals |
| WasmInspector.Cursor.Imports | core/rust/src/direct_wasm.rs:211-262 | pushes one report per import, in order, with its signature or memory |
| WasmInspector.Cursor.Exports | core/rust/src/direct_wasm.rs:282-310 | pushes function and memory exports in order, duplicates refused |
| WasmInspector.Cursor.NextSection | core/rust/src/direct_wasm.rs:97-105 | a section is read through a cursor of its own, within its declared size |
| WasmInspector.Cursor.Section | core/rust/src/direct_wasm.rs:106-133 | a section must be used up exactly |
| WasmInspector.InspectModule | core/rust/src/direct_wasm.rs:80-181 | the whole inspector: it succeeds on a binary form of ordered sections exactly when they make a valid module, with that module's description |
| Snapshots.DeltaIsFull | core/rust/src/snapshot.rs:88-133 | leaving out payloads of a valid full manifest and resolving against a base gives back the same manifest and logical digest exactly when the base carries each namespace left out |
| Snapshots.ResolvedIsSound | core/rust/src/snapshot.rs:88-133 | every payload of a resolved snapshot is present and matches its declared digest |
| Snapshots.ResolveNeedsItsBase | core/rust/src/snapshot.rs:88-103 | a resolve succeeds only without a base for a full artifact and only with the very base a delta names; a valid artifact given anything else is refused for that, with the error of the case |
| Snapshots.ResolveFills | core/rust/src/snapshot.rs:105-126 | the resolved manifest is the artifact's own with each payload left out filled in from the base's last namespace of that name and digest, position by position |
| Snapshots.FindIsLast | core/rust/src/snapshot.rs:106-111 | the last namespace of a name is found, if there is one |
| Snapshots.ChainIsFull | core/rust/src/snapshot.rs:88-133 | a chain that starts in full and goes on in deltas resolves, at every link, to that link's full manifest and digest exactly when each link leaves out only what the one before carries identically |
| Snapshots.ChainIsSound | core/rust/src/snapshot.rs:88-133 | along a chain of any length every payload of the result matches its digest and is carried by some artifact of the chain |
| Snapshots.DigestIgnoresOrder | core/rust/src/snapshot.rs:192-197 | the logical digest ignores the order of libraries, namespaces and secrets, and any valid accelerators |
| SnapshotText.TextIffSameContent | core/rust/src/snapshot.rs:285-355 | two manifests are written alike exactly when they agree up to the order of their lists and the accelerators |
| SnapshotText.DigestTells | core/rust/src/snapshot.rs:192-197 | where the hash does not collide, complete manifests have equal logical digests exactly when they agree up to list order and accelerators |
| SnapshotFaults.FaultIsFirst | core/rust/src/snapshot.rs:203-268 | a manifest is valid exactly when it has none of the listed faults; the fault reported is one it has, of the earliest kind it has |
| SnapshotFaults.FirstNamespaceFault | core/rust/src/snapshot.rs:225-245 | the first namespace that is not sound decides the error, its name before its payload |
| SnapshotFaults.FirstStateFault | core/rust/src/snapshot.rs:246-252 | the first entry of the state that cannot be carried over decides the error |
| SnapshotFrames.ArtifactRoundTrip | core/rust/src/snapshot.rs:136-186 | what is encoded is decoded to the artifact with its lists in order exactly when no list, map or set is longer than the reader accepts, and is refused for that otherwise |
| SnapshotFrames.CrowdedRefused | core/rust/src/snapshot.rs:521-530 | a valid artifact that is encoded and whose bytes are refused: one capability too many |
| SnapshotFrames.CanonicalEncodes | core/rust/src/snapshot.rs:285-355 | the artifact read back is encoded alike |
| SnapshotFrames.ManifestReads | core/rust/src/snapshot.rs:357-411 | a manifest's text is read back field by field with its lists in order |
| SnapshotFrames.FrameReads | core/rust/src/snapshot.rs:136-186 | magic, version, length and checksum are taken off again |
| Snapshots.NamespacesSound | core/rust/src/snapshot.rs:225-245 | namespace validation passes exactly when every namespace is named and its payload matches its digest or may be inherited |
| SnapshotWriter.CheckState | core/rust/src/snapshot.rs:246-252 | the first entry at fault, in order of name, decides which of the two state errors is reported |
| SnapshotWriter.Validate | core/rust/src/snapshot.rs:203-268 | finds the first fault in the order the source checks |
| SnapshotWriter.FillIn | core/rust/src/snapshot.rs:103-126 | the loop fills in every inherited payload, or stops at the first missing or mismatched namespace |
| SnapshotWriter.Writer.WriteManifest | core/rust/src/snapshot.rs:285-355 | appends exactly the text the digest is taken of, every list in key order |
| SnapshotWriter.Digest | core/rust/src/snapshot.rs:192-197 | validates, writes and hashes |
| SnapshotWriter.ResolveArtifact | core/rust/src/snapshot.rs:88-133 | resolves as specified, errors included, and leaves every payload matching its digest |
| Ordering.SortIsArrange | core/rust/src/hta.rs:343-355 | sorting entries with distinct keys gives the same entries in dictionary order of their keys, whatever order they came in |
| Ordering.LessMeans | core/rust/src/hta.rs:285-296 | the order of bytes and texts is dictionary order: a proper prefix comes first, otherwise the smaller item at the first difference decides |

## Left out

Fiber evaluator:
- Synchronous `eval`, macro expansion, namespace loading, coroutines and semantic recording: they are reached only through `Host`, so nothing is said of what they do.
- FiberTrace.OneBalanced: assumes that the host's own operations leave the trace stack as they found it, since they could do anything to it.
- FiberTrace.CallBalanced: the same assumption about the host's operations.
- `Step::Yield` and natives that call something other than their continuation: not modelled; a native either returns or awaits.
- Map patterns with `:keys` and `:or` in destructuring: only symbols and vectors with `&` and `:as`.
- The "fiber continuation missing" and "fiber suspended without promise" errors: the class invariant excludes them.
- EvalFibers.EvalFiber.Accept: takes a ghost bound on the steps of the accept loop, because evaluation need not end; nothing is said of runs that do not.

HTA0:
- Sorted maps and sets, priority maps, tries, the legacy tuple tag, and values with identity or hidden structure (var, atom, namespace, exception provenance, native result): not in the value universe, and their tags are refused by the model's reader.
- HtaFrames.ValueMore: about the model's reader, which refuses those tags; what the source makes of them depends on its order of values.
- HtaFrames.PrefixFree: likewise, frames that hold those tags are outside it.
- HtaCodec.CollectedMap: arrays and objects stand for their contents, while the source compares them by identity; a map with two distinct array keys of equal content, which the source writes in iteration order, is not in the universe.
- HtaCodec.Encode: encoding errors are one error, because which one is met first depends on the iteration order of sets and maps; tuples are vectors and fitting big integers are longs before encoding.

Memory filesystem:
- Timestamps, promises and the native provider: clocks and host calls.
- Reading, existence and stat: single lookups.
- MemoryFiles.MemoryFileProvider.TempPath: the sequence number is a field of the provider, not a counter shared by all providers.
- Paths are kept as segment lists; `LogicalPaths` proves that their text is injective and that prefix tests on text are prefix tests on segments.

Packages:
- Reading the catalogue from EDN, `find_package_definition` and bundles: field checks.
- Packages.Validate: error payloads name the namespace or package only.

Numbers:
- Arithmetic on doubles (rounding), bit operations, hashing, truncating conversion and the other integer widths.
- `fract` and the comparison of two doubles are modelled on the bits, as section 3.4 of IEEE 754-2019 defines them.

JSON:
- Error messages carry no character position.
- JsonSpelling.ReadIffSpelled: the source refuses fractions, exponents and escaped surrogates, so the spellings leave out these forms of RFC 8259 too.
- JsonCodec.Printer.Encode: hash maps, sorted maps and tries are entries in some order, like ordered maps; integers of both widths are one kind, joined by `Numeric.CompactIsCanonical`.

WebAssembly:
- The policy for direct modules (no imports, one bounded memory): one branch each.
- WasmModules.InspectsModule: modules whose sections, other than those the inspector skips, come once each and in order; `WasmRoundTrip.InspectsSections` covers any order.
- Names are kept as their bytes.

Snapshots:
- SnapshotText.DigestTells: takes the absence of a hash collision between the two texts as a condition, since SHA-256 is an arbitrary function here.
- SnapshotFrames.ArtifactRoundTrip: artifacts are written and read as values, over the remaining bytes, not with the buffer and cursor of the source; that texts are valid UTF-8, digests 32 bytes wide and state values decoded to what was encoded are conditions, since these come from types and libraries outside the model.

Not modelled at all: process extensions, command lines, RESP, the browser and native providers, cryptography, package loaders, clocks, journals, compiled products, telemetry and assets.
