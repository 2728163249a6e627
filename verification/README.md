# Verification of the T0 compiler and of the URL library

This project models two parts of the repository in Dafny and proves properties of the models.

**The T0 compiler and its bytecode machine** (`submodules/bearssl/T0`).

- `SevenE`, `Widths`: the variable-length "7E" numbers, their C decoders, and the widths chosen for constant expressions.
- `Machine`, `Cpu`: opcodes and the virtual CPU, as values and as the object that the source updates in place.
- `Builder`, `BuilderLaws`, `Structured`, `StructuredRun`: the word builder with its control-flow stack and its names, the
  structured programs that the control-flow words describe, and what their opcodes do.
- `Effects`, `Flow`, `JumpQueue`, `Analysis`, `JumpLoops`, `FlowSound`, `Principal`, `DataStack`, `StackBounds`: stack
  effects and their order; what a flow analysis has to find; the worklist methods that find it, and how large their queue has
  to be; that it holds of every run; that nothing smaller does; and when its bound on the data stack holds.
- `Layout`, `Slots`, `Codegen`, `Gather`: the words that are generated, their slots, their code elements and addresses.
- `Runtime`, `RunLoop`, `Kernel`: the emitted run loop, on values and on memory, and the C code of the stack words.
- `Simulation`, `Assignment`, `EndToEnd`, `Nested`, `Pipeline`: generated bytes do what the opcodes do, with locals that start
  with the contents of memory, or are written before they are read; with analysed words, within the computed return stack;
  and what the structured source means, with calls of any words.
- `Literals`, `ConstBlocks`: integer literals, and blocks of constant data with their strings.

**URLs** (`src`).

- `Query`, `CleanQuery`: query strings, and the filter that drops empty and duplicate parameters.
- `Uri`, `UriObject`, `UriLaws`, `UriText`: parsing and printing of URIs as functions, the C code on a structure that is
  filled in place, when one undoes the other, and what texts are read as.
- `CleanUrl`: both together, for a URL to which no rule applies.

Each imperative part is a class or a method with loops, proved against functions on values; laws are proved about these
functions. Run `dafny verify dfyconfig.toml` in this directory to check everything.

How to read the main results:

- A failing step (an exception, an access outside a buffer, a native word that does not return) is `None`, or an error value.
- Locals that were never written read as 0 on the virtual CPU, and hold arbitrary memory in generated code
  (`UnwrittenLocalDiffers`). `GeneratedCodeIsCorrect` therefore lets each frame of the CPU start with initial values, and says
  that some exist with which both machines agree for ever. `AllAssigned` is a condition on opcodes under which the initial
  values do not matter. Both assume less than 128 locals in one-byte code, where the count is written as a raw byte and read
  back as a 7E number (`SmallByteDecodes`).
- In `Analysis`, a table gives each word its outcome; `TableOk` says that all outcomes in it are right. `Rejected` stands for
  the exceptions that report an error, and `QueueFull` for the index exception of the worklist. The queue has as many entries
  as the word has opcodes, and takes one for each jump that is met from the first opcode, and from each opcode that is annotated
  first by falling through, while jumps land on jumps (`LedgerKept`). So words that have an outcome are refused when this is too
  much: always when jumps have no end, as in `begin again` (`AnalyseBeginAgain`), and never when `FullLoad`, the number of
  jumps met from all opcodes that can be fallen into, is at most the number of opcodes.
- `MaxDataStack` is described as the number of extra elements that a word may need (Word.cs, lines 145-149), but what a native
  word pushes is not counted at its call. `DupNotCounted` shows a word that takes more, `CountedExactly` and `DataStackFits`
  when the bound holds.
- `Canonical` in `UriLaws` is the exact condition under which a printed URI is read back. Two cases differ from
  section 5.3 of RFC 3986: a fragment without a query becomes part of the path as well, and an '@' after the host is taken
  for the end of user information when there is none.
- `BufferSuffices` shows the only query for which three bytes for each character and one more are too few: an empty one.
  Parsing never stores an empty query.

## Model

| member | source | states |
|---|---|---|
| `SevenE.EncodeOneByte` | submodules/bearssl/T0/CodeElement.cs:49-57 | a value above 255 is refused and writes nothing; otherwise exactly that byte is appended |
| `SevenE.Encode7EUnsigned` | submodules/bearssl/T0/CodeElement.cs:59-75 | appends the shortest 7E code and returns its length, the same length when there is no writer |
| `SevenE.Encode7ESigned` | submodules/bearssl/T0/CodeElement.cs:77-99 | the same for signed values, with a sign bit in the first byte |
| `SevenE.AppendGroups` | submodules/bearssl/T0/CodeElement.cs:67-73 | the writing loop appends the low groups of 7 bits of a value, most significant first |
| `SevenE.RunParse7E` | submodules/bearssl/T0/T0Comp.cs:1699-1714 | the decoding loop, which wraps modulo 2^32, computes the decoding function |
| `SevenE.RunParse7ESigned` | submodules/bearssl/T0/T0Comp.cs:1716-1737 | the signed decoder, with its sign extension, computes the decoding function |
| `SevenE.UnsignedCodeRoundTrip` | submodules/bearssl/T0/T0Comp.cs:1699-1714 | for every 32-bit value and any bytes around its code, the decoder returns the value and stops exactly at the end of the code |
| `SevenE.SignedCodeRoundTrip` | submodules/bearssl/T0/T0Comp.cs:1716-1737 | the same for signed values |
| `SevenE.SignedRoundTrip` | submodules/bearssl/T0/T0Comp.cs:1716-1737 | also for codes that are longer than needed |
| `SevenE.UnsignedCodeIsShortest` | submodules/bearssl/T0/CodeElement.cs:59-75 | no shorter byte string decodes to the same unsigned value |
| `SevenE.SignedCodeIsShortest` | submodules/bearssl/T0/CodeElement.cs:77-99 | no shorter byte string decodes to the same signed 32-bit value |
| `SevenE.Len7ULeast` | submodules/bearssl/T0/CodeElement.cs:61-66 | a value that fits in n groups has a code of at most n bytes |
| `SevenE.Len7SLeast` | submodules/bearssl/T0/CodeElement.cs:79-88 | the same for signed values, whose first group has a sign bit |
| `SevenE.ParseCoded` | submodules/bearssl/T0/T0Comp.cs:1699-1714 | an n-byte code, minimal or not, decodes modulo 2^32 to the value that it was made from |
| `SevenE.CodeBytes` | submodules/bearssl/T0/CodeElement.cs:66-73 | byte by byte: the groups of 7 bits come most significant first, with the high bit set in all bytes but the last |
| `SevenE.CodeExamples` | submodules/bearssl/T0/CodeElement.cs:59-99 | the codes of some numbers around the limits of one byte, signed and unsigned |
| `Widths.SignedBitsExact` | submodules/bearssl/T0/TPointerExpr.cs:81-96 | the number of bits of a value is the least width of a two's complement range that holds it |
| `Widths.BitLength` | submodules/bearssl/T0/TPointerExpr.cs:81-96 | the loops, with their doubling and halving, compute that number for every 64-bit value |
| `Widths.GetMaxBitLength` | submodules/bearssl/T0/TPointerExpr.cs:62-79 | the least width, at most 32, that holds a negative lower bound and a positive upper bound, in whatever order they are; for a range that is not empty, the least width that holds every value of the shifted range |
| `Widths.T0IntIsCoded` | submodules/bearssl/T0/T0Comp.cs:1739-1745 | the macros of 1 to 4 bytes emit the 7E code of that length |
| `Widths.NegativeT0Int5` | submodules/bearssl/T0/T0Comp.cs:1741-1746 | the five-byte macro emits the 7E code of negative values |
| `Widths.ExprDecodes` | submodules/bearssl/T0/CodeElementUIntExpr.cs:56-65 | a constant expression whose value is in its declared range is read back from the bytes of the chosen width exactly when that width is at most 4 or the value is negative |
| `Widths.FiveByteExample` | submodules/bearssl/T0/T0Comp.cs:1741-1741 | 2^28, on five bytes, is read back as 1, after one byte only |
| `Layout.CodeElement.Encode` | submodules/bearssl/T0/CodeElementJump.cs:80-96 | appends exactly the bytes of the element, whose offset counts from its end to its target |
| `Layout.CodeElement.GetLength` | submodules/bearssl/T0/CodeElementJump.cs:52-62 | the length that the element has with the current addresses, 1 for a jump whose addresses are not known yet |
| `Layout.CodeElement.SetJumpTarget` | submodules/bearssl/T0/CodeElement.cs:40-43 | only jumps accept a target |
| `Layout.Round` | submodules/bearssl/T0/T0Comp.cs:1666-1674 | one round measures all elements with the old addresses and then places them all |
| `Layout.NextRound` | submodules/bearssl/T0/T0Comp.cs:1665-1679 | what every round keeps: lengths are bounded, do not shrink in the next round, and are below those of every roomy layout |
| `Layout.Progress` | submodules/bearssl/T0/T0Comp.cs:1675-1678 | the total grows, and equal totals force every length to be exactly the one that its own offset needs |
| `Layout.NeededMono` | submodules/bearssl/T0/CodeElementJump.cs:69-78 | longer elements never shorten a jump |
| `Layout.ComputeAddresses` | submodules/bearssl/T0/T0Comp.cs:1663-1679 | the loop ends, with every element exactly as long as its encoding, and pointwise below every layout in which each element has room for its encoding |
| `Layout.LeastConsistent` | submodules/bearssl/T0/CodeElementJump.cs:69-78 | so every other length assignment that is consistent with its own jump offsets is pointwise at least as long |
| `Layout.EncodeAll` | submodules/bearssl/T0/T0Comp.cs:1789-1792 | the bytes of the block, element after element; it fails exactly when one-byte code has a first number above 255 |
| `Layout.ElementParts` | submodules/bearssl/T0/CodeElementJump.cs:80-96 | in the block, the bytes of each element are found at its address, and its argument after its first number |
| `Layout.ElementEnd` | submodules/bearssl/T0/CodeElementJump.cs:69-78 | the end of an element is the address of the next one |
| `Machine.RotationsInverse` | submodules/bearssl/T0/CPU.cs:129-150 | `Rot` and `NRot` undo each other at every depth |
| `Machine.RotationMoves` | submodules/bearssl/T0/CPU.cs:129-150 | the value that `Rot` moves goes from its depth to the top, and back with `NRot`; the others keep their order |
| `Cpu.CpuObject.constructor` | submodules/bearssl/T0/CPU.cs:55-63 | a new CPU has empty stacks |
| `Cpu.CpuObject.Enter` | submodules/bearssl/T0/CPU.cs:65-76 | a new frame with unwritten locals saves the position, and execution goes to the first opcode |
| `Cpu.CpuObject.Exit` | submodules/bearssl/T0/CPU.cs:78-90 | the position saved in the topmost frame is restored and the frame removed; fails exactly without a frame |
| `Cpu.CpuObject.Pop` | submodules/bearssl/T0/CPU.cs:97-103 | removes and returns the topmost value; fails exactly on an empty stack |
| `Cpu.CpuObject.Push` | submodules/bearssl/T0/CPU.cs:105-118 | appends a value, through any growth of the buffer |
| `Cpu.CpuObject.Peek` | submodules/bearssl/T0/CPU.cs:120-127 | the value at a depth, or the exception of the array access; a negative depth reads what the buffer holds above the top |
| `Cpu.CpuObject.Rot` | submodules/bearssl/T0/CPU.cs:129-139 | moves the value at a depth to the top, in place; fails exactly on a depth outside the stack, negative ones included, and then changes nothing |
| `Cpu.CpuObject.NRot` | submodules/bearssl/T0/CPU.cs:141-150 | moves the topmost value to a depth, in place; fails in the same cases |
| `Cpu.CpuObject.GetLocal` | submodules/bearssl/T0/CPU.cs:152-158 | reads a local of the topmost frame, 0 when it was never written |
| `Cpu.CpuObject.PutLocal` | submodules/bearssl/T0/CPU.cs:160-166 | writes a local of the topmost frame and nothing else |
| `Cpu.CpuObject.RunCall` | submodules/bearssl/T0/OpcodeCall.cs:49-52 | enters an interpreted word, or applies a native one to the data stack |
| `Cpu.CpuObject.RunJump` | submodules/bearssl/T0/OpcodeJumpIf.cs:38-43 | conditional jumps pop a value and jump or not |
| `Cpu.CpuObject.Step` | submodules/bearssl/T0/T0Comp.cs:1415-1416 | one round of the interpreter, on the linked frames and the growable buffer, is one step of the machine on values |
| `Builder.ApplyKeeps` | submodules/bearssl/T0/WordBuilder.cs:86-384 | each call keeps the invariant: every unresolved jump is on the control-flow stack, every resolved one lands inside the word or at its end, and the latter sets `jumpToLast` |
| `Builder.FinishWellFormed` | submodules/bearssl/T0/WordBuilder.cs:72-84 | `Build` succeeds exactly when the control-flow stack is empty, and then the word is well-formed |
| `Builder.BuiltWordsAreWellFormed` | submodules/bearssl/T0/WordBuilder.cs:72-180 | for every sequence of calls, with any picks and rolls: if building succeeds, every jump is resolved, and every jump target and fall-through successor is an opcode of the word |
| `Builder.Resolve` | submodules/bearssl/T0/WordInterpreted.cs:59-72 | names become call targets; fails exactly when a name is unknown |
| `Builder.ResolvedIsWellFormed` | submodules/bearssl/T0/WordInterpreted.cs:59-72 | after resolution every call has a target and the word is still well-formed |
| `Builder.WordBuilder.constructor` | submodules/bearssl/T0/WordBuilder.cs:55-70 | an empty builder |
| `Builder.WordBuilder.Push` | submodules/bearssl/T0/WordBuilder.cs:119-128 | pushes on the control-flow stack, through any growth of the array |
| `Builder.WordBuilder.PopSlot` | submodules/bearssl/T0/WordBuilder.cs:130-137 | pops the control-flow stack; fails exactly when it is empty |
| `Builder.WordBuilder.Roll` | submodules/bearssl/T0/WordBuilder.cs:101-111 | rolls the control-flow stack in place |
| `Builder.WordBuilder.DoCall` | submodules/bearssl/T0/WordBuilder.cs:201-222 | adds the opcode that the builder on values adds for a name; `BuilderLaws.CallsByName` says which |
| `BuilderLaws.CallsByName` | submodules/bearssl/T0/WordBuilder.cs:187-222 | the name of a local reads it, '>' and the name of a local writes it, and any other name is a call to be resolved later |
| `BuilderLaws.CallsLater` | submodules/bearssl/T0/WordBuilder.cs:232-239 | such a call has no target yet, and its name is recorded beside it |
| `BuilderLaws.LocalsInOrder` | submodules/bearssl/T0/WordBuilder.cs:272-279 | locals are numbered in the order of their definitions; a name that is defined already is refused |
| `BuilderLaws.PickShows` | submodules/bearssl/T0/WordBuilder.cs:113-117 | the pick of a depth copies that element of the control-flow stack to its top |
| `BuilderLaws.RollMoves` | submodules/bearssl/T0/WordBuilder.cs:101-111 | the roll of a depth moves that element to the top; it fails exactly outside the stack |
| `BuilderLaws.ReturnAdded` | submodules/bearssl/T0/WordBuilder.cs:72-84 | a return is added exactly when the word is empty, a jump lands on its end, or its last opcode may fall through |
| `BuilderLaws.NamesResolve` | submodules/bearssl/T0/WordInterpreted.cs:59-72 | a word whose names are resolved after it was built is the word in which the calls were made to the words themselves |
| `Builder.WordBuilder.DoThen` | submodules/bearssl/T0/WordBuilder.cs:338-347 | resolves the jump on the control-flow stack to the next opcode, and records a jump to the end |
| `Builder.WordBuilder.DoAgain` | submodules/bearssl/T0/WordBuilder.cs:358-384 | adds a jump back to the destination on the control-flow stack |
| `Builder.WordBuilder.Perform` | submodules/bearssl/T0/WordBuilder.cs:101-384 | every call on the object does what the builder on values does, and keeps its invariant |
| `Builder.WordBuilder.BuildWord` | submodules/bearssl/T0/WordBuilder.cs:72-84 | the word, with a return added when the last opcode may fall through or is a jump target past the end; always well-formed |
| `Structured.BuilderCompiles` | submodules/bearssl/T0/T0Comp.cs:706-737 | for every nesting of if, else, begin, again, until and while, at any position of the word, the control-flow words append exactly the opcodes of the program and leave the control-flow stack as it was |
| `StructuredRun.Meaning` | submodules/bearssl/T0/T0Comp.cs:706-737 | the opcodes of a structured program, anywhere in a word, end like the program: on the same state after as many opcodes, by returning, by failing, or still running |
| `StructuredRun.WordMeaning` | submodules/bearssl/T0/WordBuilder.cs:72-84 | a word built from a structured program does what the program does and then returns |
| `StructuredRun.StepAgrees` | submodules/bearssl/T0/OpcodeJump.cs:47-50 | one opcode does the same to the CPU as to the state of its word |
| `StructuredRun.StoredThenRead` | submodules/bearssl/T0/WordBuilder.cs:187-222 | writing a local by its name and reading it gives the value back |
| `Effects.MakeSType` | submodules/bearssl/T0/SType.cs:52-62 | negative counts become -1, and others are kept |
| `Effects.SubEffectSound` | submodules/bearssl/T0/SType.cs:113-128 | every function that obeys an effect obeys each larger one |
| `Effects.SubEffectExact` | submodules/bearssl/T0/SType.cs:113-128 | for known effects, the relation holds exactly when every function that obeys the one obeys the other |
| `Effects.SubEffectPreorder` | submodules/bearssl/T0/SType.cs:113-128 | reflexive on known effects, and transitive |
| `Flow.AnalysisUnique` | submodules/bearssl/T0/WordInterpreted.cs:142-268 | a word has at most one outcome, whatever the order in which words and opcodes are visited |
| `Flow.CertUnique` | submodules/bearssl/T0/WordInterpreted.cs:154-226 | the annotations of a word and its bounds are unique |
| `Flow.DepthIsNet` | submodules/bearssl/T0/WordInterpreted.cs:127-140 | along every path from the start of an analysed word, the changes of depth add up to the annotation |
| `Flow.AnnotatedIffReachable` | submodules/bearssl/T0/WordInterpreted.cs:154-226 | exactly the opcodes that can be reached are annotated, and the returns among them share one depth |
| `Flow.CallsDescend` | submodules/bearssl/T0/WordInterpreted.cs:144-153 | calls that can be reached go to analysed words with a strictly smaller bound: there is no recursion |
| `Flow.CertKept` | submodules/bearssl/T0/WordInterpreted.cs:180-196 | the outcome of a word stays right while other words are analysed |
| `Analysis.MergeSA` | submodules/bearssl/T0/WordInterpreted.cs:127-140 | annotates an opcode for the first time, or finds the same depth; anything else, or an index out of range, is refused and changes nothing |
| `Analysis.Follow` | submodules/bearssl/T0/WordInterpreted.cs:212-219 | the jump target is queued and both successors are annotated; exactly when that is refused, or the queue is full |
| `Analysis.PrepareCall` | submodules/bearssl/T0/WordInterpreted.cs:180-190 | the callee is analysed first, and its effect is known; rejected only if no table of outcomes makes the callee usable |
| `Analysis.VisitOpcode` | submodules/bearssl/T0/WordInterpreted.cs:174-221 | one round of the worklist is one visit, with all its bounds; a rejection means that no table has an outcome for the word |
| `Analysis.VisitWorks` | submodules/bearssl/T0/WordInterpreted.cs:174-226 | what every visit keeps: visited opcodes agree with their successors, annotated ones are visited or queued, and each annotation and bound can be traced back to visited opcodes |
| `Analysis.StillForced` | submodules/bearssl/T0/WordInterpreted.cs:127-140 | what every visit keeps: the annotations made so far are part of those in every table that has an outcome for the word |
| `Analysis.VisitShrinks` | submodules/bearssl/T0/WordInterpreted.cs:218-226 | a visit without a jump annotates at most the next opcode, which bounds the number of visits |
| `JumpQueue.LedgerKept` | submodules/bearssl/T0/WordInterpreted.cs:154-226 | what every visit keeps: the entries that the queue has taken, with those that the opcodes still to be visited will queue, are the jumps met, while jumps land on jumps, from the first opcode and from the opcodes that were annotated first by falling through |
| `JumpQueue.LedgerDone` | submodules/bearssl/T0/WordInterpreted.cs:154-226 | at the end, the queue has taken exactly that many entries, and no annotated opcode is followed by jumps without end |
| `JumpQueue.LedgerFull` | submodules/bearssl/T0/WordInterpreted.cs:212-216 | when an entry finds no room, more jumps are met from those opcodes than the queue can take; so they are from all opcodes that can be fallen into |
| `JumpQueue.EndlessExactly` | submodules/bearssl/T0/WordInterpreted.cs:212-216 | jumps have no end exactly when more of them are met than there are opcodes |
| `JumpQueue.LoopIsEndless` | submodules/bearssl/T0/WordInterpreted.cs:212-216 | jumps that land on each other have no end |
| `Analysis.NoReachableLoop` | submodules/bearssl/T0/WordInterpreted.cs:154-226 | a word from whose start jumps without end can be reached, in any table with an outcome for it, is never analysed |
| `Analysis.ExploreWord` | submodules/bearssl/T0/WordInterpreted.cs:154-226 | the worklist ends; on success the annotations are complete, consistent, reachable and tight, and the jumps met from the first opcode and the opcodes first annotated by falling through were at most as many as opcodes; otherwise no table has an outcome for the word, or the queue was full, which needs a word, this one or one that it calls, with more jumps to be met than opcodes |
| `Analysis.AnalyseFlow` | submodules/bearssl/T0/WordInterpreted.cs:142-268 | ends; an accepted word has annotations whose effect is within the declared one, and its queue sufficed; a word is rejected only when no table of outcomes has one for it, recursion included; the queue is full only if, in the word or one that it calls, more jumps are met than there are opcodes |
| `Principal.NeedsExactly` | submodules/bearssl/T0/OpcodePutLocal.cs:39-42 | an opcode fails on the machine exactly with fewer elements than the analysis takes it to need |
| `Principal.EdgeExactly` | submodules/bearssl/T0/Opcode.cs:91-101 | the analysis follows exactly the ways that the machine can go in one step, with the change of depth of that step |
| `Principal.CallEdge` | submodules/bearssl/T0/WordInterpreted.cs:192-205 | a call is followed by the next opcode exactly when the effect of the callee has an exit, and changes the depth by that effect |
| `Principal.LowestIsNeeded` | submodules/bearssl/T0/WordInterpreted.cs:204-210 | the lowest depth is what the opcode at the end of some run through the word needs, and none needs more |
| `Principal.ComputedIsLeast` | submodules/bearssl/T0/WordInterpreted.cs:247-265 | the computed effect is the least: an effect suffices for all runs through the word exactly when the computed one is within it |
| `Principal.OutcomeExactly` | submodules/bearssl/T0/WordInterpreted.cs:154-265 | a word has an outcome exactly when its runs stay in the word and call known words, runs to the same opcode or to returns have the same depth, and the declared effect suffices for them |
| `Principal.EffectOfWord` | submodules/bearssl/T0/WordInterpreted.cs:247-265 | an analysed word keeps its declared effect, which suffices, and otherwise has the least one that does |
| `StackBounds.ChainFits` | submodules/bearssl/T0/WordInterpreted.cs:192-229 | no chain of calls that can be reached takes more cells than `MaxReturnStack` |
| `StackBounds.ChainAttains` | submodules/bearssl/T0/WordInterpreted.cs:192-229 | some chain of calls takes exactly that many |
| `Analysis.AnalyseEntries` | submodules/bearssl/T0/T0Comp.cs:1504-1520 | all entry points have outcomes within the limits of both stacks, or no table has them, or the queue of a needed word was full; it always is full when there are outcomes but some entry point reaches jumps without end |
| `JumpLoops.BeginAgainLoops` | submodules/bearssl/T0/WordInterpreted.cs:212-219 | `begin again` has an outcome, no exit and one cell of the return stack, but it is a jump that lands on itself |
| `JumpLoops.BuiltBeginAgain` | submodules/bearssl/T0/WordBuilder.cs:349-366 | that opcode is what the builder makes of `begin again` |
| `JumpLoops.AnalyseBeginAgain` | submodules/bearssl/T0/WordInterpreted.cs:212-219 | so its analysis always ends with the exception of the full queue |
| `FlowSound.ExitEffect` | submodules/bearssl/T0/WordInterpreted.cs:247-265 | the recorded effect covers the lowest depth, and its difference is the exit depth |
| `FlowSound.LiveStep` | submodules/bearssl/T0/WordInterpreted.cs:142-268 | the invariant of runs: from a live state, a step leads to a live state, or a native word does not return |
| `FlowSound.StepAbove` | submodules/bearssl/T0/WordInterpreted.cs:192-196 | a step from a live state does the same on top of any other elements |
| `FlowSound.AnalysedRunSafe` | submodules/bearssl/T0/WordInterpreted.cs:142-268 | in every run of an analysed word, on any stack with its arguments on top and with any initial values of locals, nothing underflows, the elements below are untouched, live frames with their locals fit in `MaxReturnStack`, a returning word leaves as many elements as its effect says, and a word without exit never returns |
| `FlowSound.AnalysedWordObeys` | submodules/bearssl/T0/WordInterpreted.cs:247-265 | as a function on stacks, an analysed word obeys its effect in the sense in which native words obey theirs |
| `FlowSound.LiveFits` | submodules/bearssl/T0/WordInterpreted.cs:229-229 | the frames of a live state fit in the limit, one cell for each frame and each local |
| `DataStack.CountedExactly` | submodules/bearssl/T0/WordInterpreted.cs:180-205 | `MaxDataStack` covers every depth of a word exactly when it covers the depth after each call of a word that leaves more elements than are counted for it |
| `DataStack.NativeUndercounted` | submodules/bearssl/T0/Word.cs:150-162 | what is counted for a call of a native word: the depth after it, without what it adds; so the word is undercounted exactly when it leaves more elements than it takes |
| `DataStack.InterpretedCounted` | submodules/bearssl/T0/WordInterpreted.cs:270-275 | an interpreted word that has a return is not, if all its own depths are covered |
| `DataStack.DataStackFits` | submodules/bearssl/T0/WordInterpreted.cs:180-228 | under that condition, in every run of an analysed word the data stack grows by no more than `MaxDataStack` |
| `StackBounds.ClimbsToBound` | submodules/bearssl/T0/WordInterpreted.cs:180-228 | `MaxDataStack` is never larger than the depth that some chain of calls and run can reach |
| `StackBounds.ClimbsCovered` | submodules/bearssl/T0/WordInterpreted.cs:180-228 | and, under that condition, no chain of calls and run reaches a larger one |
| `DataStack.DupNotCounted` | submodules/bearssl/T0/Word.cs:145-162 | the condition is needed: a word that only calls `dup` is accepted with 0 extra elements and takes one |
| `Gather.GatherWords` | submodules/bearssl/T0/T0Comp.cs:1475-1499 | the words found are exactly those that a chain of calls connects to an entry point; it fails exactly when an entry point, or the target of a call of such a word, is missing |
| `Gather.TargetsAre` | submodules/bearssl/T0/WordInterpreted.cs:80-91 | the references of a word are the targets of its calls |
| `Slots.AssignNativeSlots` | submodules/bearssl/T0/T0Comp.cs:1568-1600 | native words with the same C code share one slot, and different C code has different slots |
| `Slots.AssignSlots` | submodules/bearssl/T0/T0Comp.cs:1568-1614 | slots of native words come from 7 on, those of interpreted words after them, each exactly once |
| `Codegen.FixUpAll` | submodules/bearssl/T0/OpcodeJump.cs:60-63 | each jump element targets the element of the opcode to which the opcode jumps |
| `Codegen.GenerateCodeElements` | submodules/bearssl/T0/WordInterpreted.cs:106-121 | for every program, the block has the header and the elements of each word, in order, with the right jump targets |
| `Codegen.SlotNumbers` | submodules/bearssl/T0/T0Comp.cs:1541-1562 | the numbers 0 to 6 of the opcodes other than calls, and the slots of words from 7 on |
| `Codegen.BlockIsValid` | submodules/bearssl/T0/WordInterpreted.cs:106-121 | every jump of the block of a well-formed program stays in the block |
| `Codegen.OneByteEncodable` | submodules/bearssl/T0/CodeElement.cs:49-57 | below 256 slots, one-byte code can be written exactly when no word has more than 255 locals |
| `Codegen.ReadAddresses` | submodules/bearssl/T0/T0Comp.cs:1798-1804 | the address table holds the address of the header of each interpreted word |
| `Codegen.Generate` | submodules/bearssl/T0/T0Comp.cs:1564-1679 | from the words to code bytes and address table: all that the run loop relies on, in the least layout; fails exactly on too many locals in one-byte code |
| `Runtime.CellsInverse` | submodules/bearssl/T0/T0Comp.cs:1857-1860 | values are read back from the cells of the data stack |
| `RunLoop.Context.Enter` | submodules/bearssl/T0/T0Comp.cs:1812-1821 | `T0_ENTER` on the memory of the return stack |
| `RunLoop.Context.Start` | submodules/bearssl/T0/T0Comp.cs:1823-1831 | an entry point is entered with return address 0 |
| `RunLoop.Context.Ret` | submodules/bearssl/T0/T0Comp.cs:1911-1920 | the cell of the frame gives the number of locals to drop and the return address; 0 ends the run |
| `RunLoop.Context.Local` | submodules/bearssl/T0/T0Comp.cs:1924-1929 | locals are read and written in place, below the cell of the frame |
| `RunLoop.Context.Jump` | submodules/bearssl/T0/T0Comp.cs:1930-1945 | the three jumps, relative to the end of the offset |
| `RunLoop.Context.Native` | submodules/bearssl/T0/T0Comp.cs:1952-1959 | a piece of C code acts on the cells of the data stack |
| `RunLoop.Context.Round` | submodules/bearssl/T0/T0Comp.cs:1905-1967 | one round of the run loop on memory is one step on values; it fails exactly when that fails or the data stack is full |
| `RunLoop.Context.Run` | submodules/bearssl/T0/T0Comp.cs:1898-1972 | any number of rounds on memory are as many steps on values, unless the data stack overflows |
| `Kernel.DeclaredEffectsHold` | submodules/bearssl/T0/T0Comp.cs:795-812 | drop, dup, swap, over, rot and -rot obey their declared effects |
| `Kernel.StackComments` | submodules/bearssl/T0/T0Comp.cs:795-812 | element by element: dup, drop, swap, over, rot and -rot do what their stack comments say, on any elements and whatever lies below |
| `Kernel.TooShort` | submodules/bearssl/T0/T0Comp.cs:795-812 | they fail exactly on stacks shorter than their declared effects take |
| `Kernel.OnCells` | submodules/bearssl/T0/kern.t0:153-158 | the C code of these words does to the cells what the CPU does to values |
| `Kernel.SwapCells` | submodules/bearssl/T0/T0Comp.cs:1872-1876 | `T0_SWAP`, in place, is `Rot(1)` |
| `Kernel.RotCells` | submodules/bearssl/T0/T0Comp.cs:1877-1882 | `T0_ROT`, in place, is `Rot(2)` |
| `Kernel.NRotCells` | submodules/bearssl/T0/T0Comp.cs:1883-1888 | `T0_NROT`, in place, is `NRot(2)` |
| `Kernel.Roll` | submodules/bearssl/T0/T0Comp.cs:1866-1871 | `T0_ROLL`, which moves memory, is `Rot` at every depth |
| `Kernel.SameOnCells` | submodules/bearssl/T0/T0Comp.cs:1855-1863 | the same word on values and on their cells gives the same |
| `Simulation.FetchSlot` | submodules/bearssl/T0/T0Comp.cs:1840-1846 | fetching at the address of an element yields its first number |
| `Simulation.FetchArgument` | submodules/bearssl/T0/T0Comp.cs:1921-1945 | the argument of each element decodes to what was encoded, and a jump offset leads to the first byte of its target |
| `Simulation.SmallByteDecodes` | submodules/bearssl/T0/T0Comp.cs:1817-1817 | a raw byte is read back as a 7E number exactly when it is below 128 |
| `Simulation.StepSimulated` | submodules/bearssl/T0/T0Comp.cs:1849-1967 | one round of the generated loop does what one step of the CPU does with a return stack of that size, when a new frame starts with what the memory holds, or with values that are not read: same data stack, matching frames, and the next address is that of the next opcode; it fails exactly when the CPU fails |
| `Simulation.RunSimulated` | submodules/bearssl/T0/T0Comp.cs:1849-1967 | the same for any number of steps |
| `Simulation.StartSimulated` | submodules/bearssl/T0/T0Comp.cs:1823-1831 | entry points lead to matching states; both fail when there is no room |
| `Simulation.GeneratedCodeIsCorrect` | submodules/bearssl/T0/T0Comp.cs:1564-1967 | from every entry point, on any data stack and any contents of the return stack memory, there are initial values for the locals of each word entered with which, for every n, n rounds of the generated code end like n steps of the CPU with a return stack of that size, also when locals are read before they are written |
| `Assignment.AssignedFirst` | submodules/bearssl/T0/CPU.cs:152-166 | when, on every way through its opcodes, each word writes a local before it reads it, no run reads a local without a value, for every data stack, all native words and any number of steps |
| `Assignment.AssignedCodeIsCorrect` | submodules/bearssl/T0/T0Comp.cs:1564-1967 | the generated code of such words ends like the CPU, whose locals are 0 at first, whatever the memory holds |
| `Assignment.PrologueAssigned` | submodules/bearssl/T0/kern.t0:20-45 | a word that begins with writing all the locals that it reads is such a word, however it jumps |
| `Simulation.UnwrittenLocalDiffers` | submodules/bearssl/T0/CPU.cs:175-180 | a word that reads a local before writing it: the CPU gives 0, the generated code whatever the memory held |
| `EndToEnd.AnalysedCodeIsSafe` | submodules/bearssl/T0/T0Comp.cs:1504-1520 | generated code of an analysed entry point, with a return stack of the computed size and any contents of it, never leaves its stacks, leaves the elements below its arguments alone and returns with as many as the effect says; only a native word that does not return can stop it |
| `EndToEnd.AnalysedCodeIsCorrect` | submodules/bearssl/T0/T0Comp.cs:1504-1520 | when all words write their locals before they read them, it ends like the CPU, whose return stack has no limit, with the same data stack |
| `EndToEnd.RunIsLimited` | submodules/bearssl/T0/WordInterpreted.cs:229-229 | the CPU runs an analysed word with a return stack of the computed size as it does without limit |
| `Pipeline.SourceToBytes` | submodules/bearssl/T0/T0Comp.cs:706-1967 | the generated bytes of a word that calls native words only do what its structured source means, opcode for opcode, with locals that start with what the memory holds; they fail at once exactly when there is no room for the frame |
| `Pipeline.SourceMeaning` | submodules/bearssl/T0/T0Comp.cs:706-737 | what a built word does to the data stack on the CPU is what its structured source means, where each call, of a native or an interpreted word, is what the called word does to the data stack |
| `Pipeline.SourceToBytesWithCalls` | submodules/bearssl/T0/T0Comp.cs:706-1967 | the generated bytes of an analysed word return with a given data stack exactly when its structured source does, whatever words it calls |
| `Pipeline.CodeDenotes` | submodules/bearssl/T0/T0Comp.cs:1504-1967 | the same, with what the word does on the CPU in place of its source |
| `Nested.DenotesIsWord` | submodules/bearssl/T0/OpcodeCall.cs:49-52 | a word returns with a data stack on the CPU exactly when its opcodes do with calls as functions on the data stack |
| `Nested.StepUnder` | submodules/bearssl/T0/CPU.cs:65-90 | frames below the outermost one do not influence a step |
| `Pipeline.LeafRun` | submodules/bearssl/T0/CPU.cs:65-90 | a run of the CPU in such a word is a run of its opcodes |
| `Literals.Accumulate` | submodules/bearssl/T0/T0Comp.cs:2062-2069 | one round of the loop detects exactly the overflows, although the arithmetic wraps |
| `Literals.ParseDigits` | submodules/bearssl/T0/T0Comp.cs:2054-2070 | for digit strings of any length, the overflow flag tells whether the number exceeds 32 bits, and the accumulator is its low 32 bits |
| `Literals.TryParseLiteral` | submodules/bearssl/T0/T0Comp.cs:2036-2084 | a literal is refused, too large (2^32 or more, or above 2^31 after a minus sign), or stands for its low 32 bits |
| `Literals.WrittenLiteralsParse` | submodules/bearssl/T0/T0Comp.cs:2036-2084 | every 32-bit value, written in radix 2, 10 or 16, is read back |
| `Literals.NumeralValue` | submodules/bearssl/T0/T0Comp.cs:1364-1375 | the digits of a number stand for the number |
| `Literals.DigitValues` | submodules/bearssl/T0/T0Comp.cs:1364-1375 | the value of a digit is its position among the digits, small or capital; other characters are no digits |
| `Literals.MeaningExactly` | submodules/bearssl/T0/T0Comp.cs:2043-2084 | a token is a number exactly when it is an optional sign, a prefix and digits, in either case; it means that number, or is too large |
| `ConstBlocks.ConstData.Expand` | submodules/bearssl/T0/ConstData.cs:49-58 | there is room, and the contents are the same |
| `ConstBlocks.ConstData.Add8` | submodules/bearssl/T0/ConstData.cs:60-64 | appends a byte |
| `ConstBlocks.ConstData.AddInteger` | submodules/bearssl/T0/ConstData.cs:66-88 | appends the low bytes, most significant first |
| `ConstBlocks.ConstData.AddString` | submodules/bearssl/T0/ConstData.cs:90-97 | appends the UTF-8 bytes and a zero byte |
| `ConstBlocks.ConstData.Set8` | submodules/bearssl/T0/ConstData.cs:99-110 | changes one byte of the contents, or fails outside them |
| `ConstBlocks.ConstData.ReadInteger` | submodules/bearssl/T0/ConstData.cs:112-135 | reads back big-endian integers; fails exactly outside the contents |
| `ConstBlocks.ConstData.DecodeUTF8` | submodules/bearssl/T0/ConstData.cs:156-190 | one decoded value and the next offset; a byte that starts nothing valid stands for itself |
| `ConstBlocks.ConstData.ToString` | submodules/bearssl/T0/ConstData.cs:137-154 | the string up to the zero byte, with surrogate pairs |
| `ConstBlocks.DecodeScalar` | submodules/bearssl/T0/ConstData.cs:156-190 | the UTF-8 form of every Unicode scalar value is decoded to it, and to its end |
| `ConstBlocks.DecodeExactly` | submodules/bearssl/T0/ConstData.cs:156-190 | any bytes: the bits of two, three or four bytes, also in longer forms than needed, up to 0x10FFFF, and otherwise one byte that stands for itself |
| `ConstBlocks.ByteExamples` | submodules/bearssl/T0/ConstData.cs:66-97 | the bytes of some integers and characters |
| `ConstBlocks.StringRoundTrip` | submodules/bearssl/T0/ConstData.cs:90-190 | a string in a block is read back unchanged exactly when it is well-formed and has no U+0000 |
| `ConstBlocks.AddedStringIsFound` | submodules/bearssl/T0/ConstData.cs:90-97 | it is found where the block ended before it was added, also after later additions |
| `ConstBlocks.CharactersOf` | submodules/bearssl/T0/ConstData.cs:147-151 | surrogate pairs are rebuilt exactly for well-formed strings |
| `ConstBlocks.IntegerRoundTrip` | submodules/bearssl/T0/ConstData.cs:66-135 | n bytes give back the integer modulo 256^n |
| `Query.ParseUndoesPrint` | src/query.c:73-167 | parsing a printed list gives it back exactly when the list is nonempty, no key has '&' or '=', and no value has '&' |
| `Query.PrintUndoesParse` | src/query.c:73-167 | printing a parsed query gives it back exactly when each parameter has '='; doing both once more changes nothing |
| `Query.PrintParse` | src/query.c:73-167 | printing a parsed query adds one '=' for each parameter without one |
| `Query.ParseSegments` | src/query.c:103-163 | the parameters are those of the parts between separators |
| `Query.PieceOfSegment` | src/query.c:103-163 | the key and the value of a part give the part back, with a '=' added if it has none |
| `Query.ParseClean` | src/query.c:99-167 | no parsed key has a separator, and no parsed value has '&' |
| `Query.QueryObject.PutParameter` | src/query.c:8-39 | appends the parameter; `slength` stays the length of the printed form |
| `Query.QueryObject.AddParameter` | src/query.c:41-71 | appends a parameter; empty strings are absent |
| `Query.QueryObject.Stringify` | src/query.c:73-97 | the printed form, exactly as long as `slength` |
| `Query.QueryObject.ParseInto` | src/query.c:99-167 | appends the parameters of the query, found with pointers |
| `CleanQuery.SurvivorsAre` | src/clean_url.c:233-257 | the kept parameters are a subsequence: exactly those that are not empty (if stripped) and not preceded by one with their key (if deduplicated) |
| `CleanQuery.KeptMeans` | src/clean_url.c:233-257 | the kept parameters, from keys and values alone: none with an empty key or value if those are stripped, and the first of each key if duplicates are |
| `CleanQuery.KeysDistinct` | src/clean_url.c:240-258 | without duplicates, kept keys are pairwise distinct |
| `CleanQuery.EveryKeyKept` | src/clean_url.c:236-258 | each key that survives the empty filter is kept, with its first occurrence |
| `CleanQuery.KeptTwice` | src/clean_url.c:233-257 | filtering again changes nothing |
| `CleanQuery.RewriteTwice` | src/clean_url.c:202-285 | rewriting again changes nothing, and the new query reads as the kept parameters |
| `CleanQuery.SomethingLeft` | src/clean_url.c:258-285 | a query is left exactly when a parameter survives |
| `CleanQuery.BufferSuffices` | src/clean_url.c:225-231 | the new query and its terminator fit in the reserved 3n + 1 bytes exactly when the query is not empty or empty parameters are stripped |
| `CleanQuery.IsDuplicate` | src/clean_url.c:241-253 | the inner loop: whether a key was kept before |
| `CleanQuery.Keep` | src/clean_url.c:236-258 | the tests of the loop decide as the specification does |
| `CleanQuery.RewriteQuery` | src/clean_url.c:202-285 | the nested loops compute the rewritten query; none is left when nothing is kept |
| `UriObject.SeekSeparator` | src/uri.c:21-25 | the first "://" |
| `UriObject.CheckScheme` | src/uri.c:42-56 | the first error of the scheme, or the scheme in lower case, in place |
| `UriObject.CheckLabels` | src/uri.c:238-273 | the first error of the labels, or the host in lower case, in place |
| `UriObject.ReadNumber` | src/uri.c:161-169 | digits are read as a number; anything else is refused |
| `UriObject.IntLen` | src/utils.c:43-55 | the number of decimal digits |
| `UriObject.UriStruct.ParseUser` | src/uri.c:62-113 | what precedes the first '@', split at the first ':' |
| `UriObject.UriStruct.ParseHost` | src/uri.c:113-276 | host and port, with each error in its order |
| `UriObject.UriStruct.ParseRest` | src/uri.c:278-339 | fragment, query and path, or the error that stands for a negative size |
| `UriObject.UriStruct.ParseUri` | src/uri.c:13-343 | the record or the error, on a structure that is filled step by step |
| `UriObject.UriStruct.ParseOrClear` | src/uri.c:345-355 | the structure is cleared when parsing fails |
| `UriObject.UriStruct.Stringify` | src/uri.c:357-465 | the printed form, exactly as long as the size that was computed before, for every port |
| `UriText.LowerLetters` | src/uri.c:50-56 | the capitals become the small letters at the same place of the alphabet, and other characters are kept |
| `UriText.CharacterClasses` | src/uri.c:42-52 | schemes have letters, digits, '+', '.' and '-'; labels have letters, digits and '-' |
| `UriText.ReadAsWritten` | src/uri.c:13-276 | for every accepted text, scheme and host are what is written at their places, letter by letter with capitals made small, and an IPv6 address what is written between the brackets |
| `UriText.UserAsWritten` | src/uri.c:62-113 | a user name without ':' has no password; with it, the rest up to '@' is the password |
| `UriText.HostAlone` | src/uri.c:113-339 | a host, with or without a port, and no path or query is read, also with a fragment behind it |
| `UriText.HostAndQuery` | src/uri.c:113-339 | a host with a query and no path is read with an empty path; with a port it is refused, because the port is not seen |
| `UriText.HostSizes` | src/uri.c:207-237 | the sizes of hosts and of IPv6 addresses, with their errors |
| `UriText.ErrorExamples` | src/uri.c:30-276 | texts for the errors of scheme, port and labels |
| `UriText.PrintedForms` | src/uri.c:357-465 | the printed text with all parts, and without the optional ones; an empty password keeps its ':' |
| `UriLaws.HostAccepted` | src/uri.c:238-273 | a host is accepted exactly when its labels have 1 to 63 letters, digits and inner hyphens |
| `UriLaws.ParsedIsSane` | src/uri.c:13-343 | whatever is parsed has a valid lower-case scheme and host and a port in range, and user information without the separators |
| `UriLaws.NegativeSizeExactly` | src/uri.c:278-339 | a copy has a negative size exactly when scheme, user information, host and port are accepted and, after the user information, the first '?' comes after '#' or the first '/' after '?' |
| `UriLaws.SlashAfterQuestion` | src/uri.c:113-276 | in an accepted text, '/' can come after '?' only behind an IPv6 address |
| `UriLaws.ParsedTail` | src/uri.c:278-339 | what is parsed from any text can be read back, unless there is a fragment without a query |
| `UriLaws.UserReadBack` | src/uri.c:62-113 | printed user information is read back |
| `UriLaws.AuthorityReadBack` | src/uri.c:113-276 | printed host and port are read back |
| `UriLaws.TailExact` | src/uri.c:278-339 | path, query and fragment are read back exactly when the path has no '?', the query no '#', a fragment comes only with a query, and '#' is in the path at most at its end and then without query |
| `UriLaws.FragmentAlone` | src/uri.c:324-338 | a fragment without a query is never read back |
| `UriLaws.ParseUndoesPrint` | src/uri.c:13-465 | parsing a printed record gives it back exactly for canonical records |
| `CleanUrl.CleanedIsCanonical` | src/clean_url.c:202-288 | the cleaned record of any URL without a stray '@' is canonical exactly when a query is left or there is no fragment |
| `CleanUrl.CleanTwice` | src/clean_url.c:202-288 | for any such URL, cleaning it twice is like cleaning it once, and the result reads as the cleaned record, exactly in those cases |
| `CleanUrl.CleanKeeps` | src/clean_url.c:202-288 | the cleaned text is that of the same URL with another query, whose parameters are exactly those that are kept; none is left when none is kept |
| `CleanUrl.CleanMeans` | src/clean_url.c:202-288 | read again, the cleaned text of a URL without a stray '@' is the same URL with exactly the kept parameters; without any, it is the text of the URL without a query |
| `CleanUrl.FragmentGrows` | src/uri.c:324-338 | in the other cases, each cleaning gives a text that is longer by two characters at least, of a record of the same kind, or it fails, exactly when there is '?' in the fragment |
| `CleanUrl.GrowsForever` | src/uri.c:324-338 | n cleanings make the text longer by 2n characters at least |

## Left out

- Flow.Analysed: depths are mathematical integers; the sentinel `Int32.MinValue` of the source and 32-bit wrap-around of depths are not modelled.
- Analysis.AnalyseFlow: between `FullLoad` and the words with jumps without end, whether the queue fills depends on which opcodes are first annotated by falling through, which is stated of the run and not of the opcodes alone.
- Machine.Natives: native words and pieces of C code are the same function on the data stack on both sides; `co`, `execute` and access to the context from C code are not modelled.
- Simulation.GeneratedCodeIsCorrect: constants are integers; execution tokens, data pointers and constant expressions as constants, words that are interpreted and have C code as well, and `WordData` are not modelled. Code is at most 65536 bytes, as return addresses have 16 bits.
- Codegen.Generate: programs are small enough for addresses to fit in 32-bit integers.
- Cpu.CpuObject.Step: the flag that ends the interpreter loop of the compiler is not modelled.
- Widths.ExprDecodes: the C compiler is taken to evaluate the expression to its value modulo 2^32.
- RunLoop.Context.Run: the number of rounds is a parameter, since the loop need not end; the copies of the two stack pointers and of `ip` in local variables are the fields of the context.
- Pipeline.SourceToBytesWithCalls: does not compare how long programs run, only whether and with what they return.
- Gather.GatherWords: words are numbers; sorting by name is not modelled, nor is renumbering the words found before `Codegen.Generate` takes them.
- Slots.AssignSlots: interpreted words that also have C code, which get the slot of that code, are not modelled.
- Slots.AssignNativeSlots: native words without C code, for which the source throws, are not modelled.
- Layout.CodeElement.Encode: without a writer the source measures a jump instead; nothing calls it so, and elements of constant expressions are modelled by their widths only.
- Layout.CodeElement.GetLength: elements of constant expressions are modelled by their widths only.
- Literals.TryParseLiteral: string and character literals, which have their own prefix, and culture-dependent comparison of prefixes are not modelled.
- ConstBlocks.GetBytes: the encoder of the platform is modelled by its specification, with U+FFFD for lone surrogates.
- ConstBlocks.ConstData: block identifiers and addresses are not modelled.
- Query.QueryObject: sizes count parameters instead of bytes and do not overflow; a null pointer is the empty string.
- UriObject.UriStruct.ReadNumber: `atoi` is taken to compute the number; beyond the range of `int` its behaviour is undefined in C.
- UriObject.UriStruct.ParseRest: where the source computes a negative size for a copy, the model gives an error; `UriLaws.NegativeSizeExactly` says for which texts.
- UriObject.UriStruct.ParseUri: the same error for negative sizes.
- UriObject.UriStruct.ParseOrClear: the same error for negative sizes.
- Uri.Parse: the check of IPv6 addresses is a parameter that accepts only hexadecimal digits, ':' and '.'. Characters are classified as in the C locale.
- CleanUrl.CleanTwice: a URL with empty user information, such as `http://@`, and another '@' behind its host is left out: there the second cleaning takes what precedes that '@' for user information.
- CleanUrl.Clean: rulesets with regular expressions, redirections and raw rules are not modelled; without a matching rule the query is rewritten directly.
- Allocation failures and freeing of memory in `src` are not modelled, nor are `rfc3986_unquote_safe`, path normalisation, HTTP, DNS and ruleset files.
- The tokenizer, the interpreter of T0 source text, the output of C files and line wrapping in `BlobWriter` are text handling without a deep invariant.
