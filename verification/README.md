# A model of Mull's mutation engine

Mull is a mutation tester for programs compiled to LLVM bitcode. This project models the parts of
it that carry state, graphs or arithmetic of their own and proves what they are for. Modules as
LLVM sees them become values of a small register language with an interpreter (`IR`); addresses,
the JIT and the sandboxed child process become names and functions; everything that Mull updates
in place stays a class, an array or a loop with invariants.

* **Mutant schemata** (`MutationPoints`, `Simulation`, `Schemata`, `MutantPreparation`,
  `MutantExecution`, `ParallelMutants`). Every mutated function is cloned once per mutant, its body
  moves to a function named `.._original`, and what is left calls through a trampoline cell. The
  main theorem is a simulation in both directions over all programs, recursive and divergent ones
  included: for every setting of the trampolines the prepared program yields exactly what the source
  program with the selected bodies yields. The methods that transform the bitcodes of a program, link
  them and run the mutants are proved to establish its hypotheses, whatever the interleaving of the
  workers.
* **Short-circuit rewriting** (`ControlFlow`, `LogicalAndToOr`, `LogicalOrToAnd`, `Duality`,
  `PhiConsistency`, `LogicalChains`, `LogicalDisjunctions`, `LogicalDiamonds`, `DiamondMutants`).
  Detection and rewriting as loops and in-place edits of a control-flow graph; OR-to-AND is the exact
  conjugate of AND-to-OR on every graph; what the three patterns do to chains of literals of any
  length and to the diamonds that compute a value with a phi; exactly when the scan leaves the chain
  for an unrelated branch or negates the wrong entry of the phi, and what is decided then; and exactly
  when the phis stay consistent.
* **The dynamic call tree** (`Instrumentations`, `Callbacks`, `CallTrace`, `CallForest`,
  `CallTreeBuilder`, `CallTreeShape`, `Reachability`, `TestSubtrees`, `TestRuns`, `TestCoverage`,
  `ReachableFunctions`). From the numbering of the instrumented functions over the inserted
  callbacks, the array that a run fills, the recursive builder that consumes it into a heap of
  nodes, and the two breadth-first searches, to the functions under test with their distances. For a
  run of constructors, driver and destructors they are exactly the functions whose chain of first
  callers leads through the test body. This is not always what the body calls; the exact condition
  and an input for either direction are given.
* **The parallel executor** (`TaskBatches`, `TaskExecutor`). A state machine whose runs are all
  interleavings of the main thread, the workers and the reporter that adds up live counters.
* **Indexes and codecs** (`MutationStorage`, `DeclarationIndex`, `Unescape`). The Cantor-hashed
  store, the interval index searched by `lower_bound`, and the two-pass unescaper, each against a
  simple reference.

`Wrappers` holds the optional value. `dafny verify dfyconfig.toml` checks everything.

## Model

| member | source | states |
|---|---|---|
| MutationPoints.OriginalOfTrampolineName | lib/Toolchain/Trampolines.cpp:20-22 | cutting `_trampoline` off and appending `_original` at run time gives the name chosen at compile time, for every function and bitcode name |
| MutationPoints.SuffixExchanged | lib/Toolchain/Trampolines.cpp:20-22 | whatever comes before it, `_trampoline` at the end becomes `_original`; a name too short for the suffix keeps all it has, because the length wraps around |
| MutationPoints.NamesInjective | lib/MutationPoint.cpp:167-177 | distinct functions of one bitcode have distinct trampolines and distinct originals |
| MutationPoints.SharedTrampoline | lib/MutationPoint.cpp:167-169 | functions of two bitcodes, each identified by stem and digest, share their trampoline if and only if the digests are equal and the names with the stems behind them are |
| MutationPoints.TrampolinesClash | lib/Bitcode.cpp:24-28 | two bitcodes can define distinct functions with one trampoline if and only if they have one digest and one stem ends in an underscore and the other |
| Schemata.DistinctDigests | lib/Bitcode.cpp:24-28 | where bitcodes with one digest are one bitcode, no two functions share their trampoline |
| MutantPreparation.LoadedNames | lib/BitcodeLoader.cpp:21-63 | in a program that can be linked this is always so: files with one digest are one file, and linking it twice would define its functions twice |
| MutationPoints.AttachTests | lib/Parallelization/Tasks/SearchMutationPointsTask.cpp:27-35 | every mutant of a function under test gains all tests that reach the function, with their distances, in order |
| Simulation.RedirectionPreservesMeaning | lib/Parallelization/Tasks/MutantPreparationTasks.cpp:62-87 | a program of stubs that load a cell and call through it yields exactly the outcomes of the program holding the bodies that the cells select: value, memory, call log, traps and divergence, in both directions |
| Schemata.PreparedYieldsSelected | lib/Parallelization/Tasks/MutantPreparationTasks.cpp:17-87 | for every setting of the trampolines to originals or mutants, the prepared program yields exactly what the source with the selected bodies yields |
| Schemata.UnmutatedMeaning | lib/Toolchain/Trampolines.cpp:17-30 | with all trampolines at `_original` the prepared program is the source program |
| Schemata.MutantMeaning | lib/Parallelization/Tasks/MutantExecutionTask.cpp:34-39 | with only f's trampoline at a mutant, the prepared program is the source with f's body replaced by the mutated one, self-calls included |
| MutantPreparation.Bitcode.AddMutation | lib/Bitcode.cpp:61-64 | a point joins the list of its function, all other lists stay |
| MutantPreparation.GroupMutations | lib/Driver.cpp:243-248 | every point ends up in the group of its function in its bitcode, no group has anything else, and no point is in a group twice |
| MutantPreparation.Bitcode.CloneFunctions | lib/Parallelization/Tasks/MutantPreparationTasks.cpp:17-30 | every point gets a clone of its original under its identifier and remembers it, nothing else changes, and the storage gains exactly the trampoline names of the mutated functions |
| MutantPreparation.Bitcode.DeleteFunctions | lib/Parallelization/Tasks/MutantPreparationTasks.cpp:41-51 | every mutated function's body is found under its original's name and the function is left without one; everything else stays |
| MutantPreparation.Bitcode.InsertTrampolines | lib/Parallelization/Tasks/MutantPreparationTasks.cpp:62-87 | every mutated function gains the block with the indirect call of all its arguments; everything else stays |
| MutantPreparation.ApplyMutations | lib/Parallelization/Tasks/ApplyMutationTask.cpp:8-14 | every point's mutator is applied to its own clone, once, and to nothing else |
| MutantPreparation.PhasesPrepare | lib/Driver.cpp:251-278 | cloning, deleting, inserting and applying, in this order, compose to the prepared module of the simulation theorem |
| MutantPreparation.PrepareMutations | lib/Driver.cpp:243-278 | for a program of any number of bitcodes: grouping the points and running the phases over all bitcodes in place turns each into its prepared form and returns the trampoline names |
| MutantPreparation.LinkedPrepared | lib/Driver.cpp:251-299 | linking prepared bitcodes gives the prepared form of the whole program |
| MutantPreparation.PreparedApart | lib/Driver.cpp:280-299 | the prepared bitcodes have no function name in common, so they can be linked |
| MutantExecution.Trampolines.AllocateTrampolines | lib/Toolchain/Trampolines.cpp:40-45 | one cell per name; a name that already has a cell keeps it |
| MutantExecution.Trampolines.FixupOriginalFunctions | lib/Toolchain/Trampolines.cpp:17-30 | every cell ends up with the address of the original that its name stands for |
| MutantExecution.RunTests | lib/Parallelization/Tasks/MutantExecutionTask.cpp:41-71 | the inner loop with its flag pushes exactly the specified results of one mutant, after what was stored before |
| MutantExecution.RunMutants | lib/Parallelization/Tasks/MutantExecutionTask.cpp:31-74 | every mutant runs with its own trampoline moved and all others where they were, the results come in order, and the trampolines end up as they began |
| MutantExecution.TestResultsAt | lib/Parallelization/Tasks/MutantExecutionTask.cpp:47-70 | one result per test in order; a test is skipped exactly if fail-fast is on and an earlier test of this mutant did not pass, otherwise its own status is recorded |
| MutantExecution.FailFastKeepsVerdict | lib/Parallelization/Tasks/MutantExecutionTask.cpp:47-67 | with and without fail-fast, a mutant is killed exactly if some reachable test does not pass on it |
| MutantExecution.ResultsReportMutants | lib/Parallelization/Tasks/MutantExecutionTask.cpp:36-73 | every status recorded for a mutant and not skipped by fail-fast is the status of the source program with the mutated body on that test |
| MutantExecution.AllResultsAt | lib/Parallelization/Tasks/MutantExecutionTask.cpp:31-74 | one result per mutant and test: the result of test k of mutant i comes right behind those of the mutants before i and of the tests before k |
| MutantExecution.StartWorker | lib/Parallelization/Tasks/MutantExecutionTask.cpp:25-29 | a worker has one cell per mutated function of the whole program, and every cell starts at its original |
| ParallelMutants.NormalRunMutations | lib/Driver.cpp:239-321 | from the loaded bitcodes to the results: all trampolines are distinct, the linked program is the prepared form of the source program, the cells start at the originals, the results are each mutant's own, in order, and every parallel run joins to the same results |
| ParallelMutants.ParallelResults | lib/Parallelization/Tasks/MutantExecutionTask.cpp:25-75 | whatever the batches and the interleaving of the workers, the joined results are those of one sequential pass over all mutants |
| ControlFlow.FunctionBody.UpdatePhis | lib/Mutators/CXX/LogicalAndToOr.cpp:107-133 | the loops over successors and phis patch every phi of the target once per edge from the second block |
| ControlFlow.FunctionBody.FlipFirstPhi | lib/Mutators/CXX/LogicalAndToOr.cpp:201-245 | negates entry 0 of the first phi and exchanges the first branch's successors; without a phi or with an entry 0 that is no constant an assertion fails and nothing is edited |
| ControlFlow.GetBasicBlockIndex | lib/Mutators/CXX/LogicalAndToOr.cpp:123-126 | the index of the first phi entry for a block, or -1 if there is none |
| ControlFlow.FindForeignEntry | lib/Mutators/CXX/LogicalAndToOr.cpp:293-303 | true exactly if some phi of the block has an entry from another block than the first branch's |
| LogicalAndToOr.FindPossibleMutationInBranch | lib/Mutators/CXX/LogicalAndToOr.cpp:249-318 | the flag-driven scan finds the first later conditional branch that matches one of the three patterns |
| LogicalAndToOr.DetectFrom | lib/Mutators/CXX/LogicalAndToOr.cpp:259-317 | what is found matches and nothing before it does; if nothing is found, no later branch matches |
| LogicalAndToOr.ApplyMutation | lib/Mutators/CXX/LogicalAndToOr.cpp:43-245 | detection and the three in-place edits compute the specified graph; an assertion fails, and nothing is edited, exactly for an unconditional branch and for a pattern 3 whose first phi has no constant at entry 0 |
| LogicalOrToAnd.FindPossibleMutationInBranch | lib/Mutators/CXX/LogicalOrToAnd.cpp:251-322 | the same scan with the roles of the successors exchanged |
| LogicalOrToAnd.ApplyMutation | lib/Mutators/CXX/LogicalOrToAnd.cpp:43-249 | detection and the three in-place edits compute the specified graph; an assertion fails, and nothing is edited, exactly for an unconditional branch and for a pattern 3 whose first phi has no constant at entry 0 |
| Duality.OrIsConjugateOfAnd | lib/Mutators/CXX/LogicalOrToAnd.cpp:70-322 | on every graph, exchanging the successors of every conditional branch, applying AND-to-OR and exchanging back gives OR-to-AND's detection and result, phi updates and failing assertions included, for all three patterns |
| PhiConsistency.AndChangesOnly | lib/Mutators/CXX/LogicalAndToOr.cpp:70-199 | all that patterns 1 and 2 change: the first branch takes over the second one's true successor, and each phi of that block that has an entry for the second block gains, behind all it has, one entry for the first block per edge from the second, with the operand of the first entry for the second; every other terminator, phi and entry stays |
| PhiConsistency.OrChangesOnly | lib/Mutators/CXX/LogicalOrToAnd.cpp:70-201 | the same for OR-to-AND and the second branch's false successor |
| PhiConsistency.AndKeepsValues | lib/Mutators/CXX/LogicalAndToOr.cpp:116-132 | after patterns 1 and 2 every phi has the value it had for every block but the first |
| PhiConsistency.OrKeepsValues | lib/Mutators/CXX/LogicalOrToAnd.cpp:117-134 | the same for OR-to-AND |
| PhiConsistency.FlipChangesOnly | lib/Mutators/CXX/LogicalAndToOr.cpp:201-245 | all that pattern 3 changes, in either mutator: the first branch's successors are exchanged and the constant at entry 0 of the second block's first phi is negated; an assertion fails exactly if there is no such constant; where nothing is detected nothing changes |
| PhiConsistency.AndMatchesByEdges | lib/Mutators/CXX/LogicalAndToOr.cpp:274-313 | in a function with one phi entry per edge, the pattern of a later branch by its edges alone: pattern 3 if and only if it is where the first one fails, fails to neither of its successors, has a phi, and another block has an edge to it |
| PhiConsistency.OrMatchesByEdges | lib/Mutators/CXX/LogicalOrToAnd.cpp:275-318 | the same if-and-only-if for OR-to-AND |
| PhiConsistency.AndKeepsConsistency | lib/Mutators/CXX/LogicalAndToOr.cpp:103-198 | patterns 1 and 2 keep one phi entry per incoming edge if and only if the abandoned target has no phis |
| PhiConsistency.OrKeepsConsistency | lib/Mutators/CXX/LogicalOrToAnd.cpp:105-201 | the same if-and-only-if for OR-to-AND and the second branch's true successor |
| PhiConsistency.FlipKeepsConsistency | lib/Mutators/CXX/LogicalAndToOr.cpp:218-244 | pattern 3 leaves phi entries and edges as consistent as they were |
| PhiConsistency.AndTakesSecondValue | lib/Mutators/CXX/LogicalAndToOr.cpp:116-132 | each phi of the second branch's true successor keeps its value for the second block, and takes it from the first block too if and only if it had no entry for the first block or one with this value |
| PhiConsistency.OrTakesSecondValue | lib/Mutators/CXX/LogicalOrToAnd.cpp:117-134 | the same if-and-only-if for OR-to-AND and the false successor |
| LogicalChains.AndChainDecides | lib/Mutators/CXX/LogicalAndToOr.cpp:256-257 | jump code of a conjunction of any number of literals, each possibly negated, reaches the true target exactly if all hold |
| LogicalChains.AndDetects | lib/Mutators/CXX/LogicalAndToOr.cpp:249-318 | mutating branch k of such a chain picks the first positive literal after k, by pattern 1 or 2 as literal k is positive or negated, if and only if no block outside the chain looks like an && before it; if there is no such literal, nothing is picked if and only if nothing in the rest of the function looks like an && |
| LogicalChains.AndMutantDecides | lib/Mutators/CXX/LogicalAndToOr.cpp:70-199 | where the first positive literal is picked, the mutated chain decides l1 && .. && (lk or (l(k+1) && .. && lj)) && .. && ln, for any length, negations, position and blocks in between |
| LogicalChains.AndLeavesAlone | lib/Mutators/CXX/LogicalAndToOr.cpp:259-317 | without a positive literal after k the function stays as it is if and only if nothing in the rest of it looks like an && |
| LogicalChains.ScanLeavesChain | lib/Mutators/CXX/LogicalAndToOr.cpp:259-317 | if (a && !b) { if (c) .. }: no positive literal follows a, and yet mutating a picks the unrelated inner branch and changes the function |
| LogicalChains.AndReroutes | lib/Mutators/CXX/LogicalAndToOr.cpp:70-199 | whatever second branch is picked by pattern 1 or 2, only branch k changes, and to what: it takes over the true successor of the second branch on one side |
| LogicalChains.AndStraysToNo | lib/Mutators/CXX/LogicalAndToOr.cpp:70-133 | if the scan leaves the chain for a branch that fails to where the chain fails: literal k if it holds goes on from that branch's true successor, be it outside the chain, a later literal (the rest decides) or an earlier one (control never leaves); otherwise the rest of the chain decides |
| LogicalChains.AndStraysToNext | lib/Mutators/CXX/LogicalAndToOr.cpp:135-199 | if that branch fails to where literal k goes on: literal k if it holds leads to failure, otherwise on from that branch's true successor, whatever block that is |
| LogicalChains.AndStraysByPhi | lib/Mutators/CXX/LogicalAndToOr.cpp:201-245 | in the remaining case pattern 3 is taken, and if its assertions hold the function decides the conjunction with literal k negated |
| LogicalDisjunctions.OrFindsAgain | lib/Mutators/CXX/LogicalOrToAnd.cpp:251-322 | OR-to-AND at the branch just rewritten finds the same second branch if and only if no block outside the chain looks like an or before it |
| LogicalDisjunctions.OrUndoesAnd | lib/Mutators/CXX/LogicalOrToAnd.cpp:70-201 | it then restores the targets of every branch of the function |
| LogicalDisjunctions.OrDetects | lib/Mutators/CXX/LogicalOrToAnd.cpp:251-322 | in a disjunction the first positive literal after k is picked if and only if no block outside the chain looks like an or before it; without one nothing is picked if and only if nothing in the rest of the function does |
| LogicalDisjunctions.OrMutantDecides | lib/Mutators/CXX/LogicalOrToAnd.cpp:70-201 | a disjunction of any length becomes l1 or .. or (lk && (l(k+1) or .. or lj)) or .. or ln |
| LogicalDisjunctions.OrLeavesAlone | lib/Mutators/CXX/LogicalOrToAnd.cpp:259-322 | without a positive literal after k the function stays as it is if and only if nothing in the rest of it looks like an or |
| LogicalDisjunctions.OrScanLeavesChain | lib/Mutators/CXX/LogicalOrToAnd.cpp:259-322 | a disjunction in which no positive literal follows a, and yet mutating a picks an unrelated branch and changes the function |
| LogicalDisjunctions.OrStraysToYes | lib/Mutators/CXX/LogicalOrToAnd.cpp:70-134 | if the scan leaves the chain for a branch that jumps to where the chain succeeds: literal k if it fails goes on from that branch's false successor, otherwise the rest of the chain decides |
| LogicalDisjunctions.OrStraysToNext | lib/Mutators/CXX/LogicalOrToAnd.cpp:136-201 | if that branch jumps to where literal k goes on: literal k if it fails leads to success, otherwise on from that branch's false successor |
| LogicalDisjunctions.OnwardOrAt | lib/Mutators/CXX/LogicalOrToAnd.cpp:70-201 | on from a later literal the rest of the disjunction decides, from an earlier one control never leaves, and from a block outside it leaves there |
| LogicalDisjunctions.OrStraysByPhi | lib/Mutators/CXX/LogicalOrToAnd.cpp:203-249 | in the remaining case pattern 3 is taken, and if its assertions hold the function decides the disjunction with literal k negated |
| LogicalDiamonds.ConjunctionDecides | lib/Mutators/CXX/LogicalAndToOr.cpp:256-257 | the lowering of a conjunction of any number of operands to branches and a phi decides the conjunction |
| DiamondMutants.AndRegroupsDiamond | lib/Mutators/CXX/LogicalAndToOr.cpp:70-199 | a literal of such a conjunction that a positive one follows is joined by or with the group up to that one, as in jump code, and the phi is left as it is |
| DiamondMutants.AndFindsDiamond | lib/Mutators/CXX/LogicalAndToOr.cpp:262-313 | at literal k pattern 3 is detected if and only if the literal is positive, the block of the phi comes later, and nothing in between looks like an && |
| DiamondMutants.AndFlipsDiamond | lib/Mutators/CXX/LogicalAndToOr.cpp:201-245 | what pattern 3 at literal k makes of a phi with any number of entries: the first literal that fails, k taken negated, yields false unless entry 0 is for it; an assertion fails if and only if entry 0 is for the last operand |
| DiamondMutants.AndDiamond | lib/Mutators/CXX/LogicalAndToOr.cpp:201-245 | where every literal tests a condition of its own: the mutant decides l1 && .. && (lk or (l(k+1) && .. && last)) if and only if entry 0 of the phi is for the block of literal k |
| DiamondMutants.LastOfThree | lib/Mutators/CXX/LogicalAndToOr.cpp:218-230 | in a && b && c, with entry 0 for a, mutating b yields true where a, b and c are all false |
| LogicalDiamonds.DisjunctionDecides | lib/Mutators/CXX/LogicalOrToAnd.cpp:258-259 | the lowering of a disjunction of any number of operands to branches and a phi decides the disjunction |
| DiamondMutants.OrRegroupsDiamond | lib/Mutators/CXX/LogicalOrToAnd.cpp:70-201 | a literal of such a disjunction that a positive one follows is joined by && with the group up to that one |
| DiamondMutants.OrFindsDiamond | lib/Mutators/CXX/LogicalOrToAnd.cpp:264-318 | the same if-and-only-if for OR-to-AND and blocks that look like an or |
| DiamondMutants.OrFlipsDiamond | lib/Mutators/CXX/LogicalOrToAnd.cpp:203-249 | the dual: the first literal that holds, k taken negated, yields true unless entry 0 is for it |
| DiamondMutants.OrDiamond | lib/Mutators/CXX/LogicalOrToAnd.cpp:203-249 | the mutant decides l1 or .. or (lk && (l(k+1) or .. or last)) if and only if entry 0 of the phi is for the block of literal k |
| Instrumentations.Instrumentation.RecordFunctions | lib/Instrumentation/Instrumentation.cpp:32-43 | the defined functions of a module are appended to the listing in order and its offset is where they begin |
| Instrumentations.DefinitionsInOrder | lib/Instrumentation/Instrumentation.cpp:36-42 | the recorded functions of a module are the symbols at exactly the positions of its definitions, in order |
| Instrumentations.Instrumentation.InsertCallbacks | lib/Instrumentation/Instrumentation.cpp:45-59 | the defined functions of a module get callbacks numbered from its offset on; names, order and declarations stay |
| Instrumentations.Instrumentation.InstrumentProgram | lib/Driver.cpp:63-81 | over any number of modules the two separate counts agree, so that the function listed at k is the one that reports k, if and only if of modules with one identifier only the last defines functions; every module reports from the offset recorded last under its identifier |
| Instrumentations.ListingInstruments | lib/Toolchain/Resolvers/InstrumentationResolver.cpp:40-45 | the linked instrumented modules report exactly under the listing's numbers |
| Instrumentations.LinkLinks | lib/Toolchain/JITEngine.cpp:22-41 | linking the listed functions one by one gives what linking the modules gives |
| Callbacks.InjectCallbacks | lib/Instrumentation/Callbacks.cpp:85-115 | an enter callback first in the entry block and a leave callback last in every returning block, nothing else |
| Callbacks.InstrumentationReportsCalls | lib/Instrumentation/Callbacks.cpp:85-115 | the instrumented program yields what the original yields and its reports are exactly the calls and returns of the original run, whether it returns, traps or diverges |
| Callbacks.InstrumentedBracketed | lib/Instrumentation/Callbacks.cpp:20-36 | a run that returns reports a trace that closes what it opens in order and leaves the call stack as it was; one that traps leaves open exactly the traced calls that were pending when it stopped, outermost first |
| CallTrace.InstrumentationInfo.EnterFunction | lib/Instrumentation/DynamicCallTree.cpp:12-27 | in place on the shared array and the stack, one step of the trace machine |
| CallTrace.InstrumentationInfo.LeaveFunction | lib/Instrumentation/DynamicCallTree.cpp:29-34 | pops the stack and leaves the array alone |
| CallTrace.MappingIsExpected | lib/Instrumentation/DynamicCallTree.cpp:12-27 | after any legal trace an entry is zero if the function was never entered, the function itself if it was ever entered on an empty stack, and otherwise its caller at its first entry |
| CallTrace.TraceForest | lib/Instrumentation/DynamicCallTree.cpp:12-34 | after any legal trace an entry is nonzero exactly for entered functions, stacked functions have one, and parent chains end in self-mapped roots with first-entry order as a decreasing rank |
| CallTrace.StackIsOpenCalls | lib/Instrumentation/DynamicCallTree.cpp:26-33 | on every trace that leaves only the function on top, the machine's stack is the list of open calls |
| CallTrace.ReturningRun | lib/Instrumentation/Callbacks.cpp:85-115 | a returning run under instrumentation is a legal trace that empties the stack, and at every moment the stack is the true list of open calls |
| TestRuns.InstrumentedReturns | lib/TestFrameworks/NativeTestRunner.cpp:56-91 | a test run of constructors, driver and destructors returns under instrumentation if and only if it does without, with the same outcomes |
| TestRuns.ReturnsSplit | lib/TestFrameworks/NativeTestRunner.cpp:59-85 | a run of some calls and then others is a run of the first ones and one of the others in the memory they leave |
| TestRuns.OneCall | lib/TestFrameworks/NativeTestRunner.cpp:59-85 | a run of one call is that call, returning, from the given memory |
| TestRuns.LogOfSplit | lib/TestFrameworks/NativeTestRunner.cpp:59-85 | its events are those of the first calls followed by those of the others |
| TestRuns.InstrumentedRun | lib/TestFrameworks/NativeTestRunner.cpp:56-91 | the events of any number of returning top-level calls are a legal trace that empties the stack and leaves a forest, so everything the builder and the searches require holds |
| CallTreeBuilder.FillUpToListed | lib/Instrumentation/DynamicCallTree.cpp:36-61 | after the first d indices exactly the functions with an index below d in their subtree are attached, each under its parent, children ordered by the smallest index in their subtrees |
| CallTreeBuilder.FillInCallTree | lib/Instrumentation/DynamicCallTree.cpp:36-61 | terminates, always finds the parent's node, and builds on the heap what the recursion on values describes, clearing the entries it consumed |
| CallForest.SmallestFacts | lib/Instrumentation/DynamicCallTree.cpp:98-100 | the number by which children are ordered is the least function index in the child's subtree |
| CallTreeShape.CreateCallTree | lib/Instrumentation/DynamicCallTree.cpp:63-103 | returns heap nodes shaped as a tree that mirrors the mapping (parents, levels, names, ordered children) and leaves the mapping all zero |
| CallTreeShape.TreeOfMirrors | lib/Instrumentation/DynamicCallTree.cpp:49-60 | child lists that are complete and ordered describe a tree in which parent is mapping entry and level is chain length |
| Reachability.CallTreeCount | lib/Instrumentation/DynamicCallTree.cpp:94-102 | such a tree holds the phony root and every entered function exactly once, at the level that is its distance to the phony root, and nothing else |
| Reachability.BfsCounts | lib/Instrumentation/DynamicCallTree.cpp:110-124 | breadth-first search yields every node within the limit exactly as often as the forest holds it |
| Reachability.BfsOrdered | lib/Instrumentation/DynamicCallTree.cpp:136-151 | it yields nodes in nondecreasing level |
| Reachability.BfsInLayers | lib/Instrumentation/DynamicCallTree.cpp:110-124 | the search yields what it starts with and then, node by node in the order it yields them, what each of them has pushed |
| Reachability.BfsSearchOrder | lib/Instrumentation/DynamicCallTree.cpp:136-151 | of any two nodes below the start, either they are siblings and the first has the smaller function index in its subtree, or the parent of the first comes earlier |
| TestSubtrees.ExtractTestSubtrees | lib/Instrumentation/DynamicCallTree.cpp:105-126 | the queue-driven search returns the nodes of the test body in breadth-first order |
| TestSubtrees.OneSubtree | lib/Instrumentation/DynamicCallTree.cpp:105-126 | for distinct recorded functions at most one subtree is extracted: the test body's, if it was entered |
| TestSubtrees.CreateReachableFunctions | lib/Instrumentation/DynamicCallTree.cpp:128-155 | the walks over all subtrees return each node within the distance with its level relative to the subtree's root |
| TestSubtrees.SearchesSplit | lib/Instrumentation/DynamicCallTree.cpp:105-155 | several trees and subtrees are extracted and walked one after the other, each by itself |
| TestSubtrees.WalkFinds | lib/Instrumentation/DynamicCallTree.cpp:133-152 | the walk finds exactly the functions below the test body within the distance, once each, in nondecreasing distance, the body first |
| TestSubtrees.DropFirst | lib/Parallelization/Tasks/OriginalTestExecutionTask.cpp:56-62 | dropping the first result drops the test body and nothing else |
| TestSubtrees.SearchFinds | lib/Instrumentation/Instrumentation.cpp:61-71 | extraction, walk and drop together report exactly the functions strictly below the test body within the distance, or nothing if it was not entered; a negative distance counts as zero |
| TestSubtrees.ReachableFunctionsOfTest | lib/Parallelization/Tasks/OriginalTestExecutionTask.cpp:37-62 | the same for the heap code as a whole, from the recorded array to what is stored, leaving the array zero; functions at one distance come as their parents do, and siblings by the smallest index in their subtrees |
| TestCoverage.Replay | lib/Instrumentation/DynamicCallTree.cpp:12-34 | the callbacks of a whole run, one after the other on the shared array, leave the final state of the trace machine |
| TestCoverage.StepsAreDepth | lib/Instrumentation/DynamicCallTree.cpp:12-27 | the chain of first callers in the run is the chain of parents in the array: it leads through a function exactly if that is above, in as many steps as the depths differ |
| TestCoverage.OriginalTest | lib/Parallelization/Tasks/OriginalTestExecutionTask.cpp:22-63 | one test end to end, with constructors, driver and destructors: if the run completes and the driver returns zero, what is stored are exactly the functions whose chain of first callers in the original program's run leads through the test body within the distance, once each, nearest first, and at one distance as their first callers and then as they or what they call first are listed; if the driver returns anything else or the run is interrupted, nothing is stored |
| TestCoverage.TestProgram | lib/Driver.cpp:63-81 | the same from the modules on: all are recorded and instrumented, the process runs what they are linked to, and its events are evaluated; the functions stored are read off the run of the original program |
| TestCoverage.BodyCallExists | lib/TestFrameworks/NativeTestRunner.cpp:56-91 | in a run that leaves no call open, a function that is entered once has one call, with everything entered during it in between |
| TestCoverage.ReportedAreCalled | lib/Parallelization/Tasks/OriginalTestExecutionTask.cpp:37-62 | for a test body entered once and no limit on the distance: the functions reported are exactly those entered during the body's call, if and only if none of these was entered before or ever on an empty stack, and nothing first entered after the call is first called by the body or one of them |
| TestCoverage.HelperOfConstructor | lib/TestFrameworks/NativeTestRunner.cpp:59-61 | a helper that a constructor called first is missing from the report of a body that calls it |
| TestCoverage.HelperOfDestructor | lib/TestFrameworks/NativeTestRunner.cpp:85 | the body is the first to call a helper, a destructor calls the helper again and only then it calls a third function: this is reported for the body, which never called it |
| TestCoverage.WholeRunIsReported | lib/Instrumentation/DynamicCallTree.cpp:12-27 | if the run is one call of the body, recursive or not, everything entered is reported |
| ReachableFunctions.MergeReachableFunctions | lib/ReachableFunction.cpp:7-37 | one entry per reached function, by the position of first reach; the tests of an entry, with their distances, are those at exactly the positions that reach its function, in increasing order of position |
| ReachableFunctions.NothingLost | lib/ReachableFunction.cpp:7-37 | the merged entries hold every function, test and distance that was reached, as often as it was reached |
| TaskBatches.BatchIsCeiling | lib/Parallelization/TaskExecutor.cpp:23-27 | batch k is the least size with which m equal batches hold the n - k items left |
| TaskBatches.Batches | lib/Parallelization/TaskExecutor.cpp:7-35 | the batches sum to the number of items, none is empty, they never grow and differ by at most one |
| TaskExecutor.RunsKeep | include/mull/Parallelization/TaskExecutor.h:45-82 | every interleaving keeps the invariant: workers own disjoint contiguous batches, storages hold the results of what was processed, counters count it, samples never exceed live counters |
| TaskExecutor.OutputIsSequential | include/mull/Parallelization/TaskExecutor.h:57-81 | once joined, the output equals one sequential pass, for every task, item count, split and interleaving |
| TaskExecutor.ReporterIsSafe | lib/Parallelization/Progress.cpp:32-50 | the unlocked sum never exceeds the total, and the reporter exits only if every worker has processed every item |
| TaskExecutor.NextScanExits | lib/Parallelization/Progress.cpp:34-50 | once all workers have finished, the next complete scan exits |
| TaskExecutor.WorkersCanStep | include/mull/Parallelization/TaskExecutor.h:58-75 | in every reachable state a worker is finished if and only if it has no step of its own: no worker waits for another thread |
| TaskExecutor.WorkEnds | include/mull/Parallelization/TaskExecutor.h:58-75 | any run, however interleaved, holds at most two worker steps per item |
| TaskExecutor.CanFinish | include/mull/Parallelization/TaskExecutor.h:57-81 | every reachable state has a continuation that ends with all threads joined |
| TaskExecutor.Prepare | include/mull/Parallelization/TaskExecutor.h:29-50 | nothing for no tasks, one pass for one task or one item, and otherwise a valid split for the smaller of the number of items and tasks |
| TaskExecutor.RunTask | include/mull/Parallelization/TaskExecutor.h:84-93 | the sequential executor pushes the results of all items in order and counts each |
| TaskExecutor.PerItemInOrder | include/mull/Parallelization/TaskExecutor.h:84-93 | in one sequential pass the results of item i come right behind those of the items before it |
| TaskExecutor.StarsMeasure | lib/Parallelization/Progress.cpp:69 | the filled cells are the finished share of 32, rounded down |
| TaskExecutor.BarFits | lib/Parallelization/Progress.cpp:68-71 | the 32-cell bar never underflows and is full exactly when all items are done |
| MutationStorage.HashDefined | lib/AST/ASTMutationStorage.cpp:9-16 | in 32-bit arithmetic the hash is defined if and only if line and column are positive and their sum is at most 46340, and then twice the hash is (line + column)(line + column + 1) + 2 line |
| MutationStorage.CantorInjective | lib/AST/ASTMutationStorage.cpp:9-16 | no two positions share a hash |
| MutationStorage.ASTMutationStorage.SaveMutation | lib/AST/ASTMutationStorage.cpp:66-88 | stores at exactly its file, kind, line and column unless something is there, every other position as it was |
| MutationStorage.ASTMutationStorage.MutationExists | lib/AST/ASTMutationStorage.cpp:51-64 | true exactly if something is stored for the position |
| MutationStorage.ASTMutationStorage.GetMutation | lib/AST/ASTMutationStorage.cpp:32-49 | the mutation stored for the position |
| MutationStorage.ASTMutationStorage.SaveAll | lib/AST/ASTMutationStorage.cpp:66-88 | after any run of saves the hash-keyed store agrees with a first-write-wins map keyed by file, kind, line and column |
| MutationStorage.FirstSavedIsFirst | lib/AST/ASTMutationStorage.cpp:86-87 | that map holds exactly the saved positions, each with the mutation saved there first |
| DeclarationIndex.ThreadSafeASTUnit.RecordDeclarations | lib/JunkDetection/CXX/ASTStorage.cpp:130-142 | what is kept is strictly apart, only visited declarations, and what erasing makes of some sorted permutation; if declarations that begin together are sheltered, every visited one is kept or inside a kept one |
| DeclarationIndex.CoveredIffSheltered | lib/JunkDetection/CXX/ASTStorage.cpp:109-142 | for nested or separate ranges, begins possibly shared: every visited declaration is inside a kept one after every possible sort, if and only if any two with equal begins and different ends are inside a third that begins earlier |
| DeclarationIndex.UnshelteredIsLost | lib/JunkDetection/CXX/ASTStorage.cpp:109-142 | otherwise there is a sorted permutation after which the longer of the two is covered by nothing |
| DeclarationIndex.ThreadSafeASTUnit.GetDecl | lib/JunkDetection/CXX/ASTStorage.cpp:144-168 | binary search agrees with a linear one: a kept declaration strictly around the location, or nothing if none is |
| DeclarationIndex.SearchIsOutermost | lib/JunkDetection/CXX/ASTStorage.cpp:130-168 | where everything visited is covered: the answer is nothing if and only if no visited declaration is strictly around the location, otherwise the one that contains all others that are |
| DeclarationIndex.SharedBeginHidesOuter | lib/JunkDetection/CXX/ASTStorage.cpp:109-168 | the smallest input of this kind: two declarations that begin together alone, sorted with the inner one first, and a location in the outer one at which nothing is found |
| Unescape.TwoPassesAreOne | lib/JunkDetection/CXX/CompilationDatabase.cpp:32-36 | on every string the two leftmost replacement passes do what one left-to-right unescaping does |
| Unescape.UndoOneByOne | lib/JunkDetection/CXX/CompilationDatabase.cpp:32-36 | undoing drops the backslash before a quote or backslash and lets every other character pass |
| Unescape.UndoInvertsEscape | lib/JunkDetection/CXX/CompilationDatabase.cpp:32-36 | undoing inverts backslash-escaping of quotes and backslashes on every string |

## Left out

- LLVM's values and types: registers hold integers or addresses of functions, all arithmetic is one parameter, calls go to defined functions or trap; external code, variadic and void functions, exceptions and longjmp are not modelled, and only normal returns run the leave callback.
- Name clashes: LLVM renames a function whose new name is taken; here it is a hypothesis that generated names are free (`FreshNames`), and that files with one MD5 digest are one file (`Loaded`). ScalarValueMutator can emit two points with one identifier, for which it does not hold.
- Mangling prefixes, object files, the cache and the JIT: symbols are their own addresses, and linking joins the defined functions of the modules by name. Precompiled object files, which hold no mutants, are not linked in.
- Mutators other than the two logical ones: a mutator is a function on the clone it is applied to. Addresses of instructions within functions are not modelled.
- ProcessSandbox, timeouts, captured output: a test run is a function of the trampolines and the test; `Faithful` ties it to the interpreter.
- Callbacks.InjectCallbacks: the load of the offset, the addition and the call are one instruction that carries the sum.
- Instrumentations.Instrumentation.InstrumentProgram: the workers that insert callbacks run one after the other.
- CallTreeBuilder.FillInCallTree: the vector of functions that the source passes by reference is passed in and out; indices have no 32-bit bound.
- Other instructions of blocks in the control-flow graphs of the logical mutators: phis and terminators are kept, because nothing else is read or written.
- LogicalDisjunctions.OrUndoesAnd: restores branch targets; phi entries added on the way stay.
- DiamondMutants.AndRegroupsDiamond: where the scan leaves such a conjunction for an unrelated branch, the theorems about jump code apply up to the block of the phi.
- LogicalChains.AndMutantDecides: the blocks of a chain come in the order of its literals, and only the first may have phis, as in the lowering of a condition.
- Instrumentations.ListingInstruments: the source tells functions apart by address; here by name, so the name of an internal function is understood to include its module.
- TestCoverage.OriginalTest: how far a test got that did not complete is any legal trace; destructors are whatever calls are registered when they start.
- TaskExecutor.Prepare: the reporter thread of the sequential case runs beside one worker and is not part of `RunTask`.
- TaskExecutor.BarFits: the quotient is exact, not rounded to a double.
- TaskBatches.Batches: counts are unbounded, the source narrows them to int.
- MutationStorage.ASTMutationStorage.GetMutation: the existence of the source file on disk is not modelled; nor are counting and swapping whole stores.
- DeclarationIndex.ThreadSafeASTUnit.RecordDeclarations: std::sort returns some sorted permutation; ranges are nested or strictly apart; locations are numbers in translation-unit order.
- ReachableFunctions.MergeReachableFunctions: filters and the selection of instructions are left out.
- Reporters, diagnostics, metrics, command line, configuration, bitcode loading, test finders and junk detection beyond the declaration index: input, output and pattern matching on foreign data.
