# Verification of the Xr0 core

Xr0 verifies annotated C functions by symbolic execution: a function's abstract (its specification) and its body are
both executed on a symbolic memory, path by path, and at the end of every path the two states are audited against each
other. This project models the parts of it whose correctness is not visible from one function body, and proves what
they are for.

| file | models |
|---|---|
| `Util.dfy` | the ordered string map of `src/util/util.c` and decimal names |
| `Ast.dfy`, `MathKernel.dfy`, `Diophantine.dfy`, `ExprMath.dfy` | expressions, the linear-arithmetic kernel, and when its answers are right |
| `CallGraph.dfy`, `Topological.dfy` | the call graph by depth-first search, and its ordering |
| `VConst.dfy` | symbolic constants and their names |
| `Memory.dfy`, `Audit.dfy` | heap, stack, blocks and objects; the garbage audit over cyclic pointer graphs |
| `Tiles.dfy`, `Ownership.dfy`, `Allocator.dfy`, `Ranges.dfy` | virtual ranges: observing, allocating and deallocating them |
| `Runs.dfy`, `RangeLosses.dfy` | whole runs of memory operations, and two concrete ones that go wrong |
| `Reduce.dfy`, `Props.dfy` | reduction of conditions to parameter form, assumed propositions, decisions and assumptions |
| `Execution.dfy` | statements, the program counter and one step of one state |
| `Paths.dfy`, `Steps.dfy` | the tree of paths, its invariant, how assumptions divide the truth assignments, and when a step splits or fails |
| `Termination.dfy`, `PointerPrograms.dfy` | when the verify loop ends, and programs on which it does not |
| `Reference.dfy`, `Misjudged.dfy` | ordinary execution under a truth assignment, when a path follows it, and programs verified although they fail |
| `Verifier.dfy` | the path as an object updated in place, and the verify loop |

Code that the source writes as loops over fields it updates is a class or a method with loops, proved equal to a
function or a relation on values; the main theorems are about those. A `Store` (`Memory.dfy`) is the value of a whole
memory, and `State.Snapshot` ties the objects to it.

## What the code does not do

Where the code falls short of what its names and comments suggest, it is kept as it is, with a concrete input and the
exact condition under which it does meet the property:

- Comparing two coefficient tables ends in a comparison of their lengths (`src/math/math.c:336`), so `x <= y` is
  answered yes. `MathKernel.MathLeConfusesVariables` exhibits it; `MathKernel.MathLeDecidesExactlyWhen`,
  `ExprMath.OrderIsRightEverywhereExactlyWhen` and `ExprMath.EqualityIsRightEverywhereExactlyWhen` say exactly when
  each of the six comparisons is answered right.
- `props_get` takes a negated condition for true when nothing contradicts it (`src/props/props.c:80-83`).
  `Props.NegationGuess` is a case in which a later assumption reverses the answer, and `Misjudged.GuessIsVerified` a
  program that is verified although executing it fails the audit. The answer lasts exactly when the operand is decided
  (`Props.NegationIsStableExactlyWhen`), and exactly then it agrees with every truth assignment the propositions allow
  (`Props.GroundedExactlyWhen`; for whole statements `Reference.ChoicesAreDirectedExactlyWhen`).
- Whether a block ends is asked again after the statement, and only of the bodies of selections
  (`src/ast/stmt/stmt.c:233-242`). A return in an else-branch does not end the block, nor does one whose effect changes
  the condition: `Misjudged.ElseIsVerified` and `Misjudged.ChangeIsVerified` are verified although executing them fails
  the audit. `Reference.TerminalExactlyWhen` is the exact condition, in terms of the conditions along the bodies before
  and after the effect and of returns in else-branches.
- A condition whose value is a pointer is never decided, not even on the path that assumes it
  (`src/ast/stmt/verify.c:420-441`), so the verify loop splits on it for ever:
  `PointerPrograms.PointerProgramNeverEnds`. The loop ends exactly if some step fails or no path ever stands at such a
  condition (`Termination.LoopEndsExactlyWhen`), provided that no symbol has the name of a pointer
  (`PointerPrograms.NamedPointerEnds` shows why). No C name is spelled like a rendered pointer, which has a colon
  (`src/ast/lex.l:74`), and where no name and no binding is, the proviso holds: `Termination.PlainIsApart`. A binding
  gets such a name only when an expression that already contains a rendered pointer is evaluated again
  (`src/ast/expr/verify.c:520`).
- Deallocating part of a range loses the rest of it (`src/state/block.c:246-263`): `RangeLosses.LeftoversAreLost`. And
  when the lower bound is found after the upper one in the array, which a constructive observation can bring about, the
  range counts as deallocatable and deallocating it frees nothing: `RangeLosses.NothingIsDeallocated`.
  `Ranges.DeallocIsExactExactlyWhen` and `Ranges.DeallocKeepsTidyExactlyWhen` give the exact conditions under which
  deallocating removes the range and nothing else, and under which it keeps the invariant.
- Deallocating through a pointer and assigning a pointer do not ask whether a range owns the block.
  `Ownership.FreeingKeepsExactlyWhen` and `Ownership.AssigningKeepsExactlyWhen` say when that is harmless.

A name that starts with `#` and is not a declared constant reduces to a literal, which a second reduction turns into a
pointer; `Reduce.ReductionIsIdempotentExactlyWhen` is the exact condition for idempotence.

## Model

| member | source | states |
|---|---|---|
| MathKernel.TallyPreservesValue | src/math/math.c:258-324 | the coefficient tally of an expression has the expression's value under every valuation, with no variable listed twice |
| MathKernel.TallyListsVariables | src/math/math.c:258-324 | the tally lists the variables of its expression in order of first occurrence, cancelled ones included, so that its length is their number |
| MathKernel.VariablesAreMentioned | src/math/math.c:258-324 | each variable that occurs is listed exactly once, and no other |
| MathKernel.MapSum | src/math/math.c:289-307 | the loops over two maps compute the entry-wise sum, keys in order of first appearance |
| MathKernel.NegateInPlace | src/math/math.c:310-324 | the in-place loop negates every coefficient and keeps the key order |
| MathKernel.ComputeTally | src/math/math.c:258-324 | the map-building tally computes the tally function |
| MathKernel.ExprFromVarTally | src/math/math.c:49-67 | the loop builds the sum of a variable with itself, negated for a negative count |
| MathKernel.Simplify | src/math/math.c:221-247 | the loop over tally entries builds the normal form |
| MathKernel.SimplifyPreservesValue | src/math/math.c:221-247 | simplifying keeps the integer value under every valuation |
| MathKernel.SimplifiedTally | src/math/math.c:221-247 | the tally of the simplified expression is the original's without its zero coefficients, in the same key order |
| MathKernel.SimplifyIdempotent | src/math/math.c:221-247 | simplifying twice gives the identical tree |
| MathKernel.VariableTallyEq | src/math/math.c:326-342 | the key-by-key verdict is overwritten: the answer compares lengths |
| MathKernel.CompareLe | src/math/math.c:72-79 | the comparison computed through the tallies is the function the theorems are about |
| MathKernel.LinearOrder | src/math/math.c:72-79 | one tally lies below another under all valuations if and only if the coefficients agree and the constants are ordered |
| MathKernel.MathLeDecidesExactlyWhen | src/math/math.c:72-79 | math_le answers "below under all valuations" if and only if its first constant is the larger or counting coefficients is as good as comparing them |
| MathKernel.MathLeConfusesVariables | src/math/math.c:326-342 | x <= y is answered yes although a valuation refutes it |
| ExprMath.TranslationPreservesValue | src/ast/expr/expr.c:1009-1049 | translating a sum or difference into the kernel keeps its value |
| ExprMath.TranslationKeepsNames | src/ast/expr/expr.c:1009-1049 | and mentions exactly its names |
| ExprMath.MatchedIsDecidedExactly | src/ast/expr/expr.c:969-1007 | with the same keys and coefficients on both sides, each of ==, !=, <, >, <=, >= is decided exactly, for every valuation |
| ExprMath.ClosedIsDecidedExactly | src/ast/expr/expr.c:969-1007 | variable-free propositions are always decided exactly |
| ExprMath.OrderIsRightEverywhereExactlyWhen | src/ast/expr/expr.c:969-1007 | the answer to <, >, <= or >= agrees with every valuation if and only if the coefficients agree and either the variable counts do too or the constants alone refute the comparison |
| ExprMath.EqualityIsRightEverywhereExactlyWhen | src/ast/expr/expr.c:969-1007 | the answer to == or != agrees with every valuation if and only if "equal" comes with agreeing coefficients, and "different" with a difference of the constants that the greatest common divisor of the coefficients' differences does not divide |
| Ast.EqualIsStructural | src/ast/expr/expr.c:917-964 | the case-by-case comparison of expressions is structural equality |
| Util.PutLookup | src/util/util.c:83-97 | setting a key answers later lookups of that key, leaves the others alone and keeps keys distinct |
| Util.Map.Set | src/util/util.c:83-97 | the loop over slots replaces the slot of a known key in place and appends a new one |
| Util.Map.Get | src/util/util.c:73-81 | the loop finds the first slot of the key or answers nothing |
| CallGraph.RecurseBuildGraph | src/ast/function/function.c:359-414 | terminates on recursive programs; everything newly visited is reachable, and the graph is complete for every finished function |
| CallGraph.SearchCalls | src/ast/function/function.c:389-413 | the loop over a body's callees keeps the search invariant and lists each non-axiom callee once |
| CallGraph.SearchedIsCallGraph | src/ast/function/function.c:348-357 | a finished search has exactly the non-axiom functions reachable from the start as keys, each listing exactly its non-axiom callees without duplicates |
| CallGraph.BuildGraph | src/ast/function/function.c:348-357 | fails exactly for an undeclared start, and otherwise builds the call graph |
| Topological.Pigeonhole | src/ast/topological.c:48-53 | a walk longer than the set it stays in meets a node twice |
| Topological.StuckHasCycle | src/ast/topological.c:48-53 | a non-empty set of nodes each with a dependency in the set yields a cycle |
| Topological.SortedIsAcyclic | src/ast/topological.c:20-56 | a graph that has been ordered has no cycle |
| Topological.CalculateIndegrees | src/ast/topological.c:61-95 | every node is counted with its number of dependencies |
| Topological.BuildIndegreeZero | src/ast/topological.c:105-120 | the queue starts with exactly the nodes of count zero, each once |
| Topological.TellAll | src/ast/topological.c:34-45 | after one output every count is again the number of dependencies not yet output, and each name is queued at most once, when its count reaches zero |
| Topological.Sort | src/ast/topological.c:20-56 | succeeds with a permutation of the nodes, dependencies first, and fails if and only if the closed graph has a cycle |
| Topological.CycleIsRecursion | src/ast/topological.c:20-56 | a cycle of the call graph is a chain of calls back to itself |
| Topological.RecursionIsCycle | src/ast/topological.c:20-56 | and conversely |
| Topological.TopologicalOrder | src/ast/topological.c:20-56 | end to end: the order lists the reachable non-axiom functions with callees before callers; it fails with "cycle" if and only if some reachable function is recursive, and with "undeclared" if and only if the start is |
| VConst.NextNameIsFresh | src/state/heap.c:267-278 | the next `$` or `#` name is not in use, and adding it keeps the names in use consecutive |
| VConst.NameReads | src/state/heap.c:267-278 | a name is `$` or `#`, as the constant persists or not, and the decimal digits of its number |
| VConst.VConsts.Declare | src/state/heap.c:248-262 | returns a name not in use, the next of its kind, adds exactly that entry and keeps the naming invariant |
| VConst.VConsts.Undeclare | src/state/heap.c:298-328 | keeps all and only the persistent constants, with their values and comments |
| VConst.NamedPersistent | src/state/heap.c:298-328 | after undeclaring, the names in use are exactly `$0` to `$(p-1)` |
| Memory.LocationEqualMeans | src/state/location.c:245-251 | two locations compare equal exactly when they are the same in region, block and offset; only automatic ones may differ in their frames |
| Memory.ValueLocsAre | src/value/value.c:703-732 | the locations a search takes from a value are exactly its pointers, however deep in structs |
| Memory.ObjectLocsAre | src/object/object.c:209-228 | and from an object, the block of its range or the pointers of its value |
| Memory.Heap.NewBlock | src/state/heap.c:95-108 | a new block gets the next address and is not freed |
| Memory.Heap.DeallocBlock | src/state/heap.c:122-132 | fails exactly on a freed block, and marks exactly that block freed |
| Memory.State.Dealloc | src/state/state.c:445-452 | deallocating a value frees the block it points to, or fails without effect when it is not a pointer, points elsewhere than the heap, or to a freed block |
| Memory.State.Assign | src/object/object.c:230-240 | the object refers to what its new value points to, and nothing else changes |
| Memory.Block.Insert | src/object/object.c:687-699 | the shifting loop inserts one object and moves the rest up in order |
| Memory.Block.Remove | src/object/object.c:707-715 | the shifting loop removes one object and keeps the rest in order |
| Audit.LocationReferences | src/state/location.c:253-263 | true exactly when the target is reachable from the location by a pointer chain avoiding the objects in the breaker; on false, the objects added to the breaker cannot reach the target either |
| Audit.BlockReferences | src/state/block.c:118-130 | the same for the objects of a block, which share one breaker |
| Audit.ObjectReferences | src/object/object.c:209-228 | the same for one object, and the recursion ends because the objects outside the breaker run out |
| Audit.ValueReferences | src/value/value.c:703-716 | the same for the locations a value holds |
| Audit.StructReferences | src/value/value.c:718-732 | the same for the members of a struct, which share one breaker |
| Audit.DeadEndsDoNotMatter | src/util/util.c:445-486 | adding objects that cannot reach the target to the breaker changes no answer |
| Audit.FailedObjectIsDeadEnd | src/object/object.c:209-228 | an object searched without success is such a dead end, even on a cycle through itself |
| Audit.DeadEndsCompose | src/util/util.c:445-486 | dead ends found one after the other under a shared breaker are dead ends together |
| Audit.VariableReferences | src/state/stack.c:401-410 | a fresh breaker asks for plain reachability from the variable |
| Audit.StackReferences | src/state/stack.c:263-281 | true exactly when the target is reachable from the result or a parameter of the current frame |
| Audit.HasGarbage | src/state/state.c:508-512 | for every store, cyclic or not, the audit reports garbage if and only if some unfreed heap block is reachable from neither the result nor a parameter |
| Tiles.Contains | src/object/object.c:271-297 | the two comparisons decide membership of an offset in an object |
| Tiles.ContigPrecedes | src/object/object.c:326-333 | decides whether one object ends where the other starts |
| Tiles.ArrIndex | src/object/object.c:663-673 | the loop returns the first object holding the offset, or -1 when none does |
| Tiles.ArrIndexUpperIncl | src/object/object.c:675-685 | the same with the upper end included |
| Tiles.TilingCovers | src/object/object.c:326-333 | contiguous pieces cover exactly the offsets between their ends |
| Tiles.SplitKeepsOffsets | src/state/block.c:98-113 | replacing an object by a tiling of its offsets keeps the array disjoint and its offsets the same |
| Ownership.NewBlocksKeep | src/state/heap.c:95-108 | new blocks belong to nobody, and every range keeps its block |
| Ownership.InsertKeeps | src/object/object.c:687-699 | inserting an object whose block nobody refers to keeps every range the only owner of a live block |
| Ownership.FreeingKeepsExactlyWhen | src/state/state.c:445-452 | deallocating a live block through a pointer keeps every range the only owner of a live block if and only if no range owns that block |
| Ownership.AssigningKeepsExactlyWhen | src/object/object.c:230-240 | assigning a value keeps the same if and only if the heap blocks it points to exist and belong to no range |
| Allocator.ObjectUpto | src/object/object.c:349-392 | nothing when the object starts at the bound, a copy of a value that ends there, and otherwise the part below the bound as a range with a new heap block |
| Allocator.ObjectFrom | src/object/object.c:395-437 | nothing when the object ends at or below the bound, a copy of a value that starts there, and otherwise the part from the bound on as a range with a new heap block |
| Allocator.SplitIsTiling | src/state/block.c:86-100 | the two pieces and the observed cell tile exactly the split range |
| Allocator.DropRange | src/state/block.c:102-105 | deallocating an owned range succeeds, so the source's assertion holds |
| Allocator.Observe | src/state/block.c:64-116 | finds the object at the offset, adds a cell at the end, or splits the range in place, and keeps the invariant; the old heap blocks, the frames and the other memories stay |
| Allocator.ObservingKeepsOffsets | src/state/block.c:64-116 | observing keeps the block's offsets except that a constructive miss adds exactly the observed one; other blocks are untouched; the result is a cell at the offset |
| Allocator.ObservingAgain | src/state/block.c:64-116 | observing the same offset again, however written, returns the same object and changes nothing |
| Allocator.ObservedKeepsTidy | src/state/block.c:64-116 | objects stay pairwise disjoint and every range still owns a live block that nothing else refers to |
| Allocator.SplitKeepsTidy | src/state/block.c:86-113 | the same for a split: each piece owns its own new block and the split range's block is freed |
| Ranges.RangeAlloc | src/state/block.c:132-154 | an empty block gets one virtual object with a new heap block |
| Ranges.RangeAllocKeepsTidy | src/state/block.c:132-154 | that object covers exactly [lw, up), and the invariant is kept |
| Ranges.IsDeallocand | src/object/object.c:196-207 | true exactly when deallocating the object would free a live heap block |
| Ranges.AreDeallocands | src/state/block.c:160-190 | the shortcut, the two searches and the loop give one verdict, including the source's failing assertion |
| Ranges.YesIsSpan | src/state/block.c:160-190 | when the lower bound was not found after the upper one, yes means that the objects between the bounds are adjoining deallocands from the one holding the lower bound to the one reaching the upper |
| Ranges.YesCoversEveryOffset | src/state/block.c:160-190 | then every offset of [lw, up) lies in an object that owns or points at a live heap block |
| Ranges.YesIsExactOnTiling | src/state/block.c:160-190 | on a gap-free tiling the answer is yes if and only if every offset of [lw, up) is deallocatable |
| Ranges.DeallocObjects | src/state/block.c:256-261 | the loop succeeds if and only if every object names a live heap block and no two the same, and then frees each named block once; otherwise it stops at the first that does not, with that object's error, and exactly the blocks before are freed |
| Ranges.CopyKept | src/state/block.c:243-254 | the copying loops keep the objects outside the run in order |
| Ranges.ShortcutAgrees | src/state/block.c:217-224 | the exact-bounds shortcut has the effect of the general path |
| Ranges.RangeDealloc | src/state/block.c:212-266 | over any two bounds: the first object is exactly the range and goes; or a bound is missing and nothing changes; or the last object cannot be split and an assertion fails; or an object cannot be deallocated, the parts of the run outside the bounds stay at the end of the array and the blocks before it are freed; or the run between the bounds is removed and its blocks freed |
| Ranges.LocationRangeDealloc | src/state/location.c:350-370 | a location with an offset fails an assertion; no block is an error; a range that is not judged deallocatable aborts and changes nothing; and otherwise the outcome is that of the deallocation |
| Ranges.YesHasBounds | src/state/location.c:350-370 | after a yes no bound is missing and no object is without a heap block: only a failing assertion or a block named twice is left |
| Ranges.DeallocKeepsTidyExactlyWhen | src/state/block.c:212-266 | a successful deallocation keeps the invariant if and only if the lower bound was found at most one place after the upper one |
| Ranges.InvertedFreesNothing | src/state/block.c:243-263 | when it was found after the upper one, no live block is freed |
| Ranges.InvertedUncoversNothing | src/state/block.c:243-263 | and the block covers the offsets it did |
| Ranges.DeallocCounts | src/state/block.c:212-266 | it changes the number of live blocks by the leftovers allocated minus the objects removed |
| Ranges.DeallocFreesTheRun | src/state/block.c:212-266 | the blocks that stop being live are exactly those the removed objects name |
| Ranges.DeallocIsExactExactlyWhen | src/state/block.c:212-266 | exactly the offsets of [lw, up) disappear if and only if the lower bound was found no later than the upper one and both are boundaries of objects |
| RangeLosses.LeftoversAreLost | src/state/block.c:246-263 | from an empty state: deallocating [2, 5) of an allocated range [0, 10) succeeds and leaves no cell of it |
| RangeLosses.NothingIsDeallocated | src/state/block.c:160-190 | from an empty state: with the range [5, 10) and the cell 0 after it, [0, 6) is judged deallocatable, deallocating it succeeds, and nothing is removed |
| Runs.StepKeepsTidy | src/state/block.c:86-115 | every successful operation keeps the objects disjoint and every range the only owner of a live block |
| Runs.StepBalances | src/state/block.c:86-115 | no operation revives an address, and each changes the number of live blocks by exactly what it adds or removes; a split adds one fewer than its pieces |
| Runs.RunsStayTidy | src/state/heap.c:95-132 | over any run of allocations, range allocations, observations, range deallocations, deallocations through pointers and assignments the invariant holds throughout, no address is reissued or revived, and the memories other than the heap stay as they are |
| Runs.FreedAtMostOnce | src/state/heap.c:122-132 | no address is freed by two steps of a run |
| Reduce.ReductionPreservesMeaning | src/ast/expr/verify.c:1269-1394 | the reduced expression, under a valuation of parameters and locations, means what the original means under the state's bindings, with calls and operators uninterpreted; the error names the first unbound name that the original reads, and reduction aborts exactly where the original is not allowed |
| Reduce.LiteralsAreApart | src/state/state.c:204-229 | literals reduce to the same pointer if and only if they are the same text |
| Reduce.ReductionIsStable | src/ast/expr/verify.c:1269-1394 | reducing again under the same bindings, however many literals have been pooled since, gives the same result |
| Reduce.ReductionGrowsPool | src/state/state.c:204-229 | reduction touches nothing but the literal pool, which only grows and holds each literal once |
| Reduce.NormalIsFixed | src/ast/expr/verify.c:1269-1394 | an expression in parameter form reduces to itself |
| Reduce.ReducesToNormal | src/ast/expr/verify.c:1269-1394 | reduction ends in parameter form |
| Reduce.ReductionIsIdempotentExactlyWhen | src/ast/expr/verify.c:487-514 | reducing a reduced expression gives an equal expression if and only if no name of the original is taken for a literal |
| Reduce.StrayHashIsNotFixed | src/ast/expr/verify.c:498-501 | the undeclared name `#x` is not a fixed point |
| Props.Props.Install | src/props/props.c:68-75 | installing an uncontradicted proposition appends it and keeps the propositions free of a condition together with its negation |
| Props.Props.Contradict | src/props/props.c:96-120 | the loop finds a contradiction exactly when a proposition is the negation of the other |
| Props.Props.Lookup | src/props/props.c:77-91 | the loop finds installed propositions, and takes uncontradicted negations for known |
| Props.SelDecideIn | src/ast/stmt/verify.c:409-447 | the decision of a control expression is the decision function of its reduced value and the propositions |
| Props.DecisionReflectsProps | src/ast/stmt/verify.c:409-447 | a symbolic condition that is not a negation is true exactly if installed, false exactly if its negation is, and undecided otherwise |
| Props.DecisionIsStable | src/ast/stmt/verify.c:409-447 | once decided it keeps its answer whatever is assumed later |
| Props.NegationIsStableExactlyWhen | src/props/props.c:80-83 | the answer on a negation stays the same whatever is assumed later if and only if its operand is decided |
| Props.GroundedExactlyWhen | src/ast/stmt/verify.c:409-447 | the answer on a condition contradicts no truth assignment that meets the propositions if and only if the condition is not a guessed negation; for a simple negation, if and only if its operand is decided |
| Props.NegationGuess | src/props/props.c:80-83 | with nothing assumed "!a" is true, and assuming "a" makes it false |
| Props.IrreducibleAssume | src/ast/expr/verify.c:1400-1418 | installs the proposition in place unless it is contradicted |
| Props.AssumeInstallsNormal | src/ast/expr/verify.c:1211-1254 | assuming a condition in parameter form installs it, or its negation, as it stands, so that later lookups test what was installed |
| Props.SplitNeverContradicts | src/ast/expr/verify.c:1400-1418 | neither assumption of a split on an undecided symbolic condition is contradictory |
| Props.AssumeMeans | src/ast/expr/verify.c:1211-1254 | assuming any expression with a truth value installs one proposition, true exactly where the expression has that value under the bindings; or it has it nowhere the propositions hold; or what is under its negations and brackets is no symbol |
| Props.AssumedMeans | src/ast/expr/verify.c:1211-1231 | the installed proposition holds exactly where the assumption does |
| Props.ContradictedIsFalse | src/props/props.c:96-120 | what is contradicted is false wherever the propositions hold |
| Execution.BlockInOrder | src/state/stack.c:490-558 | a run of completed steps from the start of a block executes the declarations in order and once each, then the statements in order and once each, up to the first that ends the block or to the last |
| Steps.ExecFollowsLead | src/ast/stmt/verify.c:216-232 | a statement has the effect its decided conditions lead to, or none, or splits on the first undecided condition, or fails with the first one that cannot be decided; before the effect only the literal pool changes |
| Steps.OpenAgainExactlyWhen | src/ast/stmt/stmt.c:233-242 | the question whether the block ends has no answer exactly when a condition along the bodies is open after the effect |
| Steps.AskedForks | src/path/path.c:52-94 | in the abstract and in the body, a step at an undecided condition c that can be assumed makes two paths, with c and with its negation added to assumptions and propositions; only a pointer can have one of them known already, and then that side ends |
| Steps.StepFailsExactlyWhen | src/path/path.c:162-306 | a step of a tree fails exactly when a set-up fails, a condition cannot be decided or assumed, an effect fails, a condition is open after it, or the audit says no, on a path not at its end; and with the error of the first such path |
| Paths.StepKeepsInv | src/path/path.c:162-306 | every step of every path keeps the invariant: a live path's propositions are the root's plus its own assumptions, and a path that has ended was audited successfully or has assumptions that cannot all hold |
| Paths.ExactlyOnePath | src/path/path.c:52-94 | each truth assignment that meets a node's assumptions meets those of exactly one path below it |
| Paths.PropsPartitionAssignments | src/path/path.c:52-94 | each truth assignment that meets the root's propositions meets the propositions of exactly one path, and any other of none |
| Paths.DecisionLasts | src/path/path.c:203-222 | a decided condition keeps its answer on every path that grows out of the one that decided it |
| Paths.FinishedTreeIsAudited | src/path/path.c:131-142 | in a finished tree the path a truth assignment takes was audited successfully |
| Termination.TwoWeighLess | src/path/path.c:52-61 | the two children of a split together measure less than the path split |
| Termination.StepDecreases | src/path/path.c:162-306 | with reduced conditions from a finite set, every step that is not an error decreases a natural number unless a path stands at a condition whose value is a pointer |
| Termination.StepStaysAudited | src/path/path.c:70-94 | with no path at a pointer no split is contradictory: a path ends only by passing the audit |
| Termination.EveryPathIsAudited | src/ast/function/function.c:207-219 | when the loop ends without error, every path passed the audit, pointers or not |
| Termination.StepStaysAtPointer | src/path/path.c:225-263 | a tree with a path at a condition whose value is a pointer, in the abstract or in the body, still has one after any step that does not fail, whatever the propositions |
| Termination.PointerNeverEnds | src/ast/function/function.c:207-219 | from such a tree no number of rounds leads to the end |
| Termination.LoopEndsExactlyWhen | src/ast/function/function.c:207-219 | with conditions that are pointers or come from a finite set, the loop ends, in a finished tree or with an error, if and only if some step fails or no path of the run ever stands at a condition whose value is a pointer |
| Termination.PlainIsApart | src/ast/expr/verify.c:517-528 | where no name and no binding is spelled like a rendered pointer, no symbolic condition has the name of a pointer |
| PointerPrograms.PointerProgramNeverEnds | src/ast/stmt/verify.c:420-441 | for the abstract "if (p) ...", p bound to a pointer, no step fails and the loop is not at its end after any number of rounds |
| Verifier.Path.CopyWith | src/path/path.c:70-94 | the child is the parent with one more assumption, or is at its end when that is contradictory |
| Verifier.Path.SplitOn | src/path/path.c:52-61 | the path becomes a fork of its two children |
| Verifier.Path.StepAbstractState | src/path/path.c:225-243 | one step of the abstract, and at its end the switch to the body |
| Verifier.Path.StepActualState | src/path/path.c:245-263 | one step of the body, and at its end the audit |
| Verifier.Path.StepPath | src/path/path.c:162-182 | stepping the tree of objects in place is the step function on its value |
| Verifier.Path.AtEnd | src/path/path.c:131-142 | true exactly when every path is at its end |
| Reference.TerminalExactlyWhen | src/ast/stmt/stmt.c:233-242 | whether a statement ends its block is answered by whether it took a return if and only if: when the innermost body is a return, the conditions along the bodies hold after the effect exactly if they held before it or a return was taken in an else-branch; and otherwise no return was taken in an else-branch |
| Reference.ReturnMissedExactlyInElse | src/ast/stmt/stmt.c:233-242 | when the effect changes none of the answers, a return is missed if and only if it lies in an else-branch |
| Reference.ChoicesAreDirectedExactlyWhen | src/ast/stmt/verify.c:216-232 | a completed statement has taken the branches that every truth assignment allowed by the propositions directs if and only if no condition it asked is a guessed negation |
| Reference.FaithfulExactlyWhen | src/state/stack.c:524-558 | the hypothesis about a statement that the theorem on verified programs uses holds if and only if the branches are those, and the block ends if and only if a return was taken |
| Misjudged.GuessIsVerified | src/props/props.c:80-83 | from the start of a run: the body "if (!x) ..." is verified, and for every assignment that makes x true the states that execution leads to fail the audit |
| Misjudged.ElseIsVerified | src/ast/stmt/stmt.c:233-242 | the same of "if (0) ...; else return ...; ...", whose last statement is never executed, for every assignment |
| Misjudged.ChangeIsVerified | src/ast/stmt/stmt.c:233-242 | and of "if (x) return ...; ...", where the return sets x to 0 |
| Reference.ExecIsDirected | src/ast/stmt/verify.c:216-232 | when a truth assignment meets the propositions and what the statement asks is known, a completed statement has taken the branches, and the return, that the assignment directs; after a split it is still to do the same, however much the literal pool has grown |
| Reference.StepExecIsDirected | src/state/stack.c:524-558 | a step or a split leaves the reference execution of the abstract or the body where it leads |
| Reference.StepFollows | src/path/path.c:162-306 | every step of the tree keeps every path whose assumptions an assignment meets on the way of the reference execution the assignment directs |
| Reference.TakenIsDirected | src/path/path.c:131-142 | in a finished tree the path an assignment takes ends in the two states the reference executions end in |
| Paths.VerifiedIsAccounted | src/ast/function/function.c:207-219 | when the loop ends without error, every truth assignment that meets the root's propositions meets the assumptions of exactly one path, which passed the audit |
| Reference.VerifiedIsDirected | src/ast/function/function.c:207-219 | and the states audited are exactly those that executing the declarations and then the statements, up to the first that returns, of the abstract and of the body with the assignment's answers leads to, when on its path every negated condition asked has its operand decided and every return is noticed |
| Verifier.VerifyRounds | src/ast/function/function.c:207-219 | on any program, after any number of rounds of the loop the mutable path is what the same number of steps makes of the tree, or the error is theirs |
| Verifier.Verify | src/ast/function/function.c:207-219 | the loop over the mutable path ends when conditions come from a finite set and a step fails or no path stands at a pointer, returns exactly the error that stops the tree of paths, and no error only when every path passed the audit and every truth assignment is accounted for |

## Left out

- Lexing, parsing, preprocessing, the command line, verbose printing and manual memory management.
- Machine integers: offsets, coefficients and addresses are unbounded; overflow of the source's `int` is not modelled.
- Verifier.Path.AuditStates: the audit is an abstract predicate on the two final states; the string comparison inside
  state equality is not modelled, and the garbage audit is proved separately in `Audit.dfy`.
- Verifier.Verify: requires that reduced conditions come from a finite set, that no symbol has the name of a pointer,
  and that a step fails or no path stands at a condition whose value is a pointer; without the last the source's loop
  does not end (`Termination.LoopEndsExactlyWhen`). `Verifier.VerifyRounds` requires none of it.
- Paths.StepExecKeeps: a statement queries its conditions before any effect. Undecided conditions raised in the middle
  of a compound statement or inside a call, after which the source repeats the earlier effects on each side of the
  split, loop bodies and the loop-effect hacks are not modelled; a statement is a tree of selections with one effect,
  given by the program, at each leaf.
- Execution.BlockInOrder: the program counter and the execution states are values, which the path object replaces as
  wholes.
- Reference.VerifiedIsDirected: requires, on the path the assignment takes, that negated conditions are no guesses and
  that returns are noticed; without either it is false (`Misjudged.dfy`), and `Reference.FaithfulExactlyWhen` shows that
  statement by statement nothing more than agreement is asked.
- Paths.StepKeepsInv: effects and set-up do not install propositions of their own, and what they do to the bindings
  keeps them in parameter form.
- Allocator.Observe: offsets and sizes are variable-free; with variables the kernel's comparison is not exact
  (`MathKernel.MathLeConfusesVariables`).
- Ranges.RangeDealloc: the source keeps a pointer to the object array across appends to it; here the objects of the run
  are read before.
- Ranges.YesCoversEveryOffset: one way only; with the lower bound found after the upper one the offsets may be covered
  or not, and the source does not look.
- Runs.RunsStayTidy: runs deallocate through pointers, and assign pointers, only to blocks that no range owns, and
  deallocate ranges by the shortcut or with the lower bound found at most one place after the upper one; the lemmas
  named above show that these guards are exact.
- Ranges.AreDeallocands: values are definite pointers, or absent, as the source asserts.
- Audit.HasGarbage: requires that no pointer leads into a popped frame, on which the source aborts. Struct members are
  part of their value rather than objects of their own, and the stack is a sequence of frames instead of a linked list.
- CallGraph.BuildGraph: requires that every callee is declared and that functions other than axioms have bodies;
  collecting the callees of a statement is an input.
- Reduce.PfReduce and Props.Assume cover names, constants, strings, brackets, calls, members, unary and binary
  expressions; character constants, indefinite integers, assignments and allocation expressions are not modelled. The
  rendering of a pointer's location is taken as a given string, except for pooled literals.
- Reduce.EvalIdentifier: the bindings of names are a map of their own, in which a pointer is the rendering of its
  location; they are not tied to the objects of `Memory.State`.
- `$p` dereferencability propositions, number ranges, `value_assume` and state rendering.
