# fcd in Dafny

fcd is a decompiler. It lifts machine code to LLVM IR, turns each control-flow graph into goto-free statements, and
rewrites those statements and their expressions before it prints them as C. This project models the parts of fcd that
have to keep the meaning of a program, or the shape of a data structure, and proves that they do. Where the code does
not do what it is for, the model keeps the code as it is; the project then gives an input that shows it and proves
exactly when the code is right.

`dafny verify dfyconfig.toml` checks everything.

## What is here

**Statements and structuring.**
`Expressions` and `Statements` give conditions and statement trees a meaning, for every state type and every
interpretation of leaves and expression statements; loops may diverge. `Regions` walks a control-flow graph block by
block and is the reference that folding is compared with. `ReachingConditions`, `PathGuards`, `Disjunction` and
`Structurizer` are `foldBasicBlocks` and `createDisjunction`; `StructurizerCorrect` proves that the folded code means
what the walk means. `DisjunctionExact`, `DisjunctionAsWritten` and `DisjunctionExamples` say when `createDisjunction` gives
an expression at all, and when a defect of it does no harm. `ConsecutiveCombiner`, `NestedCombiner` and `CombinerPipeline`
are the two AST passes, alone and in any order; `TrueLoops` says when loops survive them, and `CodeEquality` is the
comparison of expressions they use. `Backend` puts all of it together for one region, and applies it to a loop;
`RegionReduction` folds region after region until the function is one, and `RegionShape` says that the graph which is left
can be folded. `SimplifyExpressions` and `SimplifyExact` are the pass over conditions, as expressions that share nothing;
`SimplifyRuns` is the same pass over shared expressions in memory, in any order of visits, `SharedSteps` connects the two, and
`SimplifyPasses` runs it over statements between the combiners.

**What comes out.** Meaning alone does not tell a pass that does its work from one that leaves everything as it is. For each
of these there is also a description of its result, in terms of paths into expressions and trees: `FoldForm` and `FoldExamples`
(folding), `DisjunctionForm` (`createDisjunction`), `NestedForm` (the nested combiner), `SimplifyForm` (the simplifier),
`TypeLayout` (the printer), and for the other combiner and the arithmetic passes in their own modules.

**The graph before structuring.** `BranchConditions` (conditions on edges), `PhiNodes` (phi nodes as two copies),
`PreAstGraph` and `EdgeRedirection` (edges and blocks in the heap, and dispatch blocks).

**Structures in the heap.** `Uses` (use lists), `Waymarks` (tags that lead from an operand slot to its user),
`StatementLists` (lists that own statements), `DumbAllocator` (the pool everything lives in).

**Arithmetic.** `Reciprocals` (multiplications recognised as divisions) and `IntNarrowing`, over `Arithmetic`.

**Smaller algorithms.** `TypePrinter` (C declarators and a parser for them) and `EntryPoints` (which functions to lift).

## How to read the hypotheses

* Equality of expressions is a parameter. `Sound` says that it identifies only conditions of equal truth value;
  `ByAddress` that it is a comparison of pointers, where one expression has one value. The comparison of the code is not
  `Sound`: see the findings.
* `Deterministic`, `Undisturbed` and `WellShaped` describe a region of a program in SSA form: the edges of a block are
  exclusive (`TerminatorsDecide` derives this from the terminators), a block does not change what the conditions on the
  edges of blocks before it say, and blocks are in reverse post order. A loop that ends is not excluded: its header
  copies `phi_out := phi_in` at its start, which changes its own conditions only. `CountingCompiled` takes such a loop
  through folding and the combiners without any hypothesis left.
* `Sane` is the part of this that speaks of states. `RegionReduction` supposes it of the graph at the start only, and shows that
  folding keeps it; `Shapely` is the rest, which each region has to satisfy when its turn comes.
* `Stable` says that no `if` changes the condition it is under; `PassesPreserveUnwritten` derives it from reads and writes,
  `FoldStable` shows that folding keeps it, and `MergeExact` says what happens without it.
* `Fit` says that conditions are boolean, and negate boolean expressions other than a bitwise `and` of two: see the findings on
  what the simplifier does to others. The combiners and the simplifier keep it.
* `InPlace` delimits where the result of the simplifier depends on the expression alone. A chain is visited again if an operand
  of it was decided; a decided chain elsewhere in it, under a negation or in a nested chain of the same operator, is then seen
  as the literal it became or not, depending on what was visited before. `SimplifyExact` is about the rest. `SimplifyRuns`
  needs no such restriction.
* An `Order` is the order in which an unordered map lists what was put into it, which the source leaves to the library.
* Where a function returns an `Option`, None stands for a failing assertion or an access out of bounds in the source. When
  that happens is stated as a condition on the input: `CreateExact`, `FoldExact`, `SimplifyExact`, `Discover`.

## Findings

What the code does not do, with an input and the exact condition for each:

* `createDisjunction` reads an iterator after erasing it. `PassAsWrittenExact`, `TraceExact` and `AsWrittenExact` say that it
  does what is intended, turn by turn, exactly if no larger conjunction shrinks to one conjunct; `AsWrittenDiffers` gives a
  disjunction for which it returns an expression of another value.
* `createDisjunction` fails an assertion if the common conjuncts take all of a conjunction, or erases out of bounds if one
  is repeated (`CreateExact`, `PlainExact`, `ConsumedFails`).
* A path that is all common prefix and suffix is dropped from a guard if another path is longer (`GuardExact`,
  `ShortPathDropped`). If a path is shorter than prefix and suffix together, the source copies a range of negative length
  (`FoldExact`, `ShortPathOverlaps`, `NoGuardForShortPath`).
* The comparison of expressions ignores the operator of a chain, and the operand of a chain of one literal (`NotSound`,
  `SingleOperandIgnored`), and it compares variables by type and prefix. Neighbouring `if`s on `a < b` and `a >= b` are
  merged and both run (`OperatorsMergeWrongly`). `MergeExact` says when merging is right, `MergeByCode` gives operators, reads and
  writes under which it is.
* The nested combiner overwrites the position of a loop's condition (`StructurizeExact`). It does no harm the first time
  (`OneNestedPass`), but in the order in which the program runs its passes,
  `while (true) { if (a) break; X; if (b) break; }` becomes `do { X } while (!a && !b)` (`PipelineOnTwoExits`,
  `PipelineRunsSkippedStatement`).
* Simplifying a chain of neutral literals leaves no term and fails an assertion, and so does visiting again a chain whose
  operands have become neutral literals, such as `true && (a || !a)` (`SimplifyExact`, `NothingLeft`, `NothingLeftAgain`,
  `TautologiesFail`). Whatever is shared and in whatever order it is visited, it takes a conjunction that always holds or a
  disjunction that never does for this to happen, if only booleans are negated (`FailsOnlyOnNeutral`, `NothingFails`, `SampleFails`).
* Negating a bitwise `and` flips it to an `xor`, because `ComparisonMax` is `BitwiseAnd` (`FlipExact`), and a double negation
  is dropped even if the inner expression is not 0 or 1 (`DoubleNegationExact`).
* The edges of a conditional branch whose two successors are the same block get the branch condition (`BranchConditionExact`).
* Dispatch assignments are unconditional, so that the last one in a block wins (`RedirectExact`, `FirstGoesAstray`).
* Assigning to a statement list detaches only the first old statement, and assigning a list to itself loses it
  (`AssignExact`, `MoveAssign`).
* `allocateLarge` passes size and space to `std::align` in the wrong order (`AlignExact`).
* The reciprocal guard lets through a wrong multiplier for one-bit operands (`OneBitExact`), does not look at the width of
  the multiplication (`WidthExact`), and accepts fix-up forms with a shift of 2 that do not divide (`LargerFixupFails`). Those
  that do are the ones that are right on the multiples of the divisor (`FixupExact`).
* A user entry point that is already in the list may end the discovery of functions early (`FullExact`, `DuplicateStops`).
* The declarator printer writes `bool` for one-bit integers of either sign (`RoundTripExact`). fcd makes signed integer types
  for the results of sign extensions only (fcd/ast/ast_context.cpp:433-436), which have more than one bit.

## Model

| member | source | states |
|---|---|---|
| Backend.BackendCorrect | fcd/ast/pass_backend.cpp:357-522 | folding a region, with or without a loop, and then running the two combiners any number of times in any order gives code that means what walking the graph means, divergence included, as long as no loop loses its condition's position |
| Backend.FirstHalfCorrect | fcd/main.cpp:283-287 | for what foldBasicBlocks returns, which exists where all guards can be built, no hypothesis about loops is needed while the nested combiner runs once |
| Backend.FirstHalfAsWritten | fcd/main.cpp:283-287 | the same with createDisjunction as written, where nothing shrinks to one conjunct in it |
| Backend.CountingCompiled | fcd/ast/pass_backend.cpp:357-522 | a counting loop with a phi variable comes out as code that counts like its graph, whatever the limit and the passes |
| Backend.CountingCode | fcd/ast/pass_backend.cpp:357-522 | that code is the header, its break, and the other block under the condition that leads to it, in a `while (true)` |
| TrueLoops.OneNestedPass | fcd/ast/pass_nestedcombiner.cpp:166-167 | over loops on the literal `true` one nested pass, among any number of consecutive ones, loses no condition's position |
| TrueLoops.OptimizeOnTrue | fcd/ast/pass_consecutivecombine.cpp:64-180 | the consecutive combiner keeps all loops on the literal `true` |
| TrueLoops.FoldOnTrue | fcd/ast/pass_backend.cpp:517-520 | folding makes only loops on the literal `true`, so that its results can be folded again |
| Backend.FoldStable | fcd/ast/pass_backend.cpp:498-511 | no branch of the folded code changes the condition it is under, so the combiners may be run on it |
| Backend.TerminatorsDecide | fcd/ast/pre_ast_cfg.cpp:129-198 | edges with the conditions of their terminators are exclusive, and one of them is always taken, to the terminator's target |
| Backend.CountingFoldable | fcd/ast/pass_backend.cpp:357-522 | a counting loop with a phi variable satisfies every hypothesis of the main theorem, whatever the limit |
| RegionReduction.FunctionCorrect | fcd/ast/pass_backend.cpp:691-808 | folding the regions of a function one after the other, then what is left, and running the combiners gives code that means what walking the function's graph means, divergence included; states are spoken of at the start only, and of each region only its shape is supposed |
| RegionReduction.FunctionFirstHalf | fcd/main.cpp:283-287 | with one nested pass no hypothesis about loops is left |
| RegionReduction.ReducedCorrect | fcd/ast/pass_backend.cpp:778-808 | any number of regions folded in turn keep what walking the graph means |
| RegionReduction.CollapseCorrect | fcd/ast/pass_backend.cpp:730-768 | with a region's entry holding its folded code and one edge to the exit, and the other blocks gone, walking the graph from there and from every block outside means what it meant |
| RegionReduction.CollapseSane | fcd/ast/pass_backend.cpp:730-768 | edges are as exclusive as before, no block disturbs the conditions of those before it, and none leaves the graph |
| RegionReduction.CutSane | fcd/ast/pass_backend.cpp:341-355 | so they are within a region |
| RegionReduction.CountingFunctionCompiled | fcd/ast/pass_backend.cpp:691-808 | a function that counts and returns comes out as code that does the same, after its loop and then the rest have been folded |
| RegionShape.CollapseListed | fcd/ast/pass_backend.cpp:730-764 | in the graph with a region replaced, every edge is listed at both its ends, and no edge of the region is left |
| RegionShape.CollapseShaped | fcd/ast/pass_backend.cpp:730-768 | if the blocks around the region are in order, each reached from one before it, the graph with the region replaced has the shape that folding asks for |
| StructurizerCorrect.FoldAcyclicCorrect | fcd/ast/pass_backend.cpp:415-515 | the guarded sequence of a region without back edges runs exactly the blocks of the walk, in its order, and ends as it does |
| StructurizerCorrect.FoldLoopCorrect | fcd/ast/pass_backend.cpp:364-413 | a `while (true)` over the guarded blocks with conditional breaks means what walking the graph with its back edges means, and diverges exactly if the walk does |
| StructurizerCorrect.SequenceMeaning | fcd/ast/pass_backend.cpp:415-515 | one pass over the guarded blocks is one trip through the region |
| StructurizerCorrect.AddBreaksMeaning | fcd/ast/pass_backend.cpp:401-412 | a block with its breaks breaks exactly if it falls through to a state where one of its exit edges is taken |
| StructurizerCorrect.GuardedMeaning | fcd/ast/pass_backend.cpp:458-512 | a guarded block runs exactly if the block is unconditional or one of its paths holds |
| Structurizer.FoldBasicBlocks | fcd/ast/pass_backend.cpp:357-522 | the loops of foldBasicBlocks compute the fold that the other rows are about |
| Structurizer.FoldIsFold | fcd/ast/pass_backend.cpp:357-522 | that fold is the guarded blocks in order, in a loop with breaks if there is a back edge |
| FoldForm.FoldForm | fcd/ast/pass_backend.cpp:357-522 | read off the region alone: the blocks in order, each under a guard for the ways to it, inside a `while (true)` exactly if edges of the region form a cycle, and then with the breaks of the exits that leave it |
| FoldForm.LoopExact | fcd/ast/pass_backend.cpp:364-383 | a region has a back edge exactly if its blocks form a cycle |
| FoldForm.BreaksExact | fcd/ast/pass_backend.cpp:401-412 | every block ends with the breaks of the exits that leave it, in order, a bare `break` where the condition is `true` |
| Structurizer.FoldExact | fcd/ast/pass_backend.cpp:481-503 | it exists exactly if no path to a block is too short for its prefix and suffix and the middles can be joined |
| Structurizer.NoGuardForShortPath | fcd/ast/pass_backend.cpp:481-490 | it does not for a block that is reached over a, b, a and over a |
| Structurizer.FoldAsWritten | fcd/ast/pass_backend.cpp:501-501 | with createDisjunction as written it is the same, where nothing shrinks to one conjunct |
| Structurizer.GuardBlocks | fcd/ast/pass_backend.cpp:416-515 | each block is guarded by the paths that the blocks visited before it give |
| Structurizer.JoinPredecessors | fcd/ast/pass_backend.cpp:422-456 | the paths to a block are those of its visited predecessors, each with the edge's condition unless that is `true` |
| FoldForm.PathsExact | fcd/ast/pass_backend.cpp:416-456 | the paths to a block are exactly the conditions, those of always taken edges left out, along the ways to it from a block to which there is no way |
| FoldForm.NoWay | fcd/ast/pass_backend.cpp:435-443 | a block is unconditional exactly if there is no such way |
| FoldExamples.TwoCasesPaths | fcd/ast/pre_ast_cfg.cpp:117-127 | of two edges between two blocks each counts, even over the same condition |
| Structurizer.GuardIsGuarded | fcd/ast/pass_backend.cpp:458-512 | the nested `if`s are the common prefix, the common suffix and a disjunction equivalent to the middles |
| Structurizer.BuildGuard | fcd/ast/pass_backend.cpp:458-512 | the loops that find prefix and suffix, collect middles and nest `if`s compute that guard |
| Structurizer.OnePathGuard | fcd/ast/pass_backend.cpp:474-481 | if all paths are the same, the guard is the nested `if`s on that path and nothing else |
| FoldExamples.TwoPathsGuard | fcd/ast/pass_backend.cpp:484-503 | over two paths a and b it is one `if` on (b or a) |
| Structurizer.FindBackEdge | fcd/ast/pass_backend.cpp:364-383 | a region is a loop exactly if some block has an edge to itself or to a block before it |
| Structurizer.AppendBreaks | fcd/ast/pass_backend.cpp:401-412 | every edge into the exit that leaves a block of the region adds its break to that block |
| ReachingConditions.ReachedStep | fcd/ast/pass_backend.cpp:418-456 | a block's paths hold exactly if it is the entry or a forward edge is taken from a block whose paths hold; blocks with no paths are those always reached |
| ReachingConditions.UnconditionalPrefix | fcd/ast/pass_backend.cpp:435-443 | before an unconditional block all blocks are unconditional and lead to the next one only |
| PathGuards.GuardExact | fcd/ast/pass_backend.cpp:461-511 | the guard agrees with "some path holds" exactly if no path or every path has a middle, or a common condition fails, or some middle holds |
| PathGuards.CommonLengths | fcd/ast/pass_backend.cpp:461-481 | prefix and suffix are the longest stretches on which all paths agree, but the suffix is empty where the prefix is all of the first path |
| PathGuards.TermsSnoc | fcd/ast/pass_backend.cpp:484-494 | the middles are those of the paths that have one, in order |
| PathGuards.ShortPathDropped | fcd/ast/pass_backend.cpp:484-494 | of the paths a and (a and b) the guard keeps only the second |
| PathGuards.ShortPathOverlaps | fcd/ast/pass_backend.cpp:461-490 | on the paths (a and b and a) and a the prefix is a and the suffix is a, which the second path is too short for |
| PathGuards.PathSplits | fcd/ast/pass_backend.cpp:461-478 | every path is the common prefix, its own middle and the common suffix, up to the truth of each condition |
| Disjunction.CreateCorrect | fcd/ast/pass_backend.cpp:149-267 | with the index captured, the result is equivalent to the disjunction of the terms under every valuation |
| Disjunction.CreateDisjunction | fcd/ast/pass_backend.cpp:149-267 | the loops and the recursion end, and compute the expression that the other rows are about |
| DisjunctionForm.CreateForm | fcd/ast/pass_backend.cpp:149-267 | terms without repeated conjuncts: as they are if none is a single conjunct; else the disjuncts of what is left of each, no larger one with the opposite of a single one; and if all larger ones then share a conjunct, the shared ones once, with the disjunction of the rests, before the single ones |
| DisjunctionForm.DecidedDropped | fcd/ast/pass_backend.cpp:184-210 | !a or (a and b) becomes !a or b |
| Disjunction.AbsorbCorrect | fcd/ast/pass_backend.cpp:182-210 | the work loop uses every single-conjunct disjunct, those it makes itself included, and keeps the value of the disjunction |
| Disjunction.AbsorbUnits | fcd/ast/pass_backend.cpp:184-210 | the loop as it runs ends and computes that |
| Disjunction.RunPass | fcd/ast/pass_backend.cpp:186-208 | one turn drops the opposite of a disjunct from each larger conjunction and moves those that shrink to one conjunct |
| DisjunctionForm.AbsorbedTerms | fcd/ast/pass_backend.cpp:182-210 | after the loop no larger conjunction contains the opposite of a single-conjunct disjunct, those included that the loop made |
| DisjunctionForm.OppositesExact | fcd/ast/pass_backend.cpp:111-124 | opposites are an expression and its negation |
| DisjunctionForm.ReducedExact | fcd/ast/pass_backend.cpp:193-198 | exactly the opposite of the disjunct goes from a conjunction |
| Disjunction.CommonsExact | fcd/ast/pass_backend.cpp:214-233 | exactly the conjuncts that occur as often as there are conjunctions are taken as common, each once |
| Disjunction.CommonConjuncts | fcd/ast/pass_backend.cpp:214-233 | the counting loops compute them |
| DisjunctionForm.SharedExact | fcd/ast/pass_backend.cpp:214-233 | without repeated conjuncts exactly those in all conjunctions are common |
| DisjunctionForm.FactorsExact | fcd/ast/pass_backend.cpp:212-235 | there is something to factor exactly if two larger conjunctions or more are left and share a conjunct |
| DisjunctionForm.TakeOutLeaves | fcd/ast/pass_backend.cpp:241-245 | what is left of a conjunction is what is not common, each conjunct as often as before |
| Disjunction.FactoredValue | fcd/ast/pass_backend.cpp:235-257 | the larger conjunctions together are the common conjuncts and the disjunction of what is left |
| DisjunctionExact.CreateExact | fcd/ast/pass_backend.cpp:235-257 | no assertion fails exactly if there are terms, none empty, and at every depth of factoring each common conjunct occurs exactly once in each larger conjunction and is not all of it |
| DisjunctionExact.PlainExact | fcd/ast/pass_backend.cpp:235-257 | without repeated or nested conjuncts exactly if no larger conjunction consists of common conjuncts only |
| DisjunctionExact.SharesNothingSuffices | fcd/ast/pass_backend.cpp:226-235 | terms that share no conjunct always give an expression |
| Disjunction.PassAsWrittenExact | fcd/ast/pass_backend.cpp:199-205 | reading the iterator after the erase is harmless in one turn exactly if no conjunction shrinks to one conjunct |
| DisjunctionAsWritten.TraceExact | fcd/ast/pass_backend.cpp:184-210 | the work loop as written goes through the intended work lists exactly if the initial single-conjunct disjuncts leave more than one conjunct of every larger conjunction |
| DisjunctionAsWritten.AsWrittenExact | fcd/ast/pass_backend.cpp:149-267 | so do all calls of createDisjunction exactly if that holds in each of them |
| DisjunctionAsWritten.AsWrittenCorrect | fcd/ast/pass_backend.cpp:149-267 | then createDisjunction as written is equivalent to the disjunction of its terms |
| DisjunctionExamples.FactorsShared | fcd/ast/pass_backend.cpp:235-257 | d or (a and b) or (a and c) becomes (a and (b or c)) or d |
| DisjunctionExamples.ConsumedFails | fcd/ast/pass_backend.cpp:241-245 | for a or (not a and b and c) or (b and c and d) an assertion fails |
| DisjunctionExamples.AsWrittenLosesConjunct | fcd/ast/pass_backend.cpp:202-203 | for a or (not a and b) or (c and d) or (not c and e and f) the code as written returns a or b or (c and d) or (e and f) |
| DisjunctionExamples.AsWrittenDiffers | fcd/ast/pass_backend.cpp:202-203 | there are terms and a valuation for which the expression it returns holds and no term does |
| ConsecutiveCombiner.OptimizeSequenceCorrect | fcd/ast/pass_consecutivecombine.cpp:64-115 | merging neighbouring `if`s on equal or opposite conditions, at every depth, keeps the meaning, break and return included, and keeps the trees stable |
| ConsecutiveCombiner.MergeTwo | fcd/ast/pass_consecutivecombine.cpp:79-109 | two `if`s on equal or opposite conditions mean the merged one when the first leaves its condition alone |
| ConsecutiveCombiner.OppositeExact | fcd/ast/pass_consecutivecombine.cpp:36-62 | conditions are opposite exactly if they are equal under numbers of negations that add up to an odd one |
| ConsecutiveCombiner.MergeLeavesNone | fcd/ast/pass_consecutivecombine.cpp:64-115 | no two neighbouring `if`s on equal or opposite conditions are left |
| ConsecutiveCombiner.OptimizeTidy | fcd/ast/pass_consecutivecombine.cpp:117-180 | at every depth of the result no `if` has an empty first branch, chooses by a literal alone or has two branches under an odd number of negations, and no `do` loop is a guarded one |
| ConsecutiveCombiner.CombinedInside | fcd/ast/pass_consecutivecombine.cpp:117-180 | what is inside an `if` or a loop is combined as it would be alone |
| CodeEquality.MergeExact | fcd/ast/pass_consecutivecombine.cpp:79-109 | by any comparison, merging two `if`s is right exactly if after the first one the second condition still chooses the branch that was merged, or one that means the same there |
| CodeEquality.NotSound | fcd/ast/expressions.cpp:47-84 | the comparison of the code identifies conditions of different truth value |
| CodeEquality.SingleOperandIgnored | fcd/ast/expressions.cpp:52-81 | chains of one literal or number are equal whatever it is |
| CodeEquality.EqualExact | fcd/ast/expressions.cpp:47-84 | without chains of one operand, two expressions are equal exactly if part by part they differ in nothing but the operators of chains |
| CodeEquality.SameOperatorsSound | fcd/ast/expressions.cpp:47-84 | between expressions with the same operators in the same places and no chains of one operand it identifies only equal values |
| CodeEquality.MergeByCode | fcd/ast/pass_consecutivecombine.cpp:79-109 | merging by the code's comparison is right if the two conditions have the same operators under their negations and the branches of the first `if` write nothing that the condition of the second reads |
| CodeEquality.OperatorsMergeWrongly | fcd/ast/pass_consecutivecombine.cpp:81-94 | two `if`s on a comparison and its opposite are merged by it, and the meaning changes |
| CodeEquality.ChangedConditionMergesWrongly | fcd/ast/pass_consecutivecombine.cpp:81-94 | two `if`s on one condition that the first one changes are merged, and the meaning changes |
| ConsecutiveCombiner.RebuildIfCorrect | fcd/ast/pass_consecutivecombine.cpp:117-161 | removing empty branches and literal conditions and preferring the positive form keeps the meaning |
| ConsecutiveCombiner.RebuildLoopCorrect | fcd/ast/pass_consecutivecombine.cpp:163-180 | `do { if (c) A } while (c)` means `while (c) A` |
| ConsecutiveCombiner.CountNegationDepth | fcd/ast/pass_consecutivecombine.cpp:36-45 | the expression under all negations has the same truth, flipped if their number is odd |
| ConsecutiveCombiner.CombineSequence | fcd/ast/pass_consecutivecombine.cpp:64-115 | the loop over the list computes the function that the meaning theorem is about |
| NestedCombiner.NestedCorrect | fcd/ast/pass_nestedcombiner.cpp:180-218 | joining nested `if`s and giving loops the conditions of their breaks keeps the meaning, if every restructured loop keeps its condition in position |
| NestedCombiner.StructurizeExact | fcd/ast/pass_nestedcombiner.cpp:109-172 | restructuring a loop keeps its meaning exactly if its condition is `true` or stays in position, or else entering the post-tested form with that condition false does nothing |
| NestedCombiner.FlattenIfCorrect | fcd/ast/pass_nestedcombiner.cpp:187-208 | `if (a) { if (b) X }` means `if (a && b) X` |
| NestedCombiner.MemoryExact | fcd/ast/pass_nestedcombiner.cpp:22-75 | a condition touches memory exactly if some part of it, however deep, is a load or an assignment |
| NestedCombiner.JoinExact | fcd/ast/pass_nestedcombiner.cpp:187-208 | two nested `if`s are joined exactly if neither has an `else`, the inner one is alone and its condition does not touch memory |
| NestedCombiner.NestedClean | fcd/ast/pass_nestedcombiner.cpp:191-206 | after a run no `if` has a condition of the joined form whose second part touches memory, if none had before |
| NestedForm.NestedWorks | fcd/ast/pass_nestedcombiner.cpp:109-208 | at every depth of the result no `if` could be joined with the one in it, and no loop that begins with a conditional break, or ends with one and does not begin with an `if`, is without a pair of conditions; the one exception is the `if` that a break at the end of a loop leaves there |
| NestedCombiner.FrontBreak | fcd/ast/pass_nestedcombiner.cpp:109-172 | a break at the front goes into the condition, which is tested first |
| NestedCombiner.BackBreak | fcd/ast/pass_nestedcombiner.cpp:109-172 | a break at the end goes into the condition, which is tested last |
| NestedCombiner.OtherLoops | fcd/ast/pass_nestedcombiner.cpp:109-172 | loops that break neither first nor last stay as they are |
| NestedCombiner.CombineNested | fcd/ast/pass_nestedcombiner.cpp:180-218 | the visitor computes the function that the meaning theorem is about |
| CombinerPipeline.PassesPreserveMeaning | fcd/ast/pass_nestedcombiner.cpp:109-218 | the combiners in any order and number keep the meaning of stable trees while loops keep their conditions in position |
| CombinerPipeline.PassesPreserveUnwritten | fcd/ast/pass_consecutivecombine.cpp:64-180 | the same for trees in which no `if` body writes a variable that its condition reads |
| CombinerPipeline.NoSelfWriteExact | fcd/ast/pass_consecutivecombine.cpp:64-180 | that is so exactly if for every `if` at any depth no variable of a leaf anywhere in its condition is written in its branches |
| CombinerPipeline.PipelineOnTwoExits | fcd/main.cpp:283-292 | the program's own pass order turns a loop with a break at either end into a `do` loop |
| CombinerPipeline.PipelineRunsSkippedStatement | fcd/main.cpp:283-292 | that changes the meaning: the original leaves at once where the result runs the body |
| SimplifyRuns.RunKeeps | fcd/ast/pass_simplifyexpressions.cpp:149-215 | after any sequence of what the visitor does to expressions, uses redirected one at a time and dropped expressions included, with any sharing and in any order of first and further visits, what a statement refers to has the value it had, in every state, if only boolean expressions other than a bitwise `and` of two are negated |
| SimplifyRuns.FailsOnlyOnNeutral | fcd/ast/pass_simplifyexpressions.cpp:118-140 | whenever the assertion fails, some conjunction at the start held always or some disjunction never, with the same proviso |
| SimplifyRuns.NothingFails | fcd/ast/pass_simplifyexpressions.cpp:118-140 | it never fails if every conjunction can fail and every disjunction can hold |
| SimplifyRuns.RunsGoOn | fcd/ast/pass_simplifyexpressions.cpp:149-215 | each step leads to expressions without cycles or dangling operands, from which the visitor can go on |
| SimplifyRuns.DecidedOperandFails | fcd/ast/pass_simplifyexpressions.cpp:194-211 | a conjunction of `true` and a disjunction that is decided fails once the disjunction has been replaced |
| SimplifyRuns.SampleFails | fcd/ast/pass_simplifyexpressions.cpp:194-211 | in memory, `true && (a or !a)` is one |
| SharedSteps.ChainExact | fcd/ast/pass_simplifyexpressions.cpp:52-141 | where equal expressions have one address, a chain in memory is decided, rebuilt, or fails exactly if the simplifier on trees returns a literal, a chain, or nothing |
| SharedSteps.RebuildStep | fcd/ast/pass_simplifyexpressions.cpp:118-141 | the chain that is built stands for the one that the simplifier on trees returns |
| SharedSteps.NegationExact | fcd/ast/pass_simplifyexpressions.cpp:154-170 | a negation is taken away exactly if it is one of a negation or of two operands with an operator from the comparisons to the bitwise `and` |
| SharedSteps.NegationStep | fcd/ast/pass_simplifyexpressions.cpp:154-170 | what replaces it stands for what the simplifier on trees puts there |
| SharedSteps.DropsUnused | fcd/ast/expression_user.cpp:55-68 | after every run the visitor can drop expressions until all that are left are used |
| SimplifyPasses.SimplifyTreeCorrect | fcd/ast/pass_simplifyexpressions.cpp:296-342 | simplifying all conditions and returned values keeps the meaning of a statement tree, and keeps it stable and fit |
| SimplifyPasses.SimplifyTreeExact | fcd/ast/pass_simplifyexpressions.cpp:296-342 | it gives a tree exactly if every condition can be simplified |
| SimplifyPasses.SimplifyTreeForm | fcd/ast/pass_simplifyexpressions.cpp:296-342 | every condition and returned value is simplified in its place and nothing else changes |
| SimplifyPasses.StepsPreserveMeaning | fcd/main.cpp:283-292 | the combiners and the simplifier in any order and number keep the meaning while loops keep their conditions in position |
| SimplifyExact.SimplifyCorrect | fcd/ast/pass_simplifyexpressions.cpp:149-215 | wherever a term of every chain is left, the second time too, the simplified expression exists and has the same value in every state, if only boolean expressions other than a bitwise `and` of two are negated |
| SimplifyExact.SimplifyExact | fcd/ast/pass_simplifyexpressions.cpp:140-211 | it exists exactly if every chain that is looked at is decided at once or has an operand that is not a neutral literal and, if it is visited again, one that is neither that nor decided; a chain becomes a literal exactly if it is decided at once |
| SimplifyExact.NothingLeftAgain | fcd/ast/pass_simplifyexpressions.cpp:194-211 | `true && (a or !a)` leaves a term the first time and none the second |
| SimplifyExact.TautologiesFail | fcd/ast/pass_simplifyexpressions.cpp:194-211 | so does `(a or !a) && (b or !b)` |
| SimplifyExact.TautologyDropped | fcd/ast/pass_simplifyexpressions.cpp:194-211 | `b && (a or !a)` loses its second operand |
| SimplifyExact.RemoveIdenticalExact | fcd/ast/pass_simplifyexpressions.cpp:75-141 | a term of a chain is left exactly if some operand, under its negations, is not a neutral literal |
| SimplifyExact.NothingLeft | fcd/ast/pass_simplifyexpressions.cpp:118-140 | of true and true no term is left |
| SimplifyExact.SwitchEdgeSimplifiable | fcd/ast/pre_ast_cfg.cpp:155-178 | the conditions of switch edges, which begin with a literal, can be simplified |
| SimplifyExpressions.SimplifyKeeps | fcd/ast/pass_simplifyexpressions.cpp:149-215 | simplifying, with chains visited again after an operand was decided, keeps values, keeps expressions boolean and negates no bitwise `and` |
| SimplifyExpressions.RemoveIdenticalCorrect | fcd/ast/pass_simplifyexpressions.cpp:52-141 | flattening a chain, removing repeated and neutral terms and deciding tautologies and contradictions keeps its value |
| SimplifyExpressions.FlipExact | fcd/ast/pass_simplifyexpressions.cpp:161-170 | flipping the lowest bit of a negated operator is right exactly for the six comparisons |
| SimplifyForm.SimplifiedForm | fcd/ast/pass_simplifyexpressions.cpp:149-181 | no simplified expression contains, however deep, the negation of a negation, of a two-operand comparison, or of a two-operand bitwise `and` |
| SimplifyForm.NegatedComparison | fcd/ast/pass_simplifyexpressions.cpp:161-170 | the negation of two leaves compared has the operator next to it in the enumeration |
| SimplifyForm.ChainForm | fcd/ast/pass_simplifyexpressions.cpp:75-141 | a chain that is not decided keeps exactly the terms that are no literals, each once |
| SimplifyForm.TermsInOrder | fcd/ast/pass_simplifyexpressions.cpp:118-141 | negated terms come first, and both kinds in the order of their first occurrence |
| SimplifyExpressions.DoubleNegationExact | fcd/ast/pass_simplifyexpressions.cpp:156-160 | dropping a double negation is right in every state exactly if the inner expression is boolean |
| SimplifyExpressions.CollectTerms | fcd/ast/pass_simplifyexpressions.cpp:52-73 | the recursive loop collects the terms that the value theorem is about |
| SimplifyExpressions.RemoveIdenticalTerms | fcd/ast/pass_simplifyexpressions.cpp:75-141 | the loops compute the chain that the value theorem is about, or fail where no term is left |
| SimplifyExpressions.Visit | fcd/ast/pass_simplifyexpressions.cpp:149-215 | the visitor, which visits a chain again after an operand of it was decided, computes the function that the value theorem is about |
| Expressions.Negate | fcd/ast/ast_context.cpp:679-700 | the result holds exactly where the argument does not |
| Expressions.NegateTwice | fcd/ast/ast_context.cpp:679-700 | negating twice gives the expression back exactly if it is no negation of a negation or of a literal |
| BranchConditions.EdgeCondition | fcd/ast/pre_ast_cfg.cpp:129-192 | the condition on an edge holds exactly when the terminator goes there, but for branches with equal successors |
| BranchConditions.SwitchCondition | fcd/ast/pre_ast_cfg.cpp:153-188 | the condition built from cases and default holds exactly when the switch goes to the block |
| BranchConditions.BranchConditionExact | fcd/ast/pre_ast_cfg.cpp:135-147 | with equal successors the condition is right only while the branch condition holds |
| BranchConditions.SuccessorsExact | fcd/ast/pre_ast_cfg.cpp:129-192 | a block is a successor exactly if control goes there for some value of what is tested |
| PhiNodes.PathsAgree | fcd/ast/pre_ast_cfg.cpp:105-127 | along every path of any length the copies compute what simultaneous assignment of the phi nodes computes, swaps and writes for successors not taken included |
| PhiNodes.CopiesAreSimultaneous | fcd/ast/ast_context.cpp:651-658 | copying `phi_in` variables one by one is taking all new values at once |
| PhiNodes.BlockAgrees | fcd/ast/pre_ast_cfg.cpp:115-127 | a block's statements run its instructions on the phi values and leave the values for every successor |
| PhiNodes.GenerateStatements | fcd/ast/pre_ast_cfg.cpp:96-127 | each block gets its copies, then its instructions, then the writes for its successors |
| EdgeRedirection.RedirectExact | fcd/ast/pre_ast_cfg.cpp:222-224 | every redirected edge still leads only to its target exactly if no block has redirected edges to two targets |
| EdgeRedirection.FirstGoesAstray | fcd/ast/pre_ast_cfg.cpp:222-224 | of two redirected edges of one block to two targets both lead to the second target |
| EdgeRedirection.DetourFollows | fcd/ast/pre_ast_cfg.cpp:202-227 | every path of the old graph is a path of the new one with the new block on redirected edges |
| EdgeRedirection.FollowsDetour | fcd/ast/pre_ast_cfg.cpp:202-227 | every path of the new graph between old blocks is an old path with its detours |
| EdgeRedirection.DetourBack | fcd/ast/pre_ast_cfg.cpp:202-227 | leaving the detours out gives back the path, so that paths correspond one to one |
| EdgeRedirection.DetourEvents | fcd/ast/pre_ast_cfg.cpp:202-227 | the program's statements and choices along a path are the same with its detours |
| PreAstGraph.Graph.CreateRedirectorBlock | fcd/ast/pre_ast_cfg.cpp:202-227 | the loop leads the listed edges through one new block, numbers targets in order of first appearance, and keeps each edge listed once at each end |
| PreAstGraph.Graph.SetTo | fcd/ast/pre_ast_cfg.cpp:37-51 | the edge moves to the end of the new target's predecessors; every edge is still listed once at each end |
| PreAstGraph.Graph.Swap | fcd/ast/pre_ast_cfg.cpp:79-84 | swapping two blocks exchanges their places in the graph, edges between them and loops at them included |
| PreAstGraph.Graph.MoveAssign | fcd/ast/pre_ast_cfg.cpp:59-77 | contents change places, and the edges taken over refer to the new block |
| PreAstGraph.Graph.AddEdge | fcd/ast/pre_ast_cfg.cpp:194-197 | a new edge is listed at both ends and changes nothing else |
| PreAstGraph.Graph.EndsListed | fcd/ast/pre_ast_cfg.cpp:37-77 | the lists of a block hold exactly the edges that start and end there |
| Uses.Context.SetUse | fcd/ast/expression_use.cpp:93-117 | only this slot changes its target; it leaves its old list and becomes first in the new one; all lists stay consistent and no tag changes |
| Uses.Context.ReplaceAllUsesWith | fcd/ast/expressions.cpp:96-107 | every use of the expression, and no other, moves to the target, and none is lost |
| Uses.Context.DropAllReferences | fcd/ast/expression_user.cpp:55-68 | the cascade ends; operands are cleared, every expression that lost its last use has no operands left, and no other slot changes |
| Uses.Context.Reset | fcd/ast/expression_user.cpp:183-192 | the reference holds the new expression, and the old one is dropped if that was its last use |
| Uses.Context.UsesSize | fcd/ast/expressions.cpp:86-94 | the walk counts the slots that refer to the expression |
| Uses.Context.Known | fcd/ast/expression_use.cpp:16-34 | an expression's list holds exactly the slots that refer to it, each once |
| Uses.Context.Unused | fcd/ast/expression_user.cpp:62-65 | an expression has no first use exactly if nothing refers to it |
| Uses.UnlinkedConsistent | fcd/ast/expression_use.cpp:100-102 | linking the neighbours takes a slot out of its list and keeps all others |
| Uses.PushedConsistent | fcd/ast/expression_use.cpp:104-116 | the remaining writes put the slot first in the list of its target and keep all others |
| Waymarks.PrepareUses | fcd/ast/ast_context.cpp:534-555 | the slots get the tags of their distances to the end |
| Waymarks.WalkWay | fcd/ast/expression_use.cpp:36-47 | the walk ends at the next stop, having read the distance encoded before it, in at most one step more than the digits of the length |
| Waymarks.WalkToEndOfArray | fcd/ast/expression_use.cpp:49-91 | from every slot of an array of every size the walk ends just after the last slot, in a logarithmic number of steps |
| Waymarks.BitLengthIsLogarithm | fcd/ast/expression_use.cpp:36-47 | the bound on the steps is the logarithm of the size |
| Waymarks.DigitsAfterStop | fcd/ast/ast_context.cpp:538-555 | a stop is followed by exactly the binary digits of its distance |
| Waymarks.Run | fcd/ast/expression_use.cpp:93-117 | any run of changes to use lists keeps them consistent and keeps all tags |
| StatementLists.Arena.Insert | fcd/ast/statements.cpp:102-137 | a detached statement enters the list before the location or at the end; all lists stay linked both ways with the right owners |
| StatementLists.Arena.InsertAll | fcd/ast/statements.cpp:139-147 | all statements of a list are inserted in order before the location, and that list is empty |
| StatementLists.Arena.PushFrontAll | fcd/ast/statements.cpp:166-173 | the other list's statements come first, in order, and that list is empty |
| StatementLists.Arena.PushBackAll | fcd/ast/statements.cpp:192-199 | the other list's statements come last, in order, and that list is empty |
| StatementLists.Arena.PushFront | fcd/ast/statements.cpp:149-164 | the statement becomes the first one |
| StatementLists.Arena.PushBack | fcd/ast/statements.cpp:175-190 | the statement becomes the last one |
| StatementLists.Arena.PopFront | fcd/ast/statements.cpp:43-53 | the first statement is returned, detached, and the rest stay |
| StatementLists.Arena.PopBack | fcd/ast/statements.cpp:55-65 | the last statement is returned, detached, and the rest stay |
| StatementLists.Arena.Erase | fcd/ast/statements.cpp:201-223 | the statement is detached and its list keeps the others in order; a detached statement stays as it is |
| StatementLists.Arena.Clear | fcd/ast/statements.cpp:225-238 | the list is empty and all its statements are detached |
| StatementLists.Arena.MoveConstruct | fcd/ast/statements.cpp:20-32 | a new list takes over all statements in order |
| StatementLists.Arena.MoveAssign | fcd/ast/statements.cpp:67-90 | the statements are handed over; the lists are consistent afterwards exactly if at most one statement was to be given up |
| StatementLists.AssignExact | fcd/ast/statements.cpp:67-90 | with two statements or more to give up, one is left that refers to a list it is not in |
| StatementLists.InsertConsistent | fcd/ast/statements.cpp:102-137 | inserting a detached statement anywhere keeps every list consistent |
| StatementLists.RemoveConsistent | fcd/ast/statements.cpp:209-223 | taking a statement out anywhere keeps every list consistent |
| StatementLists.Disjoint | fcd/ast/statements.cpp:136-136 | no statement is in two lists |
| DumbAllocator.Allocator.Run | fcd/dumb_allocator.h:40-80 | any sequence of requests gets ranges in bounds, apart from each other and from all earlier ones, aligned if small, and null exactly where refused |
| DumbAllocator.Allocator.AllocateSmall | fcd/dumb_allocator.h:40-61 | the object is carved aligned off the last chunk, or off a new one if it does not fit; no assertion fails if size and alignment fit a chunk |
| DumbAllocator.Allocator.AllocateLarge | fcd/dumb_allocator.h:63-80 | the object gets a chunk of its own and starts where the chunk does; null for size 0, alignment 0 or overflow |
| DumbAllocator.FitsExact | fcd/dumb_allocator.h:52-54 | the assertion on a fresh chunk holds wherever the chunk lies exactly if size + alignment - 1 is at most the chunk size |
| DumbAllocator.HighestPlace | fcd/dumb_allocator.h:43-46 | the place taken is the highest aligned one, so that a new chunk is needed only if the old one has no aligned place left |
| DumbAllocator.MaskIsRemainder | fcd/dumb_allocator.h:44-44 | masking with a power of two less one is the remainder |
| DumbAllocator.AlignExact | fcd/dumb_allocator.h:76-79 | with size and space swapped the pointer stays, which is the intended result exactly if it was aligned already |
| DumbAllocator.AlignIntended | fcd/dumb_allocator.h:76-79 | in the right order the result is aligned and in bounds |
| Reciprocals.MultiplyRecognized | fcd/pass_intops.cpp:120-133 | a multiplication and shift that the guard accepts is the division that replaces it, for every operand of at least two bits |
| Reciprocals.MultiplyExact | fcd/pass_intops.cpp:118-133 | it is recognised as a division by d exactly if the shift is below 53, d is the least number of which m times makes up the power, and the excess is within the guard |
| Reciprocals.FixupGuarded | fcd/pass_intops.cpp:136-162 | the same for the fix-up form, without a bound on the shift |
| Reciprocals.KnownDivisions | fcd/pass_intops.cpp:118-162 | what compilers make of x / 3 and x / 7 on 32 bits is recognised |
| Reciprocals.DividesExact | fcd/pass_intops.cpp:126-131 | a multiplication and shift divides by d exactly if d is that number and as many excesses as there are whole blocks of d operands stay below m |
| Reciprocals.NothingMissed | fcd/pass_intops.cpp:118-133 | where the divisor is a power of two, exactly those with a shift below 53 that divide are recognised |
| Reciprocals.OneBitExact | fcd/pass_intops.cpp:126-131 | on single bits it is so exactly if the multiplier is not twice the power |
| Reciprocals.FixupRecognized | fcd/pass_intops.cpp:136-162 | the fix-up form with an inner shift of at most 1 and a multiplier of at most 2^z is the division |
| Reciprocals.FixupExact | fcd/pass_intops.cpp:136-162 | whatever the inner shift, an accepted fix-up form with a multiplier of at most 2^z is the division exactly if it is right on the multiples of the divisor |
| Reciprocals.LargerFixupFails | fcd/pass_intops.cpp:156-161 | an inner shift of 2 is accepted although 3 / 3 comes out as 0 |
| Reciprocals.WidthExact | fcd/pass_intops.cpp:118-131 | in registers of a given width the recognised form divides exactly if the largest quotient fits above the shift |
| Reciprocals.ReciprocalCorrect | fcd/pass_intops.cpp:126-128 | for every power, multiplier and width of at least 2, the guard makes multiply-and-shift the quotient |
| Reciprocals.FixupIsMultiply | fcd/pass_intops.cpp:136-143 | with an inner shift of 1 the fix-up form is a multiplication by m + 2^z |
| IntNarrowing.NarrowCorrect | fcd/pass_intnarrowing.cpp:71-111 | the narrowed value is the low bits of the original, for every tree and size |
| IntNarrowing.NarrowForm | fcd/pass_intnarrowing.cpp:71-111 | add, subtract, multiply and the bitwise operators are repeated at the smaller size all the way down, and whatever else is reached is truncated as it is |
| IntNarrowing.NarrowSame | fcd/pass_intnarrowing.cpp:73-77 | nothing changes exactly if the size is right already |
| IntNarrowing.OrByAnd | fcd/pass_intnarrowing.cpp:31-46 | or and exclusive or are what both have beside the bitwise `and` |
| IntNarrowing.ApplyLow | fcd/pass_intnarrowing.cpp:31-46 | the operators repeated at a smaller width commute with taking low bits |
| IntNarrowing.DivisionDoesNotCommute | fcd/pass_intnarrowing.cpp:35-38 | division and remainder do not |
| IntNarrowing.ShiftDoesNotCommute | fcd/pass_intnarrowing.cpp:39-41 | shifts do not |
| IntNarrowing.MaskCorrect | fcd/pass_intnarrowing.cpp:133-148 | narrowing an `and` to the active bits of its mask and widening it again gives back the value |
| IntNarrowing.MaskExact | fcd/pass_intnarrowing.cpp:137-147 | for an arbitrary masked value no smaller size does |
| IntNarrowing.Narrowing.NarrowDown | fcd/pass_intnarrowing.cpp:71-111 | the recursion that remembers results returns the value the theorem is about, and what it remembers stays right |
| TypePrinter.RoundTrip | fcd/ast/type_printer.cpp:18-128 | parsing a printed declaration gives back the type and the name, for every nesting of pointers, arrays, functions and structures |
| TypePrinter.RoundTripExact | fcd/ast/type_printer.cpp:47-58 | it does so exactly for the types without signed one-bit integers |
| TypePrinter.PrintInjective | fcd/ast/type_printer.cpp:125-149 | declarations are printed alike exactly if names and types are the same but for the sign of one-bit integers |
| TypePrinter.WrappedProper | fcd/ast/type_printer.cpp:65-70 | the declarator printed never applies a suffix to a star without parentheses |
| TypePrinter.ParenthesesNeeded | fcd/ast/type_printer.cpp:65-70 | without its parentheses a pointer to an array would be printed as an array of pointers |
| TypePrinter.PrintSpaced | fcd/ast/type_printer.cpp:18-39 | no two words touch |
| TypeLayout.LayoutExact | fcd/ast/type_printer.cpp:18-149 | the spaces of a printed declaration are a function of its other tokens: none is missing and none is superfluous |
| TypeLayout.DeclarationLean | fcd/ast/type_printer.cpp:62-71 | parentheses are printed around nothing but stars that a suffix follows |
| TypePrinter.PrintTo | fcd/ast/type_printer.cpp:41-149 | appending to a stream prints what the round trip is about |
| TypePrinter.PrintStruct | fcd/ast/type_printer.cpp:81-102 | the same for the loop over fields |
| TypePrinter.PrintFunction | fcd/ast/type_printer.cpp:104-123 | the same for the loop over parameters |
| EntryPoints.DecodeFunction | fcd/codegen/translation_context_remill.cpp:340-372 | returns exactly the addresses that control reaches from the entry without calls, and ends; fails exactly if one of them is not mapped |
| EntryPoints.SuccessorsExact | fcd/codegen/translation_context_remill.cpp:257-270 | by category: jumps and branches go to the targets they name, other instructions on to the next address, and terminators nowhere |
| EntryPoints.BranchBody | fcd/codegen/translation_context_remill.cpp:357-371 | both sides of a branch belong to the function |
| EntryPoints.Discover | fcd/main.cpp:183-208 | what each of the three modes finds, that the loop ends, and exactly when it fails on an address that is not mapped |
| EntryPoints.Extend | fcd/main.cpp:196-207 | one turn adds exactly the targets of direct calls and leaves a sorted list without duplicates |
| EntryPoints.Close | fcd/main.cpp:194-208 | from a list without duplicates the loop ends with exactly the functions that chains of direct calls reach |
| EntryPoints.FullComplete | fcd/main.cpp:183-208 | an initial list without duplicates leads to exactly the functions reachable by direct calls |
| EntryPoints.FullExact | fcd/main.cpp:190-207 | in general exactly if the first turn finds more functions than the list was long, or already all of them |
| EntryPoints.DuplicateStops | fcd/main.cpp:175-207 | an entry point given twice hides a function two calls away |
| EntryPoints.CompleteIffClosed | fcd/main.cpp:190-207 | a set of reached functions is complete exactly if it is closed under calls |

## Left out

Structuring and AST:
- Dominators, post-dominators, the search for regions and loops in `splitAndFoldRegion` and `reduceRegion`, and `ensureLoopsExit`: regions are given as spans of the block list, in the order in which they are folded, and their shape is a hypothesis.
- Structurizer.FoldBasicBlocks: uses the disjunction with the index captured; FoldAsWritten and FirstHalfAsWritten treat the code as written.
- CodeEquality.SameOperatorsSound: leaves are compared by a parameter; that variables are compared by type and prefix only is not modelled further.
- SimplifyExact.SimplifyCorrect: is about expressions that share nothing and are `InPlace`; after a second visit the source may list operands in another order.
- SimplifyExact.SimplifyExact: the same; outside of `InPlace` the code depends on the order of visits, and only what SimplifyRuns says holds.
- SimplifyExpressions.Visit: visits a chain again once, after its operands, where the source does so after each operand that was decided, and leaves the results of other operands as they are.
- SimplifyRuns.RunKeeps: does not say that the visits end; a dereference of an address and the subscript of one are not modelled, other expressions are operators with operands.
- PhiNodes.BlockAgrees: incoming values are evaluated in the state before the edge, so that a load which the C text does later is not told apart from one done there.
- Backend.BackendCorrect: the combiners are run on trees as values; the heap operations they use are in StatementLists.
- SimplifyPasses.StepsPreserveMeaning: expression statements keep their expressions.
- Removal of undefined values, merging of congruent variables and liveness, which run between the combiners.
- Expressions other than negations and n-ary operators are leaves whose value the state decides.

Heap:
- Uses.Context.DropAllReferences: an expression in a cycle of its own uses is dropped only if the cascade reaches it; the order in which other lists are left is not stated.
- The access to operands by index, which is off by one for operands in further arrays (fcd/ast/expression_user.cpp:74-93), and the tagged pointer behind a further array.
- StatementLists.Arena.Clear: does not model the references that cleared statements drop, which is the cascade in Uses.
- DumbAllocator.Allocator.Run: starts from an allocator with a chunk list that is not empty; after `clear` the source reads the last element of an empty list.
- Contents of memory: `copyString` and constructors run in place. What `new char[]` returns is a parameter.

Arithmetic:
- Reciprocals.FixupRecognized: says nothing of a multiplier above 2^z, where the subtraction wraps around; FixupExact treats larger shifts.
- Reciprocals.MultiplyRecognized: the guards are exact rational comparisons, not doubles; wrap-around in the guard's own 64-bit arithmetic is not modelled.
- Signed division by multiplication, remainders, and shifts as signed division: tables of patterns, or guards that do not imply the division.
- The replacement of other uses in narrowing (fcd/pass_intnarrowing.cpp:153-176) and sizes from DemandedBits: they rest on library analyses.

Smaller algorithms:
- TypePrinter.RoundTrip: structures have no names; a named one is printed without a space before an identifier.
- EntryPoints.Discover: says nothing about the lifting that follows.
- Loaders, Python bindings, header parsing, argument and stack recovery, metadata, calling conventions, logging and flags: input and output, foreign calls, or tables.
