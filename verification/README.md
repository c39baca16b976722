# Arithmetic of index expressions

A model, with proofs, of the integer-arithmetic analyses of a tensor compiler (`src/arith`): the
linear-equation solver, the detection, inversion, simplification and division of affine iterator
maps, the canonical simplifier, the congruence and constant-bound analyses with their constraint
scopes, the AND-of-ORs simplifier, and the bound deducer.

Expressions are a datatype (`Expr`) with their mathematical value over a valuation; a property of a
transformation is a statement about that value for all valuations. Code that updates fields or
vectors in place is a class or a method with loops; each is proved against a specification function
or against the value it must keep. Where a transformation calls an analysis that is not modelled
(the rewrite rules, the prover), the analysis is a parameter whose answers are required to be right
for the valuations in question, and nothing else is assumed of it.

| modules | what they hold |
|---|---|
| `IntOperator`, `Radix`, `DivModes` | gcd, Bezout, floored and truncated division |
| `Matrix`, `SmithNormalForm`, `DetectLinear`, `LinearProblem`, `LinearSolver`, `LinearBounds` | diagonalization and solving of linear equations |
| `IterMap`, `SplitCover`, `MappingCheck`, `FuseDigits`, `InverseMap`, `VisitOrder`, `IterMapInverse`, `IndexMap` | the iterator graph, when its splits are independent, and its inverse |
| `SplitSum`, `SplitGrain`, `EvenDivisions`, `FuseIters`, `IterDivide`, `IterRewriter`, `StackMap`, `LayoutMaps`, `IterMapDetect`, `IterPadding`, `SubspaceDivide` | rewriting index expressions into the graph and back, padding, subspaces |
| `CanonicalForm`, `CanonicalSign`, `CanonicalSum`, `CanonicalMerge`, `CanonicalSplit`, `CanonicalAffine`, `CanonicalSimplify`, `CanonicalCompare` | the canonical simplifier |
| `ModularSet`, `ModularExact`, `ConstBound`, `Domains`, `DomainsExact`, `AnalyzerScopes`, `BoundFacts` | the abstract domains and where they are exact, the stack of constraints, and the simplifier on their bounds |
| `ConjunctiveNormalForm`, `AndOfOrsRun`, `AndOfOrsTruth`, `AndOfOrs`, `AndOfOrsLean`, `AndOfOrsLoss` | boolean normal form: the run as a function of its input, what it keeps, the code, what absorption achieves, a run that loses the truth |
| `BoundDeducer` | bound deduction |

## Where the code does not do what one expects

Each of these has a lemma with an input that fails and, unless noted, one with the exact condition. The theorems
about whole runs hold under conditions on the input alone (`EvenDivisions.AllEven`, `CanonicalSign.Safe`,
`AndOfOrsRun.FairRun`), and otherwise whenever the exact condition is met at the places the run records.

- Unpadded floor division of an iterator with an offset: `(x + 1) // 2` is rewritten to `x // 2`
  (`IterDivide.QuotientWrong`, `IterDivide.QuotientExactIff`); the bijective level never pads.
- Unpadded remainder of a remainder: `(x % 3) % 2` is rewritten to `x % 2`
  (`IterDivide.RemainderWrong`, `IterDivide.RemainderExactIff`).
- A second use of a padded iterator: only the use that pads the mark gets the left padding of the mark, so with
  `(x + 3) // 4` the other use `(x + 1) // 2` is rewritten to `(x + 3) // 2` (`IterPadding.SecondUseFails`,
  `IterPadding.PaddedQuotientExactIff`, `IterPadding.PaddedRemainderExactIff`).
- Folding a division into a term of negative scale (`CanonicalSplit.FoldWrong`,
  `CanonicalSplit.DivExactIff`, `CanonicalSplit.ModExactIff`).
- A comparison whose leftover term is a negated or truncated remainder
  (`CanonicalCompare.NegatedExtraFails`, `CanonicalCompare.ExtraExactIff`).
- The bound of a remainder tightened by the gcd: `(6k + 3) % 4` is given the empty interval
  (`ConstBound.TightFails`, `ConstBound.TightExactIff`), and `truncmod(-1, 4)` the interval [3, 3]
  (`ConstBound.TruncTightFails`, `ConstBound.TruncTightIff`).
- A constraint with a negative modulus (`ModularSet.NegativeModulusFails`,
  `ModularSet.ConstraintExactIff`).
- A comparison `c >= x` with the constant on the left is not read, unlike every other comparison with a constant
  (`AnalyzerScopes.ConstantFirst`, which is the exact condition and gives the failing family).
- A variable bound while a constraint is open keeps what it took from the constraint
  (`AnalyzerScopes.BindInScopeLeaks`; exactly when, for a variable bound to a variable under any open scopes, in
  `AnalyzerScopes.BindLeaksIff`, and a sufficient condition for all bindings in `AnalyzerScopes.LayeredBind`).
- Keys that two chunks share are counted on one side only, so a key that rewriting has repeated defeats the merge
  (`AndOfOrsLoss.RepeatedKeyFails`, `ConjunctiveNormalForm.MergeExactIff`).
- The linear-equation solver leaves the unknowns in range bounds as they are when it turns ranges into relations
  (`LinearBounds.BoundOverUnknownFails`, `LinearSolver.BackwardIff`; that no bound mentions an unknown is enough for
  any simplification, `LinearSolver.Backward`).
- A quotient rounded up because it was not proved even: the bound is enough, but exact only if it is uneven
  (`BoundDeducer.RoundFails`, `BoundDeducer.RoundExactIff`).
- An operand whose hint is zero is taken as positive and divided by: `x * y >= 1` with y in [0, 0] is answered by
  a bound that says nothing about y (`BoundDeducer.ZeroFactorFails`, `BoundDeducer.ZeroStepIff`).

## Model

| member | source | states |
|---|---|---|
| IntOperator.FloorFromTruncIsFloor | src/arith/int_operator.h:106-123 | floor division and remainder rebuilt from the machine operators are the mathematical floor, for every sign of dividend and divisor |
| IntOperator.ExtendedEuclidean | src/arith/int_operator.h:133-167 | the loop computes the triple of the recursive reference algorithm, for every combination of signs |
| IntOperator.Bezout | src/arith/int_operator.h:133-167 | a*x + b*y == g, g divides both, the magnitude of g is the greatest common divisor, and g is not negative unless b is |
| IntOperator.BezoutUnimodular | src/arith/int_operator.h:133-167 | the quotients by g and the coefficients have determinant one |
| IntOperator.ZeroAwareGCD | src/arith/int_operator.h:175-187 | the swapping loop computes the greatest common divisor, zero operands included |
| IntOperator.GcdSpec | src/arith/int_operator.h:175-187 | a number divides the gcd exactly when it divides both operands; the gcd is zero only for two zeros |
| IntOperator.LcmSpec | src/arith/int_operator.h:195-198 | a number is a multiple of the least common multiple exactly when it is one of both operands |
| DetectLinear.VisitSound | src/arith/detect_linear_equation.cc:65-142 | a recognized entry, coeff*v + base, has the value of the expression under every valuation, and neither part mentions v |
| DetectLinear.VisitWithin | src/arith/detect_linear_equation.cc:65-142 | neither part mentions a variable the expression does not |
| DetectLinear.VisitLinear | src/arith/detect_linear_equation.cc:65-142 | every expression linear in the variables, a condition on its shape, is recognized for each of them, and its parts are linear again |
| DetectLinear.VisitAffine | src/arith/detect_linear_equation.cc:65-142 | an expression of first degree in the variables, a condition on its shape, has a constant coefficient for each of them, and the rest is of first degree again |
| DetectLinear.DetectLinearEquation | src/arith/detect_linear_equation.cc:145-170 | it succeeds for every linear expression, with constant coefficients for one of first degree, and whenever it does the coefficients and the base sum to the expression under every valuation, and none of them mentions any of the variables |
| SmithNormalForm.RowStepKeeps | src/arith/solve_linear_equation.cc:99-145 | a unimodular combination of two rows, applied to the right side too, keeps solution set, V * x and both inverses |
| SmithNormalForm.ColStepKeeps | src/arith/solve_linear_equation.cc:152-205 | a unimodular combination of two columns, with V changed alike and V^-1 x inversely, keeps them too |
| SmithNormalForm.CoeffsInvert | src/arith/solve_linear_equation.cc:112-118 | the block of a gcd step is undone by the one the comments name, in both the row and the column form |
| SmithNormalForm.FindPivotRow | src/arith/solve_linear_equation.cc:57-71 | the row found has a non-zero entry of least magnitude in the column, if there is one |
| SmithNormalForm.Pivot | src/arith/solve_linear_equation.cc:57-95 | keeps the invariant and what is diagonal already; a zero pivot means that row and column are zero |
| SmithNormalForm.ClearColumn | src/arith/solve_linear_equation.cc:99-145 | zeroes the column below the pivot, keeping the invariant |
| SmithNormalForm.ClearRow | src/arith/solve_linear_equation.cc:147-205 | zeroes the row right of the pivot; either the pivot shrank strictly, which bounds the repetitions, or the column is still clear |
| SmithNormalForm.SmithNormalFormDiag | src/arith/solve_linear_equation.cc:44-213 | terminates, repetitions of an index included, with a diagonal S; over every valuation S z == U y, z == V^-1 x and x == V z describe the original system |
| LinearProblem.LinearRow | src/arith/solve_linear_equation.cc:302-330 | every equation of first degree gives a row; row and right side hold exactly where the equation does, and the right side mentions none of the unknowns |
| LinearProblem.BuildSystem | src/arith/solve_linear_equation.cc:299-335 | matrix and rest together hold exactly where all relations do, each relation goes to one of the two, and no equation of first degree is left in the rest |
| LinearSolver.RowSolved | src/arith/solve_linear_equation.cc:354-365 | a diagonal row is met exactly when its condition holds and its coordinate is the quotient |
| LinearSolver.Conditions | src/arith/solve_linear_equation.cc:354-377 | the kept relations hold exactly where all row conditions do, and none of them is a constant; unsolvable exactly when a row condition simplifies to false |
| LinearSolver.Parametrize | src/arith/solve_linear_equation.cc:379-415 | the quotient for a determined coordinate, a fresh variable exactly for each free one, which newToOld maps to V^-1 x |
| LinearSolver.BackSubstitute | src/arith/solve_linear_equation.cc:417-425 | every unknown, and nothing else, is mapped to its row of V times the coordinates |
| LinearSolver.RangeRelations | src/arith/solve_linear_equation.cc:433-449 | the added relations hold exactly where the old unknowns are in their ranges |
| LinearSolver.NoSolution | src/arith/solve_linear_equation.cc:366-373 | a row condition that simplifies to false leaves no valuation that satisfies the problem |
| LinearSolver.Forward | src/arith/solve_linear_equation.cc:271-460 | a solution of the problem is a solution of the transformed constraints through newToOld, and oldToNew returns every unknown |
| LinearSolver.Backward | src/arith/solve_linear_equation.cc:271-460 | when no range bound mentions an unknown, a solution of the transformed constraints gives one of the problem through oldToNew, and newToOld returns every new variable |
| LinearSolver.BackwardIff | src/arith/solve_linear_equation.cc:433-449 | when the simplification brings in no variables, a solution of the transformed constraints goes back exactly when the ranges still hold with their bounds read at the old unknowns it gives |
| LinearSolver.OldToNewAvoids | src/arith/solve_linear_equation.cc:417-425 | unless a range bound mentions an unknown, or when the simplification brings in no variables, the expression for an old unknown mentions no old unknown |
| LinearSolver.NothingLeft | src/arith/solve_linear_equation.cc:354-430 | when all relations are equations of first degree, no relation of the result mentions a new variable |
| LinearSolver.Outright | src/arith/solve_linear_equation.cc:271-460 | and when no other variables occur and the simplification decides constants, no relation is left at all: the problem is solved by the substitution alone |
| LinearSolver.SolveLinearEquations | src/arith/solve_linear_equation.cc:271-460 | every solution of the problem goes to one of the result and comes back; when no range bound mentions an unknown, the two sets of solutions correspond one to one, unsolvable problems included, over every valuation; with bounds over unknowns a solution of the result goes back exactly when the ranges hold at the unknowns it gives, for a simplification that brings in no variables; equations of first degree are solved outright: what is left of them mentions no new variable, and nothing is left of closed ones unless they are unsolvable |
| LinearBounds.RunAssembled | src/arith/solve_linear_equation.cc:271-460 | what the solver assembles for y in [0, x) and x == 1, y renamed to n |
| LinearBounds.BoundOverUnknownFails | src/arith/solve_linear_equation.cc:433-449 | concrete failure of that run: its added relation 0 <= n < x holds at x = 100, n = 50, where the old y is out of range |
| SplitCover.CoverRebuilds | src/arith/iter_affine_map.cc:551-658 | digits of a full chain of splits rebuild every value of the iterator |
| SplitCover.CoverBijective | src/arith/iter_affine_map.cc:551-658 | any digits in range are the digits of exactly the value they assemble, below the extent |
| SplitCover.AssembleDigits | src/arith/iter_affine_map.cc:581-590 | splits that skip places are still independent: every combination of digits is attained |
| SplitCover.CanProveDivisible | src/arith/iter_affine_map.cc:2125-2132 | on constants: true exactly when the divisor is not zero and divides |
| SplitCover.SearchSkipLowerFactor | src/arith/iter_affine_map.cc:532-549 | finds a split exactly when there is an unused one and every unused place is a multiple of the expected one; no other unused place divides the one found, apart from its equals |
| SplitCover.LeastIsSmallest | src/arith/iter_affine_map.cc:532-549 | so the place found is the smallest among all unused places that divide it or are its multiples |
| SplitCover.TryNormalizeSplits | src/arith/iter_affine_map.cc:561-658 | what it returns is a rearrangement of the splits that forms a full chain (bijective) or a skipping chain; a refusal of non-trivial splits means that no rearrangement does, at either level |
| MappingCheck.Collect | src/arith/iter_affine_map.cc:132-162 | visits exactly the live marks and meets exactly the live splits |
| MappingCheck.CheckMark | src/arith/iter_affine_map.cc:261-265 | accepts only marks whose splits form a chain, and at either level all of them when no split is trivial |
| MappingCheck.CheckMapping | src/arith/iter_affine_map.cc:254-275 | success means that every live mark passes and, at the bijective level, every input is used; a refusal of non-trivial splits means one of these fails |
| FuseDigits.CheckFusePattern | src/arith/iter_affine_map.cc:2641-2650 | accepts exactly the sums whose scales are the running products of the inner extents |
| FuseDigits.TotalIsScaledNumber | src/arith/iter_affine_map.cc:2572-2588 | such a sum is its innermost scale times a mixed-radix number |
| FuseDigits.TotalDigit | src/arith/iter_affine_map.cc:2580-2588 | floor division by the scale, and the remainder by the extent, give each digit back, for scales of either sign |
| VisitOrder.ReverseTopologyOrder | src/arith/iter_affine_map.cc:2591-2619 | lists every live node once, each after all that read it |
| InverseMap.StepSumSpec | src/arith/iter_affine_map.cc:2562-2589 | a sum that holds its own value hands each of its splits that split's digit |
| InverseMap.AccRebuilds | src/arith/iter_affine_map.cc:2621-2635 | contributions of all the splits of a fully covered mark add up to its value |
| InverseMap.PendingAtSum | src/arith/iter_affine_map.cc:2548-2557 | a sum about to be visited holds its own value |
| InverseMap.StepKeepsProgress | src/arith/iter_affine_map.cc:2548-2557 | visiting any node keeps: pending nodes hold what the finished ones sent, the inverse holds what the finished splits contributed |
| IterMapInverse.InverseAffineIterMapTransformer.Initialize | src/arith/iter_affine_map.cc:2541-2547 | zero for every node, the given outputs for the output sums |
| IterMapInverse.InverseAffineIterMapTransformer.VisitSum | src/arith/iter_affine_map.cc:2562-2589 | refuses exactly the sums that cannot be inverted and otherwise makes the step of the specification |
| IterMapInverse.InverseAffineIterMapTransformer.VisitSplit | src/arith/iter_affine_map.cc:2621-2635 | adds the scaled value to the source sum or to the inverse of the input |
| IterMapInverse.InverseAffineIterMapTransformer.Propagate | src/arith/iter_affine_map.cc:2548-2558 | refuses exactly when a node cannot be inverted; otherwise ends with every input's inverse right |
| IterMapInverse.InverseAffineIterMap | src/arith/iter_affine_map.cc:2536-2559 | fails exactly for a wrong number of outputs or a live sum that cannot be inverted; when every live mark is fully covered the result recovers every reached input from the outputs, for all in-range inputs |
| IndexMap.FusedInRange | src/tirx/ir/index_map.cc:96-108 | when every fused mark is exactly fused, inputs in range keep every mark of the graph in range |
| IndexMap.FillUnits | src/tirx/ir/index_map.cc:110-121 | inputs the map leaves out get their only value, others keep their expression |
| IndexMap.Inverse | src/tirx/ir/index_map.cc:61-141 | whatever it returns recovers every input, those of extent one included, from the outputs alone; without trivial splits it returns something exactly for a right number of outputs, a map that passes the check and sums that can be inverted |
| FuseIters.FindBaseIter | src/arith/iter_affine_map.cc:850-893 | a free position of the smallest scale, if any is free |
| FuseIters.FindFirstPossibleUnitExtentIndex | src/arith/iter_affine_map.cc:903-908 | no trivial iterator before the position returned |
| FuseIters.FindIterWithExactScale | src/arith/iter_affine_map.cc:920-946 | a free position of exactly the scale, none missed by the early exit, a trivial iterator preferred |
| FuseIters.FindIterSmallerClosestToScale | src/arith/iter_affine_map.cc:956-975 | the largest free scale between zero and the bound |
| FuseIters.TryCombineSplitFromSameSource | src/arith/iter_affine_map.cc:987-1074 | acts exactly when two splits read one source; combining consecutive splits changes the sum for no values of the marks |
| FuseIters.SpansMore | src/arith/iter_affine_map.cc:1123-1130 | one more digit whose scale leaves no gap extends the interval of attained values, without a hole, by exactly its weight |
| FuseIters.FuseArgs | src/arith/iter_affine_map.cc:1097-1198 | the args are taken one by one, the smallest scale first, then an exact match, then below the bijective level the largest smaller one; success means all were taken so, failure that some prefix of such choices is stuck |
| FuseIters.StackNotStuck | src/arith/iter_affine_map.cc:1097-1198 | args that continue each other in some order never leave the search stuck, whatever it took before |
| FuseIters.StackFused | src/arith/iter_affine_map.cc:1196-1222 | and what it makes of them is the one iterator of that order, its extent the product of theirs, although the search does not know the order |
| FuseIters.TryFuseIters | src/arith/iter_affine_map.cc:1089-1223 | the fused iterator times the base scale is the sum; its digits attain every value below the extent, and at the bijective level the scales are exact; of args of different sources, non-trivial ones that continue each other in some order are always fused, at either level, into exactly the iterator of that order, and at the bijective level nothing else is |
| FuseIters.ExactOnce | src/arith/iter_affine_map.cc:1131-1134 | exactly fused digits that give the same value are the same digits |
| IterDivide.CancelCommon | src/arith/iter_affine_map.cc:1866-1892 | a scale that divides base and divisor cancels from the quotient and comes out of the remainder |
| IterDivide.NoPadding | src/arith/iter_affine_map.cc:1735-1762 | a division that asks for no padding has base and extent divisible by the divisor |
| IterDivide.UnitQuotient | src/arith/iter_affine_map.cc:1903-1931 | the new split of a unit-scale dividend is its digit divided by the divisor, in all three forms |
| IterDivide.QuotientExactIff | src/arith/iter_affine_map.cc:1852-1940 | without padding the quotient is right on the whole range exactly when the divisor divides the base, or base and digit together never reach the next multiple |
| IterDivide.QuotientWrong | src/arith/iter_affine_map.cc:1852-1940 | concrete failure: (x + 1) // 2 over [0, 4) becomes x // 2 |
| IterDivide.RemainderExactIff | src/arith/iter_affine_map.cc:1981-2024 | without padding the remainder is right on the whole range exactly when the divisor divides the base and, unless the old extent is never cut, the extent |
| IterDivide.RemainderWrong | src/arith/iter_affine_map.cc:1981-2024 | concrete failure: (x % 3) % 2 over [0, 6) becomes x % 2 |
| IterRewriter.AddSplit | src/arith/iter_affine_map.cc:1230-1251 | the sum plus or minus the split, for all values of the marks; the split joins the first that differs in scale only, or goes last |
| IterRewriter.AddSum | src/arith/iter_affine_map.cc:1253-1262 | the sum plus or minus the other, base included, its splits added one by one |
| IterRewriter.MulSum | src/arith/iter_affine_map.cc:1264-1271 | the sum times the constant |
| IterRewriter.IterMapRewriter.MarkFor | src/arith/iter_affine_map.cc:1207-1222 | the mark of the fused args, made new or found, without disturbing the marks made before |
| IterRewriter.IterMapRewriter.Fuse | src/arith/iter_affine_map.cc:746-756 | at most one split plus a base, of the same value for every valuation of the inputs; a stack of digits not met before is given an iterator of its own, at either level, and at the bijective level other sums of different digits are refused |
| IterRewriter.IterMapRewriter.SplitFloorDivConst | src/arith/iter_affine_map.cc:1852-1940 | the quotient wherever the site recorded for it is right, which it is when the divisor divides the base; marks stay valid in any case |
| IterRewriter.IterMapRewriter.SplitFloorModConst | src/arith/iter_affine_map.cc:1981-2024 | the remainder wherever its site is right, which it is when the divisor divides the base and the span of the dividend |
| IterRewriter.IterMapRewriter.PreprocessDividend | src/arith/iter_affine_map.cc:1673-1696 | the dividend as one split plus a base of the same value |
| IterRewriter.IterMapRewriter.Divide | src/arith/iter_affine_map.cc:1942-1979 | means the floor quotient of what the operands mean if all sites so far are right; at the bijective level an even division adds a right one |
| IterRewriter.IterMapRewriter.Remainder | src/arith/iter_affine_map.cc:2026-2064 | means the floor remainder of what the operands mean if all sites so far are right; at the bijective level an even division adds a right one |
| IterRewriter.IterMapRewriter.DirectMutate | src/arith/iter_affine_map.cc:1554-1671 | by induction over every expression: the rewritten form has its value on all in-range inputs if every site met is right, as at the bijective level it is for every expression whose divisions are even, a condition on the expression alone; sums, multiples and even quotients and remainders of digits are rewritten to exactly the sum a specification over the expression gives, without a new iterator and without padding, in either pass |
| IterRewriter.IterMapRewriter.Rewrite | src/arith/iter_affine_map.cc:206-208 | one split plus a base with the value of the expression, under the same conditions; expressions that are stacks of digits are always rewritten, to their own iterator |
| EvenDivisions.SplitIsEven | src/arith/iter_affine_map.cc:1852-1940 | the condition holds of the everyday pair v // c, v % c for every positive c |
| IterRewriter.IterMapRewriter.RewriteAndUpdatePadding | src/arith/iter_affine_map.cc:210-215 | a first pass that leaves no padding required is right unconditionally; an expression whose remainders divide the extents they reduce requires none |
| IterRewriter.ConvertSplitValue | src/arith/iter_affine_map.cc:2095-2119 | each of the converted forms has the split's value wherever the marks are in range |
| IterRewriter.RoundTrip | src/arith/iter_affine_map.cc:2068-2123 | whatever a sum means, the expression it is converted to means too |
| IterMapDetect.RewriteAll | src/arith/iter_affine_map.cc:1477-1500 | one pass over all indices, with their values if all sites are right, as at the bijective level they are for indices whose divisions are even; for stacks of digits the graph it builds is given outright, in either pass |
| StackMap.PassesIffTiled | src/arith/iter_affine_map.cc:254-275 | a map whose outputs are stacks of digits of the inputs passes the check exactly when the digits of each input, in some order, lie end to end from one to its extent or, below the bijective level, with gaps between them |
| StackMap.InvertibleIffUnit | src/arith/iter_affine_map.cc:2562-2589 | every sum of such a map can be inverted exactly when its outputs are unscaled or negated |
| LayoutMaps.SplitTiles | src/arith/iter_affine_map.cc:551-658 | v // c and v % c, over an extent divisible by c, are such a map, tiled and unscaled |
| LayoutMaps.PermutationTiles | src/arith/iter_affine_map.cc:551-658 | and so is any permutation of loops of more than one iteration |
| LayoutMaps.FlattenedTiles | src/arith/iter_affine_map.cc:1089-1223 | and so is the row-major flattening of any number of loops into one index |
| IterMapDetect.DetectIterMap | src/arith/iter_affine_map.cc:1431-1515 | a well-formed graph that passes the mapping check; it represents the indices for all in-range inputs, below the bijective level always, at that level whenever the divisions of the indices are even or every site is right; indices that are stacks of digits of the loop variables are detected exactly when the digits of each variable make up all of it or, below the bijective level, for indices that need no padding, do not overlap, and the graph is given outright; sums of different digits that are not stacks are not detected as bijective |
| IterMapDetect.MarkValIsValue | src/arith/iter_affine_map.cc:1431-1515 | the graph read top-down for the check and the marks built bottom-up by the rewriter have the same values |
| IterMapDetect.IterMapSimplify | src/arith/iter_affine_map.cc:2153-2179 | the simplified indices have the values of the given ones on all in-range inputs, below the bijective level always, at that level whenever the divisions of the indices are even or every site is right; stacks of digits that tile the loop variables become exactly the converted outputs of their map, others stay as they are |
| IterMapDetect.InverseIndexMap | src/tirx/ir/index_map.cc:61-141 | end to end from index expressions: the inverse takes the outputs back to every loop variable whenever the divisions of the indices are even, or every site is right; for stacks of digits of the loop variables there is one exactly when the digits of each variable make up all of it and no output is scaled |
| IterPadding.LcmPositive | src/arith/iter_affine_map.cc:1699-1724 | on positive constants the padding factor is a common multiple not below either |
| IterPadding.CollectInfoOk | src/arith/iter_affine_map.cc:1749-1769 | the collected factor is a multiple of every use so far, and the left padding stays below it and covers the use |
| IterPadding.UsesDivideEvenly | src/arith/iter_affine_map.cc:1816-1826 | on the padded iterator every collected use divides evenly, so no padding is needed again |
| IterPadding.PaddingExact | src/arith/iter_affine_map.cc:1828-1845 | the padding predicate holds exactly on the padded values that no original value is shifted to |
| IterPadding.IterPads.Collect | src/arith/iter_affine_map.cc:1735-1777 | padding is required exactly when base or extent is uneven; the padded extent is the least even one that covers the split and its left padding |
| IterPadding.IterPads.Apply | src/arith/iter_affine_map.cc:1779-1850 | the whole new table, the split and the left padding of each use; the padded split divides evenly; the predicate, added once per mark, is exact; a mark without information is left alone |
| IterPadding.PaddedQuotientIsDivision | src/arith/iter_affine_map.cc:1903-1931 | the three forms of the new split, over the padded mark, all have the value of the padded quotient |
| IterPadding.PaddedQuotientExactIff | src/arith/iter_affine_map.cc:1852-1940 | a use of a padded mark is the floor quotient of the original value, on the whole range, exactly when the shift the mark got and the left padding the use got keep in step |
| IterPadding.CorrectedFits | src/arith/iter_affine_map.cc:1798-1813 | they do for the use whose corrected left padding is the one of the mark |
| IterPadding.PaddedRemainderIsSplit | src/arith/iter_affine_map.cc:1981-2024 | the new split, over the padded mark, has the value of the padded remainder |
| IterPadding.PaddedRemainderExactIff | src/arith/iter_affine_map.cc:1981-2024 | a use of a padded mark is the floor remainder of the original value, on the whole range, exactly under a condition on base, divisor, extent and the shift of the mark |
| IterPadding.TwoUsesCollected | src/arith/iter_affine_map.cc:1735-1777 | what the first pass collects for (x + 3) // 4 and (x + 1) // 2 over [0, 8) |
| IterPadding.TwoUsesApplied | src/arith/iter_affine_map.cc:1779-1850 | what the second pass makes of the two: the mark is shifted by 3, and the second use keeps a left padding of 1 |
| IterPadding.FirstUseFits | src/arith/iter_affine_map.cc:1798-1813 | the first of the two uses is right |
| IterPadding.SecondUseFails | src/arith/iter_affine_map.cc:1798-1813 | concrete failure: the second is not; (x + 1) // 2 becomes (x + 3) // 2 |
| SubspaceDivide.MarkFromArgs | src/arith/iter_affine_map.cc:2372-2382 | scales become running products; the extent is their product |
| SubspaceDivide.CutDivides | src/arith/iter_affine_map.cc:2303-2353 | digits of an exact sum cut into outer and inner args: value == outer * innerExtent + inner |
| SubspaceDivide.InnerDigit | src/arith/iter_affine_map.cc:2452-2456 | a digit below the boundary is the same digit of the inner part |
| SubspaceDivide.OuterDigit | src/arith/iter_affine_map.cc:2457-2463 | a digit above the boundary is a digit of the outer part |
| SubspaceDivide.FindBoundary | src/arith/iter_affine_map.cc:2423-2451 | every split ends up on a side: inner ones divide the inner extent, outer ones start at multiples of it |
| SubspaceDivide.SubspaceDivider.DivideIterSplitExpr | src/arith/iter_affine_map.cc:2384-2469 | outer * innerExtent + inner is the split's digit; the outer part reads no sub-iterator, the inner part nothing else; in a flat map it succeeds exactly when the sub-iterators are innermost in the sum read |
| SubspaceDivide.SubspaceDivider.RecordParts | src/arith/iter_affine_map.cc:2421-2463 | records a right division for every split of the mark |
| SubspaceDivide.SubspaceDivider.DivideIterSumExpr | src/arith/iter_affine_map.cc:2281-2354 | the same for the sum a mark stands for |
| SubspaceDivide.SubspaceDivider.CutArgs | src/arith/iter_affine_map.cc:2303-2326 | every arg on one side, inner ones innermost; over inputs it succeeds exactly when no inner arg stands outside an outer one |
| SubspaceDivide.SubspaceDivider.DivideArg | src/arith/iter_affine_map.cc:2305-2324 | the split that replaces an arg has the same digit; an inner arg is refused outside an outer one |
| SubspaceDivide.SubspaceDivider.DivideBinding | src/arith/iter_affine_map.cc:2360-2369 | the division of a binding, its base added to the inner part |
| SubspaceDivide.SubspaceDivide | src/arith/iter_affine_map.cc:2502-2512 | every binding divided, or nothing; in a flat map, whose fused iterators read inputs and are read whole, all of them exactly when each has its sub-iterators innermost |
| SubspaceDivide.SubspaceDivideIndices | src/arith/iter_affine_map.cc:2485-2517 | end to end from index expressions: the outer parts read no sub-iterator and the inner parts nothing else; index == outer * innerExtent + inner + base on all in-range inputs whenever the divisions of the indices are even, or every site is right; unscaled stacks of digits of the loop variables are divided exactly when they make up all of each variable and the sub-iterators are innermost in each stack |
| DivModes.Nest | src/arith/canonical_simplify.cc:826-834 | (y / l) / k == y / (l*k) and the remainder splits likewise, floored for positive factors and truncated for all |
| DivModes.RemRem | src/arith/canonical_simplify.cc:1058-1066 | a remainder by a multiple keeps the remainder by the factor |
| DivModes.RemOfQuot | src/arith/canonical_simplify.cc:422-436 | (y % (l*k)) / l == (y / l) % k in either mode |
| DivModes.Join | src/arith/canonical_simplify.cc:440-447 | s*(y / (s*c)) + (y % (s*c)) / c == y / c in either mode |
| DivModes.Cancel | src/arith/canonical_simplify.cc:1051-1057 | a common factor cancels from a quotient and comes out of a remainder |
| CanonicalForm.NormalizeSplitVal | src/arith/canonical_simplify.cc:129-150 | the normalized split has its value times the scale and no more divisions |
| CanonicalSum.SumExprNode.AddSplit | src/arith/canonical_simplify.cc:302-327 | adds scale times the term for every valuation and keeps the segment order |
| CanonicalSum.SumExprNode.AddSum | src/arith/canonical_simplify.cc:531-538 | adds scale times the other sum, base included |
| CanonicalSum.SumExprNode.MulToSelf | src/arith/canonical_simplify.cc:274-279 | multiplies the value, keeping the segment order |
| CanonicalSum.SumExprNode.DivideBy | src/arith/canonical_simplify.cc:284-291 | the new value times c is the old one, given that c divides every scale and the base |
| CanonicalMerge.MergeVal | src/arith/canonical_simplify.cc:418-466 | two consecutive digits of one index are one digit over both ranges, in either mode |
| CanonicalMerge.MergeSplits | src/arith/canonical_simplify.cc:403-469 | the pass over all pairs keeps the value of the sum, and leaves no neighbours of one index that are the same digit or consecutive ones |
| CanonicalMerge.SortSplits | src/arith/canonical_simplify.cc:477-497 | ordered, a permutation, of the same value |
| CanonicalMerge.SimplifySplitExprs | src/arith/canonical_simplify.cc:403-498 | merged and ordered terms with the value of the original ones and no more divisions |
| CanonicalMerge.SumToExpr | src/arith/canonical_simplify.cc:499-522 | positive terms added and negative ones subtracted have the value of the sum |
| CanonicalMerge.Normalize | src/arith/canonical_simplify.cc:628-634 | the normal expression has the value of the canonical form and no more divisions; of a sum of different variables it uses only those of non-zero scale, and is a constant if there are none |
| CanonicalSplit.ConvertVal | src/arith/canonical_simplify.cc:667-677 | the split in the other mode has the same value |
| CanonicalSplit.DivideSplitVal | src/arith/canonical_simplify.cc:816-856 | where the fold is good the folded quotient is right for every valuation, in either mode |
| CanonicalSplit.DivExactIff | src/arith/canonical_simplify.cc:816-856 | for a floored split of a variable the quotient is right for all values exactly under a condition on scale, factors and divisor alone |
| CanonicalSplit.FoldWrong | src/arith/canonical_simplify.cc:826-834 | failure for every negative scale over a lower factor above one: at x == 1 the folded quotient is -1 instead of 0 |
| CanonicalSplit.PlanModVal | src/arith/canonical_simplify.cc:1042-1094 | where the fold is good the folded remainder is right for every valuation, in either mode |
| CanonicalSplit.ModExactIff | src/arith/canonical_simplify.cc:1042-1094 | for a floored split of a variable the remainder is right for all values exactly under a condition on scale, factors and divisor alone |
| CanonicalSplit.UprightDivide | src/arith/canonical_simplify.cc:816-856 | a split of positive factors and non-negative scale folds into a quotient that is right, and has such factors and scale again |
| CanonicalSplit.UprightPlan | src/arith/canonical_simplify.cc:1042-1094 | and into a remainder that is right, with the same invariant |
| CanonicalSimplify.ToSplitExpr | src/arith/canonical_simplify.cc:640-655 | a split of the same value |
| CanonicalSimplify.ToSumExpr | src/arith/canonical_simplify.cc:683-696 | a sum of the same value |
| CanonicalSimplify.AddCanon | src/arith/canonical_simplify.cc:701-747 | the sum or difference of the values |
| CanonicalSimplify.MulCanon | src/arith/canonical_simplify.cc:749-790 | the product of the values |
| CanonicalSimplify.SeparateDivisibleParts | src/arith/canonical_simplify.cc:792-814 | the parts add up to the sum and one of them has only divisible scales and base; no division is lost or gained |
| CanonicalSimplify.FloorDivSum | src/arith/canonical_simplify.cc:982-1040 | the floored quotient of the sum, wherever the facts hold |
| CanonicalSimplify.TruncDivSum | src/arith/canonical_simplify.cc:918-980 | the truncated quotient, when both parts are proved non-negative |
| CanonicalSimplify.FloorModSum | src/arith/canonical_simplify.cc:1170-1233 | what is left has the same floored remainder |
| CanonicalSimplify.TruncModSum | src/arith/canonical_simplify.cc:1096-1168 | what is left has the same truncated remainder, wherever the facts hold |
| CanonicalSimplify.CanonicalSimplifier.DivSplit | src/arith/canonical_simplify.cc:816-856 | the quotient of a split, if all folds so far are good |
| CanonicalSimplify.CanonicalSimplifier.SplitModConst | src/arith/canonical_simplify.cc:1042-1094 | the remainder of a split, the re-simplified index included, if all folds so far are good |
| CanonicalSimplify.CanonicalSimplifier.CanonicalMutate | src/arith/canonical_simplify.cc:561-574 | by induction over every expression: the canonical form means the expression wherever the facts hold, if all folds met are good; the form of an expression of first degree is a sum of different variables, each once |
| CanonicalSimplify.CanonicalSimplifier.VisitExpr | src/arith/canonical_simplify.cc:556-559 | the normalized result has the value of the expression under the same condition |
| CanonicalSimplify.Simplify | src/arith/canonical_simplify.cc:550-553 | for every safe expression it gives a result of the same value in every admissible valuation; otherwise it keeps the value if every fold met is good; it never adds divisions; an expression of first degree is reduced to one that uses exactly the variables its value depends on, a constant if there are none |
| CanonicalAffine.AffineReduces | src/arith/canonical_simplify.cc:403-522 | the normal expression of a sum of different variables uses exactly those the value depends on |
| CanonicalAffine.EqualIffZero | src/arith/canonical_simplify.cc:550-553 | so two expressions of first degree are equal everywhere exactly when their difference is simplified to the constant zero |
| CanonicalSign.UprightIsSafe | src/arith/canonical_simplify.cc:792-856 | an expression without negative terms is safe, divisions by positive constants nested in any way included |
| CanonicalSign.UndividedIsSafe | src/arith/canonical_simplify.cc:701-790 | and so is one without divisions, whatever its signs |
| CanonicalSign.MildIsSafe | src/arith/canonical_simplify.cc:701-856 | and so is a sum of both kinds, in which only terms without divisions are subtracted; every dividend of such a form is safe to divide |
| BoundFacts.SettledCalm | src/arith/const_int_bound.cc:157-180 | an expression whose bounds are all finite and whose divisors are away from zero neither overflows nor divides by zero in any admitted valuation, and both analyses are right for it |
| BoundFacts.FactsSound | src/arith/canonical_simplify.cc:918-1233 | the non-negativity and range queries of the simplifier, answered from these bounds, are right in every admitted valuation |
| BoundFacts.SimplifyBounded | src/arith/canonical_simplify.cc:550-553 | with nothing assumed of the facts: on the bounds of a state a safe expression is simplified to one of the same value in every valuation the state admits, and one of first degree to the variables it depends on |
| CanonicalCompare.CommonScale | src/arith/canonical_simplify.cc:1368-1375 | there is one exactly when some scale is beyond one in magnitude; it is the greatest number that divides the base and all those scales |
| CanonicalCompare.ExtraExactIff | src/arith/canonical_simplify.cc:1390-1399 | turning the leftover remainder into a quotient keeps the comparison for all values exactly when the term is floored and of scale one |
| CanonicalCompare.NegatedExtraFails | src/arith/canonical_simplify.cc:1390-1399 | concrete failure: a leftover -(y % 16), usable for the divisor 8, disagrees at y == 15 |
| CanonicalCompare.DivideComparison | src/arith/canonical_simplify.cc:1367-1400 | the divided comparison holds exactly where the sum is negative, if the leftover term is as that condition asks, and always for sums without divisions or whose divided terms are floored and of non-negative scale; when something beyond one divides base and scales, it is the comparison divided by the greatest such number |
| CanonicalCompare.VisitLT | src/arith/canonical_simplify.cc:1356-1404 | the simplified x < y holds exactly where x < y does, for x of floored divisions none of which is subtracted and y without divisions, for operands without divisions, and otherwise under both conditions; when something beyond one divides every value of x - y, for operands of first degree, the result is q < 0 with x - y == d * q for the greatest such d |
| BoundFacts.CompareBounded | src/arith/canonical_simplify.cc:1356-1404 | the same on the bounds of a state, with nothing assumed of the facts; the division outside any constraint |
| ModularSet.MakeEntryIn | src/arith/modular_set.cc:70-89 | the normalized class is the one asked for; a negative coefficient gives the class of the negated base |
| ModularSet.AddSound | src/arith/modular_set.cc:154-166 | sums and differences fall into the computed class |
| ModularSet.MulSound | src/arith/modular_set.cc:168-180 | products fall into the computed class |
| ModularSet.DivSound | src/arith/modular_set.cc:182-197 | quotients by a constant of either sign fall into the computed class |
| ModularSet.ModSound | src/arith/modular_set.cc:233-242 | remainders by a constant fall into the computed class |
| ModularSet.UnionSound | src/arith/modular_set.cc:328-342 | members of either class are in the union |
| ModularExact.AddExact | src/arith/modular_set.cc:154-159 | the class of a sum is exactly the set of sums |
| ModularExact.SubExact | src/arith/modular_set.cc:161-166 | the class of a difference is exactly the set of differences |
| ModularExact.MulFinest | src/arith/modular_set.cc:168-180 | the modulus of a product is the coarsest on which all products agree: any other divides it |
| ModularExact.DivExact | src/arith/modular_set.cc:182-197 | where the divisor divides the modulus, and the base is zero or both are positive, the class of a quotient is exactly the set of quotients |
| ModularExact.ModExact | src/arith/modular_set.cc:233-242 | of the numbers below the divisor, the class of a remainder holds exactly the remainders |
| ModularExact.UnionExact | src/arith/modular_set.cc:328-342 | the modulus of a union is the coarsest on which all members agree with the common base, or with zero where the bases differ modulo the gcd |
| ModularSet.IntersectExact | src/arith/modular_set.cc:349-369 | Chinese remainder: a number is in the intersection exactly when it is in both; the empty result means there is none |
| ModularSet.NegativeModulusFails | src/arith/modular_set.cc:118-126 | concrete failure: floormod(3, -4) == -1, but 3 is not in the class taken from that constraint |
| ModularSet.ConstraintExactIff | src/arith/modular_set.cc:118-126 | the class taken from a remainder x % c == b, floored or truncated, covers its solutions exactly when c is positive or divides 2*b |
| ConstBound.InfAddSound | src/arith/const_int_bound.cc:584-599 | saturated sums of bounds bound every sum that does not overflow |
| ConstBound.InfMulIsClamp | src/arith/int_operator.h:63-76 | the division-based overflow test is exact: the saturated product is the clamped product for all operands |
| ConstBound.MulSound | src/arith/const_int_bound.cc:531-541 | the four corners enclose every product |
| ConstBound.DivSound | src/arith/const_int_bound.cc:552-576 | the corners enclose every quotient, floored or truncated, divisor ranges across zero included |
| ConstBound.PlainModSound | src/arith/const_int_bound.cc:302-310 | the bound for a positive divisor encloses every remainder |
| ConstBound.SignedModSound | src/arith/const_int_bound.cc:382-389 | the bound for a divisor of unknown sign encloses every floored remainder |
| ConstBound.TightSound | src/arith/const_int_bound.cc:346-372 | with a fitting base the bound tightened by the gcd encloses every remainder of the class |
| ConstBound.TightExactIff | src/arith/const_int_bound.cc:346-372 | the tightened bound is right for the whole class exactly when the base is below the gcd |
| ConstBound.TightFails | src/arith/const_int_bound.cc:346-372 | concrete failure: 6k + 3 modulo 4 is bounded by the empty interval [3, 1] |
| ConstBound.TruncTightIff | src/arith/const_int_bound.cc:276-300 | for a truncated remainder the tightened bound is right exactly when only zero is left, or for a single value that is not negative or divisible |
| ConstBound.TruncTightFails | src/arith/const_int_bound.cc:276-300 | concrete failure: the single value -1 modulo 4 is bounded by [3, 3], and truncmod is -1 |
| Domains.ClassStep | src/arith/modular_set.cc:137-258 | one operation keeps the congruence of its operands right |
| Domains.BoundStep | src/arith/const_int_bound.cc:235-414 | one operation keeps the bounds of its operands right, with the tightening by the congruence of the dividend |
| Domains.AnalysisSound | src/arith/const_int_bound.cc:157-180 | both analyses, each using the other, are right for every expression and every admitted valuation, if the tightened remainders have a fitting base |
| DomainsExact.ClassExact | src/arith/modular_set.cc:137-258 | for sums, differences and multiples that read each variable once, the class computed is exactly the set of values over the classes of the variables |
| DomainsExact.EndAttained | src/arith/const_int_bound.cc:235-414 | for expressions that read each variable once, each end of the computed bound is the value in some valuation within the bounds, unless an operation saturates |
| DomainsExact.BoundTightest | src/arith/const_int_bound.cc:235-414 | so no interval that encloses all values is smaller |
| DomainsExact.RemainderEnd | src/arith/const_int_bound.cc:302-310 | both ends of the bound of v % c are attained where v takes all of 0, ..., c - 1 |
| AnalyzerScopes.DetectSound | src/arith/const_int_bound.cc:761-792 | what obeys a constraint respects every bound detected in it |
| AnalyzerScopes.DetectModSound | src/arith/modular_set.cc:118-130 | what obeys a fair constraint is in the class detected in it |
| AnalyzerScopes.DetectExact | src/arith/const_int_bound.cc:761-792 | and for conjunctions of comparisons with one constant operand, not on the left of >= and within the representable range, what respects every bound detected obeys the constraint |
| AnalyzerScopes.ConstantFirst | src/arith/const_int_bound.cc:774-789 | of comparisons with exactly one constant operand, only >= with the constant on the left gives no bound |
| AnalyzerScopes.NarrowExact | src/arith/const_int_bound.cc:498-503 | a narrowed bound allows exactly what the bound and every constraint on the expression allow |
| AnalyzerScopes.EnterCuts | src/arith/const_int_bound.cc:493-504 | entering such a constraint cuts the bound of each variable to exactly what the constraint permits |
| AnalyzerScopes.EnterClass | src/arith/modular_set.cc:118-130 | entering v % m == b leaves of the class of v exactly the numbers that obey it |
| AnalyzerScopes.AnswersAgree | src/arith/const_int_bound.cc:498-503 | states that differ only in trivial entries answer every query alike |
| AnalyzerScopes.UndoEnter | src/arith/modular_set.cc:313-322 | undoing what was entered restores every answer |
| AnalyzerScopes.LayeredEnter | src/arith/analyzer.cc:127-135 | entering a fair constraint keeps every level right for its own open constraints |
| AnalyzerScopes.LayeredBind | src/arith/analyzer.cc:45-56 | a binding whose entries the bindings alone imply keeps every level right |
| AnalyzerScopes.RestoresBind | src/arith/analyzer.cc:45-56 | a binding changes what leaving each open scope restores at the bound variable alone |
| AnalyzerScopes.Analyzer.Answers | src/arith/analyzer.cc:127-145 | in every state of every run of fair steps, nested in any way, all answers are right for the valuations that meet the bindings and the open constraints |
| AnalyzerScopes.Analyzer.EnterConstraint | src/arith/analyzer.cc:127-135 | the new state, and that the invariant of all levels is kept; the bounds are cut exactly to what a readable constraint permits |
| AnalyzerScopes.Analyzer.ExitConstraint | src/arith/analyzer.cc:137-145 | restores every answer of the time of entry, but for the variables bound in between, which keep what their binding gave them |
| AnalyzerScopes.Analyzer.BindExpr | src/arith/analyzer.cc:45-56 | the variable gets the bounds and the class of the expression, in the state and in what leaving each open scope restores; refused exactly when bound otherwise |
| AnalyzerScopes.Analyzer.BindRange | src/arith/analyzer.cc:58-69 | the same with the bounds of the range; an extent of one is bound as an expression |
| AnalyzerScopes.BindInScopeLeaks | src/arith/analyzer.cc:45-56 | concrete failure: under x < 5, binding y to x and leaving the scope excludes y == x == 10 |
| AnalyzerScopes.BindLeaksIff | src/arith/analyzer.cc:45-56 | under any open scopes, binding y to x inside a further scope excludes an allowed valuation after it is left exactly when that scope narrows the bound or the class of x below what an allowed valuation has |
| ConjunctiveNormalForm.VisitTruth | src/arith/conjunctive_normal_form.cc:173-215 | the conjuncts of the AND visitor and the disjuncts of the OR visitor have the truth value of the expression, whatever the nesting |
| ConjunctiveNormalForm.MergeExactIff | src/arith/conjunctive_normal_form.cc:353-381 | merging two chunks that differ in one key is right over every key table and valuation exactly when they are mergeable: each other key of the first is false or one of the second, or true is another key of the second |
| AndOfOrsLoss.RepeatedKeyFails | src/arith/conjunctive_normal_form.cc:279-411 | concrete failure of a whole run, with a rewriter proved sound: (z < 0 or x < 2 or y > 5) and (y > 10 or x < 2 or x < 1 or x == 1) becomes x < 2 and is lost at x = 5, y = 11, z = 3 |
| AndOfOrsLoss.RunEnds | src/arith/conjunctive_normal_form.cc:279-411 | the four passes on any two conjuncts and rewriter of that pattern end with the shared disjunct alone |
| ConjunctiveNormalForm.NoRepeatSuffices | src/arith/conjunctive_normal_form.cc:345-353 | the count the source tests implies that condition when the second chunk repeats no key |
| AndOfOrs.AndOfOrs.GetKey | src/arith/conjunctive_normal_form.cc:217-226 | the key of the expression, a new one only if it has none; the keys handed out before keep their meaning and entries stay distinct |
| AndOfOrs.AndOfOrs.constructor | src/arith/conjunctive_normal_form.cc:148-171 | duplicates and permuted chunks dropped, the chunks have the truth value of the expression |
| AndOfOrs.AndOfOrs.TrySimplifyOr | src/arith/conjunctive_normal_form.cc:247-261 | the two keys and the table of the specification |
| AndOfOrsTruth.OrKeysTruth | src/arith/conjunctive_normal_form.cc:247-261 | those keys have the disjunction of the given two |
| AndOfOrs.AndOfOrs.TrySimplifyAnd | src/arith/conjunctive_normal_form.cc:263-277 | the two keys and the table of the specification |
| AndOfOrsTruth.AndKeysTruth | src/arith/conjunctive_normal_form.cc:263-277 | those keys have the conjunction of the given two, wherever what is known holds |
| AndOfOrs.AndOfOrs.SimplifyWithinChunks | src/arith/conjunctive_normal_form.cc:286-297 | the form of the specification, with the truth value kept over all pairs of all chunks |
| AndOfOrsTruth.KnownRight | src/arith/conjunctive_normal_form.cc:363-373 | what is assumed holds exactly where no other key of the chunk is true |
| AndOfOrsTruth.PairAcrossTruth | src/arith/conjunctive_normal_form.cc:302-381 | one pair of chunks: absorption and merging keep the truth value when a merge, if there is one, is of mergeable chunks |
| AndOfOrsTruth.PairAcrossOk | src/arith/conjunctive_normal_form.cc:302-381 | which it is when the second chunk repeats no key or no chunk has more than two keys |
| AndOfOrs.AndOfOrs.SimplifyAcrossChunks | src/arith/conjunctive_normal_form.cc:299-384 | the form of the specification, with the truth value kept over all pairs if every merge is of mergeable chunks |
| AndOfOrs.AndOfOrs.RemoveTrueFalse | src/arith/conjunctive_normal_form.cc:386-411 | the truth value is kept, and no constant is left, except for the one empty chunk of a contradiction |
| AndOfOrs.AndOfOrs.AsPrimExpr | src/arith/conjunctive_normal_form.cc:235-245 | the expression has the truth value of the chunks |
| AndOfOrs.AndOfOrs.Simplify | src/arith/conjunctive_normal_form.cc:279-284 | the four passes end in the form of the specification and keep the truth value if every merge is of mergeable chunks |
| AndOfOrsTruth.ResultRight | src/arith/conjunctive_normal_form.cc:436-441 | the result for every input, as a function of it and the rewriter, is equivalent to the input throughout the context whenever the run is fair, which is a function of the two as well, and true when no conjunct has more than two disjuncts |
| AndOfOrs.SimplifyAsAndOfOrs | src/arith/conjunctive_normal_form.cc:436-441 | returns that result, equivalent to the expression throughout the context whenever the run is fair or no conjunct has more than two disjuncts |
| AndOfOrsLean.AcrossIdle | src/arith/conjunctive_normal_form.cc:299-384 | for a rewriter with nothing to rewrite, the pass over all pairs of chunks only drops chunks, and leaves no two of which one has all keys of the other, unless both are single |
| AndOfOrsLean.AbsorbedAll | src/arith/conjunctive_normal_form.cc:279-284 | so such a run ends with conjuncts of the input, free of constants, of which none absorbs another |
| BoundDeducer.GetPath | src/arith/bound_deducer.cc:42-71 | empty exactly when the variable does not occur, otherwise it starts at the expression |
| BoundDeducer.PathDown | src/arith/bound_deducer.cc:42-71 | the path goes down one operand at a time and ends at the variable or at a select around it |
| BoundDeducer.MulStep | src/arith/bound_deducer.cc:125-164 | dividing both sides by a factor of either sign is exact for each operator |
| BoundDeducer.RoundExactIff | src/arith/bound_deducer.cc:140-163 | rounding up without proof is always enough and, for a factor of either sign, exact only when the division is uneven |
| BoundDeducer.RoundFails | src/arith/bound_deducer.cc:140-163 | concrete failure: 2 meets 2x >= 4 and -2x <= -4, and both are answered by x >= 3 |
| BoundDeducer.DivStep | src/arith/bound_deducer.cc:179-208 | undoing a floor division is exact for a divisor of either sign |
| BoundDeducer.BoundDeducer.VisitAdd | src/arith/bound_deducer.cc:107-111 | the comparison with the other operand moved over is equivalent |
| BoundDeducer.BoundDeducer.VisitSub | src/arith/bound_deducer.cc:113-123 | the same, the operator reversed for a subtrahend |
| BoundDeducer.BoundDeducer.VisitMul | src/arith/bound_deducer.cc:125-165 | the divided comparison is enough where no factor divided by is zero, or zero itself meets the comparison, and equivalent where no rounding was needless and no factor zero; for an inequality it fails exactly when the sign of the factor is not known |
| BoundDeducer.BoundDeducer.VisitFloorDiv | src/arith/bound_deducer.cc:167-211 | the comparison of the dividend is equivalent unless the divisor is zero; for an inequality it fails exactly for a divisor on the path, one proved equal to zero, or one of unknown sign |
| BoundDeducer.BoundDeducer.Visit | src/arith/bound_deducer.cc:86-211 | reaches the comparison that the specification of the walk gives, or fails where it does |
| BoundDeducer.WalkLinked | src/arith/bound_deducer.cc:86-211 | along every path the bound on the variable is enough for the comparison at the start where zero operands meet what they are divided out of and, where no rounding was needless and no operand zero, equivalent |
| BoundDeducer.WalkedIff | src/arith/bound_deducer.cc:86-211 | for an inequality the walk succeeds exactly on the paths without an operand of unknown sign, a divisor on the path or one proved zero |
| BoundDeducer.ZeroStepIff | src/arith/bound_deducer.cc:125-211 | dividing by an operand of value zero is enough for all values of the variable exactly when zero meets the comparison |
| BoundDeducer.NoZeroIsRight | src/arith/bound_deducer.cc:125-211 | and never comes up when no operand on the path has a zero sign, a condition on the hints |
| BoundDeducer.ZeroFactorFails | src/arith/bound_deducer.cc:125-165 | concrete failure: x * y >= 1 with y hinted to be zero is answered by x >= 1 // y + 1, which x = 5, y = 0 meets |
| BoundDeducer.WalkAvoids | src/arith/bound_deducer.cc:86-211 | a variable that occurs once is not in its own bound |
| BoundDeducer.BoundDeducer.Transform | src/arith/bound_deducer.cc:270-331 | succeeds exactly on comparisons other than !=; the rearranged one holds exactly where the given one does, the target on its left side |
| BoundDeducer.BoundDeducer.Relax | src/arith/bound_deducer.cc:354-371 | succeeds exactly when the deciding ends are finite; the relaxed comparison implies the given one however the relaxed variables move in their ranges, and is equivalent where nothing moves |
| BoundDeducer.BoundDeducer.Deduce | src/arith/bound_deducer.cc:333-352 | succeeds exactly where the specification does; the bound is enough for the comparison for all values of the relaxed variables where zero operands meet it, and equivalent where both sides have single values, no rounding was needless and no operand is zero, conditions on the comparison alone |
| BoundDeducer.AnsweredIff | src/arith/bound_deducer.cc:333-352 | whether there is an answer, from the comparison and the ranges alone: the target occurs once, the ends that decide are finite and every operand on its path has a known sign; an equation is answered along a path of sums and differences, and nothing but comparisons is |
| BoundDeducer.DeduceBound | src/arith/bound_deducer.cc:373-389 | for an inequality an interval exactly when the target occurs once, the deciding ends are finite and the path is walkable; every value of the target in it makes the comparison true for all values of the relaxed variables, unless an operand on the path has a zero sign and zero does not meet the comparison; all such values are in it where both sides have single values, no rounding was needless and no operand is zero; it does not mention the target if the relaxed side mentions it once and no range does |

## Left out

- IterMapDetect.DetectIterMap: below the bijective level it returns nothing when padding is required; the second, padded pass is modelled per use, with the exact condition for the value of each (`IterPadding`), and not as a whole. When a map is detected is settled for indices that are stacks of digits; for others what a detected map is.
- SplitCover.TryNormalizeSplits: without the case of a padded mark.
- FuseIters.TryFuseIters: without iterators constrained by predicates.
- IterMapDetect.IterMapSimplify: without the retry after dropping the predicate.
- IterRewriter.IterMapRewriter.DirectMutate: bases, scales, extents and divisors are integer constants, inputs start at zero, and a divisor that is not positive gives nothing.
- IndexMap.Inverse: without a user-defined inverse and without the padding predicate of the non-surjective form.
- IterMapDetect.InverseIndexMap: when there is an inverse is settled for indices that are sums of digits of different variables, even divisions included; for other indices only what a returned inverse does.
- SubspaceDivide.SubspaceDivider.DivideBinding: a binding of more than one arg, which detection never produces, is refused.
- LinearSolver.SolveLinearEquations: with range bounds over unknowns the exact condition of the way back is for a simplification that brings in no variables.
- SubspaceDivide.SubspaceDivide: only maps that pass the bijective check, so no predicate is ever needed.
- CanonicalSimplify.Simplify: the rewrite rules it inherits are left to the facts given, divisions other than by positive constants are left as they are, and it gives nothing where a lower factor that must be positive is not; a dividend from which a division is subtracted keeps its value if the folds recorded are good.
- CanonicalSimplify.CanonicalSimplifier.CanonicalMutate: without casts, reductions and the product patterns of ProdDivSimplify.
- AnalyzerScopes.Analyzer.BindExpr: without the simplification of the expression before it is bound and without overriding a binding.
- ConstBound.InfAddSound: opposite infinities, which the source refuses, are given a value.
- Domains.AnalysisSound: for valuations in which no subexpression overflows or divides by zero; shifts, bitwise and, casts, let and the logarithm pattern are left out.
- AndOfOrs.SimplifyAsAndOfOrs: the analyzer's rewrite simplifier is a parameter that must be right in the context and under what is assumed.
- BoundDeducer.DeduceBound: a half-infinite set on the side that decides gives nothing, where the source goes on with a symbolic infinity; unsigned operands are left out; a quotient by zero has the value zero.
- A split is one node of the iterator graph; the sharing of one split object by two sums is not modelled.
- Overflow of 64-bit integers is modelled only in the constant bounds.
- The rewrite simplifier's rules, the integer-set and transitive-comparison analyses, loop domain detection and inequality solving are not modelled.
- Trivial-iterator simplification, predicates on iterators and NormalizeToIterSum's ordering of symbolic scales are not modelled.
- Logging, error texts and reflection are not modelled.
