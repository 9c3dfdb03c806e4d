# Simplex tableau engine, modelled in Dafny

This project models the tableau engine of a two-phase simplex-method solver that ships in two revisions.

- **Current revision** (`SimplexMethod/src/`): a generic engine instantiated for `float` and for an exact `Fraction` type.
- **Older revision** (`SimplexMethod/`): float-only.

A **tableau** is a matrix whose last row is the objective row and whose last column is the right-hand side (RHS). A **step** is one snapshot of the algorithm. It holds:

- the tableau;
- the variable ids: the basic ids first, one per constraint row, then one per non-RHS column;
- the chosen lead cell;
- the banned rows;
- the mode, which is automatic or step-by-step;
- the phase, which is artificial (phase one) or simplex (phase two);
- the completed and waiting-for-input flags.

The model covers these parts, each proved against a specification of what it promises:

- exact fractions (`Fraction`, `gcd`, `Clamp`);
- the row-major tableau buffer (`Matrix`);
- the state classifier (`CheckAlgorithmState`);
- the pivot step (`SimplexStep`), with its automatic lead search;
- the two objective-row builders;
- Gaussian elimination and the explicit-basis setup;
- the two drivers, `ArtificialBasis` and `SimplexAlgorithm`: the candidate lead cells, the bounded pivot loop, the id exchange and the retirement of artificial variables.

How the source is represented:

- Floats are modelled as Dafny `real`, and `EPSILON` is the exact rational `1/100000`.
- The fractional instantiation is modelled by the rational values of its cells. Its "zero element" is `0`, and the `Fractions` lemmas show that every `Fraction` operation is exact on those values.
- `ZeroElement` is `EPSILON` for floats and `0` for fractions.
- A `Fraction` compared by `<` with a float literal goes through `Fraction::operator<(int)` (`SimplexMethod/src/Common.h:81-84`), because `Fraction` has no float constructor. The literal is truncated to an integer first. So the fractional classifier's phase-one test `RHS < -EPSILON` (`SimplexMethod/src/main.cpp:102`) is `RHS < 0`. In both overloads the threshold is minus `ZeroElement`.
- Procedures that update a matrix in place are methods on the `Matrices.Matrix` class, which owns an `array2` buffer.
- Steps are values of the `Steps.Step` datatype.
- Loops are `while` loops with invariants. Each method's result is tied to a specification function, and the lemmas are stated over that function.

Two facts about the code that the model follows:

- A price-out entry is the variable's cost minus the basis-weighted column sum (`SimplexMethod/src/main.cpp:313-328`).
- Neither revision negates rows whose RHS is negative before phase one, and the model does not either.

Modules and file layout:

- `basicmath.dfy` (`BasicMath`): C-style `/` and `%`, `gcd`, `Clamp`.
- `fractions.dfy` (`Fractions`): `Fraction`, normalisation, arithmetic, comparisons, the in-place `FractionCell`.
- `matrices.dfy` (`Matrices`): the `Matrix` class over `array2` and its value view `Grid`.
- `steps.dfy` (`Steps`): `Step`, `RowAndColumn`, `AlgorithmState`, `ZeroElement`, `EPSILON`.
- `linear.dfy` (`LinearForms`): dot products; what it means for a point to satisfy the tableau's rows.
- `statecheck.dfy, legacystatecheck.dfy` (`StateCheck`, `LegacyStateCheck`): the two classifiers.
- `pivoting.dfy` (`Pivoting`): the pivot cell formulas.
- `leadselection.dfy` (`LeadSelection`): the automatic column search and the ratio test.
- `simplexstep.dfy, legacysimplexstep.dfy` (`SimplexSteps`, `LegacySimplexSteps`): `SimplexStep` in both revisions.
- `objectiverows.dfy` (`ObjectiveRows`): the phase-one objective and price-out.
- `gauss.dfy, gaussproperties.dfy` (`Gauss`, `GaussProperties`): `GaussElimination` and what it promises.
- `explicitbasis.dfy` (`ExplicitBases`): `ExplicitBasis` in both revisions.
- `leadcandidates.dfy` (`LeadCandidates`): the lead cells offered in step-by-step mode.
- `drivers.dfy, driverproperties.dfy` (`Drivers`, `DriverProperties`, `DriverOutcomes`): the current drivers.
- `legacydrivers.dfy, legacydriverproperties.dfy` (`LegacyDrivers`, `LegacyDriverProperties`, `LegacyDriverOutcomes`): the older drivers.

## Model

| member | source | states |
|---|---|---|
| BasicMath.CDiv | SimplexMethod/src/Common.h:35-36 | C++ integer division truncates toward zero: the quotient's magnitude is the quotient of the magnitudes, and a non-zero quotient is negative exactly when the operands differ in sign |
| BasicMath.CRem | SimplexMethod/src/Common.h:13 | C++ `%`: the remainder is zero or takes the sign of the dividend, its magnitude is the remainder of the magnitudes and below the divisor's, and quotient times divisor plus remainder gives back the dividend |
| BasicMath.GcdMagnitude | SimplexMethod/src/Common.h:10-14 | the recursive `gcd` with C `%` is, up to sign, the greatest common divisor of the magnitudes |
| BasicMath.NatGcdDividesBoth | SimplexMethod/src/Common.h:10-14 | the gcd divides both arguments |
| BasicMath.Clamp | SimplexMethod/src/Common.h:16-21 | max whenever the value is above max (tested first), otherwise min whenever it is below min, otherwise the value; so for min <= max the result lies within [min, max] |
| Fractions.Normalize | SimplexMethod/src/Common.h:31-37 | for a non-zero denominator: positive denominator, lowest terms, same rational value, and 0/d becomes 0/1; a zero denominator gives ±1/0 |
| Fractions.NormalizedUnique | SimplexMethod/src/Common.h:31-37 | two normalised fractions with the same value are identical (normal form is canonical) |
| Fractions.NormalizeIdempotent | SimplexMethod/src/Common.h:31-37 | normalising a normalised fraction changes nothing |
| Fractions.ReducedBySignedGcd | SimplexMethod/src/Common.h:33-36 | dividing both parts by the signed C `gcd` keeps the value and leaves a non-zero denominator |
| Fractions.FractionCell.constructor | SimplexMethod/src/Common.h:29 | a fraction object holding the given numerator and denominator, unnormalised |
| Fractions.FractionCell.NormalizeFraction | SimplexMethod/src/Common.h:31-37 | the in-place normalisation leaves the normal form of the old value |
| Fractions.FractionCell.AddAssign | SimplexMethod/src/Common.h:202-215 | `+=` leaves the normalised exact sum of the old value and the operand |
| Fractions.Mul | SimplexMethod/src/Common.h:46-54 | the exact product, normalised |
| Fractions.Div | SimplexMethod/src/Common.h:154-165 | for a non-zero divisor, the exact quotient, normalised; for a zero divisor, a result with denominator 0 (the guard has no effect) |
| Fractions.DivChecked | SimplexMethod/src/Common.h:154-165 | the intended division: normalised, 0/1 for a zero divisor, and otherwise the exact quotient |
| Fractions.DivByZeroAsWritten | SimplexMethod/src/Common.h:155-157 | as written, 1/1 divided by 0/1 gives 1/0, while the intended division gives 0/1 |
| Fractions.Add | SimplexMethod/src/Common.h:167-181 | the exact sum, normalised, for both the equal-denominator and the cross-multiplying branch |
| Fractions.Sub | SimplexMethod/src/Common.h:183-196 | the exact difference, normalised |
| Fractions.Neg | SimplexMethod/src/Common.h:198-200 | keeps the denominator, negates the value, and keeps a normalised fraction normalised |
| Fractions.AddSubCancel | SimplexMethod/src/Common.h:167-196 | subtracting what was added gives back a normalised original |
| Fractions.AddCommutes | SimplexMethod/src/Common.h:167-181 | `+` does not depend on the order of its operands |
| Fractions.MulDivCancel | SimplexMethod/src/Common.h:46-165 | dividing by a non-zero factor undoes multiplying by it |
| Fractions.NegInverse | SimplexMethod/src/Common.h:198-200 | negating twice gives back the fraction, and a fraction plus its negation is 0/1 |
| Fractions.Less | SimplexMethod/src/Common.h:134-152 | for positive denominators, true exactly when the first value is below the second |
| Fractions.Greater | SimplexMethod/src/Common.h:56-74 | for positive denominators, true exactly when the first value is above the second |
| Fractions.LessEq | SimplexMethod/src/Common.h:86-96 | for positive denominators, the rational order `<=` |
| Fractions.LessInt | SimplexMethod/src/Common.h:81-84 | for a positive denominator, the value is below the integer |
| Fractions.GreaterInt | SimplexMethod/src/Common.h:76-79 | for a positive denominator, the value is above the integer |
| Fractions.NotEqual | SimplexMethod/src/Common.h:122-132 | true exactly when the two values differ |
| Fractions.Equal | SimplexMethod/src/Common.h:98-120 | two zero numerators compare equal, and `==` never reports two different values as equal |
| Fractions.EqualComplete | SimplexMethod/src/Common.h:98-120 | on normalised fractions, `==` holds exactly when the values are equal |
| Fractions.CrossLessImplied | SimplexMethod/src/Common.h:134-152 | the cross-multiplication test the source uses decides the rational order |
| Fractions.CrossEqualImplied | SimplexMethod/src/Common.h:122-132 | equal cross products mean equal values, and conversely |
| Fractions.IntCompare | SimplexMethod/src/Common.h:76-84 | numerator against value times denominator decides `<` and `>` against an integer |
| Matrices.DeleteColumnOf | SimplexMethod/src/Common.h:339-358 | column k removed: the entries left of k are unchanged, those right of it shift left by one, and the row count is kept |
| Matrices.SwapRowsOf | SimplexMethod/src/Common.h:395-401 | rows a and b exchanged, every other row unchanged |
| Matrices.SwapColumnsOf | SimplexMethod/src/Common.h:387-393 | columns a and b exchanged in every row, everything else unchanged |
| Matrices.Swapped | SimplexMethod/src/main.cpp:561 | `std::swap` of two entries, all other entries unchanged |
| Matrices.SwappedPermutes | SimplexMethod/src/main.cpp:561 | a swap keeps the multiset of entries |
| Matrices.SwapRowsSelfInverse | SimplexMethod/src/Common.h:395-401 | swapping two rows twice restores the matrix |
| Matrices.SwapColumnsSelfInverse | SimplexMethod/src/Common.h:387-393 | swapping two columns twice restores the matrix |
| Matrices.SwapRowsPermutes | SimplexMethod/src/Common.h:395-401 | a row swap only reorders the rows |
| Matrices.FlattenIndex | SimplexMethod/src/Common.h:374-377 | in row-major storage, element (i, j) sits at i * ColNumber + j |
| Matrices.Matrix.constructor | SimplexMethod/src/Common.h:321-325 | a fresh buffer with the requested RowNumber and ColNumber |
| Matrices.Matrix.Copy | SimplexMethod/Common.h:61-66 | the copy constructor: same dimensions, element-wise equal contents, its own buffer |
| Matrices.Matrix.Assign | SimplexMethod/Common.h:105-111 | `operator=`: the other matrix's dimensions and contents in a fresh buffer |
| Matrices.Matrix.DeleteColumn | SimplexMethod/Common.h:69-88 | ColNumber drops by one, RowNumber is kept, and the contents become those with the column deleted |
| Matrices.Matrix.Resize | SimplexMethod/Common.h:90-98 | the new dimensions over a fresh buffer; the old contents are not promised |
| Matrices.Matrix.RowOffset | SimplexMethod/Common.h:100-103 | `operator[]`: for row < RowNumber, the offset row * ColNumber, and the ColNumber elements from there are exactly that row |
| Matrices.Matrix.SwapColumns | SimplexMethod/Common.h:113-119 | for indices below ColNumber - 1: the contents with the two columns exchanged, nothing else changed |
| Matrices.Matrix.SwapRows | SimplexMethod/Common.h:121-127 | for indices below RowNumber - 1: the contents with the two rows exchanged, nothing else changed |
| Matrices.CopyCells | SimplexMethod/src/Common.h:331-336 | the element-wise copy (`memmove`) of one buffer into another of the same shape |
| Steps.ZeroElement | SimplexMethod/src/main.cpp:131-139 | the tolerance is never negative, and it is zero exactly for fractions |
| StateCheck.CheckAlgorithmState | SimplexMethod/src/main.cpp:41-110 | never UNDEFINED. UNLIMITED_SOLUTION exactly when some column with an objective entry below -zero has no constraint entry above zero. COMPLETED or SOLUTION_DOESNT_EXIST exactly when no column is negative. SOLUTION_DOESNT_EXIST exactly when, in addition, the step is in phase one and the RHS is below -zero: -EPSILON for floats, 0 for fractions |
| StateCheck.CompletedMeansOptimal | SimplexMethod/src/main.cpp:44-59 | on a COMPLETED tableau no feasible point has an objective above the RHS, up to zero times the sum of the non-basic values (exactly optimal for fractions) |
| StateCheck.BasicSolutionSatisfies | SimplexMethod/src/main.cpp:41-74 | the basic solution, with non-basic values 0 and basic values the RHS column, satisfies every row |
| StateCheck.UnlimitedMeansUnbounded | SimplexMethod/src/main.cpp:50-55 | on an exact UNLIMITED_SOLUTION tableau whose constraint RHS entries are non-negative, every bound M is exceeded by the objective of some point that satisfies every row with non-negative values |
| StateCheck.RayPoint | SimplexMethod/src/main.cpp:50-55 | moving t >= 0 along a column from the basic solution gives a point that satisfies every row |
| StateCheck.NoSolutionMeansInfeasible | SimplexMethod/src/main.cpp:62-104 | under SOLUTION_DOESNT_EXIST every feasible point keeps the artificial objective below -zero, up to the tolerance accumulated over the non-basic values. For fractions it is negative, so phase one cannot reach zero |
| StateCheck.FractionalSmallDeficitInfeasible | SimplexMethod/src/main.cpp:98-104 | a fractional phase-one tableau with no negative column and objective RHS -1/1000000, inside [-EPSILON, 0), is SOLUTION_DOESNT_EXIST |
| LegacyStateCheck.CheckAlgorithmState | SimplexMethod/main.cpp:52-80 | never UNDEFINED or SOLUTION_DOESNT_EXIST; CONTINUE exactly when some column can enter; in automatic mode with CONTINUE, the column index becomes the last column that can enter, and otherwise it is left as passed |
| LegacyStateCheck.LastEnteringColumn | SimplexMethod/main.cpp:61-64 | -1 exactly when no column can enter; otherwise a column that can enter with none after it |
| LegacyStateCheck.RevisionsAgreeOnCompleted | SimplexMethod/main.cpp:52-80 | both revisions call a phase-two float tableau COMPLETED alike |
| LegacyStateCheck.LegacyUnlimitedIsUnlimited | SimplexMethod/main.cpp:68-75 | an older UNLIMITED_SOLUTION is also a current UNLIMITED_SOLUTION |
| LegacyStateCheck.RevisionsDisagree | SimplexMethod/main.cpp:68-70 | the tableau [[0,1,5],[-1,-1,0]] is UNLIMITED_SOLUTION for the current revision and CONTINUE for the older one |
| Pivoting.PivotSpec | SimplexMethod/src/main.cpp:230-258 | same dimensions; the lead becomes 1/L, the rest of its row is divided by L, the rest of its column is divided by -L, and every other cell becomes x - u*v/L |
| Pivoting.Pivot | SimplexMethod/main.cpp:126-148 | the in-place pivot leaves exactly the pivoted tableau |
| Pivoting.ScaleLeadRow | SimplexMethod/src/main.cpp:231-243 | the lead row holds its pivoted values, and the other rows are untouched |
| Pivoting.ScaleLeadColumn | SimplexMethod/src/main.cpp:245-249 | the lead column holds its pivoted values, and nothing else changes |
| Pivoting.EliminateRow | SimplexMethod/src/main.cpp:251-258 | one row outside the lead row and the lead column gets x - u*v/L, and nothing else changes |
| Pivoting.PivotPreservesSolutions | SimplexMethod/src/main.cpp:230-258 | a point satisfying the tableau satisfies the pivoted tableau once the entering and leaving values trade places |
| Pivoting.PivotEquivalence | SimplexMethod/src/main.cpp:230-258 | a point satisfies the tableau if and only if the exchanged point satisfies the pivoted tableau |
| Pivoting.PivotInvolution | SimplexMethod/src/main.cpp:230-258 | pivoting twice on the same cell restores the tableau |
| Pivoting.PivotObjectiveMonotone | SimplexMethod/src/main.cpp:256 | a pivot on a positive lead with a non-negative RHS, in a column with a negative objective entry, does not lower the objective RHS |
| LeadSelection.AutoColumn | SimplexMethod/src/main.cpp:173-192 | -1 exactly when no cell qualifies; otherwise a negative column with an entry above zero |
| LeadSelection.ChooseLeadColumn | SimplexMethod/src/main.cpp:173-192 | the nested search loops return the automatic column |
| LeadSelection.RatioRow | SimplexMethod/src/main.cpp:195-213 | -1 exactly when no entry exceeds zero; otherwise a row with an entry above zero and the least RHS/entry ratio, the first row on ties |
| LeadSelection.ChooseLeadRow | SimplexMethod/src/main.cpp:195-213 | the ratio-test loop returns that row and the lead at it |
| LeadSelection.ContinueFindsLead | SimplexMethod/src/main.cpp:142-213 | on CONTINUE the automatic search finds a column and a ratio-test row in it |
| LeadSelection.RatioPivotKeepsFeasible | SimplexMethod/src/main.cpp:195-258 | pivoting a feasible tableau on the ratio-test row keeps every constraint RHS non-negative |
| LeadSelection.PivotRhs | SimplexMethod/src/main.cpp:239-258 | the pivoted RHS column, row by row |
| SimplexSteps.SimplexStep | SimplexMethod/src/main.cpp:112-276 | the step it returns is the step function of its input |
| SimplexSteps.AutoLead | SimplexMethod/src/main.cpp:173-213 | on CONTINUE, a constraint row and a non-RHS column whose entry is above zero |
| SimplexSteps.ChooseLead | SimplexMethod/src/main.cpp:157-220 | a non-zero lead within the tableau, on which the step pivots |
| SimplexSteps.PivotStep | SimplexMethod/src/main.cpp:230-274 | the pivot plus the bookkeeping of the new step |
| SimplexSteps.AutomaticStepIsPivot | SimplexMethod/src/main.cpp:157-274 | an automatic step on CONTINUE pivots on the automatic lead |
| SimplexSteps.SimplexStepOutcome | SimplexMethod/src/main.cpp:112-276 | The step keeps the mode, the phase, the ids and the lead cell. It returns the same tableau, marked completed and with the same id, exactly when it was completed or the verdict is not CONTINUE. Otherwise it pivots on its lead, adds one to the id, and appends the lead row to the banned rows |
| SimplexSteps.AutomaticLeadIsRatioTest | SimplexMethod/src/main.cpp:173-213 | the automatic lead lies in a negative column, is above zero, and has the least ratio; the first such row on ties |
| SimplexSteps.AutoLeadIsRatioTest | SimplexMethod/src/main.cpp:173-213 | the same, stated on the tableau alone |
| SimplexSteps.SimplexStepPreservesSolutions | SimplexMethod/src/main.cpp:230-258 | a step that pivots keeps the tableau's solution set, up to the exchange of the entering and leaving values |
| SimplexSteps.AutomaticStepImproves | SimplexMethod/src/main.cpp:173-258 | an automatic step on a feasible tableau keeps it feasible and does not lower the objective RHS, when no entry of the column lies in the tolerance band |
| SimplexSteps.AutoLeadImproves | SimplexMethod/src/main.cpp:173-258 | the same, stated on the tableau alone |
| SimplexSteps.FractionalStepImproves | SimplexMethod/src/main.cpp:173-258 | with exact fractions every automatic step keeps feasibility and does not lower the objective RHS |
| LegacySimplexSteps.LegacySimplexStep | SimplexMethod/main.cpp:82-157 | the older step it returns is the older step function of its input |
| LegacySimplexSteps.LegacyAutoLead | SimplexMethod/main.cpp:99-115 | on the older CONTINUE, a constraint row and a non-RHS column whose entry is above EPSILON |
| LegacySimplexSteps.LegacyChooseLead | SimplexMethod/main.cpp:99-120 | a non-zero lead on which the older step pivots |
| LegacySimplexSteps.LegacyAutomaticStepIsPivot | SimplexMethod/main.cpp:99-148 | an older automatic step pivots on the ratio-test row of the last column that can enter |
| LegacySimplexSteps.LegacyContinueFindsLead | SimplexMethod/main.cpp:87-115 | on the older CONTINUE, a column that can enter and a ratio-test row in it exist |
| LegacySimplexSteps.LegacySimplexStepOutcome | SimplexMethod/main.cpp:150-156 | keeps the mode and the ids; does not move exactly when the older verdict is not CONTINUE; otherwise pivots, adds one to the id and bans the lead row |
| LegacySimplexSteps.LegacyAutomaticLeadIsRatioTest | SimplexMethod/main.cpp:105-115 | the older automatic lead lies in the last column that can enter, is above EPSILON, and has the least ratio |
| LegacySimplexSteps.RevisionsPivotAlike | SimplexMethod/main.cpp:82-157 | when both searches pick the same column, the two revisions compute the same float step |
| ObjectiveRows.ArtificialObjective | SimplexMethod/src/main.cpp:278-296 | constraint rows unchanged; every objective entry, the RHS included, is minus its column's sum |
| ObjectiveRows.MakeArtificialFunctionCoefficients | SimplexMethod/main.cpp:159-167 | the in-place loops leave the phase-one tableau |
| ObjectiveRows.ArtificialObjectiveMeaning | SimplexMethod/src/main.cpp:278-296 | a point satisfying the constraint rows satisfies the phase-one tableau, with the objective equal to minus the sum of the basic values |
| ObjectiveRows.PriceOut | SimplexMethod/src/main.cpp:298-329 | constraint rows unchanged; objective entry j is the cost of column j's variable minus the basis-cost-weighted column sum; the RHS is minus (the weighted RHS sum plus the constant) |
| ObjectiveRows.MakeSimplexAlgorithmFunctionCoefficients | SimplexMethod/src/main.cpp:378-409 | the in-place loops over a scratch copy leave the priced-out tableau |
| ObjectiveRows.PriceOutCells | SimplexMethod/src/main.cpp:313-328 | every cell of the priced-out tableau: the constraint rows as they were, and the objective row entry by entry |
| ObjectiveRows.ScaleBasisRows | SimplexMethod/src/main.cpp:302-310 | the scratch copy's constraint rows are scaled by minus their basis cost, and their RHS cells by plus that cost |
| ObjectiveRows.ScaleRow | SimplexMethod/src/main.cpp:303-309 | one scratch row scaled, the other rows untouched |
| ObjectiveRows.FillObjectiveRow | SimplexMethod/src/main.cpp:313-328 | the objective row is written from the column totals, and the constraint rows are left alone |
| ObjectiveRows.ScratchColumnTotal | SimplexMethod/src/main.cpp:314-318 | one column total of the scratch copy equals the weighted column sum of the original tableau, with its sign |
| ObjectiveRows.ObjectiveEntryIs | SimplexMethod/src/main.cpp:313-328 | the objective entry in terms of the basis costs and the cost of the column's variable |
| ObjectiveRows.BasisCosts | SimplexMethod/src/main.cpp:304 | the cost of each constraint row's basic variable, looked up through its 1-based id |
| ObjectiveRows.NonBasisCosts | SimplexMethod/src/main.cpp:320 | the cost of each non-RHS column's variable |
| ObjectiveRows.PriceOutMeaning | SimplexMethod/src/main.cpp:298-329 | a point satisfying the constraint rows satisfies the priced-out tableau, with the objective equal to minus the objective value |
| ObjectiveRows.PriceOutAsWritten | SimplexMethod/src/main.cpp:331-376 | the generic overload as written, with the same shape as the tableau |
| ObjectiveRows.PriceOutAsWrittenOffByEpsilon | SimplexMethod/src/main.cpp:370-375 | the generic overload differs from price-out only at the objective RHS, which is lower by ZeroElement; for floats the two differ |
| Gauss.CurrentTolerance | SimplexMethod/src/main.cpp:802 | the skip test `<= ZeroElement`, a valid tolerance |
| Gauss.LegacyTolerance | SimplexMethod/main.cpp:535 | the skip test `< EPSILON`, a valid tolerance |
| Gauss.SearchEnd | SimplexMethod/src/main.cpp:795 | the search bound as written, or the corrected one; neither passes the last constraint row |
| Gauss.MaxPivotRow | SimplexMethod/src/main.cpp:792-800 | a row from the pivot row on whose magnitude in the column is largest among the rows searched, the first such row |
| Gauss.Forward | SimplexMethod/src/main.cpp:789-825 | the forward phase keeps the shape and never writes the objective row |
| Gauss.PivotStage | SimplexMethod/src/main.cpp:805-820 | a pivoting stage swaps rows and clears below, keeping the objective row |
| Gauss.GaussSpec | SimplexMethod/src/main.cpp:775-848 | the whole elimination keeps the shape and the objective row |
| Gauss.GaussAsWritten | SimplexMethod/src/main.cpp:775-848 | the elimination with the search bound as written keeps the shape and the objective row |
| Gauss.GaussElimination | SimplexMethod/src/main.cpp:775-848 | the in-place elimination leaves the specified result (with the corrected search bound), for either skip tolerance: the current `<= ZeroElement` test used by the current explicit-basis setup, or the older `< EPSILON` test of the same routine at `SimplexMethod/main.cpp:519-577` |
| Gauss.ForwardPhase | SimplexMethod/src/main.cpp:789-825 | the first loop leaves the forward phase's result |
| Gauss.ForwardStage | SimplexMethod/src/main.cpp:790-824 | one pass: skip the column, or swap the largest row up and clear below it |
| Gauss.ForwardSkips | SimplexMethod/src/main.cpp:802-804 | when the largest entry found is negligible, the column is skipped and the pivot row stays |
| Gauss.ForwardPivots | SimplexMethod/src/main.cpp:805-820 | otherwise the largest row is swapped into the pivot row, its entry is non-zero, and the rows below are cleared before the next row and column |
| Gauss.BackwardPhase | SimplexMethod/src/main.cpp:828-838 | the second loop leaves the backward phase's result |
| Gauss.NormalizePhase | SimplexMethod/src/main.cpp:841-847 | the third loop divides each row by its diagonal entry |
| Gauss.FindMaxPivot | SimplexMethod/src/main.cpp:792-800 | the search loop returns the row of largest magnitude |
| Gauss.EliminateRowsBelow | SimplexMethod/src/main.cpp:808-820 | the rows below the pivot have the pivot column cleared |
| Gauss.EliminateRow | SimplexMethod/src/main.cpp:810-819 | one row has its multiple of the pivot row taken away |
| Gauss.BackSubstituteColumn | SimplexMethod/src/main.cpp:829-837 | the rows above the pivot have its column cleared |
| Gauss.SubtractPivotMultiple | SimplexMethod/src/main.cpp:831-836 | one row above the pivot has its multiple of the pivot row taken away |
| Gauss.NormalizeRowAt | SimplexMethod/src/main.cpp:842-846 | one row divided by its diagonal entry |
| GaussProperties.GaussKeepsSolutions | SimplexMethod/src/main.cpp:775-848 | exact elimination leaves zeros below the diagonal, and a point solves the constraint rows afterwards exactly when it did before |
| GaussProperties.GaussReducesToIdentity | SimplexMethod/src/main.cpp:828-847 | after exact elimination every diagonal entry is 0 or 1, and a column whose diagonal entry is 1 is otherwise zero |
| GaussProperties.ExactGaussShape | SimplexMethod/src/main.cpp:775-848 | exact elimination leaves a lower-zero, reduced tableau with a 0/1 diagonal |
| GaussProperties.ForwardLeavesLowerZero | SimplexMethod/src/main.cpp:789-825 | after the exact forward phase every constraint row below a pivot row holds 0 in that pivot column |
| GaussProperties.ForwardZeroPattern | SimplexMethod/src/main.cpp:789-825 | from any stage whose earlier pivots are cleared below, the exact forward phase ends lower-zero |
| GaussProperties.ExactBackwardShape | SimplexMethod/src/main.cpp:828-838 | the backward phase keeps the lower zeros and clears each pivot column above the pivot |
| GaussProperties.BackwardReduces | SimplexMethod/src/main.cpp:828-838 | exact back substitution clears every pivot column above its pivot |
| GaussProperties.SkippedColumnIsNegligible | SimplexMethod/src/main.cpp:802-804 | a column is skipped only when every searched entry in it is negligible |
| GaussProperties.ForwardKeepsSolutions | SimplexMethod/src/main.cpp:789-825 | the forward phase keeps the solution set of the constraint rows |
| GaussProperties.BackwardKeepsSolutions | SimplexMethod/src/main.cpp:828-838 | the backward phase keeps the solution set |
| GaussProperties.NormalizeKeepsSolutions | SimplexMethod/src/main.cpp:841-847 | dividing rows by their non-zero diagonal keeps the solution set |
| GaussProperties.SwapKeepsSolutions | SimplexMethod/src/main.cpp:805 | a row swap keeps the solution set |
| GaussProperties.EliminateKeepsSolutions | SimplexMethod/src/main.cpp:808-820 | clearing below the pivot keeps the solution set |
| GaussProperties.AsWrittenSearchSkipsPivot | SimplexMethod/src/main.cpp:795 | as written, the search on the system x2 = 5, x1 = 3 never looks at row 1 and so calls column 0 negligible though row 1 holds 1 there |
| GaussProperties.AsWrittenGaussLeavesSystem | SimplexMethod/main.cpp:528 | as written, elimination leaves that system unchanged and not lower-zero, both under the older `< EPSILON` test of this revision and under the current fractional `<= 0` test of `SimplexMethod/src/main.cpp:795-802` |
| GaussProperties.AsWrittenGaussKeeps | SimplexMethod/src/main.cpp:775-848 | as written, elimination under any skip test that does not call 1 negligible leaves that system unchanged |
| GaussProperties.AsWrittenForwardLeavesSystem | SimplexMethod/src/main.cpp:789-825 | as written, the forward phase changes nothing on that system, under any skip test that does not call 1 negligible |
| GaussProperties.CorrectedGaussSolvesSystem | SimplexMethod/src/main.cpp:775-848 | with the corrected bound, elimination turns that system into x1 = 3, x2 = 5 in reduced form |
| GaussProperties.CorrectedFirstSearch | SimplexMethod/src/main.cpp:792-800 | the corrected search at pivot row 0 picks row 1 |
| GaussProperties.CorrectedForwardSwapsRows | SimplexMethod/src/main.cpp:805 | the corrected forward phase swaps the two constraint rows |
| ExplicitBases.CurrentBasisTestAsWritten | SimplexMethod/src/main.cpp:877-881 | as written the fractional test `>= ZeroElement` admits every value |
| ExplicitBases.CurrentBasisTest | SimplexMethod/src/main.cpp:877-881 | the corrected test admits only non-zero values (exactly those for fractions); for floats it is the test as written |
| ExplicitBases.LegacyBasisTest | SimplexMethod/main.cpp:588-592 | the older test admits exactly the values with \|x\| > EPSILON |
| ExplicitBases.NonZeroPositions | SimplexMethod/src/main.cpp:877-881 | the selected positions, each in range and not before its own index |
| ExplicitBases.NonZeroPositionsExact | SimplexMethod/src/main.cpp:877-881 | the selected positions increase strictly and are exactly the positions whose value passes the test |
| ExplicitBases.SwapsPermute | SimplexMethod/src/main.cpp:884-888 | the swaps onto the front keep the multiset of entries |
| ExplicitBases.InitialIds | SimplexMethod/src/main.cpp:872-874 | a value is an id exactly when it lies in 1..n, each id at the position one below it |
| ExplicitBases.ExplicitBasisIds | SimplexMethod/src/main.cpp:872-888 | one id per variable, each between 1 and the number of variables |
| ExplicitBases.ExplicitBasisIdsPermute | SimplexMethod/src/main.cpp:872-888 | the final ids are a permutation of 1..n |
| ExplicitBases.ExplicitBasisIdsArranged | SimplexMethod/src/main.cpp:884-888 | id j names the variable whose column ends up in position j |
| ExplicitBases.ExplicitBasisIdsFront | SimplexMethod/src/main.cpp:884-888 | the first ids are the selected variables, in order |
| ExplicitBases.ExplicitBasisTableau | SimplexMethod/src/main.cpp:884-900 | the resulting tableau keeps its row count and loses RowNumber - 1 columns |
| ExplicitBases.DropColumns | SimplexMethod/src/main.cpp:895-897 | removing the first k columns leaves every row k entries shorter, and a tableau stays a tableau |
| ExplicitBases.DropLeadingColumns | SimplexMethod/src/main.cpp:895-897 | the loop calling `DeleteColumn(0)` k times leaves the tableau without its first k columns, with ColNumber lowered by k |
| ExplicitBases.DropAndPriceOut | SimplexMethod/src/main.cpp:895-900 | dropping the leading block and pricing out, in place. The price-out total starts at 0, not at `ZeroElement` as in the generic overload called here (src/main.cpp:370) |
| ExplicitBases.SwapToFront | SimplexMethod/src/main.cpp:884-888 | the swap loop moves the selected columns to the front with the ids in parallel |
| ExplicitBases.SwapPass | SimplexMethod/src/main.cpp:885-887 | one pass of the swap loop takes both the tableau and the ids one swap further along the same sequence of swaps |
| ExplicitBases.SwapAndEliminate | SimplexMethod/src/main.cpp:884-891 | the column swaps followed by Gaussian elimination |
| ExplicitBases.SetUpBasis | SimplexMethod/src/main.cpp:884-900 | the three stages shared by both revisions leave the specified tableau |
| ExplicitBases.ExplicitBasis | SimplexMethod/src/main.cpp:859-902 | leaves the specified tableau in the matrix and the step with the arranged ids. It applies three corrections: the non-zero basis test (src/main.cpp:878), the Gauss search over every constraint row (src/main.cpp:795), and the price-out total starting at 0 (src/main.cpp:370, reached from 900) |
| ExplicitBases.LegacyExplicitBasis | SimplexMethod/main.cpp:579-614 | the older setup with the test \|x\| > EPSILON and the `< EPSILON` elimination tolerance. It applies the corrected Gauss search over every constraint row, where SimplexMethod/main.cpp:528 has the as-written bound |
| ExplicitBases.SwapsKeepSolutions | SimplexMethod/src/main.cpp:884-888 | swapping columns together with the unknowns keeps every solution |
| ExplicitBases.IdentityBlockSolutions | SimplexMethod/src/main.cpp:895-897 | once the leading block is the identity, dropping it keeps the solutions with the block's variables as basic values |
| ExplicitBases.ReducedKeepsSolutions | SimplexMethod/src/main.cpp:884-891 | swaps and exact elimination together keep the solution set |
| ExplicitBases.StagedKeepsSolutions | SimplexMethod/src/main.cpp:884-900 | with fractions and a full-rank basis, swaps, elimination, dropping the block and price-out together keep the solution set of the constraint rows |
| ExplicitBases.ExplicitBasisKeepsSolutions | SimplexMethod/src/main.cpp:859-902 | with exact fractions and a full-rank basis, a point solves the original system exactly when its values, in id order, satisfy the resulting tableau's constraint rows |
| ExplicitBases.ExplicitBasisTableauIsPricedOut | SimplexMethod/src/main.cpp:895-900 | the resulting tableau is the price-out of the reduced tableau under the arranged ids |
| ExplicitBases.ExplicitBasisPricesObjective | SimplexMethod/src/main.cpp:899-900 | a point satisfying the resulting constraint rows satisfies its objective row with minus the objective value |
| ExplicitBases.AsWrittenSelectsEverything | SimplexMethod/src/main.cpp:878 | as written, for fractions every position is selected and the ids stay 1..n |
| ExplicitBases.AsWrittenKeepsZeroVariable | SimplexMethod/src/main.cpp:878 | for the basis values [0, 1], the ids are [1, 2] as written and [2, 1] with the corrected test |
| LeadCandidates.NotEqualToMinimum | SimplexMethod/src/main.cpp:495-509 | farther than ZeroElement from the minimum |
| LeadCandidates.KeepMinimal | SimplexMethod/src/main.cpp:495-509 | never more pairs than were recorded (its members are stated by KeepMinimalMembers) |
| LeadCandidates.AtColumn | SimplexMethod/src/main.cpp:511-523 | one cell of the column per recorded pair, in order |
| LeadCandidates.ScanColumnOf | SimplexMethod/src/main.cpp:466-493 | the row loop of one column returns the specified scan |
| LeadCandidates.EraseNonMinimal | SimplexMethod/src/main.cpp:495-509 | the erase-and-restart loop leaves exactly the pairs equal to the minimum, in order |
| LeadCandidates.PushColumn | SimplexMethod/src/main.cpp:511-523 | the push loop appends one cell per pair left |
| LeadCandidates.ColumnPass | SimplexMethod/src/main.cpp:460-525 | one column's pass appends that column's candidates |
| LeadCandidates.FindPotentialLeads | SimplexMethod/src/main.cpp:460-525 | the candidate loop returns the candidate cells of every non-RHS column |
| LeadCandidates.KeepMinimalMembers | SimplexMethod/src/main.cpp:495-509 | the filter keeps exactly the pairs equal to the minimum |
| LeadCandidates.EraseKeepsMinimal | SimplexMethod/src/main.cpp:497-505 | erasing a pair that differs from the minimum leaves the filtered list as it was |
| LeadCandidates.ScanRowsOutcome | SimplexMethod/src/main.cpp:466-493 | the scan finds a row exactly when some entry exceeds zero, it ends on a row whose ratio is the minimum, and that row is the last pair recorded |
| LeadCandidates.ScanEntries | SimplexMethod/src/main.cpp:481-490 | every recorded pair is a constraint row with an entry above zero, together with its own ratio |
| LeadCandidates.ScanRowsExact | SimplexMethod/src/main.cpp:481-490 | with an exact zero, the running minimum is the least ratio so far and every row attaining it is recorded |
| LeadCandidates.CandidatesSound | SimplexMethod/src/main.cpp:460-525 | every candidate is a constraint row and a negative non-RHS column, with an entry above zero |
| LeadCandidates.ColumnOffersCells | SimplexMethod/src/main.cpp:460-525 | a column offers a cell exactly when it is negative and has an entry above zero |
| LeadCandidates.ColumnCandidatesSound | SimplexMethod/src/main.cpp:460-525 | every cell a column offers lies in that column and is an offered cell: a constraint row of a negative column with an entry above zero |
| LeadCandidates.CandidatesUpToNonEmpty | SimplexMethod/src/main.cpp:460-525 | some cell is offered exactly when some column is negative and has an entry above zero |
| LeadCandidates.CandidatesMatchClassifier | SimplexMethod/src/main.cpp:460-525 | on CONTINUE some cell is offered; on COMPLETED or SOLUTION_DOESNT_EXIST none is |
| LeadCandidates.CandidatesUpToMembers | SimplexMethod/src/main.cpp:460-525 | a cell is offered overall exactly when its own column offers it |
| LeadCandidates.OfferedIsExactTie | SimplexMethod/src/main.cpp:481-509 | with fractions an offered cell of a negative column has the least ratio |
| LeadCandidates.ExactTieIsOffered | SimplexMethod/src/main.cpp:481-509 | with fractions every row with the least ratio is offered |
| LeadCandidates.ExactColumnCandidates | SimplexMethod/src/main.cpp:481-509 | with fractions a negative column offers exactly its ties for the least ratio |
| LeadCandidates.ExactCandidates | SimplexMethod/src/main.cpp:460-525 | with fractions the candidates are exactly the minimal-ratio cells of the negative columns |
| LeadCandidates.AutoLeadIsCandidate | SimplexMethod/src/main.cpp:173-213 | with fractions the automatic lead is one of the offered cells |
| LeadCandidates.FindLegacyLeads | SimplexMethod/main.cpp:216-258 | the older lead loop returns its specified leads |
| LeadCandidates.PushLegacyLead | SimplexMethod/main.cpp:216-248 | one column's ratio test and banned-row check append its lead |
| LeadCandidates.IsBanned | SimplexMethod/main.cpp:233-238 | true exactly when the row is in the banned list |
| LeadCandidates.LegacyColumnLeadsAreRatioTests | SimplexMethod/main.cpp:216-248 | a column contributes at most one lead, in that column, a strict first minimum ratio, and not banned when banned rows are excluded |
| LeadCandidates.LegacyLeadsAreRatioTests | SimplexMethod/main.cpp:216-248 | every older lead is such a ratio test, not banned when banned rows are excluded |
| LeadCandidates.LegacyLeadsOnePerColumn | SimplexMethod/main.cpp:427-450 | older leads come at most one per column, in increasing column order |
| LeadCandidates.LegacyLeadOfColumn | SimplexMethod/main.cpp:427-450 | a negative column with a positive entry has its ratio-test row among the older leads, unless that row is excluded as banned |
| LeadCandidates.LegacyColumnHasLead | SimplexMethod/main.cpp:431-444 | such a column contributes exactly its ratio-test row |
| LeadCandidates.LegacyLeadIsCandidate | SimplexMethod/main.cpp:216-248 | every older lead is among the cells the current revision offers for fractions |
| Drivers.FirstArtificial | SimplexMethod/src/main.cpp:562-568 | the first position from the start whose id exceeds the structural count, or -1 exactly when there is none |
| Drivers.Erased | SimplexMethod/src/main.cpp:565 | `erase` at one position: one shorter |
| Drivers.ErasedIds | SimplexMethod/src/main.cpp:565 | erasing takes exactly that id out of the multiset |
| Drivers.Retired | SimplexMethod/src/main.cpp:562-568 | retirement keeps the ids fitted to the tableau |
| Drivers.Exchanged | SimplexMethod/src/main.cpp:561-568 | the id swap and retirement keep the ids fitted and the mode, id, phase and flag |
| Drivers.Bookkeeping | SimplexMethod/src/main.cpp:561-591 | the bookkeeping after a pivot keeps the ids fitted, the mode, the id and the phase |
| Drivers.RunStep | SimplexMethod/src/main.cpp:550-601 | A completed next step ends the run. A step-by-step pivot ends it with the one step, which waits for input. An automatic pivot continues from the bookkept step |
| Drivers.RetireArtificial | SimplexMethod/src/main.cpp:562-568 | the retirement loop leaves the specified step |
| Drivers.Exchange | SimplexMethod/src/main.cpp:561-568 | the swap and the retirement of one iteration |
| Drivers.AfterPivot | SimplexMethod/src/main.cpp:561-591 | the bookkeeping of one iteration |
| Drivers.Iteration | SimplexMethod/src/main.cpp:551-600 | one iteration: a stop with what the run still pushes, or the next step with the run continuing from it |
| Drivers.HistoryAfterRun | SimplexMethod/src/main.cpp:550-601 | the history the loop leaves is the one it found followed by the pivots it runs |
| Drivers.Advance | SimplexMethod/src/main.cpp:551-600 | one turn keeps the history the loop will leave |
| Drivers.PivotLoop | SimplexMethod/src/main.cpp:550-601 | the bounded loop pushes exactly the specified run |
| Drivers.MarkedStep | SimplexMethod/src/main.cpp:441-448 | the step marked completed when its verdict ends the phase, nothing else changed; phase one marks UNLIMITED_SOLUTION, COMPLETED and SOLUTION_DOESNT_EXIST here, and phase two marks UNLIMITED_SOLUTION and COMPLETED at `SimplexMethod/src/main.cpp:633-637` |
| Drivers.Entered | SimplexMethod/src/main.cpp:546-548 | automatic mode clears the waiting flag, nothing else changed |
| Drivers.EnteredReady | SimplexMethod/src/main.cpp:546-550 | a step marked only on a verdict other than CONTINUE, once entered, meets what the driver's loop needs. A step still waiting for input needs nothing of its lead; a valid lead is needed only once a step-by-step step no longer waits |
| Drivers.ArtificialVerdict | SimplexMethod/src/main.cpp:438-448 | the verdict of the classifier; every verdict but CONTINUE marks the step completed, and SOLUTION_DOESNT_EXIST also pushes it. For fractions that happens at any negative phase-one RHS |
| Drivers.SimplexVerdict | SimplexMethod/src/main.cpp:629-637 | UNLIMITED_SOLUTION and COMPLETED mark the step completed |
| Drivers.OfferLeads | SimplexMethod/src/main.cpp:460-548 | the entered step and the offered cells |
| Drivers.RunDriverLoop | SimplexMethod/src/main.cpp:550-601 | the loop runs only when the step is not waiting for input, and pushes nothing from a waiting step, whatever its lead |
| Drivers.ArtificialBasis | SimplexMethod/src/main.cpp:412-602 | the pushed steps and offered cells are those the phase-one specification gives, for any step with fitted ids. That includes the candidate-offering call on a waiting step-by-step step, whose lead is never read |
| Drivers.SimplexAlgorithm | SimplexMethod/src/main.cpp:605-773 | the pushed steps and offered cells are those the phase-two specification gives, for any step with fitted ids. That includes the candidate-offering call on a waiting step-by-step step, whose lead is never read |
| DriverProperties.RetiredIds | SimplexMethod/src/main.cpp:562-568 | retirement erases at most one id, and never a structural one |
| DriverProperties.RetiredShape | SimplexMethod/src/main.cpp:562-568 | retirement never erases a basic id; it erases one exactly when a non-basic id exceeds the structural count; otherwise the step is unchanged |
| DriverProperties.ExchangedIds | SimplexMethod/src/main.cpp:561-568 | the exchange keeps every id in phase two and every structural id, with its multiplicity, in phase one |
| DriverProperties.ExchangedShape | SimplexMethod/src/main.cpp:561 | the entering id becomes the basic id of the pivot row, and the tableau changes only when retirement erases an id |
| DriverProperties.RunShape | SimplexMethod/src/main.cpp:550-601 | every pushed step has fitted ids, keeps the mode and the phase, and is completed exactly when the classifier calls it COMPLETED |
| DriverProperties.RunLength | SimplexMethod/src/main.cpp:550 | the loop pushes at most RowNumber steps |
| DriverProperties.RunStepIds | SimplexMethod/src/main.cpp:550-601 | the pushed steps carry consecutive ids after the starting one |
| DriverProperties.ManualRunWaits | SimplexMethod/src/main.cpp:593-599 | a step-by-step run pushes at most one step, and that step waits for input |
| DriverProperties.AutomaticRunStops | SimplexMethod/src/main.cpp:550-601 | an automatic run that stops early stops at a step that is completed or whose verdict is not CONTINUE |
| DriverProperties.BookkeepingMarks | SimplexMethod/src/main.cpp:579-591 | the bookkeeping is the exchange, marked completed exactly when the classifier calls the result COMPLETED |
| DriverProperties.BookkeepingIds | SimplexMethod/src/main.cpp:561-568 | the bookkeeping changes the ids only as the exchange does |
| DriverProperties.RunIds | SimplexMethod/src/main.cpp:550-601 | along a run phase two only permutes the ids, and phase one keeps every structural id |
| DriverProperties.FirstPushedLead | SimplexMethod/src/main.cpp:157-220 | the first pushed step names the automatic lead or the one entered by hand, a non-zero cell of a non-RHS column |
| DriverProperties.FirstPushedIsPivot | SimplexMethod/src/main.cpp:230-258 | the first pushed step holds the pivot of the starting tableau, unless retirement deleted a column |
| DriverProperties.FirstPushedEnters | SimplexMethod/src/main.cpp:561 | after the first pivot the entering id is the basic id of the pivot row |
| DriverOutcomes.CompletedRunsNothing | SimplexMethod/src/main.cpp:117-119 | a completed step pushes nothing more |
| DriverOutcomes.ContinueRunsPivot | SimplexMethod/src/main.cpp:550-601 | On CONTINUE a step that is not waiting pushes the next step id. By hand it pushes exactly one step, which waits |
| DriverOutcomes.OfferedLeadsSound | SimplexMethod/src/main.cpp:460-525 | on CONTINUE by hand some cells are offered, each in a negative column with an entry above zero, and for fractions the automatic lead is among them |
| DriverOutcomes.ArtificialBasisPushes | SimplexMethod/src/main.cpp:412-602 | A completed phase one is left alone. UNLIMITED_SOLUTION and COMPLETED push nothing, and SOLUTION_DOESNT_EXIST pushes only the completed step. CONTINUE pivots: one waiting step by hand, at least one step automatically. A step-by-step step still waiting for input pushes nothing |
| DriverOutcomes.ArtificialBasisLeads | SimplexMethod/src/main.cpp:460-525 | by hand on CONTINUE, phase one offers sound cells, with the fractional automatic lead among them. This holds also for a waiting step whose lead is unset |
| DriverOutcomes.SimplexAlgorithmPushes | SimplexMethod/src/main.cpp:605-773 | A completed phase two is left alone, and a verdict other than CONTINUE pushes nothing. CONTINUE pivots. A step-by-step step still waiting for input pushes nothing. Cells are offered only by hand and only on CONTINUE |
| DriverOutcomes.SimplexAlgorithmLeads | SimplexMethod/src/main.cpp:649-711 | by hand on CONTINUE, phase two offers sound cells, with the fractional automatic lead among them. This holds also for a waiting step whose lead is unset |
| LegacyDrivers.LegacyExchanged | SimplexMethod/main.cpp:297-299 | the older swap, erase and column deletion keep the ids fitted, with one column fewer in phase one |
| LegacyDrivers.LegacyBookkeeping | SimplexMethod/main.cpp:297-306 | the older bookkeeping keeps the ids fitted, the mode, the id and the phase |
| LegacyDrivers.LegacyRunStep | SimplexMethod/main.cpp:287-315 | one unfolding of the older run: stop when completed, one waiting step by hand, or continue automatically |
| LegacyDrivers.LegacyExchange | SimplexMethod/main.cpp:297-299 | the older exchange of one iteration |
| LegacyDrivers.LegacyAfterPivot | SimplexMethod/main.cpp:297-306 | the older bookkeeping of one iteration |
| LegacyDrivers.LegacyIteration | SimplexMethod/main.cpp:288-314 | one older iteration: stop, or the next step with the run continuing from it |
| LegacyDrivers.LegacyHistoryAfterRun | SimplexMethod/main.cpp:287-315 | the history the older loop leaves is the one it found followed by its run |
| LegacyDrivers.LegacyAdvance | SimplexMethod/main.cpp:288-314 | one older turn keeps the history the loop will leave |
| LegacyDrivers.LegacyPivotLoop | SimplexMethod/main.cpp:286-316 | the older bounded loop pushes exactly the specified run |
| LegacyDrivers.LegacyChooseLeads | SimplexMethod/main.cpp:216-258 | the step-by-step lead loop marks the step as the older verdicts say and returns the older leads |
| LegacyDrivers.LegacyEnteredReady | SimplexMethod/main.cpp:260-286 | the step marked as the older verdicts say meets what the older driver's loop needs. A valid lead is needed only once a step-by-step step no longer waits |
| LegacyDrivers.LegacyRunDriverLoop | SimplexMethod/main.cpp:286-316 | the older loop runs only when the step is not waiting, and pushes nothing from a waiting step, whatever its lead |
| LegacyDrivers.LegacyArtificialBasis | SimplexMethod/main.cpp:203-317 | the older phase one pushes and offers what its specification gives, for any step with fitted ids, a waiting step-by-step step with an unset lead included |
| LegacyDrivers.LegacySimplexAlgorithm | SimplexMethod/main.cpp:414-517 | the older phase two pushes and offers what its specification gives, for any step with fitted ids, a waiting step-by-step step with an unset lead included |
| LegacyDriverProperties.LegacyExchangedIds | SimplexMethod/main.cpp:297-298 | phase two only swaps two ids; phase one takes out exactly the basic id of the pivot row |
| LegacyDriverProperties.LeavingErased | SimplexMethod/main.cpp:297-298 | swapping positions a and k and then erasing k takes out the id that was at a |
| LegacyDriverProperties.LegacyExchangedShape | SimplexMethod/main.cpp:297-299 | the entering id becomes basic; phase two keeps the tableau, and phase one deletes the pivot column |
| LegacyDriverProperties.LegacyDropsStructural | SimplexMethod/main.cpp:297-299 | when a structural variable leaves the basis in phase one, its id is lost |
| LegacyDriverProperties.LegacyRetirementExample | SimplexMethod/main.cpp:286-316 | the automatic older phase-one loop on x1 + x2 = 2, x1 = 2 (ids [3, 4, 1, 2], artificial x3 and x4 basic) pushes exactly two steps: a pivot at (0, 1) giving ids [2, 4, 1], then a pivot at (0, 0) giving [1, 4], marked completed with x2 lost |
| LegacyDriverProperties.CurrentExchangeKeepsExample | SimplexMethod/src/main.cpp:561-568 | on that run's second pivot, the current exchange keeps every structural id: [1, 4, 2] |
| LegacyDriverProperties.ExampleFirstStep | SimplexMethod/main.cpp:290-306 | the older loop's first turn there: the older last-column ratio test picks (0, 1), and the exchange erases x3 and deletes its column |
| LegacyDriverProperties.ExampleSecondStep | SimplexMethod/main.cpp:290-306 | the second turn: the ratio test picks (0, 0) on the first tied row, the exchange erases x2, and the objective RHS is 0 |
| LegacyDriverProperties.LegacyBookkeepingMarks | SimplexMethod/main.cpp:304-306 | a step is marked completed exactly when \|objective RHS\| < EPSILON, and phase one has one column fewer |
| LegacyDriverProperties.LegacyRunShape | SimplexMethod/main.cpp:286-316 | every pushed step has fitted ids, keeps the mode and the phase, and is completed exactly when its objective RHS vanishes |
| LegacyDriverProperties.LegacyRunLength | SimplexMethod/main.cpp:287 | the older loop pushes at most RowNumber steps |
| LegacyDriverProperties.LegacyRunStepIds | SimplexMethod/main.cpp:286-316 | the pushed steps carry consecutive ids |
| LegacyDriverProperties.LegacyRunColumns | SimplexMethod/main.cpp:299 | the k-th step of phase one has k + 1 columns fewer; phase two keeps them all |
| LegacyDriverProperties.LegacyArtificialRunBound | SimplexMethod/main.cpp:299 | the older phase one pushes fewer steps than the tableau has columns |
| LegacyDriverProperties.LegacyRunIds | SimplexMethod/main.cpp:297-298 | along a run phase two only permutes the ids, and phase one only takes ids out |
| LegacyDriverProperties.LegacyManualRunWaits | SimplexMethod/main.cpp:308-312 | a step-by-step run pushes at most one step, and that step waits |
| LegacyDriverProperties.LegacyAutomaticRunStops | SimplexMethod/main.cpp:286-316 | an automatic run that stops early stops at a completed step or one whose older verdict is not CONTINUE |
| LegacyDriverProperties.LegacyFirstPushedLead | SimplexMethod/main.cpp:99-120 | the first pushed step names the older automatic lead or the one entered by hand |
| LegacyDriverOutcomes.LegacyDriverRunOutcome | SimplexMethod/main.cpp:286-316 | nothing is pushed unless the older verdict is CONTINUE on a step that is neither completed nor waiting; such a step then pivots, exactly once when by hand |
| LegacyDriverOutcomes.LegacyArtificialBasisOutcome | SimplexMethod/main.cpp:203-317 | A completed phase one is left alone, and a verdict other than CONTINUE, or a step waiting for input, pushes nothing. Otherwise it pivots. By hand it offers ratio-test leads outside the banned rows |
| LegacyDriverOutcomes.LegacySimplexAlgorithmOutcome | SimplexMethod/main.cpp:414-517 | the same for phase two, whose leads are ratio tests in any row |
| LegacyDriverOutcomes.LegacyEnteringHasLead | SimplexMethod/main.cpp:427-450 | a column that can enter has an older lead when banned rows are not excluded |
| LegacyDriverOutcomes.LegacySimplexAlgorithmOffers | SimplexMethod/main.cpp:427-450 | by hand, phase two offers the older lead of every column, whatever the lead of a waiting step |
| LegacyDriverOutcomes.LegacySimplexAlgorithmLeadsComplete | SimplexMethod/main.cpp:427-450 | by hand, phase two offers a lead in every column that can enter |

## Left out

- The GUI is not modelled: ImGui windows, radio buttons, the "Confirm" button, `DisplayStepOnScreen`, `DisplaySteps`, both `main` loops and `GUILayer.h`. The lead a user confirms is taken as the step's `LeadElementRC`.
- Process-wide globals (`ArtificialBasisSteps`, `SimplexAlgorithmSteps`, `PreviousArtificialStepID`, `PotentialLeads`, `CurrentLeadPos`) are not modelled as state. The drivers return the steps they push and the cells they offer.
- File I/O (`SaveToFile`, `ReadFromFile`, the older save block), `printf`, `Print` and `PrintMatrix`: output only, with no effect on the tableau.
- IEEE float rounding: the float tableau is modelled as exact `real`, with `EPSILON` as 1/100000. `FLT_MAX` and `INT32_MAX` stand for "no minimum yet" and are modelled as "no row recorded yet".
- 32-bit integer overflow in `Fraction`: numerators and denominators are unbounded. The floating-point fallbacks of `operator<` and `operator>` for overflowing cross products (`SimplexMethod/src/Common.h:63-69`, 141-147) are left out with it.
- `Fraction::operator*(float)` computes `numerator * value` in single precision and truncates it back to an integer (`SimplexMethod/src/Common.h:38-43`). It is used only as `* (-1)` (`SimplexMethod/src/main.cpp:256`, 347, 385). The model writes those products as exact negation, which the source gives only for numerators of magnitude at most 2^24: above that, the float's 24-bit mantissa rounds the numerator (16777217/1 times -1 gives -16777216/1). That rounding belongs with the IEEE and 32-bit items above and is not modelled, nor is the truncation for other factors.
- `Fractions.Normalize` requires the fraction not to be 0/0, on which the source's `gcd` would divide by zero.
- `Fractions.Div` requires the quotient not to be 0/x divided by 0/y. The cross product of that case is 0/0, so it inherits the exclusion of `Fractions.Normalize`: the source's `gcd(0, 0)` would divide by zero. No call site in either revision divides by a zero fraction.
- Memory management (`new`, `delete`, `memmove`) is left out. So are the older `Resize`, which never frees the old buffer, and the older `operator=`, which leaks: the model keeps only the live buffer.
- The fractional retirement branch (`SimplexMethod/src/main.cpp:569-575`): its index arithmetic does not match the float branch. The model applies the float branch's rule.
- `StructuralCount`, a parameter of the phase-one driver, stands in for `ArtificialBasisSteps[1].RealMatrix.ColNumber - 1`, which reads the global step list.
- A step carries one tableau of rational values rather than both `RealMatrix` and `FracMatrix`: the element kind selects the tolerance.
- The unused banned-row scans of the current revision (`SimplexMethod/src/main.cpp:175-181`, 511-523) have no effect, so they are left out.
- `Genfabs` (`SimplexMethod/src/main.cpp:792-797`) is taken to be absolute value.
- `Gauss.GaussElimination` requires RowNumber <= ColNumber: the loops index the diagonal of every constraint row.
- `StateCheck.CompletedMeansOptimal`: for floats, optimality holds only up to the tolerance, which the contract states explicitly.
- `StateCheck.UnlimitedMeansUnbounded`: stated for the exact tolerance only. With `EPSILON`, entries inside the tolerance band may bound the objective.
- `LeadCandidates.OfferedIsExactTie`: stated for fractions only. For floats the offered cells are the ratios within `EPSILON` of the minimum, which are not true ties.
- `GaussProperties.GaussKeepsSolutions`: stated for exact elimination only. With a float tolerance a skipped column may hold small non-zero entries.
- `SimplexSteps.AutomaticStepImproves`: for floats, it requires that no entry of the entering column lies in (0, EPSILON]. Such an entry is skipped by the ratio test yet can turn negative in the RHS.
- `ExplicitBases.ExplicitBasis`: it uses the corrected basis test, the corrected Gauss search bound and the price-out total starting at 0. As written, `SimplexMethod/src/main.cpp:878`, 795 and 370 (reached from 900) differ; see "## Findings".
- `ExplicitBases.DropAndPriceOut`: it starts the price-out total at 0, where the generic overload that `SimplexMethod/src/main.cpp:900` calls starts it at `ZeroElement` (src/main.cpp:370).
- `ExplicitBases.LegacyExplicitBasis`: it uses the corrected Gauss search bound, where `SimplexMethod/main.cpp:528` has the as-written one.
- `ExplicitBases.SetUpBasis`: it runs the corrected Gauss elimination, whichever revision's tolerance it is given.
- `ExplicitBases.ExplicitBasisKeepsSolutions`: stated for fractions, assuming the leading block reduces to the identity (a full-rank basis).

## Findings

| source | as written | input that shows it | evidently intended | confidence | as-written member | corrected member |
|---|---|---|---|---|---|---|
| SimplexMethod/src/Common.h:154-165 | the zero-divisor guard of `operator/` builds `Fraction(0, 1)` and discards it, so division goes on and yields a zero denominator | 1/1 divided by 0/1 gives 1/0 | a zero divisor returns 0/1 | not executed | Fractions.DivByZeroAsWritten | Fractions.DivChecked |
| SimplexMethod/src/main.cpp:370 | the generic price-out starts the RHS total at `ZeroElement`, not 0 | every float tableau: its objective RHS is lowered by EPSILON | the total starts at 0, as in the other two overloads | not executed | ObjectiveRows.PriceOutAsWrittenOffByEpsilon | ObjectiveRows.PriceOut |
| SimplexMethod/src/main.cpp:878 | the basis test `>= ZeroElement` admits every fractional value, zeros included, so no column moves | basis values [0, 1] keep ids [1, 2] | only non-zero basis values are selected (ids [2, 1]) | not executed | ExplicitBases.AsWrittenKeepsZeroVariable | ExplicitBases.CurrentBasisTest |
| SimplexMethod/src/main.cpp:795 | the max-pivot search stops at `RowNumber - PivotRow - 2`, so from pivot row 0 of a two-constraint tableau it never looks at row 1; the older `SimplexMethod/main.cpp:528` has the same bound | constraints x2 = 5, x1 = 3: the system is left unreduced | the search covers every constraint row from the pivot row on | not executed | GaussProperties.AsWrittenGaussLeavesSystem | GaussProperties.CorrectedGaussSolvesSystem |
| SimplexMethod/main.cpp:297-299 | older phase one erases the id that left the basis and deletes the pivot column, even when a structural variable leaves | constraints x1 + x2 = 2, x1 = 2 with ids [3, 4, 1, 2]: the automatic run pivots at (0, 1) giving [2, 4, 1], then at (0, 0) giving [1, 4], and ends completed with x2 lost | only an artificial variable is retired, and every structural id is kept | not executed | LegacyDriverProperties.LegacyRetirementExample | DriverProperties.RetiredIds |
