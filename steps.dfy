/**
 * The shared vocabulary of the engine: the tolerance `EPSILON`, the
 * type-independent `ZeroElement`, the solver's `AlgorithmState`, a
 * `RowAndColumn` position and a `Step` of the solution history.
 *
 * A tableau has `RowNumber` rows and `ColNumber` columns: rows
 * 0 .. RowNumber-2 are the constraint rows, row RowNumber-1 is the objective
 * row; columns 0 .. ColNumber-2 belong to the non-basic variables and column
 * ColNumber-1 is the right-hand side (RHS).
 */
module Steps {
  import opened Matrices

  /** `EPSILON` (0.00001), taken as the exact rational 1/100000. */
  const EPSILON: real := 0.00001

  /** The two element types the generic engine is instantiated with. */
  datatype ElementKind = RealElements | FractionalElements

  /**
   * `ZeroElement`: the tolerance below which a value counts as zero, EPSILON
   * for the float tableau and exactly 0 for the fractional one.
   */
  function ZeroElement(kind: ElementKind): (z: real)
    ensures z >= 0.0
    ensures z == 0.0 <==> kind == FractionalElements
  {
    match kind
    case RealElements => EPSILON
    case FractionalElements => 0.0
  }

  datatype AlgorithmState =
    | Undefined
    | Completed
    | UnlimitedSolution
    | Continue
    | SolutionDoesntExist

  datatype RowAndColumn = RowAndColumn(Row: int, Column: int)

  /**
   * One entry of the solution history. The tableau is held by value; the
   * float and fractional buffers of the source are a single grid here.
   * `NumbersOfVariables` lists the variable ids (1-based) of the basic
   * variables, one per constraint row, followed by those of the non-basic
   * variables, one per non-RHS column.
   */
  datatype Step = Step(
    StepID: int,
    StepChosenRC: RowAndColumn,
    LeadElementRC: RowAndColumn,
    IsAutomatic: bool,
    IsWaitingForInput: bool,
    IsCompleted: bool,
    RowsBannedToSwap: seq<int>,
    Tableau: Grid<real>,
    NumbersOfVariables: seq<int>,
    IsArtificialStep: bool)

  /** A tableau: at least an objective row and an RHS column, rectangular. */
  ghost predicate IsTableau(g: Grid<real>) {
    |g| >= 1 && |g[0]| >= 1 && IsGrid(g, |g|, |g[0]|)
  }

  /** Every constraint row has a non-negative RHS: the basic solution is feasible. */
  ghost predicate FeasibleRhs(g: Grid<real>)
    requires IsTableau(g)
  {
    forall i :: 0 <= i < |g| - 1 ==> g[i][|g[0]| - 1] >= 0.0
  }

  /** Real absolute value (`fabs` / `Genfabs`). */
  function RAbs(x: real): (r: real)
    ensures r >= 0.0 && (r == x || r == -x)
  {
    if x < 0.0 then -x else x
  }
}
