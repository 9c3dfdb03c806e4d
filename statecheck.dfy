/**
 * `CheckAlgorithmState` of the current revision: the classifier that tells
 * whether the tableau is optimal, unbounded, infeasible (phase 1 only) or
 * needs another pivot. The float overload compares with EPSILON and the
 * fractional one with exact zero. Both write the phase-1 infeasibility
 * test as `RHS < -EPSILON`; in the fractional overload that float literal is
 * passed to `Fraction::operator<(int)` and truncated to 0, so the test
 * there is `RHS < 0`. Either way the threshold is minus the tolerance.
 */
module StateCheck {
  import opened Matrices
  import opened Steps
  import opened LinearForms

  /** Column j's objective entry is below -zero: the objective still decreases along it. */
  ghost predicate IsNegativeColumn(g: Grid<real>, j: nat, zero: real)
    requires IsTableau(g) && j < |g[0]|
  {
    g[|g| - 1][j] < -zero
  }

  /** Some constraint row holds an entry above zero in column j. */
  ghost predicate HasPositiveEntry(g: Grid<real>, j: nat, zero: real)
    requires IsTableau(g) && j < |g[0]|
  {
    exists i :: 0 <= i < |g| - 1 && g[i][j] > zero
  }

  /**
   * The verdict, stated declaratively: unbounded as soon as one negative
   * column has no positive entry; otherwise another pivot while a negative
   * column exists; otherwise optimal, or infeasible when a phase-1 tableau
   * ends with an RHS below minus the tolerance.
   */
  ghost function Classify(g: Grid<real>, zero: real, IsArtificialStep: bool): AlgorithmState
    requires IsTableau(g)
  {
    var C := |g[0]|;
    if exists j :: 0 <= j < C - 1 && IsNegativeColumn(g, j, zero) && !HasPositiveEntry(g, j, zero) then
      UnlimitedSolution
    else if exists j :: 0 <= j < C - 1 && IsNegativeColumn(g, j, zero) then
      Continue
    else if IsArtificialStep && g[|g| - 1][C - 1] < -zero then
      SolutionDoesntExist
    else
      Completed
  }

  /**
   * The classifier's loops: one pass over the non-RHS columns, an inner
   * search for a positive entry in each negative column, and an early exit
   * at the first unbounded column. `IsAutomatic` is not consulted.
   */
  method CheckAlgorithmState(g: Grid<real>, kind: ElementKind, IsAutomatic: bool, IsArtificialStep: bool)
    returns (state: AlgorithmState)
    requires IsTableau(g)
    ensures state == Classify(g, ZeroElement(kind), IsArtificialStep)
    ensures state != Undefined
    ensures state == UnlimitedSolution <==>
      exists j :: 0 <= j < |g[0]| - 1 && IsNegativeColumn(g, j, ZeroElement(kind)) && !HasPositiveEntry(g, j, ZeroElement(kind))
    ensures (state == Completed || state == SolutionDoesntExist) <==>
      forall j :: 0 <= j < |g[0]| - 1 ==> !IsNegativeColumn(g, j, ZeroElement(kind))
    ensures state == SolutionDoesntExist <==>
      (forall j :: 0 <= j < |g[0]| - 1 ==> !IsNegativeColumn(g, j, ZeroElement(kind))) &&
      IsArtificialStep && g[|g| - 1][|g[0]| - 1] < -ZeroElement(kind)
  {
    var zero := ZeroElement(kind);
    var R, C := |g|, |g[0]|;
    state := Undefined;
    var i := 0;
    while i < C - 1
      invariant 0 <= i <= C - 1
      invariant forall j :: 0 <= j < i && IsNegativeColumn(g, j, zero) ==> HasPositiveEntry(g, j, zero)
      invariant state == (if exists j :: 0 <= j < i && IsNegativeColumn(g, j, zero) then Continue else Undefined)
    {
      if g[R - 1][i] < -zero {
        assert IsNegativeColumn(g, i, zero);
        state := Undefined;
        var j := 0;
        while j < R - 1
          invariant 0 <= j <= R - 1
          invariant state == Undefined
          invariant forall k :: 0 <= k < j ==> !(g[k][i] > zero)
        {
          if g[j][i] > zero {
            state := Continue;
            break;
          }
          j := j + 1;
        }
        if state == Undefined {
          assert !HasPositiveEntry(g, i, zero);
          state := UnlimitedSolution;
          break;
        }
        assert g[j][i] > zero;
      }
      i := i + 1;
    }

    if state == Undefined {
      state := Completed;

      if IsArtificialStep {
        if g[R - 1][C - 1] < -zero {
          state := SolutionDoesntExist;
        }
      }
    }
  }

  /**
   * Optimality: when no column is negative, no solution of the tableau with
   * non-negative non-basic values has a larger value of the objective row's
   * basic entry (minus the objective) than the RHS, up to the tolerance
   * accumulated over the non-basic values; with exact zero the basic
   * solution is optimal.
   */
  lemma CompletedMeansOptimal(g: Grid<real>, zero: real, IsArtificialStep: bool, xB: seq<real>, xN: seq<real>)
    requires IsTableau(g) && zero >= 0.0
    requires Classify(g, zero, IsArtificialStep) == Completed || Classify(g, zero, IsArtificialStep) == SolutionDoesntExist
    requires Satisfies(g, xB, xN) && NonNegative(xN, |xN|)
    ensures xB[|g| - 1] <= g[|g| - 1][|g[0]| - 1] + zero * Sum(xN, |xN|)
  {
    var obj := g[|g| - 1];
    forall j | 0 <= j < |xN|
      ensures obj[j] >= -zero && xN[j] >= 0.0
    {
      assert !IsNegativeColumn(g, j, zero);
    }
    DotLowerBound(obj, xN, |xN|, -zero);
  }

  /** The basic solution (non-basic values 0, basic values the RHS column) satisfies every row. */
  lemma BasicSolutionSatisfies(g: Grid<real>) returns (xB: seq<real>, xN: seq<real>)
    requires IsTableau(g)
    ensures Satisfies(g, xB, xN)
    ensures forall i :: 0 <= i < |g| ==> xB[i] == g[i][|g[0]| - 1]
    ensures forall j :: 0 <= j < |xN| ==> xN[j] == 0.0
  {
    var C := |g[0]|;
    xB := seq(|g|, i requires 0 <= i < |g| => g[i][C - 1]);
    xN := seq(C - 1, j => 0.0);
    forall i | 0 <= i < |g|
      ensures xB[i] + Dot(g[i], xN, |xN|) == g[i][|xN|]
    {
      DotZeroValues(g[i], xN, |xN|);
    }
  }

  /**
   * Unboundedness: with exact zero and a feasible RHS, an unbounded column
   * yields, for every bound M, a solution with non-negative variables whose
   * objective-row entry (minus the objective) is at least M.
   */
  lemma UnlimitedMeansUnbounded(g: Grid<real>, IsArtificialStep: bool, M: real) returns (xB: seq<real>, xN: seq<real>)
    requires IsTableau(g)
    requires Classify(g, 0.0, IsArtificialStep) == UnlimitedSolution
    requires forall i :: 0 <= i < |g| - 1 ==> g[i][|g[0]| - 1] >= 0.0
    ensures Satisfies(g, xB, xN) && NonNegative(xN, |xN|)
    ensures forall i :: 0 <= i < |g| - 1 ==> xB[i] >= 0.0
    ensures xB[|g| - 1] >= M
  {
    var R, C := |g|, |g[0]|;
    var c :| 0 <= c < C - 1 && IsNegativeColumn(g, c, 0.0) && !HasPositiveEntry(g, c, 0.0);
    var t := StepLength(M - g[R - 1][C - 1], g[R - 1][c]);
    xB, xN := RayPoint(g, c, t);
    forall i | 0 <= i < R - 1
      ensures xB[i] >= 0.0
    {
      assert !(g[i][c] > 0.0);
      NonPositiveProduct(t, g[i][c]);
    }
  }

  /** The point reached from the basic solution by moving t along column c. */
  lemma RayPoint(g: Grid<real>, c: nat, t: real) returns (xB: seq<real>, xN: seq<real>)
    requires IsTableau(g) && c < |g[0]| - 1 && t >= 0.0
    ensures Satisfies(g, xB, xN) && NonNegative(xN, |xN|)
    ensures forall i :: 0 <= i < |g| ==> xB[i] == g[i][|g[0]| - 1] - t * g[i][c]
  {
    var R, C := |g|, |g[0]|;
    xN := seq(C - 1, j => if j == c then t else 0.0);
    xB := seq(R, i requires 0 <= i < R => g[i][C - 1] - t * g[i][c]);
    forall i | 0 <= i < R
      ensures xB[i] + Dot(g[i], xN, |xN|) == g[i][|xN|]
    {
      DotUnit(g[i], xN, |xN|, c, t);
    }
  }

  /** A step length t >= 0 with t * -d >= gap, for a negative d. */
  lemma StepLength(gap: real, d: real) returns (t: real)
    requires d < 0.0
    ensures t >= 0.0 && t * -d >= gap
  {
    t := if gap > 0.0 then gap / -d else 0.0;
  }

  lemma NonPositiveProduct(t: real, a: real)
    requires t >= 0.0 && a <= 0.0
    ensures t * a <= 0.0
  {
  }

  /**
   * Infeasibility: when a phase-1 tableau is reported as having no solution,
   * every solution with non-negative non-basic values keeps the objective
   * row's basic entry below minus the tolerance, up to the tolerance
   * accumulated over the non-basic values; with exact zero (fractions) the
   * entry is negative, so the artificial variables cannot all be zero.
   */
  lemma NoSolutionMeansInfeasible(g: Grid<real>, zero: real, xB: seq<real>, xN: seq<real>)
    requires IsTableau(g) && zero >= 0.0
    requires Classify(g, zero, true) == SolutionDoesntExist
    requires Satisfies(g, xB, xN) && NonNegative(xN, |xN|)
    ensures xB[|g| - 1] < -zero + zero * Sum(xN, |xN|)
  {
    CompletedMeansOptimal(g, zero, true, xB, xN);
  }

  /**
   * A fractional phase-1 tableau whose objective RHS is a tiny negative
   * fraction, -1/1000000, well inside [-EPSILON, 0), is infeasible.
   */
  lemma FractionalSmallDeficitInfeasible()
    ensures Classify([[1.0, 0.0, 1.0], [0.0, 1.0, -1.0 / 1000000.0]], ZeroElement(FractionalElements), true)
      == SolutionDoesntExist
  {
    var g: Grid<real> := [[1.0, 0.0, 1.0], [0.0, 1.0, -1.0 / 1000000.0]];
    assert !IsNegativeColumn(g, 0, 0.0) && !IsNegativeColumn(g, 1, 0.0);
  }
}
