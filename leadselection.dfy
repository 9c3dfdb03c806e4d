/**
 * Automatic choice of the lead element, the first half of `SimplexStep`.
 *
 * The column search of the current revision walks the constraint rows; in
 * each row it takes the first column whose objective entry is below -zero
 * and whose entry in that row is above zero, and a later row that has such
 * a column overrides an earlier one. The row search is the ratio test: among
 * the rows whose entry in the chosen column is above zero, the first row with
 * the strictly smallest RHS / entry quotient. The running minimum starts out
 * as "infinity" (the source's FLT_MAX sentinel).
 */
module LeadSelection {
  import opened Matrices
  import opened Steps
  import opened StateCheck
  import opened Pivoting

  /** Cell (i, j) may lead: its column still lowers the objective and the cell is positive. */
  ghost predicate Qualifies(g: Grid<real>, i: nat, j: nat, zero: real)
    requires IsTableau(g) && i < |g| && j < |g[0]|
  {
    IsNegativeColumn(g, j, zero) && g[i][j] > zero
  }

  /** The first column below n that qualifies in row i, or -1. */
  ghost function FirstQualifyingInRow(g: Grid<real>, i: nat, zero: real, n: nat): (c: int)
    requires IsTableau(g) && i < |g| && n <= |g[0]|
    ensures c == -1 <==> forall j :: 0 <= j < n ==> !Qualifies(g, i, j, zero)
    ensures c != -1 ==> 0 <= c < n && Qualifies(g, i, c, zero)
    ensures c != -1 ==> forall j :: 0 <= j < c ==> !Qualifies(g, i, j, zero)
  {
    if n == 0 then -1
    else
      var c := FirstQualifyingInRow(g, i, zero, n - 1);
      if c != -1 then c
      else if Qualifies(g, i, n - 1, zero) then n - 1
      else -1
  }

  /**
   * The column the search holds after rows 0 .. k-1: the first qualifying
   * column of the last of those rows that has one, or -1.
   */
  ghost function AutoColumn(g: Grid<real>, zero: real, k: nat): (c: int)
    requires IsTableau(g) && k <= |g| - 1
    ensures c == -1 <==> forall i, j :: 0 <= i < k && 0 <= j < |g[0]| - 1 ==> !Qualifies(g, i, j, zero)
    ensures c != -1 ==> 0 <= c < |g[0]| - 1 && IsNegativeColumn(g, c, zero) && HasPositiveEntry(g, c, zero)
  {
    if k == 0 then -1
    else
      var f := FirstQualifyingInRow(g, k - 1, zero, |g[0]| - 1);
      if f != -1 then f else AutoColumn(g, zero, k - 1)
  }

  /** The two nested loops of the column search. */
  method ChooseLeadColumn(g: Grid<real>, zero: real) returns (CurrentColumnIndex: int)
    requires IsTableau(g)
    ensures CurrentColumnIndex == AutoColumn(g, zero, |g| - 1)
  {
    var R, C := |g|, |g[0]|;
    CurrentColumnIndex := -1;
    var i := 0;
    while i < R - 1
      invariant 0 <= i <= R - 1
      invariant CurrentColumnIndex == AutoColumn(g, zero, i)
    {
      var j := 0;
      ghost var found := false;
      while j < C - 1
        invariant 0 <= j <= C - 1 && !found
        invariant CurrentColumnIndex == AutoColumn(g, zero, i)
        invariant forall j' :: 0 <= j' < j ==> !Qualifies(g, i, j', zero)
      {
        if g[R - 1][j] < -zero {
          if g[i][j] > zero {
            assert Qualifies(g, i, j, zero);
            CurrentColumnIndex := j;
            found := true;
            break;
          }
        }
        j := j + 1;
      }
      assert found ==> CurrentColumnIndex == FirstQualifyingInRow(g, i, zero, C - 1);
      assert !found ==> FirstQualifyingInRow(g, i, zero, C - 1) == -1;
      i := i + 1;
    }
  }

  /** RHS over entry in column c of row i. */
  function Ratio(g: Grid<real>, i: nat, c: nat): real
    requires IsTableau(g) && i < |g| && c < |g[0]| && g[i][c] != 0.0
  {
    g[i][|g[0]| - 1] / g[i][c]
  }

  /**
   * The row the ratio test holds after rows 0 .. k-1 of column c: among the
   * rows with an entry above zero, the first one with the smallest ratio;
   * -1 when there is none.
   */
  ghost function RatioRow(g: Grid<real>, c: nat, zero: real, k: nat): (r: int)
    requires IsTableau(g) && c < |g[0]| && zero >= 0.0 && k <= |g| - 1
    ensures r == -1 <==> forall i :: 0 <= i < k ==> !(g[i][c] > zero)
    ensures r != -1 ==> 0 <= r < k && g[r][c] > zero
    ensures r != -1 ==> forall i :: 0 <= i < k && g[i][c] > zero ==> Ratio(g, r, c) <= Ratio(g, i, c)
    ensures r != -1 ==> forall i :: 0 <= i < r && g[i][c] > zero ==> Ratio(g, r, c) < Ratio(g, i, c)
  {
    if k == 0 then -1
    else
      var r := RatioRow(g, c, zero, k - 1);
      if g[k - 1][c] > zero && (r == -1 || Ratio(g, k - 1, c) < Ratio(g, r, c)) then k - 1 else r
  }

  /** The ratio-test loop: the chosen row and the lead element in it. */
  method ChooseLeadRow(g: Grid<real>, CurrentColumnIndex: nat, zero: real) returns (CurrentRowIndex: int, CurrentLead: real)
    requires IsTableau(g) && CurrentColumnIndex < |g[0]| && zero >= 0.0
    ensures CurrentRowIndex == RatioRow(g, CurrentColumnIndex, zero, |g| - 1)
    ensures CurrentRowIndex != -1 ==> CurrentLead == g[CurrentRowIndex][CurrentColumnIndex]
  {
    var R, C := |g|, |g[0]|;
    CurrentRowIndex := -1;
    CurrentLead := 0.0;
    var ColumnMinimum := 0.0;
    var i := 0;
    while i < R - 1
      invariant 0 <= i <= R - 1
      invariant CurrentRowIndex == RatioRow(g, CurrentColumnIndex, zero, i)
      invariant CurrentRowIndex != -1 ==>
        CurrentLead == g[CurrentRowIndex][CurrentColumnIndex] && ColumnMinimum == Ratio(g, CurrentRowIndex, CurrentColumnIndex)
    {
      if g[i][CurrentColumnIndex] > zero {
        var ratio := g[i][C - 1] / g[i][CurrentColumnIndex];
        if CurrentRowIndex == -1 || ratio < ColumnMinimum {
          CurrentLead := g[i][CurrentColumnIndex];
          ColumnMinimum := ratio;
          CurrentRowIndex := i;
        }
      }
      i := i + 1;
    }
  }

  /**
   * When the classifier says CONTINUE, the automatic search finds a column
   * and a row: the column lowers the objective and the lead is above zero.
   */
  lemma ContinueFindsLead(g: Grid<real>, zero: real, IsArtificialStep: bool)
    requires IsTableau(g) && zero >= 0.0 && Classify(g, zero, IsArtificialStep) == Continue
    ensures AutoColumn(g, zero, |g| - 1) != -1
    ensures RatioRow(g, AutoColumn(g, zero, |g| - 1), zero, |g| - 1) != -1
  {
    var C := |g[0]|;
    var j :| 0 <= j < C - 1 && IsNegativeColumn(g, j, zero);
    assert HasPositiveEntry(g, j, zero);
    var i :| 0 <= i < |g| - 1 && g[i][j] > zero;
    assert Qualifies(g, i, j, zero);
  }

  /**
   * A ratio-test pivot keeps the basic solution feasible: when every
   * constraint RHS is non-negative and no entry of the column lies in
   * (0, zero], every constraint RHS stays non-negative after the pivot.
   */
  lemma RatioPivotKeepsFeasible(g: Grid<real>, c: nat, zero: real)
    requires IsTableau(g) && c < |g[0]| - 1 && zero >= 0.0 && FeasibleRhs(g)
    requires RatioRow(g, c, zero, |g| - 1) != -1
    requires forall i :: 0 <= i < |g| - 1 ==> !(0.0 < g[i][c] <= zero)
    ensures FeasibleRhs(PivotSpec(g, RatioRow(g, c, zero, |g| - 1), c))
  {
    var r := RatioRow(g, c, zero, |g| - 1);
    var h := PivotSpec(g, r, c);
    forall i | 0 <= i < |g| - 1
      ensures h[i][|g[0]| - 1] >= 0.0
    {
      RatioPivotRow(g, c, zero, r, i);
    }
  }

  /** One constraint row of the lemma above. */
  lemma RatioPivotRow(g: Grid<real>, c: nat, zero: real, r: nat, i: nat)
    requires IsTableau(g) && c < |g[0]| - 1 && zero >= 0.0 && FeasibleRhs(g)
    requires r == RatioRow(g, c, zero, |g| - 1) && r != -1 && i < |g| - 1
    requires !(0.0 < g[i][c] <= zero)
    ensures PivotSpec(g, r, c)[i][|g[0]| - 1] >= 0.0
  {
    var C := |g[0]|;
    var L, bi, ai, br := g[r][c], g[i][C - 1], g[i][c], g[r][C - 1];
    assert L > 0.0 && bi >= 0.0 && br >= 0.0;
    assert ai > 0.0 ==> br / L <= bi / ai by {
      if ai > 0.0 {
        assert Ratio(g, r, c) <= Ratio(g, i, c);
      }
    }
    RowRhsNonNegative(g, r, c, i);
  }

  /** The arithmetic of one row, with the ratio test already applied to it. */
  lemma RowRhsNonNegative(g: Grid<real>, r: nat, c: nat, i: nat)
    requires IsTableau(g) && r < |g| && c < |g[0]| - 1 && i < |g|
    requires g[r][c] > 0.0 && g[i][|g[0]| - 1] >= 0.0 && g[r][|g[0]| - 1] >= 0.0
    requires g[i][c] > 0.0 ==> g[r][|g[0]| - 1] / g[r][c] <= g[i][|g[0]| - 1] / g[i][c]
    ensures PivotSpec(g, r, c)[i][|g[0]| - 1] >= 0.0
  {
    var C := |g[0]|;
    PivotRhs(g, r, c, i);
    if i == r {
      DivNonNegative(g[r][C - 1], g[r][c]);
    } else {
      RhsStep(g[i][C - 1], g[i][c], g[r][C - 1], g[r][c]);
    }
  }

  /** The RHS cell of row i after a pivot at (r, c). */
  lemma PivotRhs(g: Grid<real>, r: nat, c: nat, i: nat)
    requires IsTableau(g) && r < |g| && c < |g[0]| - 1 && g[r][c] != 0.0 && i < |g|
    ensures PivotSpec(g, r, c)[i][|g[0]| - 1] ==
      if i == r then g[r][|g[0]| - 1] * (1.0 / g[r][c])
      else g[i][|g[0]| - 1] - g[i][c] * g[r][|g[0]| - 1] * (1.0 / g[r][c])
  {
    assert PivotSpec(g, r, c)[i][|g[0]| - 1] == PivotCell(g, r, c, i, |g[0]| - 1);
  }

  lemma DivNonNegative(b: real, L: real)
    requires b >= 0.0 && L > 0.0
    ensures b * (1.0 / L) >= 0.0
  {
  }

  /** b_i - a_i * b_r / L stays non-negative when the ratio test holds for this row. */
  lemma RhsStep(bi: real, ai: real, br: real, L: real)
    requires L > 0.0 && bi >= 0.0 && br >= 0.0
    requires ai > 0.0 ==> br / L <= bi / ai
    ensures bi - ai * br * (1.0 / L) >= 0.0
  {
    if ai > 0.0 {
      RatioStep(bi, ai, br, L);
    } else {
      NonPositiveStep(bi, ai, br, L);
    }
  }

  /** b_i - a_i * b_r / L >= 0 when b_r / L <= b_i / a_i and a_i > 0. */
  lemma RatioStep(bi: real, ai: real, br: real, L: real)
    requires ai > 0.0 && L > 0.0 && br / L <= bi / ai
    ensures bi - ai * br * (1.0 / L) >= 0.0
  {
    assert ai * (br / L) <= ai * (bi / ai);
    assert ai * (bi / ai) == bi;
    assert ai * br * (1.0 / L) == ai * (br / L);
  }

  /** b_i - a_i * b_r / L >= 0 when a_i <= 0, b_i >= 0 and b_r >= 0. */
  lemma NonPositiveStep(bi: real, ai: real, br: real, L: real)
    requires ai <= 0.0 && L > 0.0 && bi >= 0.0 && br >= 0.0
    ensures bi - ai * br * (1.0 / L) >= 0.0
  {
    assert br * (1.0 / L) >= 0.0;
    assert ai * (br * (1.0 / L)) <= 0.0;
  }
}
