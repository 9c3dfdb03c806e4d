/**
 * What `GaussElimination` achieves on the constraint rows read as equations
 * (each row dotted with x equals its RHS). The forward phase applies only
 * row swaps and "row less a multiple of the pivot row"; the backward phase
 * the latter; normalization scales a row by a nonzero number. With the
 * exact tolerance of fractional elements and the search over every row from
 * the pivot row on, each of these is an exact row operation, so the system
 * keeps its solutions, and the result is reduced: zero below the diagonal,
 * every diagonal entry 0 or 1, and a diagonal 1 the only nonzero constraint
 * entry of its column.
 */
module GaussProperties {
  import opened Matrices
  import opened Steps
  import opened LinearForms
  import opened Gauss

  /** Row `row` read as an equation over the columns before the RHS holds at x. */
  ghost predicate RowHolds(row: seq<real>, x: seq<real>)
    requires |row| == |x| + 1
  {
    Dot(row, x, |x|) == row[|x|]
  }

  /** Every constraint row of `g` holds at x. */
  ghost predicate SystemHolds(g: Grid<real>, x: seq<real>)
    requires IsTableau(g)
  {
    |x| == |g[0]| - 1 && forall i :: 0 <= i < |g| - 1 ==> RowHolds(g[i], x)
  }

  /** Constraint rows p, p+1, ... are zero in the columns before q. */
  ghost predicate ZeroBlock(g: Grid<real>, p: nat, q: nat)
    requires IsTableau(g)
  {
    forall i, j :: p <= i < |g| - 1 && 0 <= j < q && j < |g[0]| ==> g[i][j] == 0.0
  }

  /** Constraint rows before p are zero left of the diagonal. */
  ghost predicate ZeroLeft(g: Grid<real>, p: nat)
    requires IsTableau(g)
  {
    forall i, j :: 0 <= i < p && i < |g| - 1 && 0 <= j < i && j < |g[0]| ==> g[i][j] == 0.0
  }

  /** Every constraint row is zero left of the diagonal. */
  ghost predicate LowerZero(g: Grid<real>)
    requires IsTableau(g)
  {
    ZeroLeft(g, |g| - 1)
  }

  /** In the columns after i, a nonzero diagonal entry has only zeros above it. */
  ghost predicate ReducedAbove(g: Grid<real>, i: int)
    requires IsTableau(g)
  {
    forall c, r :: i < c < |g| - 1 && c < |g[0]| && 0 <= r < c && g[c][c] != 0.0 ==> g[r][c] == 0.0
  }

  /** Every diagonal entry of the constraint rows before i is 0 or 1. */
  ghost predicate UnitDiagonal(g: Grid<real>, i: nat)
    requires IsTableau(g) && |g| <= |g[0]|
  {
    forall j :: 0 <= j < i && j < |g| - 1 ==> g[j][j] == 0.0 || g[j][j] == 1.0
  }

  /** Adding a multiple of a satisfied equation to another keeps the other's solutions. */
  lemma RowCombinationHolds(row: seq<real>, row': seq<real>, piv: seq<real>, s: real, x: seq<real>)
    requires |row| == |x| + 1 && |row'| == |row| && |piv| == |row|
    requires forall j :: 0 <= j < |row| ==> row'[j] == row[j] + s * piv[j]
    requires RowHolds(piv, x)
    ensures RowHolds(row', x) <==> RowHolds(row, x)
  {
    DotLinear(row', row, piv, s, x, |x|);
  }

  /** Scaling an equation by a nonzero number keeps its solutions. */
  lemma RowScaleHolds(row: seq<real>, row': seq<real>, s: real, x: seq<real>)
    requires |row| == |x| + 1 && |row'| == |row| && s != 0.0
    requires forall j :: 0 <= j < |row| ==> row'[j] == s * row[j]
    ensures RowHolds(row', x) <==> RowHolds(row, x)
  {
    var zero := seq(|row|, j requires 0 <= j < |row| => 0.0);
    DotLinear(row', zero, row, s, x, |x|);
    DotZero(zero, x, |x|);
    var d, b := Dot(row, x, |x|), row[|x|];
    assert Dot(row', x, |x|) - row'[|x|] == s * (d - b);
    if d != b {
      assert s * (d - b) != 0.0;
    }
  }

  /**
   * Replacing every constraint row but `piv` by itself plus a multiple of row
   * `piv` keeps the solutions of the system.
   */
  lemma CombinationKeepsSolutions(g: Grid<real>, h: Grid<real>, piv: nat, s: seq<real>, x: seq<real>)
    requires IsTableau(g) && IsTableau(h) && |h| == |g| && |h[0]| == |g[0]| && piv < |g| - 1 && |s| == |g|
    requires h[piv] == g[piv]
    requires forall r, k :: 0 <= r < |g| - 1 && r != piv && 0 <= k < |g[0]| ==> h[r][k] == g[r][k] + s[r] * g[piv][k]
    ensures SystemHolds(h, x) <==> SystemHolds(g, x)
  {
    if |x| == |g[0]| - 1 && (SystemHolds(g, x) || SystemHolds(h, x)) {
      assert RowHolds(g[piv], x);
      forall r | 0 <= r < |g| - 1 && r != piv
        ensures RowHolds(h[r], x) <==> RowHolds(g[r], x)
      {
        RowCombinationHolds(g[r], h[r], g[piv], s[r], x);
      }
    }
  }

  /** Exchanging two constraint rows keeps the solutions of the system. */
  lemma SwapKeepsSolutions(g: Grid<real>, a: nat, b: nat, x: seq<real>)
    requires IsTableau(g) && a < |g| - 1 && b < |g| - 1
    ensures IsTableau(SwapRowsOf(g, a, b))
    ensures SystemHolds(SwapRowsOf(g, a, b), x) <==> SystemHolds(g, x)
  {
    var h := SwapRowsOf(g, a, b);
    assert forall i :: 0 <= i < |g| ==> |h[i]| == |g[0]|;
    if SystemHolds(g, x) {
      assert forall i :: 0 <= i < |g| - 1 ==> RowHolds(h[i], x) by {
        forall i | 0 <= i < |g| - 1 ensures RowHolds(h[i], x) {
          if i == a { assert h[i] == g[b]; } else if i == b { assert h[i] == g[a]; } else { assert h[i] == g[i]; }
        }
      }
    }
    if SystemHolds(h, x) {
      assert forall i :: 0 <= i < |g| - 1 ==> RowHolds(g[i], x) by {
        forall i | 0 <= i < |g| - 1 ensures RowHolds(g[i], x) {
          if i == a { assert g[i] == h[b]; } else if i == b { assert g[i] == h[a]; } else { assert g[i] == h[i]; }
        }
      }
    }
  }

  /** With the pivot row zero before column q, an eliminated row is the row less F times the pivot row, F = row[q] / pivot. */
  lemma EliminatedRowIsCombination(row: seq<real>, pivotRow: seq<real>, q: nat)
    requires |row| == |pivotRow| && q < |row| && pivotRow[q] != 0.0
    requires forall j :: 0 <= j < q ==> pivotRow[j] == 0.0
    ensures forall j :: 0 <= j < |row| ==>
      EliminatedRow(row, pivotRow, q)[j] == row[j] + (-(row[q] / pivotRow[q])) * pivotRow[j]
  {
    var F := row[q] / pivotRow[q];
    assert F * pivotRow[q] == row[q];
  }

  /** A forward stage keeps the solutions when the pivot row is zero before the pivot column. */
  lemma EliminateKeepsSolutions(g: Grid<real>, p: nat, q: nat, x: seq<real>)
    requires IsTableau(g) && p < |g| - 1 && q < |g[0]| - 1 && g[p][q] != 0.0
    requires forall j :: 0 <= j < q ==> g[p][j] == 0.0
    ensures SystemHolds(EliminateBelow(g, p, q), x) <==> SystemHolds(g, x)
  {
    var h := EliminateBelow(g, p, q);
    EliminateBelowRows(g, p, q);
    var s := seq(|g|, r requires 0 <= r < |g| => if p < r < |g| - 1 then -(g[r][q] / g[p][q]) else 0.0);
    forall r | 0 <= r < |g| - 1 && r != p
      ensures forall k :: 0 <= k < |g[0]| ==> h[r][k] == g[r][k] + s[r] * g[p][k]
    {
      if p < r {
        EliminatedRowIsCombination(g[r], g[p], q);
      }
    }
    CombinationKeepsSolutions(g, h, p, s, x);
  }

  /**
   * A position (p, q) the exact forward phase can go on from: the rows from
   * p on are zero before column q and the rows above are zero left of the
   * diagonal.
   */
  ghost predicate ForwardFrom(g: Grid<real>, p: nat, q: nat) {
    IsTableau(g) && |g| <= |g[0]| && p <= |g| - 1 && q <= |g[0]| - 1 && p <= q &&
    ZeroBlock(g, p, q) && ZeroLeft(g, p)
  }

  /** From such a position, the forward phase with exact tolerance leaves every constraint row zero left of the diagonal. */
  lemma {:induction false} ForwardZeroPattern(g: Grid<real>, p: nat, q: nat)
    requires ForwardFrom(g, p, q)
    ensures LowerZero(Forward(g, AtMost(0.0), BelowPivotRow, p, q))
    decreases |g[0]| - q, 1
  {
    if p < |g| - 1 && q < |g[0]| - 1 {
      // The zero pattern does not depend on the point: any one serves for the stage lemma.
      var h, p' := ForwardStageKeepsSolutions(g, p, q, []);
      ForwardRestZeroPattern(g, h, p, p', q);
    } else {
      FinishedForwardIsLowerZero(g, p, q);
    }
  }

  /** The rest of the forward phase after one stage leaves the zero pattern. */
  lemma {:induction false} ForwardRestZeroPattern(g: Grid<real>, h: Grid<real>, p: nat, p': nat, q: nat)
    requires IsTableau(g) && p <= |g| - 1 && q < |g[0]| - 1 && ForwardFrom(h, p', q + 1)
    requires Forward(g, AtMost(0.0), BelowPivotRow, p, q) == Forward(h, AtMost(0.0), BelowPivotRow, p', q + 1)
    ensures LowerZero(Forward(g, AtMost(0.0), BelowPivotRow, p, q))
    decreases |g[0]| - q, 0
  {
    ForwardZeroPattern(h, p', q + 1);
  }

  /** From such a position, the forward phase with exact tolerance keeps the solutions. */
  lemma {:induction false} ForwardKeepsSolutions(g: Grid<real>, p: nat, q: nat, x: seq<real>)
    requires ForwardFrom(g, p, q)
    ensures SystemHolds(Forward(g, AtMost(0.0), BelowPivotRow, p, q), x) <==> SystemHolds(g, x)
    decreases |g[0]| - q, 1
  {
    if p < |g| - 1 && q < |g[0]| - 1 {
      var h, p' := ForwardStageKeepsSolutions(g, p, q, x);
      ForwardRestKeepsSolutions(g, h, p, p', q, x);
    } else {
      FinishedForwardIsLowerZero(g, p, q);
    }
  }

  /** The rest of the forward phase after one stage keeps the solutions of the tableau before the stage. */
  lemma {:induction false} ForwardRestKeepsSolutions(g: Grid<real>, h: Grid<real>, p: nat, p': nat, q: nat, x: seq<real>)
    requires IsTableau(g) && p <= |g| - 1 && q < |g[0]| - 1 && ForwardFrom(h, p', q + 1)
    requires |h| == |g| && |h[0]| == |g[0]| && (SystemHolds(h, x) <==> SystemHolds(g, x))
    requires Forward(g, AtMost(0.0), BelowPivotRow, p, q) == Forward(h, AtMost(0.0), BelowPivotRow, p', q + 1)
    ensures SystemHolds(Forward(g, AtMost(0.0), BelowPivotRow, p, q), x) <==> SystemHolds(g, x)
    decreases |g[0]| - q, 0
  {
    ForwardKeepsSolutions(h, p', q + 1, x);
  }

  /** When the forward phase has run out of rows or columns, the zero pattern covers every constraint row. */
  lemma FinishedForwardIsLowerZero(g: Grid<real>, p: nat, q: nat)
    requires ForwardFrom(g, p, q) && !(p < |g| - 1 && q < |g[0]| - 1)
    ensures Forward(g, AtMost(0.0), BelowPivotRow, p, q) == g
    ensures LowerZero(g)
  {
    forall i, j | 0 <= i < |g| - 1 && 0 <= j < i && j < |g[0]|
      ensures g[i][j] == 0.0
    {
      if i >= p {
        assert q == |g[0]| - 1;
      }
    }
  }

  /** One forward stage with exact tolerance: where the phase goes on from, with the same solutions and zero pattern. */
  lemma ForwardStageKeepsSolutions(g: Grid<real>, p: nat, q: nat, x: seq<real>) returns (h: Grid<real>, p': nat)
    requires ForwardFrom(g, p, q) && p < |g| - 1 && q < |g[0]| - 1
    ensures IsTableau(h) && |h| == |g| && |h[0]| == |g[0]| && ForwardFrom(h, p', q + 1)
    ensures SystemHolds(h, x) <==> SystemHolds(g, x)
    ensures Forward(g, AtMost(0.0), BelowPivotRow, p, q) == Forward(h, AtMost(0.0), BelowPivotRow, p', q + 1)
  {
    var t := AtMost(0.0);
    var k := MaxPivotRow(g, p, q, SearchEnd(BelowPivotRow, |g|, p));
    if Negligible(t, g[k][q]) {
      ForwardSkips(g, t, BelowPivotRow, p, q);
      forall i | p <= i < |g| - 1
        ensures g[i][q] == 0.0
      {
        assert RAbs(g[i][q]) <= RAbs(g[k][q]);
      }
      h, p' := g, p;
    } else {
      ForwardPivots(g, t, BelowPivotRow, p, q);
      PivotStageKeepsSolutions(g, p, q, x);
      h, p' := EliminateBelow(SwapRowsOf(g, p, k), p, q), p + 1;
    }
  }

  /** One pivoting forward stage with exact tolerance keeps the solutions and moves the zero pattern one step on. */
  lemma PivotStageKeepsSolutions(g: Grid<real>, p: nat, q: nat, x: seq<real>)
    requires IsTableau(g) && |g| <= |g[0]| && p < |g| - 1 && q < |g[0]| - 1 && p <= q
    requires ZeroBlock(g, p, q) && ZeroLeft(g, p)
    requires !Negligible(AtMost(0.0), g[MaxPivotRow(g, p, q, SearchEnd(BelowPivotRow, |g|, p))][q])
    ensures var sw := SwapRowsOf(g, p, MaxPivotRow(g, p, q, SearchEnd(BelowPivotRow, |g|, p)));
      IsTableau(sw) && sw[p][q] != 0.0 &&
      var h := EliminateBelow(sw, p, q);
      ZeroBlock(h, p + 1, q + 1) && ZeroLeft(h, p + 1) && (SystemHolds(h, x) <==> SystemHolds(g, x))
  {
    var k := MaxPivotRow(g, p, q, SearchEnd(BelowPivotRow, |g|, p));
    var sw := SwapRowsOf(g, p, k);
    SwapKeepsSolutions(g, p, k, x);
    SwapKeepsZeroPattern(g, p, q, k);
    EliminateKeepsSolutions(sw, p, q, x);
    EliminateMovesZeroPattern(sw, p, q);
  }

  /** Swapping row p with a later constraint row keeps the zero pattern of stage (p, q). */
  lemma SwapKeepsZeroPattern(g: Grid<real>, p: nat, q: nat, k: nat)
    requires IsTableau(g) && p <= k < |g| - 1 && q < |g[0]| - 1
    requires ZeroBlock(g, p, q) && ZeroLeft(g, p)
    ensures var sw := SwapRowsOf(g, p, k);
      IsTableau(sw) && ZeroBlock(sw, p, q) && ZeroLeft(sw, p)
  {
    var sw := SwapRowsOf(g, p, k);
    assert forall i :: 0 <= i < |sw| ==> |sw[i]| == |g[0]|;
  }

  /** Clearing column q below a pivot row p that is zero before q moves the zero pattern to stage (p + 1, q + 1). */
  lemma EliminateMovesZeroPattern(g: Grid<real>, p: nat, q: nat)
    requires IsTableau(g) && p < |g| - 1 && q < |g[0]| - 1 && p <= q && g[p][q] != 0.0
    requires ZeroBlock(g, p, q) && ZeroLeft(g, p)
    ensures var h := EliminateBelow(g, p, q);
      ZeroBlock(h, p + 1, q + 1) && ZeroLeft(h, p + 1)
  {
    var h := EliminateBelow(g, p, q);
    EliminateBelowRows(g, p, q);
    assert ZeroBlock(h, p + 1, q + 1);
    assert ZeroLeft(h, p + 1) by {
      assert forall j :: 0 <= j < p ==> h[p][j] == 0.0;
      assert forall i :: 0 <= i < p ==> h[i] == g[i];
    }
  }

  /** With every constraint row zero left of the diagonal, a back-substitution row is the row less F times row i. */
  lemma BackRowIsCombination(g: Grid<real>, i: nat, r: nat)
    requires IsTableau(g) && |g| <= |g[0]| && LowerZero(g) && r < i < |g| - 1 && g[i][i] != 0.0
    ensures forall k :: 0 <= k < |g[0]| ==> BackRow(g[r], g[i], i)[k] == g[r][k] + (-(g[r][i] / g[i][i])) * g[i][k]
  {
    assert forall k :: 0 <= k < i ==> g[i][k] == 0.0;
  }

  /** Reducing row r by row i changes it only from column i on: the zeros left of the diagonal stay. */
  lemma BackRowKeepsLowerZero(g: Grid<real>, i: nat, r: nat)
    requires IsTableau(g) && |g| <= |g[0]| && LowerZero(g) && r < i < |g| - 1 && g[i][i] != 0.0
    ensures var h := g[r := BackRow(g[r], g[i], i)];
      IsTableau(h) && LowerZero(h)
  {
    var h := g[r := BackRow(g[r], g[i], i)];
    assert forall k :: 0 <= k < |h| ==> |h[k]| == |g[0]|;
  }

  /** Reducing row r by row i keeps the solutions. */
  lemma BackRowKeepsSolutions(g: Grid<real>, i: nat, r: nat, x: seq<real>)
    requires IsTableau(g) && |g| <= |g[0]| && LowerZero(g) && r < i < |g| - 1 && g[i][i] != 0.0
    ensures var h := g[r := BackRow(g[r], g[i], i)];
      IsTableau(h) && (SystemHolds(h, x) <==> SystemHolds(g, x))
  {
    var h := g[r := BackRow(g[r], g[i], i)];
    assert forall k :: 0 <= k < |h| ==> |h[k]| == |g[0]|;
    if |x| == |g[0]| - 1 && (SystemHolds(g, x) || SystemHolds(h, x)) {
      assert RowHolds(g[i], x) by { assert h[i] == g[i]; }
      BackRowIsCombination(g, i, r);
      RowCombinationHolds(g[r], h[r], g[i], -(g[r][i] / g[i][i]), x);
      assert forall k :: 0 <= k < |g| - 1 && k != r ==> h[k] == g[k];
    }
  }

  /** The backward phase keeps the zeros left of the diagonal. */
  lemma {:induction false} BackwardKeepsLowerZero(g: Grid<real>, t: Tolerance, i: int)
    requires IsTableau(g) && ValidTolerance(t) && i < |g| - 1 && |g| <= |g[0]| && LowerZero(g)
    ensures LowerZero(Backward(g, t, i))
    decreases i, 1, 0
  {
    if i > 0 {
      if Negligible(t, g[i][i]) {
        BackwardKeepsLowerZero(g, t, i - 1);
      } else {
        BackwardRowsKeepsLowerZero(g, t, i, i);
      }
    }
  }

  lemma {:induction false} BackwardRowsKeepsLowerZero(g: Grid<real>, t: Tolerance, i: nat, j: nat)
    requires IsTableau(g) && ValidTolerance(t) && 0 < i < |g| - 1 && |g| <= |g[0]| && j <= i && g[i][i] != 0.0
    requires LowerZero(g)
    ensures LowerZero(BackwardRows(g, t, i, j))
    decreases i, 0, j
  {
    if j == 0 {
      BackwardKeepsLowerZero(g, t, i - 1);
    } else {
      BackRowKeepsLowerZero(g, i, j - 1);
      BackwardRowsKeepsLowerZero(g[j - 1 := BackRow(g[j - 1], g[i], i)], t, i, j - 1);
    }
  }

  /** The backward phase keeps the solutions. */
  lemma {:induction false} BackwardKeepsSolutions(g: Grid<real>, t: Tolerance, i: int, x: seq<real>)
    requires IsTableau(g) && ValidTolerance(t) && i < |g| - 1 && |g| <= |g[0]| && LowerZero(g)
    ensures SystemHolds(Backward(g, t, i), x) <==> SystemHolds(g, x)
    decreases i, 1, 0
  {
    if i > 0 {
      if Negligible(t, g[i][i]) {
        BackwardKeepsSolutions(g, t, i - 1, x);
      } else {
        BackwardRowsKeepsSolutions(g, t, i, i, x);
      }
    }
  }

  lemma {:induction false} BackwardRowsKeepsSolutions(g: Grid<real>, t: Tolerance, i: nat, j: nat, x: seq<real>)
    requires IsTableau(g) && ValidTolerance(t) && 0 < i < |g| - 1 && |g| <= |g[0]| && j <= i && g[i][i] != 0.0
    requires LowerZero(g)
    ensures SystemHolds(BackwardRows(g, t, i, j), x) <==> SystemHolds(g, x)
    decreases i, 0, j
  {
    if j == 0 {
      BackwardKeepsSolutions(g, t, i - 1, x);
    } else {
      BackRowKeepsLowerZero(g, i, j - 1);
      BackRowKeepsSolutions(g, i, j - 1, x);
      BackwardRowsKeepsSolutions(g[j - 1 := BackRow(g[j - 1], g[i], i)], t, i, j - 1, x);
    }
  }

  /** A normalization stage changes only row i from the diagonal on. */
  lemma NormalizeStageKeepsLowerZero(g: Grid<real>, t: Tolerance, i: nat)
    requires IsTableau(g) && ValidTolerance(t) && i < |g| - 1 && |g| <= |g[0]| && LowerZero(g)
    ensures LowerZero(NormalizeStage(g, t, i))
  {
  }

  /** A normalization stage scales row i by the inverse of its diagonal entry. */
  lemma NormalizeStageKeepsSolutions(g: Grid<real>, t: Tolerance, i: nat, x: seq<real>)
    requires IsTableau(g) && ValidTolerance(t) && i < |g| - 1 && |g| <= |g[0]| && LowerZero(g)
    ensures SystemHolds(NormalizeStage(g, t, i), x) <==> SystemHolds(g, x)
  {
    if !Negligible(t, g[i][i]) && |x| == |g[0]| - 1 {
      var h := NormalizeStage(g, t, i);
      NormalizedRowIsScaled(g, i);
      RowScaleHolds(g[i], h[i], 1.0 / g[i][i], x);
      assert forall r :: 0 <= r < |g| - 1 && r != i ==> h[r] == g[r];
    }
  }

  /** A constraint row that is zero left of its nonzero diagonal entry is normalized by scaling it with the inverse of that entry. */
  lemma NormalizedRowIsScaled(g: Grid<real>, i: nat)
    requires IsTableau(g) && i < |g| - 1 && |g| <= |g[0]| && LowerZero(g) && g[i][i] != 0.0
    ensures forall j :: 0 <= j < |g[0]| ==> NormalizedRow(g[i], i)[j] == (1.0 / g[i][i]) * g[i][j]
  {
    var r := NormalizedRow(g[i], i);
    forall j | 0 <= j < |g[0]|
      ensures r[j] == (1.0 / g[i][i]) * g[i][j]
    {
      if j < i {
        assert g[i][j] == 0.0;
      } else {
        DivIsScale(g[i][j], g[i][i]);
      }
    }
  }

  lemma DivIsScale(a: real, d: real)
    requires d != 0.0
    ensures a / d == (1.0 / d) * a
  {
  }

  /** The normalization phase keeps the zeros left of the diagonal. */
  lemma {:induction false} NormalizeKeepsLowerZero(g: Grid<real>, t: Tolerance, i: nat)
    requires IsTableau(g) && ValidTolerance(t) && |g| <= |g[0]| && LowerZero(g)
    ensures LowerZero(NormalizeFrom(g, t, i))
    decreases |g| - i
  {
    if i < |g| - 1 {
      NormalizeStageKeepsLowerZero(g, t, i);
      NormalizeKeepsLowerZero(NormalizeStage(g, t, i), t, i + 1);
    }
  }

  /** The normalization phase keeps the solutions. */
  lemma {:induction false} NormalizeKeepsSolutions(g: Grid<real>, t: Tolerance, i: nat, x: seq<real>)
    requires IsTableau(g) && ValidTolerance(t) && |g| <= |g[0]| && LowerZero(g)
    ensures SystemHolds(NormalizeFrom(g, t, i), x) <==> SystemHolds(g, x)
    decreases |g| - i
  {
    if i < |g| - 1 {
      NormalizeStageKeepsLowerZero(g, t, i);
      NormalizeStageKeepsSolutions(g, t, i, x);
      NormalizeKeepsSolutions(NormalizeStage(g, t, i), t, i + 1, x);
    }
  }

  /**
   * With the exact tolerance of fractional elements, `GaussElimination`
   * keeps exactly the solutions of the constraint system and leaves every
   * constraint row zero left of the diagonal.
   */
  lemma GaussKeepsSolutions(g: Grid<real>, x: seq<real>)
    requires IsTableau(g) && |g| <= |g[0]|
    ensures LowerZero(GaussSpec(g, CurrentTolerance(FractionalElements)))
    ensures SystemHolds(GaussSpec(g, CurrentTolerance(FractionalElements)), x) <==> SystemHolds(g, x)
  {
    var t := CurrentTolerance(FractionalElements);
    ForwardZeroPattern(g, 0, 0);
    ForwardKeepsSolutions(g, 0, 0, x);
    var f := Forward(g, t, BelowPivotRow, 0, 0);
    BackwardKeepsLowerZero(f, t, |g| - 2);
    BackwardKeepsSolutions(f, t, |g| - 2, x);
    NormalizeKeepsLowerZero(Backward(f, t, |g| - 2), t, 0);
    NormalizeKeepsSolutions(Backward(f, t, |g| - 2), t, 0, x);
  }

  /**
   * Reducing row r by a row i with a nonzero diagonal entry clears row r in
   * column i and keeps the later columns cleared.
   */
  lemma BackRowReduces(g: Grid<real>, i: nat, r: nat)
    requires IsTableau(g) && |g| <= |g[0]| && ReducedAbove(g, i) && r < i < |g| - 1 && g[i][i] != 0.0
    ensures var h := g[r := BackRow(g[r], g[i], i)];
      IsTableau(h) && h[r][i] == 0.0 && ReducedAbove(h, i)
  {
    var h := g[r := BackRow(g[r], g[i], i)];
    assert forall k :: 0 <= k < |h| ==> |h[k]| == |g[0]|;
    var F := g[r][i] / g[i][i];
    assert g[i][i] * F == g[r][i];
    assert h[r][i] == g[r][i] - g[i][i] * F;
    forall c, k | i < c < |g| - 1 && c < |g[0]| && 0 <= k < c && h[c][c] != 0.0
      ensures h[k][c] == 0.0
    {
      if k == r {
        assert g[r][c] == 0.0 && g[i][c] == 0.0;
        assert h[r][c] == g[r][c] - g[i][c] * F;
      }
    }
  }

  /** With exact tolerance the backward phase leaves every nonzero diagonal entry alone in its column above it. */
  lemma {:induction false} BackwardReduces(g: Grid<real>, i: int)
    requires IsTableau(g) && i < |g| - 1 && |g| <= |g[0]| && ReducedAbove(g, i)
    ensures ReducedAbove(Backward(g, AtMost(0.0), i), 0)
    decreases i, 1, 0
  {
    if i > 0 {
      if Negligible(AtMost(0.0), g[i][i]) {
        BackwardReduces(g, i - 1);
      } else {
        BackwardRowsReduces(g, i, i);
      }
    }
  }

  /** Stage i from row j - 1 up, when rows j .. i - 1 are already clear in column i. */
  lemma {:induction false} BackwardRowsReduces(g: Grid<real>, i: nat, j: nat)
    requires IsTableau(g) && 0 < i < |g| - 1 && |g| <= |g[0]| && j <= i && g[i][i] != 0.0 && ReducedAbove(g, i)
    requires forall r :: j <= r < i ==> g[r][i] == 0.0
    ensures ReducedAbove(BackwardRows(g, AtMost(0.0), i, j), 0)
    decreases i, 0, j
  {
    if j == 0 {
      BackwardReduces(g, i - 1);
    } else {
      BackRowReduces(g, i, j - 1);
      BackwardRowsReduces(g[j - 1 := BackRow(g[j - 1], g[i], i)], i, j - 1);
    }
  }

  /** With exact tolerance a normalization stage turns a nonzero diagonal entry into 1 and keeps the cleared columns cleared. */
  lemma NormalizeStageReduces(g: Grid<real>, i: nat)
    requires IsTableau(g) && i < |g| - 1 && |g| <= |g[0]| && ReducedAbove(g, 0) && UnitDiagonal(g, i)
    ensures ReducedAbove(NormalizeStage(g, AtMost(0.0), i), 0) && UnitDiagonal(NormalizeStage(g, AtMost(0.0), i), i + 1)
  {
    var h := NormalizeStage(g, AtMost(0.0), i);
    if g[i][i] != 0.0 {
      assert h[i] == NormalizedRow(g[i], i);
      assert g[i][i] / g[i][i] == 1.0;
      forall c, r | 0 < c < |g| - 1 && 0 <= r < c && h[c][c] != 0.0
        ensures h[r][c] == 0.0
      {
        assert g[c][c] != 0.0;
        if r == i {
          assert g[i][c] == 0.0;
        }
      }
    }
  }

  /** With exact tolerance the normalization phase makes every diagonal entry 0 or 1. */
  lemma {:induction false} NormalizeReduces(g: Grid<real>, i: nat)
    requires IsTableau(g) && |g| <= |g[0]| && ReducedAbove(g, 0) && UnitDiagonal(g, i)
    ensures ReducedAbove(NormalizeFrom(g, AtMost(0.0), i), 0) && UnitDiagonal(NormalizeFrom(g, AtMost(0.0), i), |g| - 1)
    decreases |g| - i
  {
    if i < |g| - 1 {
      NormalizeStageReduces(g, i);
      NormalizeReduces(NormalizeStage(g, AtMost(0.0), i), i + 1);
    }
  }

  /**
   * With the exact tolerance of fractional elements `GaussElimination`
   * reduces the constraint rows: every diagonal entry is 0 or 1, and a
   * diagonal 1 is the only nonzero constraint entry of its column.
   */
  lemma GaussReducesToIdentity(g: Grid<real>)
    requires IsTableau(g) && |g| <= |g[0]|
    ensures var h := GaussSpec(g, CurrentTolerance(FractionalElements));
      forall i :: 0 <= i < |g| - 1 ==> h[i][i] == 0.0 || h[i][i] == 1.0
    ensures var h := GaussSpec(g, CurrentTolerance(FractionalElements));
      forall c, r :: 0 <= c < |g| - 1 && 0 <= r < |g| - 1 && r != c && h[c][c] == 1.0 ==> h[r][c] == 0.0
  {
    ExactGaussShape(g);
    var h := GaussSpec(g, AtMost(0.0));
    forall c, r | 0 <= c < |g| - 1 && 0 <= r < |g| - 1 && r != c && h[c][c] == 1.0
      ensures h[r][c] == 0.0
    {
      if r > c {
        assert ZeroLeft(h, |g| - 1);
      }
    }
  }

  /** The exact elimination leaves zeros below the diagonal, cleared pivot columns above it and a 0/1 diagonal. */
  lemma ExactGaussShape(g: Grid<real>)
    requires IsTableau(g) && |g| <= |g[0]|
    ensures var h := GaussSpec(g, AtMost(0.0));
      LowerZero(h) && ReducedAbove(h, 0) && UnitDiagonal(h, |g| - 1)
  {
    var t := AtMost(0.0);
    ForwardLeavesLowerZero(g);
    var f := Forward(g, t, BelowPivotRow, 0, 0);
    ExactBackwardShape(f);
    var b := Backward(f, t, |g| - 2);
    NormalizeKeepsLowerZero(b, t, 0);
    NormalizeReduces(b, 0);
    assert GaussSpec(g, t) == NormalizeFrom(b, t, 0);
  }

  /** The exact forward phase from the top-left cell leaves zeros below the diagonal. */
  lemma ForwardLeavesLowerZero(g: Grid<real>)
    requires IsTableau(g) && |g| <= |g[0]|
    ensures LowerZero(Forward(g, AtMost(0.0), BelowPivotRow, 0, 0))
  {
    ForwardZeroPattern(g, 0, 0);
  }

  /** The exact backward phase keeps the zeros below the diagonal and clears every pivot column above it. */
  lemma ExactBackwardShape(f: Grid<real>)
    requires IsTableau(f) && |f| <= |f[0]| && LowerZero(f)
    ensures var b := Backward(f, AtMost(0.0), |f| - 2);
      LowerZero(b) && ReducedAbove(b, 0) && UnitDiagonal(b, 0)
  {
    BackwardKeepsLowerZero(f, AtMost(0.0), |f| - 2);
    BackwardReduces(f, |f| - 2);
  }

  /**
   * With the search over every constraint row from the pivot row on, a
   * column is skipped only when all of those rows are negligible in it.
   */
  lemma SkippedColumnIsNegligible(g: Grid<real>, t: Tolerance, p: nat, q: nat)
    requires IsTableau(g) && ValidTolerance(t) && p < |g| - 1 && q < |g[0]|
    requires Negligible(t, g[MaxPivotRow(g, p, q, SearchEnd(BelowPivotRow, |g|, p))][q])
    ensures forall i :: p <= i < |g| - 1 ==> Negligible(t, g[i][q])
  {
    var k := MaxPivotRow(g, p, q, SearchEnd(BelowPivotRow, |g|, p));
    forall i | p <= i < |g| - 1
      ensures Negligible(t, g[i][q])
    {
      assert RAbs(g[i][q]) <= RAbs(g[k][q]);
    }
  }

  /** Constraints x2 = 5 and x1 = 3 over two variables, with an empty objective row. */
  function SwappedSystem(): (g: Grid<real>)
    ensures IsTableau(g) && |g| == 3 && |g[0]| == 3
  {
    [[0.0, 1.0, 5.0], [1.0, 0.0, 3.0], [0.0, 0.0, 0.0]]
  }

  /**
   * As written, with three rows the search at pivot row 0 looks at row 0
   * only: column 0 is skipped although row 1 has a 1 in it.
   */
  lemma AsWrittenSearchSkipsPivot()
    ensures var g := SwappedSystem();
      Negligible(AtMost(0.0), g[MaxPivotRow(g, 0, 0, SearchEnd(AsWritten, |g|, 0))][0]) &&
      !Negligible(AtMost(0.0), g[1][0])
  {
    var g := SwappedSystem();
    assert MaxPivotRow(g, 0, 0, 0) == 0;
    assert MaxPivotRow(g, 0, 0, 1) == 0;
  }

  /**
   * The whole elimination as written leaves that system as it is, with a
   * 1 below the diagonal, both under the current fractional test and under
   * the older revision's `< EPSILON` test; the corrected search swaps the
   * rows and solves it.
   */
  lemma AsWrittenGaussLeavesSystem()
    ensures GaussAsWritten(SwappedSystem(), AtMost(0.0)) == SwappedSystem()
    ensures !LowerZero(GaussAsWritten(SwappedSystem(), AtMost(0.0)))
    ensures GaussAsWritten(SwappedSystem(), LegacyTolerance()) == SwappedSystem()
    ensures !LowerZero(GaussAsWritten(SwappedSystem(), LegacyTolerance()))
  {
    AsWrittenGaussKeeps(AtMost(0.0));
    AsWrittenGaussKeeps(LegacyTolerance());
  }

  /** The as-written elimination of that system under any test that does not call 1 negligible. */
  lemma AsWrittenGaussKeeps(t: Tolerance)
    requires ValidTolerance(t) && !Negligible(t, 1.0)
    ensures GaussAsWritten(SwappedSystem(), t) == SwappedSystem()
  {
    var g := SwappedSystem();
    AsWrittenForwardLeavesSystem(t);
    assert Backward(g, t, 1) == g;
    NormalizeUnfolds(g, t, 0);
    NormalizeUnfolds(g, t, 1);
    assert NormalizeFrom(g, t, 0) == g;
  }

  /** As written, the forward phase skips column 0 and then finds nothing to clear below row 0 in column 1. */
  lemma AsWrittenForwardLeavesSystem(t: Tolerance)
    requires ValidTolerance(t) && !Negligible(t, 1.0)
    ensures Forward(SwappedSystem(), t, AsWritten, 0, 0) == SwappedSystem()
  {
    var g := SwappedSystem();
    assert MaxPivotRow(g, 0, 0, 1) == 0;
    ForwardSkips(g, t, AsWritten, 0, 0);
    AsWrittenSecondStage(t);
  }

  lemma AsWrittenSecondStage(t: Tolerance)
    requires ValidTolerance(t) && !Negligible(t, 1.0)
    ensures Forward(SwappedSystem(), t, AsWritten, 0, 1) == SwappedSystem()
  {
    var g := SwappedSystem();
    assert MaxPivotRow(g, 0, 1, 1) == 0;
    ForwardPivots(g, t, AsWritten, 0, 1);
    assert SwapRowsOf(g, 0, 0) == g;
    assert EliminatedRow(g[1], g[0], 1) == g[1];
    EliminateBelowRows(g, 0, 1);
    assert EliminateBelow(g, 0, 1) == g;
    assert Forward(g, t, AsWritten, 1, 2) == g;
  }

  lemma CorrectedGaussSolvesSystem()
    ensures GaussSpec(SwappedSystem(), AtMost(0.0)) == SolvedSystem()
  {
    CorrectedForwardSwapsRows();
    CorrectedBackwardKeepsSolved();
  }

  /** The constraints x1 = 3 and x2 = 5 in reduced form. */
  function SolvedSystem(): (h: Grid<real>)
    ensures IsTableau(h) && |h| == 3 && |h[0]| == 3
  {
    [[1.0, 0.0, 3.0], [0.0, 1.0, 5.0], [0.0, 0.0, 0.0]]
  }

  /** The corrected forward phase swaps the two constraint rows and then has nothing to clear. */
  lemma CorrectedForwardSwapsRows()
    ensures Forward(SwappedSystem(), AtMost(0.0), BelowPivotRow, 0, 0) == SolvedSystem()
  {
    CorrectedFirstStage();
    SolvedFirstStage();
    CorrectedSecondStage();
  }

  /** The first corrected stage pivots on row 1: the rows are swapped and column 0 is cleared below row 0. */
  lemma CorrectedFirstStage()
    ensures Forward(SwappedSystem(), AtMost(0.0), BelowPivotRow, 0, 0) ==
            Forward(EliminateBelow(SolvedSystem(), 0, 0), AtMost(0.0), BelowPivotRow, 1, 1)
  {
    CorrectedFirstSearch();
    ForwardPivots(SwappedSystem(), AtMost(0.0), BelowPivotRow, 0, 0);
    SwappedSystemSwaps();
  }

  lemma SwappedSystemSwaps()
    ensures SwapRowsOf(SwappedSystem(), 0, 1) == SolvedSystem()
  {
  }

  /** The corrected search at pivot row 0 looks at both constraint rows and picks row 1. */
  lemma CorrectedFirstSearch()
    ensures var g := SwappedSystem(); MaxPivotRow(g, 0, 0, SearchEnd(BelowPivotRow, |g|, 0)) == 1
  {
    var g := SwappedSystem();
    assert MaxPivotRow(g, 0, 0, 1) == 0;
    assert MaxPivotRow(g, 0, 0, 2) == 1;
  }

  /** Clearing column 0 below row 0 of the reduced system changes nothing. */
  lemma SolvedFirstStage()
    ensures EliminateBelow(SolvedSystem(), 0, 0) == SolvedSystem()
  {
    var h := SolvedSystem();
    assert EliminatedRow(h[1], h[0], 0) == h[1];
    EliminateBelowRows(h, 0, 0);
  }

  lemma CorrectedSecondStage()
    ensures Forward(SolvedSystem(), AtMost(0.0), BelowPivotRow, 1, 1) == SolvedSystem()
  {
    var t, h := AtMost(0.0), SolvedSystem();
    assert MaxPivotRow(h, 1, 1, 1) == 1;
    assert MaxPivotRow(h, 1, 1, 2) == 1;
    ForwardPivots(h, t, BelowPivotRow, 1, 1);
    assert SwapRowsOf(h, 1, 1) == h;
    EliminateBelowRows(h, 1, 1);
    assert EliminateBelow(h, 1, 1) == h;
  }

  /** The backward and normalization phases leave the reduced system as it is. */
  lemma CorrectedBackwardKeepsSolved()
    ensures NormalizeFrom(Backward(SolvedSystem(), AtMost(0.0), 1), AtMost(0.0), 0) == SolvedSystem()
  {
    var t, h := AtMost(0.0), SolvedSystem();
    assert BackRow(h[0], h[1], 1) == h[0];
    assert h[0 := BackRow(h[0], h[1], 1)] == h;
    assert BackwardRows(h, t, 1, 1) == h;
    assert Backward(h, t, 1) == h;
    assert NormalizedRow(h[0], 0) == h[0];
    assert NormalizeStage(h, t, 0) == h;
    assert NormalizedRow(h[1], 1) == h[1];
    assert NormalizeStage(h, t, 1) == h;
    NormalizeUnfolds(h, t, 0);
    NormalizeUnfolds(h, t, 1);
  }
}
