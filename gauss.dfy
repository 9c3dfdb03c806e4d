/**
 * `GaussElimination`: Gauss-Jordan elimination over the constraint rows of
 * a tableau, in three phases.
 *
 * Forward: for each pivot position (PivotRow, PivotColumn) take the row of
 * largest magnitude in the column, skip the column when that entry is
 * negligible, and otherwise swap it up and clear the column below it.
 * Backward: for each diagonal entry from the bottom up that is not
 * negligible, subtract multiples of its row from the rows above, on the
 * columns from the diagonal on. Normalization: divide each row whose
 * diagonal entry is not negligible by that entry, from the diagonal on.
 *
 * The objective row (the last row) is never written. The current revision
 * calls an entry negligible when its magnitude is at most `ZeroElement`, the
 * older one when it is below EPSILON.
 */
module Gauss {
  import opened Matrices
  import opened Steps

  /** How an entry is judged negligible: magnitude at most the bound, or below it. */
  datatype Tolerance = AtMost(bound: real) | Below(bound: real)

  ghost predicate ValidTolerance(t: Tolerance) {
    match t
    case AtMost(b) => b >= 0.0
    case Below(b) => b > 0.0
  }

  function Negligible(t: Tolerance, x: real): (r: bool)
    ensures ValidTolerance(t) && !r ==> x != 0.0
    ensures ValidTolerance(t) && x == 0.0 ==> r
  {
    match t
    case AtMost(b) => RAbs(x) <= b
    case Below(b) => RAbs(x) < b
  }

  /** The current revision's test, `Genfabs(x) <= ZeroElement`. */
  function CurrentTolerance(kind: ElementKind): (t: Tolerance)
    ensures ValidTolerance(t)
  {
    AtMost(ZeroElement(kind))
  }

  /** The older revision's test, `fabs(x) < EPSILON`. */
  function LegacyTolerance(): (t: Tolerance)
    ensures ValidTolerance(t)
  {
    Below(EPSILON)
  }

  /**
   * The end of the rows the max-pivot search scans. As written the search
   * stops before RowNumber - PivotRow - 2; the intended end is the objective
   * row, RowNumber - 1.
   */
  datatype SearchRange = AsWritten | BelowPivotRow

  function SearchEnd(s: SearchRange, RowNumber: int, PivotRow: int): (e: int)
    ensures e <= RowNumber - 1 || PivotRow < 0
  {
    match s
    case AsWritten => RowNumber - PivotRow - 1 - 1
    case BelowPivotRow => RowNumber - 1
  }

  /**
   * The row the max-pivot search holds after rows p .. k-1 of column q:
   * starting from row p, the first row of strictly larger magnitude each time.
   */
  ghost function MaxPivotRow(g: Grid<real>, p: nat, q: nat, k: int): (m: nat)
    requires IsTableau(g) && p < |g| - 1 && q < |g[0]| && k <= |g| - 1
    ensures p <= m < |g| - 1 && (m == p || m < k)
    ensures forall i :: p <= i < k ==> RAbs(g[i][q]) <= RAbs(g[m][q])
    ensures forall i :: p <= i < m ==> RAbs(g[i][q]) < RAbs(g[m][q])
    decreases k - p
  {
    if k <= p then p
    else
      var m := MaxPivotRow(g, p, q, k - 1);
      if RAbs(g[k - 1][q]) > RAbs(g[m][q]) then k - 1 else m
  }

  /** A row below the pivot after its stage: column q cleared, the later columns reduced by the pivot row. */
  function EliminatedRow(row: seq<real>, pivotRow: seq<real>, q: nat): (r: seq<real>)
    requires |row| == |pivotRow| && q < |row| && pivotRow[q] != 0.0
    ensures |r| == |row|
  {
    var Factor := row[q] / pivotRow[q];
    seq(|row|, j requires 0 <= j < |row| =>
      if j < q then row[j] else if j == q then 0.0 else row[j] - pivotRow[j] * Factor)
  }

  /** One forward stage at (p, q): every constraint row below p is eliminated against row p. */
  function EliminateBelow(g: Grid<real>, p: nat, q: nat): (h: Grid<real>)
    requires IsTableau(g) && p < |g| - 1 && q < |g[0]| - 1 && g[p][q] != 0.0
    ensures IsTableau(h) && |h| == |g| && |h[0]| == |g[0]| && h[|g| - 1] == g[|g| - 1]
  {
    EliminatedRows(g, p, q, |g|)
  }

  /** The first n rows after the forward stage at (p, q). */
  function EliminatedRows(g: Grid<real>, p: nat, q: nat, n: nat): (h: Grid<real>)
    requires IsTableau(g) && p < |g| - 1 && q < |g[0]| - 1 && g[p][q] != 0.0 && n <= |g|
    ensures |h| == n && forall i :: 0 <= i < n ==> |h[i]| == |g[0]|
    decreases n
  {
    if n == 0 then []
    else EliminatedRows(g, p, q, n - 1) + [if p < n - 1 < |g| - 1 then EliminatedRow(g[n - 1], g[p], q) else g[n - 1]]
  }

  lemma {:induction false} EliminatedRowsAt(g: Grid<real>, p: nat, q: nat, n: nat, i: nat)
    requires IsTableau(g) && p < |g| - 1 && q < |g[0]| - 1 && g[p][q] != 0.0 && i < n <= |g|
    ensures EliminatedRows(g, p, q, n)[i] == if p < i < |g| - 1 then EliminatedRow(g[i], g[p], q) else g[i]
    decreases n
  {
    if i < n - 1 {
      EliminatedRowsAt(g, p, q, n - 1, i);
    }
  }

  /** What the forward stage at (p, q) does to each row: the constraint rows below p are eliminated, the others stay. */
  lemma EliminateBelowRows(g: Grid<real>, p: nat, q: nat)
    requires IsTableau(g) && p < |g| - 1 && q < |g[0]| - 1 && g[p][q] != 0.0
    ensures forall i :: 0 <= i < |g| ==>
      EliminateBelow(g, p, q)[i] == if p < i < |g| - 1 then EliminatedRow(g[i], g[p], q) else g[i]
  {
    forall i | 0 <= i < |g|
      ensures EliminateBelow(g, p, q)[i] == if p < i < |g| - 1 then EliminatedRow(g[i], g[p], q) else g[i]
    {
      EliminatedRowsAt(g, p, q, |g|, i);
    }
  }

  /** The forward phase from pivot position (p, q) on. */
  ghost function Forward(g: Grid<real>, t: Tolerance, s: SearchRange, p: nat, q: nat): (h: Grid<real>)
    requires IsTableau(g) && ValidTolerance(t) && p <= |g| - 1 && q <= |g[0]| - 1
    ensures IsTableau(h) && |h| == |g| && |h[0]| == |g[0]| && h[|g| - 1] == g[|g| - 1]
    decreases |g[0]| - q
  {
    if p < |g| - 1 && q < |g[0]| - 1 then
      var k := MaxPivotRow(g, p, q, SearchEnd(s, |g|, p));
      if Negligible(t, g[k][q]) then Forward(g, t, s, p, q + 1)
      else Forward(PivotStage(g, p, q, k), t, s, p + 1, q + 1)
    else g
  }

  /** A forward stage that pivots: rows p and k exchanged, then column q cleared below row p. */
  function PivotStage(g: Grid<real>, p: nat, q: nat, k: nat): (h: Grid<real>)
    requires IsTableau(g) && p <= k < |g| - 1 && q < |g[0]| - 1 && g[k][q] != 0.0
    ensures IsTableau(h) && |h| == |g| && |h[0]| == |g[0]| && h[|g| - 1] == g[|g| - 1]
  {
    var swapped := SwapRowsOf(g, p, k);
    assert IsTableau(swapped) by { assert forall i :: 0 <= i < |g| ==> |swapped[i]| == |g[0]|; }
    EliminateBelow(swapped, p, q)
  }

  /** A row above i after stage i: its multiple of row i taken away, on the columns from i on. */
  function BackRow(row: seq<real>, pivotRow: seq<real>, i: nat): (r: seq<real>)
    requires |row| == |pivotRow| && i < |row| && pivotRow[i] != 0.0
    ensures |r| == |row|
  {
    var Factor := row[i] / pivotRow[i];
    seq(|row|, k requires 0 <= k < |row| => if k < i then row[k] else row[k] - pivotRow[k] * Factor)
  }

  /**
   * The backward phase from row i up to row 1, as the two nested loops run:
   * unless the diagonal entry of row i is negligible, rows i - 1 down to 0
   * are reduced by row i; then the phase goes on from row i - 1.
   */
  ghost function Backward(g: Grid<real>, t: Tolerance, i: int): (h: Grid<real>)
    requires IsTableau(g) && ValidTolerance(t) && i < |g| - 1 && |g| <= |g[0]|
    ensures IsTableau(h) && |h| == |g| && |h[0]| == |g[0]| && h[|g| - 1] == g[|g| - 1]
    decreases i, 1, 0
  {
    if i <= 0 then g
    else if Negligible(t, g[i][i]) then Backward(g, t, i - 1)
    else BackwardRows(g, t, i, i)
  }

  /** Stage i from row j - 1 up to row 0, then the rest of the phase. */
  ghost function BackwardRows(g: Grid<real>, t: Tolerance, i: nat, j: nat): (h: Grid<real>)
    requires IsTableau(g) && ValidTolerance(t) && 0 < i < |g| - 1 && |g| <= |g[0]| && j <= i && g[i][i] != 0.0
    ensures IsTableau(h) && |h| == |g| && |h[0]| == |g[0]| && h[|g| - 1] == g[|g| - 1]
    decreases i, 0, j
  {
    if j == 0 then Backward(g, t, i - 1)
    else
      var h := g[j - 1 := BackRow(g[j - 1], g[i], i)];
      assert IsTableau(h) by { assert forall r :: 0 <= r < |h| ==> |h[r]| == |g[0]|; }
      BackwardRows(h, t, i, j - 1)
  }

  /** Row i divided by its diagonal entry, from the diagonal on. */
  function NormalizedRow(row: seq<real>, i: nat): (r: seq<real>)
    requires i < |row| && row[i] != 0.0
    ensures |r| == |row|
  {
    seq(|row|, j requires 0 <= j < |row| => if j < i then row[j] else row[j] / row[i])
  }

  function NormalizeStage(g: Grid<real>, t: Tolerance, i: nat): (h: Grid<real>)
    requires IsTableau(g) && ValidTolerance(t) && i < |g| - 1 && i < |g[0]|
    ensures IsTableau(h) && |h| == |g| && |h[0]| == |g[0]|
    ensures forall r :: 0 <= r < |g| && r != i ==> h[r] == g[r]
  {
    if Negligible(t, g[i][i]) then g else g[i := NormalizedRow(g[i], i)]
  }

  /** The normalization phase from row i down to the last constraint row. */
  ghost function NormalizeFrom(g: Grid<real>, t: Tolerance, i: nat): (h: Grid<real>)
    requires IsTableau(g) && ValidTolerance(t) && |g| <= |g[0]|
    ensures IsTableau(h) && |h| == |g| && |h[0]| == |g[0]| && h[|g| - 1] == g[|g| - 1]
    decreases |g| - i
  {
    if i >= |g| - 1 then g else NormalizeFrom(NormalizeStage(g, t, i), t, i + 1)
  }

  /** The three phases, with the max-pivot search over the given range. */
  ghost function GaussWith(g: Grid<real>, t: Tolerance, s: SearchRange): (h: Grid<real>)
    requires IsTableau(g) && ValidTolerance(t) && |g| <= |g[0]|
    ensures IsTableau(h) && |h| == |g| && |h[0]| == |g[0]| && h[|g| - 1] == g[|g| - 1]
  {
    NormalizeFrom(Backward(Forward(g, t, s, 0, 0), t, |g| - 2), t, 0)
  }

  /** The elimination the model uses: the search covers every constraint row from the pivot row on. */
  ghost function GaussSpec(g: Grid<real>, t: Tolerance): (h: Grid<real>)
    requires IsTableau(g) && ValidTolerance(t) && |g| <= |g[0]|
    ensures IsTableau(h) && |h| == |g| && |h[0]| == |g[0]| && h[|g| - 1] == g[|g| - 1]
  {
    GaussWith(g, t, BelowPivotRow)
  }

  /** The elimination with the search range as written. */
  ghost function GaussAsWritten(g: Grid<real>, t: Tolerance): (h: Grid<real>)
    requires IsTableau(g) && ValidTolerance(t) && |g| <= |g[0]|
    ensures IsTableau(h) && |h| == |g| && |h[0]| == |g[0]| && h[|g| - 1] == g[|g| - 1]
  {
    GaussWith(g, t, AsWritten)
  }

  /**
   * The source's three loops over the matrix, in place. A tableau with more
   * constraint rows than non-RHS columns is not accepted: the backward and
   * normalization phases index the diagonal entry of every constraint row.
   */
  method GaussElimination(matrix: Matrix<real>, t: Tolerance)
    requires matrix.Valid() && matrix.RowNumber >= 1 && matrix.RowNumber <= matrix.ColNumber && ValidTolerance(t)
    modifies matrix.matrix
    ensures matrix.Valid() && matrix.Contents() == GaussSpec(old(matrix.Contents()), t)
  {
    ForwardPhase(matrix, t);
    BackwardPhase(matrix, t);
    NormalizePhase(matrix, t);
  }

  /** The first loop: pivot positions from (0, 0) on. */
  method ForwardPhase(matrix: Matrix<real>, t: Tolerance)
    requires matrix.Valid() && matrix.RowNumber >= 1 && matrix.RowNumber <= matrix.ColNumber && ValidTolerance(t)
    modifies matrix.matrix
    ensures matrix.Valid() && matrix.Contents() == Forward(old(matrix.Contents()), t, BelowPivotRow, 0, 0)
  {
    ghost var g := matrix.Contents();
    var R, C := matrix.RowNumber, matrix.ColNumber;
    var PivotRow, PivotColumn := 0, 0;
    while PivotRow < R - 1 && PivotColumn < C - 1
      invariant matrix.Valid() && IsTableau(matrix.Contents()) && |matrix.Contents()| == R && |matrix.Contents()[0]| == C
      invariant PivotRow <= R - 1 && PivotColumn <= C - 1
      invariant Forward(matrix.Contents(), t, BelowPivotRow, PivotRow, PivotColumn) == Forward(g, t, BelowPivotRow, 0, 0)
      decreases C - PivotColumn
    {
      PivotRow, PivotColumn := ForwardStage(matrix, t, PivotRow, PivotColumn);
    }
  }

  /** One pass of the first loop: skip the column, or swap the largest entry up and clear below it. */
  method ForwardStage(matrix: Matrix<real>, t: Tolerance, PivotRow: nat, PivotColumn: nat) returns (NextRow: nat, NextColumn: nat)
    requires matrix.Valid() && IsTableau(matrix.Contents()) && ValidTolerance(t)
    requires PivotRow < matrix.RowNumber - 1 && PivotColumn < matrix.ColNumber - 1
    modifies matrix.matrix
    ensures matrix.Valid() && IsTableau(matrix.Contents())
    ensures NextColumn == PivotColumn + 1 && (NextRow == PivotRow || NextRow == PivotRow + 1)
    ensures Forward(matrix.Contents(), t, BelowPivotRow, NextRow, NextColumn) ==
      Forward(old(matrix.Contents()), t, BelowPivotRow, PivotRow, PivotColumn)
  {
    ghost var cur := matrix.Contents();
    var MaxPivotIdx := FindMaxPivot(matrix, PivotRow, PivotColumn, SearchEnd(BelowPivotRow, matrix.RowNumber, PivotRow));
    if Negligible(t, matrix.matrix[MaxPivotIdx, PivotColumn]) {
      ForwardSkips(cur, t, BelowPivotRow, PivotRow, PivotColumn);
      NextRow, NextColumn := PivotRow, PivotColumn + 1;
    } else {
      ForwardPivots(cur, t, BelowPivotRow, PivotRow, PivotColumn);
      matrix.SwapRows(PivotRow, MaxPivotIdx);
      EliminateRowsBelow(matrix, PivotRow, PivotColumn);
      NextRow, NextColumn := PivotRow + 1, PivotColumn + 1;
    }
  }

  lemma ForwardSkips(g: Grid<real>, t: Tolerance, s: SearchRange, p: nat, q: nat)
    requires IsTableau(g) && ValidTolerance(t) && p < |g| - 1 && q < |g[0]| - 1
    requires Negligible(t, g[MaxPivotRow(g, p, q, SearchEnd(s, |g|, p))][q])
    ensures Forward(g, t, s, p, q) == Forward(g, t, s, p, q + 1)
  {
  }

  lemma ForwardPivots(g: Grid<real>, t: Tolerance, s: SearchRange, p: nat, q: nat)
    requires IsTableau(g) && ValidTolerance(t) && p < |g| - 1 && q < |g[0]| - 1
    requires !Negligible(t, g[MaxPivotRow(g, p, q, SearchEnd(s, |g|, p))][q])
    ensures var k := MaxPivotRow(g, p, q, SearchEnd(s, |g|, p));
      var swapped := SwapRowsOf(g, p, k);
      IsTableau(swapped) && swapped[p][q] != 0.0 &&
      Forward(g, t, s, p, q) == Forward(EliminateBelow(swapped, p, q), t, s, p + 1, q + 1)
  {
    var k := MaxPivotRow(g, p, q, SearchEnd(s, |g|, p));
    var swapped := SwapRowsOf(g, p, k);
    assert forall i :: 0 <= i < |g| ==> |swapped[i]| == |g[0]|;
  }

  /** The second loop: diagonal entries from the last constraint row up to row 1. */
  method BackwardPhase(matrix: Matrix<real>, t: Tolerance)
    requires matrix.Valid() && matrix.RowNumber >= 1 && matrix.RowNumber <= matrix.ColNumber && ValidTolerance(t)
    modifies matrix.matrix
    ensures matrix.Valid() && matrix.Contents() == Backward(old(matrix.Contents()), t, matrix.RowNumber - 2)
  {
    ghost var f := matrix.Contents();
    var R, C := matrix.RowNumber, matrix.ColNumber;
    var i: int := R as int - 2;
    ghost var result := Backward(f, t, i);
    while i > 0
      invariant matrix.Valid() && 1 <= R <= C
      invariant i < R - 1
      invariant Backward(matrix.Contents(), t, i) == result
      decreases i
    {
      BackSubstituteColumn(matrix, t, i, result);
      i := i - 1;
    }
  }

  /** The third loop: every constraint row divided by its diagonal entry. */
  method NormalizePhase(matrix: Matrix<real>, t: Tolerance)
    requires matrix.Valid() && matrix.RowNumber >= 1 && matrix.RowNumber <= matrix.ColNumber && ValidTolerance(t)
    modifies matrix.matrix
    ensures matrix.Valid() && matrix.Contents() == NormalizeFrom(old(matrix.Contents()), t, 0)
  {
    ghost var b := matrix.Contents();
    var R, C := matrix.RowNumber, matrix.ColNumber;
    var i := 0;
    while i < R - 1
      invariant matrix.Valid() && IsTableau(matrix.Contents()) && |matrix.Contents()| == R && |matrix.Contents()[0]| == C
      invariant 0 <= i <= R - 1
      invariant NormalizeFrom(matrix.Contents(), t, i) == NormalizeFrom(b, t, 0)
    {
      ghost var cur := matrix.Contents();
      NormalizeUnfolds(cur, t, i);
      NormalizeRowAt(matrix, t, i);
      i := i + 1;
    }
  }

  lemma NormalizeUnfolds(g: Grid<real>, t: Tolerance, i: nat)
    requires IsTableau(g) && ValidTolerance(t) && i < |g| - 1 && |g| <= |g[0]|
    ensures NormalizeFrom(g, t, i) == NormalizeFrom(NormalizeStage(g, t, i), t, i + 1)
  {
  }

  /** The max-pivot search loop. */
  method FindMaxPivot(matrix: Matrix<real>, PivotRow: nat, PivotColumn: nat, hi: int) returns (MaxPivotIdx: nat)
    requires matrix.Valid() && IsTableau(matrix.Contents())
    requires PivotRow < matrix.RowNumber - 1 && PivotColumn < matrix.ColNumber && hi <= matrix.RowNumber - 1
    ensures MaxPivotIdx == MaxPivotRow(matrix.Contents(), PivotRow, PivotColumn, hi)
  {
    ghost var g := matrix.Contents();
    var MaxPivot := RAbs(matrix.matrix[PivotRow, PivotColumn]);
    MaxPivotIdx := PivotRow;
    var i := PivotRow;
    while i < hi
      invariant PivotRow <= i && (i <= hi || i == PivotRow)
      invariant MaxPivotIdx == MaxPivotRow(g, PivotRow, PivotColumn, i)
      invariant MaxPivot == RAbs(g[MaxPivotIdx][PivotColumn])
    {
      assert matrix.matrix[i, PivotColumn] == g[i][PivotColumn];
      if RAbs(matrix.matrix[i, PivotColumn]) > MaxPivot {
        MaxPivot := RAbs(matrix.matrix[i, PivotColumn]);
        MaxPivotIdx := i;
      }
      i := i + 1;
    }
  }

  /** The elimination loops of one forward stage. */
  method EliminateRowsBelow(matrix: Matrix<real>, PivotRow: nat, PivotColumn: nat)
    requires matrix.Valid() && IsTableau(matrix.Contents())
    requires PivotRow < matrix.RowNumber - 1 && PivotColumn < matrix.ColNumber - 1
    requires matrix.Contents()[PivotRow][PivotColumn] != 0.0
    modifies matrix.matrix
    ensures matrix.Valid() && matrix.Contents() == EliminateBelow(old(matrix.Contents()), PivotRow, PivotColumn)
  {
    ghost var g := matrix.Contents();
    var i := PivotRow + 1;
    while i < matrix.RowNumber - 1
      invariant matrix.Valid() && IsGrid(matrix.Contents(), |g|, |g[0]|)
      invariant PivotRow + 1 <= i <= matrix.RowNumber - 1
      invariant forall r :: 0 <= r < |g| ==>
        matrix.Contents()[r] == if PivotRow < r < i then EliminatedRow(g[r], g[PivotRow], PivotColumn) else g[r]
    {
      EliminateRow(matrix, PivotRow, PivotColumn, i);
      i := i + 1;
    }
    EliminateBelowRows(g, PivotRow, PivotColumn);
    assert matrix.Contents() == EliminateBelow(g, PivotRow, PivotColumn);
  }

  /** The inner loop of a forward stage: row i less `a[i][q] / a[p][q]` times row p, column q set to zero. */
  method EliminateRow(matrix: Matrix<real>, PivotRow: nat, PivotColumn: nat, i: nat)
    requires matrix.Valid() && IsTableau(matrix.Contents())
    requires PivotRow < i < matrix.RowNumber && PivotColumn < matrix.ColNumber
    requires matrix.Contents()[PivotRow][PivotColumn] != 0.0
    modifies matrix.matrix
    ensures matrix.Valid()
    ensures matrix.Contents() ==
      old(matrix.Contents())[i := EliminatedRow(old(matrix.Contents())[i], old(matrix.Contents())[PivotRow], PivotColumn)]
  {
    ghost var g := matrix.Contents();
    ghost var h := g[i := EliminatedRow(g[i], g[PivotRow], PivotColumn)];
    var a := matrix.matrix;
    var R, C := matrix.RowNumber, matrix.ColNumber;
    var Factor := a[i, PivotColumn] / a[PivotRow, PivotColumn];
    a[i, PivotColumn] := 0.0;
    var j := PivotColumn + 1;
    while j < C
      invariant PivotColumn + 1 <= j <= C
      invariant forall r, c :: 0 <= r < R && 0 <= c < C ==> a[r, c] == (if r == i && c < j then h[r][c] else g[r][c])
    {
      a[i, j] := a[i, j] - a[PivotRow, j] * Factor;
      j := j + 1;
    }
    GridOfCells(a, h);
  }

  /** One pass of the backward loop: rows above i reduced by row i, stated as progress through the phase. */
  method BackSubstituteColumn(matrix: Matrix<real>, t: Tolerance, i: nat, ghost result: Grid<real>)
    requires matrix.Valid() && IsTableau(matrix.Contents()) && ValidTolerance(t)
    requires 0 < i < matrix.RowNumber - 1 && matrix.RowNumber <= matrix.ColNumber
    requires Backward(matrix.Contents(), t, i) == result
    modifies matrix.matrix
    ensures matrix.Valid() && Backward(matrix.Contents(), t, i - 1) == result
  {
    if Negligible(t, matrix.matrix[i, i]) {
      return;
    }
    var j := i;
    while j > 0
      invariant matrix.Valid() && IsTableau(matrix.Contents()) && |matrix.Contents()| == matrix.RowNumber
      invariant |matrix.Contents()[0]| == matrix.ColNumber && matrix.Contents()[i][i] != 0.0
      invariant 0 <= j <= i
      invariant BackwardRows(matrix.Contents(), t, i, j) == result
    {
      SubtractPivotMultiple(matrix, i, j - 1);
      j := j - 1;
    }
  }

  /** The inner loop: row `Row` less `a[Row][i] / a[i][i]` times row i, on the columns from i on. */
  method SubtractPivotMultiple(matrix: Matrix<real>, i: nat, Row: nat)
    requires matrix.Valid() && IsTableau(matrix.Contents())
    requires Row < i < matrix.RowNumber && i < matrix.ColNumber && matrix.Contents()[i][i] != 0.0
    modifies matrix.matrix
    ensures matrix.Valid()
    ensures matrix.Contents() == old(matrix.Contents())[Row := BackRow(old(matrix.Contents())[Row], old(matrix.Contents())[i], i)]
  {
    ghost var g := matrix.Contents();
    ghost var h := g[Row := BackRow(g[Row], g[i], i)];
    var a := matrix.matrix;
    var R, C := matrix.RowNumber, matrix.ColNumber;
    var Factor := a[Row, i] / a[i, i];
    var k := i;
    while k < C - 1
      invariant i <= k <= C - 1
      invariant forall r, c :: 0 <= r < R && 0 <= c < C ==> a[r, c] == (if r == Row && i <= c < k then h[r][c] else g[r][c])
    {
      a[Row, k] := a[Row, k] - a[i, k] * Factor;
      k := k + 1;
    }
    a[Row, C - 1] := a[Row, C - 1] - a[i, C - 1] * Factor;
    GridOfCells(a, h);
  }

  /** One pass of the normalization loop. */
  method NormalizeRowAt(matrix: Matrix<real>, t: Tolerance, i: nat)
    requires matrix.Valid() && IsTableau(matrix.Contents()) && ValidTolerance(t)
    requires i < matrix.RowNumber - 1 && matrix.RowNumber <= matrix.ColNumber
    modifies matrix.matrix
    ensures matrix.Valid() && matrix.Contents() == NormalizeStage(old(matrix.Contents()), t, i)
  {
    ghost var g := matrix.Contents();
    ghost var h := NormalizeStage(g, t, i);
    var a := matrix.matrix;
    var R, C := matrix.RowNumber, matrix.ColNumber;
    var Pivot := a[i, i];
    if Negligible(t, Pivot) {
      return;
    }
    var j := i;
    while j < C
      invariant i <= j <= C
      invariant forall r, c :: 0 <= r < R && 0 <= c < C ==> a[r, c] == (if r == i && i <= c < j then h[r][c] else g[r][c])
    {
      a[i, j] := a[i, j] / Pivot;
      j := j + 1;
    }
    GridOfCells(a, h);
  }
}
