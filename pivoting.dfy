/**
 * The pivot transform at the core of `SimplexStep` (both revisions): the lead
 * cell becomes its reciprocal, the lead row is divided by the lead, the lead
 * column by minus the lead, and every other cell loses the product of its
 * row's lead-column entry and its column's lead-row entry over the lead.
 * This exchanges the basic variable of the lead row with the non-basic
 * variable of the lead column.
 */
module Pivoting {
  import opened Matrices
  import opened Steps
  import opened LinearForms

  /**
   * One cell of the tableau after a pivot at (r, c). Dividing by the lead
   * is written as multiplying by its reciprocal, which is the same real.
   */
  function PivotCell(g: Grid<real>, r: nat, c: nat, i: nat, j: nat): real
    requires IsTableau(g) && r < |g| && c < |g[0]| && g[r][c] != 0.0
    requires i < |g| && j < |g[0]|
  {
    var inv := 1.0 / g[r][c];
    if i == r && j == c then inv
    else if i == r then g[r][j] * inv
    else if j == c then -(g[i][c] * inv)
    else g[i][j] - g[i][c] * g[r][j] * inv
  }

  /** The tableau after a pivot at (r, c); its dimensions are unchanged. */
  function PivotSpec(g: Grid<real>, r: nat, c: nat): (h: Grid<real>)
    requires IsTableau(g) && r < |g| && c < |g[0]| && g[r][c] != 0.0
    ensures IsTableau(h) && |h| == |g| && |h[0]| == |g[0]|
    ensures forall i, j :: 0 <= i < |g| && 0 <= j < |g[0]| ==> h[i][j] == PivotCell(g, r, c, i, j)
  {
    seq(|g|, i requires 0 <= i < |g| =>
      seq(|g[0]|, j requires 0 <= j < |g[0]| => PivotCell(g, r, c, i, j)))
  }

  /**
   * The in-place pivot, in the source's four passes. The last pass reads the
   * lead row and lead column after the first three have rescaled them, and
   * subtracts `Lead * m[i][c] * m[r][j] * (-1)`.
   */
  method Pivot(m: Matrix<real>, CurrentRowIndex: nat, CurrentColumnIndex: nat, CurrentLead: real)
    requires m.Valid() && CurrentRowIndex < m.RowNumber && CurrentColumnIndex < m.ColNumber
    requires CurrentLead == m.Contents()[CurrentRowIndex][CurrentColumnIndex] && CurrentLead != 0.0
    modifies m.matrix
    ensures m.Valid()
    ensures m.Contents() == PivotSpec(old(m.Contents()), CurrentRowIndex, CurrentColumnIndex)
  {
    ghost var g := m.Contents();
    assert IsTableau(g);
    ScaleLeadRow(m.matrix, g, CurrentRowIndex, CurrentColumnIndex, CurrentLead);
    ScaleLeadColumn(m.matrix, g, CurrentRowIndex, CurrentColumnIndex, CurrentLead);
    var i := 0;
    while i < m.RowNumber
      invariant 0 <= i <= m.RowNumber && m.Valid()
      invariant LeadLinesDone(m.matrix, g, CurrentRowIndex, CurrentColumnIndex)
      invariant forall i', j :: 0 <= i' < m.RowNumber && 0 <= j < m.ColNumber ==>
        m.matrix[i', j] == (if i' < i then PivotCell(g, CurrentRowIndex, CurrentColumnIndex, i', j)
                            else if i' != CurrentRowIndex && j != CurrentColumnIndex then g[i'][j]
                            else m.matrix[i', j])
    {
      if i != CurrentRowIndex {
        EliminateRow(m.matrix, g, CurrentRowIndex, CurrentColumnIndex, CurrentLead, i);
      }
      i := i + 1;
    }
    GridOfCells(m.matrix, PivotSpec(g, CurrentRowIndex, CurrentColumnIndex));
  }

  /** The lead row and the lead column hold their pivoted values. */
  ghost predicate LeadLinesDone(a: array2<real>, g: Grid<real>, r: nat, c: nat)
    requires IsTableau(g) && r < |g| && c < |g[0]| && g[r][c] != 0.0
    requires a.Length0 == |g| && a.Length1 == |g[0]|
    reads a
  {
    (forall j :: 0 <= j < a.Length1 ==> a[r, j] == PivotCell(g, r, c, r, j)) &&
    (forall i :: 0 <= i < a.Length0 ==> a[i, c] == PivotCell(g, r, c, i, c))
  }

  /** Passes one and two: the lead becomes 1 / Lead, the rest of its row is divided by Lead. */
  method ScaleLeadRow(a: array2<real>, ghost g: Grid<real>, r: nat, c: nat, L: real)
    requires IsTableau(g) && a.Length0 == |g| && a.Length1 == |g[0]| && r < |g| && c < |g[0]|
    requires L == g[r][c] && L != 0.0
    requires forall i, j :: 0 <= i < a.Length0 && 0 <= j < a.Length1 ==> a[i, j] == g[i][j]
    modifies a
    ensures forall j :: 0 <= j < a.Length1 ==> a[r, j] == PivotCell(g, r, c, r, j)
    ensures forall i, j :: 0 <= i < a.Length0 && 0 <= j < a.Length1 && i != r ==> a[i, j] == g[i][j]
  {
    a[r, c] := 1.0 / L;
    var j := 0;
    while j < a.Length1
      invariant 0 <= j <= a.Length1
      invariant a[r, c] == 1.0 / L
      invariant forall j' :: 0 <= j' < a.Length1 && j' != c ==>
        a[r, j'] == (if j' < j then g[r][j'] * (1.0 / L) else g[r][j'])
      invariant forall i, j' :: 0 <= i < a.Length0 && 0 <= j' < a.Length1 && i != r ==> a[i, j'] == g[i][j']
    {
      if j != c {
        DivByLead(g[r][j], L);
        a[r, j] := a[r, j] / L;
      }
      j := j + 1;
    }
  }

  /** Pass three: the rest of the lead column is divided by -Lead. */
  method ScaleLeadColumn(a: array2<real>, ghost g: Grid<real>, r: nat, c: nat, L: real)
    requires IsTableau(g) && a.Length0 == |g| && a.Length1 == |g[0]| && r < |g| && c < |g[0]|
    requires L == g[r][c] && L != 0.0
    requires forall j :: 0 <= j < a.Length1 ==> a[r, j] == PivotCell(g, r, c, r, j)
    requires forall i, j :: 0 <= i < a.Length0 && 0 <= j < a.Length1 && i != r ==> a[i, j] == g[i][j]
    modifies a
    ensures LeadLinesDone(a, g, r, c)
    ensures forall i, j :: 0 <= i < a.Length0 && 0 <= j < a.Length1 && i != r && j != c ==> a[i, j] == g[i][j]
  {
    var i := 0;
    while i < a.Length0
      invariant 0 <= i <= a.Length0
      invariant forall j :: 0 <= j < a.Length1 ==> a[r, j] == PivotCell(g, r, c, r, j)
      invariant forall i' :: 0 <= i' < a.Length0 && i' != r ==>
        a[i', c] == (if i' < i then -(g[i'][c] * (1.0 / L)) else g[i'][c])
      invariant forall i', j :: 0 <= i' < a.Length0 && 0 <= j < a.Length1 && i' != r && j != c ==> a[i', j] == g[i'][j]
    {
      if i != r {
        DivByMinusLead(g[i][c], L);
        a[i, c] := a[i, c] / -L;
      }
      i := i + 1;
    }
  }

  /** Pass four, for one row i other than the lead row. */
  method EliminateRow(a: array2<real>, ghost g: Grid<real>, r: nat, c: nat, L: real, i: nat)
    requires IsTableau(g) && a.Length0 == |g| && a.Length1 == |g[0]| && r < |g| && c < |g[0]|
    requires L == g[r][c] && L != 0.0 && i < |g| && i != r
    requires LeadLinesDone(a, g, r, c)
    requires forall j :: 0 <= j < a.Length1 && j != c ==> a[i, j] == g[i][j]
    modifies a
    ensures LeadLinesDone(a, g, r, c)
    ensures forall j :: 0 <= j < a.Length1 ==> a[i, j] == PivotCell(g, r, c, i, j)
    ensures forall i', j :: 0 <= i' < a.Length0 && 0 <= j < a.Length1 && i' != i ==> a[i', j] == old(a[i', j])
  {
    var j := 0;
    while j < a.Length1
      invariant 0 <= j <= a.Length1
      invariant LeadLinesDone(a, g, r, c)
      invariant forall j' :: 0 <= j' < a.Length1 && j' != c ==> a[i, j'] == (if j' < j then PivotCell(g, r, c, i, j') else g[i][j'])
      invariant forall i', j' :: 0 <= i' < a.Length0 && 0 <= j' < a.Length1 && i' != i ==> a[i', j'] == old(a[i', j'])
    {
      if j != c {
        PivotArithmetic(g[i][j], g[i][c], g[r][j], L);
        a[i, j] := a[i, j] - L * a[i, c] * a[r, j] * (-1.0);
      }
      j := j + 1;
    }
  }

  lemma DivByLead(x: real, L: real)
    requires L != 0.0
    ensures x / L == x * (1.0 / L)
  {
  }

  lemma DivByMinusLead(x: real, L: real)
    requires L != 0.0
    ensures x / -L == -(x * (1.0 / L))
  {
  }

  lemma Reciprocal(L: real)
    requires L != 0.0
    ensures L * (1.0 / L) == 1.0
  {
  }

  /** The source's update of the last pass equals the textbook formula. */
  lemma PivotArithmetic(x: real, u: real, v: real, L: real)
    requires L != 0.0
    ensures x - L * -(u * (1.0 / L)) * (v * (1.0 / L)) * (-1.0) == x - u * v * (1.0 / L)
  {
    Reciprocal(L);
    PivotProduct(u, v, L, 1.0 / L);
  }

  lemma PivotProduct(u: real, v: real, L: real, inv: real)
    requires L * inv == 1.0
    ensures L * -(u * inv) * (v * inv) * (-1.0) == u * v * inv
  {
    calc {
      L * -(u * inv) * (v * inv) * (-1.0);
      (L * inv) * (u * v * inv);
      u * v * inv;
    }
  }

  /**
   * A pivot at (r, c) maps every solution of the tableau to a solution of
   * the pivoted tableau in which the row's basic variable and the column's
   * non-basic variable have traded places.
   */
  lemma PivotPreservesSolutions(g: Grid<real>, r: nat, c: nat, xB: seq<real>, xN: seq<real>)
    requires IsTableau(g) && r < |g| && c < |g[0]| - 1 && g[r][c] != 0.0
    requires Satisfies(g, xB, xN)
    ensures Satisfies(PivotSpec(g, r, c), xB[r := xN[c]], xN[c := xB[r]])
  {
    var h := PivotSpec(g, r, c);
    var n := |xN|;
    var xB2, xN2 := xB[r := xN[c]], xN[c := xB[r]];
    forall i | 0 <= i < |g|
      ensures xB2[i] + Dot(h[i], xN2, n) == h[i][n]
    {
      PivotRowHolds(g, r, c, i, xB[r], xB[i], xN);
    }
  }

  /** Row i of the pivoted tableau holds at the exchanged solution. */
  lemma PivotRowHolds(g: Grid<real>, r: nat, c: nat, i: nat, xBr: real, xBi: real, xN: seq<real>)
    requires IsTableau(g) && r < |g| && i < |g| && c < |g[0]| - 1 && g[r][c] != 0.0 && |xN| == |g[0]| - 1
    requires xBr + Dot(g[r], xN, |xN|) == g[r][|xN|]
    requires xBi + Dot(g[i], xN, |xN|) == g[i][|xN|]
    ensures (if i == r then xN[c] else xBi) + Dot(PivotSpec(g, r, c)[i], xN[c := xBr], |xN|) ==
      PivotSpec(g, r, c)[i][|xN|]
  {
    if i == r {
      LeadPivotRowHolds(g, r, c, xBr, xN);
    } else {
      OtherPivotRowHolds(g, r, c, i, xBr, xBi, xN);
    }
  }

  lemma LeadPivotRowHolds(g: Grid<real>, r: nat, c: nat, xBr: real, xN: seq<real>)
    requires IsTableau(g) && r < |g| && c < |g[0]| - 1 && g[r][c] != 0.0 && |xN| == |g[0]| - 1
    requires xBr + Dot(g[r], xN, |xN|) == g[r][|xN|]
    ensures xN[c] + Dot(PivotSpec(g, r, c)[r], xN[c := xBr], |xN|) == PivotSpec(g, r, c)[r][|xN|]
  {
    var row := PivotSpec(g, r, c)[r];
    var inv := 1.0 / g[r][c];
    Reciprocal(g[r][c]);
    LeadRowFacts(g, r, c, row, inv, xBr, xN);
    LeadRowHolds(row, g[r], c, inv, xBr, xN);
  }

  lemma OtherPivotRowHolds(g: Grid<real>, r: nat, c: nat, i: nat, xBr: real, xBi: real, xN: seq<real>)
    requires IsTableau(g) && r < |g| && i < |g| && i != r && c < |g[0]| - 1 && g[r][c] != 0.0 && |xN| == |g[0]| - 1
    requires xBr + Dot(g[r], xN, |xN|) == g[r][|xN|]
    requires xBi + Dot(g[i], xN, |xN|) == g[i][|xN|]
    ensures xBi + Dot(PivotSpec(g, r, c)[i], xN[c := xBr], |xN|) == PivotSpec(g, r, c)[i][|xN|]
  {
    var row := PivotSpec(g, r, c)[i];
    var inv := 1.0 / g[r][c];
    Reciprocal(g[r][c]);
    OtherRowFacts(g, r, c, i, row, inv, xBr, xN);
    RatioTimesLead(g[i][c], g[r][c], inv);
    OtherRowHolds(row, g[i], g[r], c, -(g[i][c] * inv), xBr, xBi, xN);
  }

  /** What the lead row's equation needs to know of the pivoted lead row. */
  lemma LeadRowFacts(g: Grid<real>, r: nat, c: nat, row: seq<real>, inv: real, xBr: real, xN: seq<real>)
    requires IsTableau(g) && r < |g| && c < |g[0]| - 1 && g[r][c] != 0.0 && |xN| == |g[0]| - 1
    requires row == PivotSpec(g, r, c)[r] && inv == 1.0 / g[r][c]
    ensures |row| == |xN| + 1 && row[c] == inv && row[|xN|] == g[r][|xN|] * inv
    ensures TermsCombine(row, xN[c := xBr], g[r], g[r], xN, |xN|, c, inv, 0.0)
  {
    LeadRowCells(g, r, c, row, inv);
    LeadRowTerms(row, g[r], c, inv, xN, xN[c := xBr]);
  }

  /** What another row's equation needs to know of its pivoted row. */
  lemma OtherRowFacts(g: Grid<real>, r: nat, c: nat, i: nat, row: seq<real>, inv: real, xBr: real, xN: seq<real>)
    requires IsTableau(g) && r < |g| && i < |g| && i != r && c < |g[0]| - 1 && g[r][c] != 0.0 && |xN| == |g[0]| - 1
    requires row == PivotSpec(g, r, c)[i] && inv == 1.0 / g[r][c]
    ensures |row| == |xN| + 1 && row[c] == -(g[i][c] * inv)
    ensures row[|xN|] == g[i][|xN|] + -(g[i][c] * inv) * g[r][|xN|]
    ensures TermsCombine(row, xN[c := xBr], g[i], g[r], xN, |xN|, c, 1.0, -(g[i][c] * inv))
  {
    OtherRowCells(g, r, c, i, row, inv);
    OtherRowTerms(row, g[i], g[r], c, inv, -(g[i][c] * inv), xN, xN[c := xBr]);
  }

  /** The lead row after the pivot, cell by cell. */
  lemma LeadRowCells(g: Grid<real>, r: nat, c: nat, row: seq<real>, inv: real)
    requires IsTableau(g) && r < |g| && c < |g[0]| - 1 && g[r][c] != 0.0
    requires row == PivotSpec(g, r, c)[r] && inv == 1.0 / g[r][c]
    ensures |row| == |g[0]| && row[c] == inv
    ensures forall j :: 0 <= j < |row| && j != c ==> row[j] == g[r][j] * inv
  {
  }

  /** Any other row after the pivot, cell by cell. */
  lemma OtherRowCells(g: Grid<real>, r: nat, c: nat, i: nat, row: seq<real>, inv: real)
    requires IsTableau(g) && r < |g| && i < |g| && i != r && c < |g[0]| - 1 && g[r][c] != 0.0
    requires row == PivotSpec(g, r, c)[i] && inv == 1.0 / g[r][c]
    ensures |row| == |g[0]| && row[c] == -(g[i][c] * inv)
    ensures forall j :: 0 <= j < |row| && j != c ==> row[j] == g[i][j] - g[i][c] * g[r][j] * inv
  {
  }

  /** The rescaled lead row: its RHS cell, and how its terms relate to the old row's. */
  lemma LeadRowTerms(row: seq<real>, gr: seq<real>, c: nat, inv: real, xN: seq<real>, xN2: seq<real>)
    requires |row| == |gr| == |xN| + 1 == |xN2| + 1 && c < |xN|
    requires forall j :: 0 <= j < |row| && j != c ==> row[j] == gr[j] * inv
    requires forall j :: 0 <= j < |xN| && j != c ==> xN2[j] == xN[j]
    ensures row[|xN|] == gr[|xN|] * inv
    ensures TermsCombine(row, xN2, gr, gr, xN, |xN|, c, inv, 0.0)
  {
    forall j | 0 <= j < |xN| && j != c
      ensures row[j] * xN2[j] == inv * (gr[j] * xN[j]) + 0.0 * (gr[j] * xN[j])
    {
      LeadRowTerm(row[j], gr[j], inv, xN[j], xN2[j]);
    }
    TermsCombineIntro(row, xN2, gr, gr, xN, |xN|, c, inv, 0.0);
  }

  /** An eliminated row: its RHS cell, and how its terms relate to the old rows'. */
  lemma OtherRowTerms(row: seq<real>, gi: seq<real>, gr: seq<real>, c: nat, inv: real, q: real,
                      xN: seq<real>, xN2: seq<real>)
    requires |row| == |gi| == |gr| == |xN| + 1 == |xN2| + 1 && c < |xN| && q == -(gi[c] * inv)
    requires forall j :: 0 <= j < |row| && j != c ==> row[j] == gi[j] - gi[c] * gr[j] * inv
    requires forall j :: 0 <= j < |xN| && j != c ==> xN2[j] == xN[j]
    ensures row[|xN|] == gi[|xN|] + q * gr[|xN|]
    ensures TermsCombine(row, xN2, gi, gr, xN, |xN|, c, 1.0, q)
  {
    OtherRowTerm(row[|xN|], gi[|xN|], gi[c], gr[|xN|], inv, q, 1.0, 1.0);
    forall j | 0 <= j < |xN| && j != c
      ensures row[j] * xN2[j] == 1.0 * (gi[j] * xN[j]) + q * (gr[j] * xN[j])
    {
      OtherRowTerm(row[j], gi[j], gi[c], gr[j], inv, q, xN[j], xN2[j]);
    }
    TermsCombineIntro(row, xN2, gi, gr, xN, |xN|, c, 1.0, q);
  }

  lemma LeadRowTerm(rj: real, grj: real, inv: real, x: real, x2: real)
    requires rj == grj * inv && x2 == x
    ensures rj * x2 == inv * (grj * x) + 0.0 * (grj * x)
  {
  }

  lemma OtherRowTerm(rj: real, gij: real, gic: real, grj: real, inv: real, q: real, x: real, x2: real)
    requires rj == gij - gic * grj * inv && q == -(gic * inv) && x2 == x
    ensures rj * x2 == 1.0 * (gij * x) + q * (grj * x)
  {
  }

  /** The lead row's equation, solved for the entering variable. */
  lemma LeadRowHolds(row: seq<real>, gr: seq<real>, c: nat, inv: real, xBr: real, xN: seq<real>)
    requires |row| == |gr| == |xN| + 1 && c < |xN| && gr[c] * inv == 1.0
    requires row[c] == inv && row[|xN|] == gr[|xN|] * inv
    requires TermsCombine(row, xN[c := xBr], gr, gr, xN, |xN|, c, inv, 0.0)
    requires xBr + Dot(gr, xN, |xN|) == gr[|xN|]
    ensures xN[c] + Dot(row, xN[c := xBr], |xN|) == row[|xN|]
  {
    var n := |xN|;
    var xN2 := xN[c := xBr];
    DotCombination(row, xN2, gr, gr, xN, n, c, inv, 0.0);
    LeadRowAlgebra(gr[c], inv, row[c], xN2[c], xN[c], Dot(row, xN2, n), Dot(gr, xN, n), gr[n], xBr, row[n]);
  }

  /** Any other row, after the entering variable is substituted out of it. */
  lemma OtherRowHolds(row: seq<real>, gi: seq<real>, gr: seq<real>, c: nat, q: real, xBr: real, xBi: real,
                      xN: seq<real>)
    requires |row| == |gi| == |gr| == |xN| + 1 && c < |xN| && q * gr[c] == -gi[c]
    requires row[c] == q && row[|xN|] == gi[|xN|] + q * gr[|xN|]
    requires TermsCombine(row, xN[c := xBr], gi, gr, xN, |xN|, c, 1.0, q)
    requires xBr + Dot(gr, xN, |xN|) == gr[|xN|]
    requires xBi + Dot(gi, xN, |xN|) == gi[|xN|]
    ensures xBi + Dot(row, xN[c := xBr], |xN|) == row[|xN|]
  {
    OtherRowDot(row, gi, gr, c, q, xBr, xN);
  }

  /** The eliminated row's dot product: the old row's plus q times the lead row's equation. */
  lemma OtherRowDot(row: seq<real>, gi: seq<real>, gr: seq<real>, c: nat, q: real, xBr: real, xN: seq<real>)
    requires |row| == |gi| == |gr| == |xN| + 1 && c < |xN| && q * gr[c] == -gi[c] && row[c] == q
    requires TermsCombine(row, xN[c := xBr], gi, gr, xN, |xN|, c, 1.0, q)
    ensures Dot(row, xN[c := xBr], |xN|) == Dot(gi, xN, |xN|) + q * (Dot(gr, xN, |xN|) + xBr)
  {
    var n := |xN|;
    var xN2 := xN[c := xBr];
    DotCombination(row, xN2, gi, gr, xN, n, c, 1.0, q);
    assert xN2[c] == xBr;
  }

  lemma LeadRowAlgebra(L: real, inv: real, rc: real, x2c: real, xc: real, A: real, B: real,
                       br: real, xBr: real, hrn: real)
    requires L * inv == 1.0 && rc == inv && x2c == xBr
    requires A == inv * B + 0.0 * B + rc * x2c - inv * (L * xc) - 0.0 * (L * xc)
    requires xBr + B == br && hrn == br * inv
    ensures xc + A == hrn
  {
    assert inv * (L * xc) == (L * inv) * xc;
  }

  lemma RatioTimesLead(gic: real, L: real, inv: real)
    requires L * inv == 1.0
    ensures -(gic * inv) * L == -gic
  {
    assert -(gic * inv) * L == -gic * (L * inv);
  }

  /** Pivoting twice at the same cell restores the tableau. */
  lemma PivotInvolution(g: Grid<real>, r: nat, c: nat)
    requires IsTableau(g) && r < |g| && c < |g[0]| && g[r][c] != 0.0
    ensures PivotSpec(g, r, c)[r][c] != 0.0
    ensures PivotSpec(PivotSpec(g, r, c), r, c) == g
  {
    var h := PivotSpec(g, r, c);
    var L := g[r][c];
    assert h[r][c] == 1.0 / L;
    var k := PivotSpec(h, r, c);
    forall i | 0 <= i < |g|
      ensures k[i] == g[i]
    {
      forall j | 0 <= j < |g[0]|
        ensures k[i][j] == g[i][j]
      {
        CellInvolution(g[i][j], g[i][c], g[r][j], L, i == r, j == c);
      }
    }
  }

  lemma CellInvolution(x: real, u: real, v: real, L: real, onRow: bool, onColumn: bool)
    requires L != 0.0
    ensures onRow && onColumn ==> 1.0 / (1.0 / L) == L
    ensures onRow && !onColumn ==> (v * (1.0 / L)) * (1.0 / (1.0 / L)) == v
    ensures !onRow && onColumn ==> -(-(u * (1.0 / L)) * (1.0 / (1.0 / L))) == u
    ensures !onRow && !onColumn ==>
      (x - u * v * (1.0 / L)) - -(u * (1.0 / L)) * (v * (1.0 / L)) * (1.0 / (1.0 / L)) == x
  {
    var inv := 1.0 / L;
    Reciprocal(L);
    assert 1.0 / inv == L;
    CellInvolutionPoly(x, u, v, L, inv);
  }

  lemma CellInvolutionPoly(x: real, u: real, v: real, L: real, inv: real)
    requires L * inv == 1.0
    ensures (v * inv) * L == v
    ensures -(-(u * inv) * L) == u
    ensures (x - u * v * inv) - -(u * inv) * (v * inv) * L == x
  {
    assert (v * inv) * L == v * (L * inv);
    assert -(-(u * inv) * L) == u * (L * inv);
    assert -(u * inv) * (v * inv) * L == -(u * v * inv) * (L * inv);
  }

  /** The pivot is an equivalence: solutions correspond in both directions. */
  lemma PivotEquivalence(g: Grid<real>, r: nat, c: nat, xB: seq<real>, xN: seq<real>)
    requires IsTableau(g) && r < |g| && c < |g[0]| - 1 && g[r][c] != 0.0
    requires |xB| == |g| && |xN| == |g[0]| - 1
    ensures Satisfies(g, xB, xN) <==> Satisfies(PivotSpec(g, r, c), xB[r := xN[c]], xN[c := xB[r]])
  {
    if Satisfies(g, xB, xN) {
      PivotPreservesSolutions(g, r, c, xB, xN);
    }
    var h := PivotSpec(g, r, c);
    var xB2, xN2 := xB[r := xN[c]], xN[c := xB[r]];
    if Satisfies(h, xB2, xN2) {
      PivotInvolution(g, r, c);
      PivotPreservesSolutions(h, r, c, xB2, xN2);
      assert xB2[r := xN2[c]] == xB;
      assert xN2[c := xB2[r]] == xN;
    }
  }

  /**
   * A pivot in a constraint row with a positive lead, a non-negative RHS
   * and a negative objective entry never lowers the objective row's RHS:
   * the objective value of the basic solution does not increase.
   */
  lemma PivotObjectiveMonotone(g: Grid<real>, r: nat, c: nat)
    requires IsTableau(g) && r < |g| - 1 && c < |g[0]| - 1 && g[r][c] > 0.0
    requires g[r][|g[0]| - 1] >= 0.0 && g[|g| - 1][c] < 0.0
    ensures PivotSpec(g, r, c)[|g| - 1][|g[0]| - 1] >= g[|g| - 1][|g[0]| - 1]
  {
    var C := |g[0]|;
    QuotientSign(g[|g| - 1][c], g[r][C - 1], g[r][c]);
  }

  lemma QuotientSign(d: real, b: real, L: real)
    requires d < 0.0 && b >= 0.0 && L > 0.0
    ensures d * b * (1.0 / L) <= 0.0
  {
    assert d * b <= 0.0;
    assert 1.0 / L > 0.0;
  }
}
