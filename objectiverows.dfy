/**
 * The two builders of the objective row.
 *
 * `MakeArtificialFunctionCoefficients` starts phase 1 (the artificial
 * basis): every entry of the objective row, RHS included, becomes minus the
 * sum of its column over the constraint rows, so the row measures minus the
 * total of the artificial (basic) variables.
 *
 * `MakeSimplexAlgorithmFunctionCoefficients` starts phase 2: it prices the
 * real objective out against the current basis. `TargetFunction` holds one
 * cost per variable followed by the constant term; `NumbersOfVariables`
 * lists the 1-based ids of the basic variables (one per constraint row) and
 * then those of the non-basic ones (one per non-RHS column).
 */
module ObjectiveRows {
  import opened Matrices
  import opened Steps
  import opened LinearForms

  /** The phase-1 tableau: constraint rows kept, each objective entry minus its column's sum. */
  function ArtificialObjective(g: Grid<real>): (h: Grid<real>)
    requires IsTableau(g)
    ensures IsTableau(h) && |h| == |g| && |h[0]| == |g[0]|
    ensures forall i :: 0 <= i < |g| - 1 ==> h[i] == g[i]
  {
    g[|g| - 1 := seq(|g[0]|, j requires 0 <= j < |g[0]| => -ColumnSum(g, j, |g| - 1))]
  }

  /** The source's two nested loops: one column sum per column, written into the objective row. */
  method MakeArtificialFunctionCoefficients(m: Matrix<real>)
    requires m.Valid() && m.RowNumber >= 1 && m.ColNumber >= 1
    modifies m.matrix
    ensures m.Valid() && m.Contents() == ArtificialObjective(old(m.Contents()))
  {
    ghost var g := m.Contents();
    var R, C := m.RowNumber, m.ColNumber;
    var i := 0;
    while i < C
      invariant 0 <= i <= C
      invariant forall r, j :: 0 <= r < R && 0 <= j < C ==>
        m.matrix[r, j] == (if r == R - 1 && j < i then -ColumnSum(g, j, R - 1) else g[r][j])
    {
      var ColumnTotal := 0.0;
      var j := 0;
      while j < R - 1
        invariant 0 <= j <= R - 1
        invariant ColumnTotal == ColumnSum(g, i, j)
      {
        ColumnTotal := ColumnTotal + m.matrix[j, i];
        j := j + 1;
      }
      m.matrix[R - 1, i] := -ColumnTotal;
      i := i + 1;
    }
    GridOfCells(m.matrix, ArtificialObjective(g));
  }

  /**
   * What the phase-1 row means: whenever the constraint rows hold, the
   * objective row holds with minus the total of the basic values in place of
   * its basic entry.
   */
  lemma ArtificialObjectiveMeaning(g: Grid<real>, xB: seq<real>, xN: seq<real>)
    requires IsTableau(g) && SatisfiesConstraints(g, xB, xN)
    ensures Satisfies(ArtificialObjective(g), xB[|g| - 1 := -Sum(xB, |g| - 1)], xN)
  {
    var h := ArtificialObjective(g);
    var m, n := |g| - 1, |xN|;
    var ones := seq(m, i => 1.0);
    CombineRows(ones, g, xB, xN, m);
    DotOnes(ones, xB, m);
    SumInterchange(ones, g, xN, m, n);
    var sums := WeightedColumnSums(ones, g, m, n);
    forall j | 0 <= j < n + 1
      ensures WeightedColumnSum(ones, g, j, m) == ColumnSum(g, j, m)
    {
      ColumnSumIsWeighted(ones, g, j, m);
    }
    var zeros := seq(n, j => 0.0);
    DotLinear(h[m], zeros, sums, -1.0, xN, n);
    DotZero(zeros, xN, n);
    var xB' := xB[m := -Sum(xB, m)];
    forall i | 0 <= i < |g|
      ensures xB'[i] + Dot(h[i], xN, n) == h[i][n]
    {
      if i == m {
        ArtificialRowAlgebra(Sum(xB, m), WeightedRowDots(ones, g, xN, m, n), ColumnSum(g, n, m),
                             Dot(h[m], xN, n), Dot(sums, xN, n), Dot(zeros, xN, n));
      }
    }
  }

  lemma ArtificialRowAlgebra(s: real, rowDots: real, rhs: real, d: real, dSums: real, dZeros: real)
    requires s + rowDots == rhs && dSums == rowDots
    requires d == dZeros + -1.0 * dSums && dZeros == 0.0
    ensures -s + d == -rhs
  {
  }

  /** Summing the constraint rows with weights w: w·xB plus the weighted dot products is the weighted RHS. */
  lemma {:induction false} CombineRows(w: seq<real>, g: Grid<real>, xB: seq<real>, xN: seq<real>, k: nat)
    requires IsTableau(g) && SatisfiesConstraints(g, xB, xN) && k <= |g| - 1 && k <= |w|
    ensures Dot(w, xB, k) + WeightedRowDots(w, g, xN, k, |xN|) == WeightedColumnSum(w, g, |xN|, k)
  {
    if k > 0 {
      var i := k - 1;
      CombineRows(w, g, xB, xN, i);
      MulDistributes(w[i], g[i][|xN|], xB[i], Dot(g[i], xN, |xN|));
    }
  }

  lemma {:induction false} DotOnes(ones: seq<real>, x: seq<real>, k: nat)
    requires k <= |ones| && k <= |x| && forall i :: 0 <= i < k ==> ones[i] == 1.0
    ensures Dot(ones, x, k) == Sum(x, k)
  {
    if k > 0 {
      DotOnes(ones, x, k - 1);
    }
  }

  /** Variable ids usable as 1-based indices into the cost vector, for the first `count` positions. */
  ghost predicate CostIndexed(NumbersOfVariables: seq<int>, TargetFunction: seq<real>, count: nat) {
    count <= |NumbersOfVariables| && |TargetFunction| >= 1 &&
    forall k :: 0 <= k < count ==> 1 <= NumbersOfVariables[k] <= |TargetFunction|
  }

  /** The cost of the basic variable of each constraint row. */
  function BasisCosts(NumbersOfVariables: seq<int>, TargetFunction: seq<real>, m: nat): (w: seq<real>)
    requires CostIndexed(NumbersOfVariables, TargetFunction, m)
    ensures |w| == m && forall i :: 0 <= i < m ==> w[i] == TargetFunction[NumbersOfVariables[i] - 1]
  {
    seq(m, i requires 0 <= i < m => TargetFunction[NumbersOfVariables[i] - 1])
  }

  /** The cost of the non-basic variable of each non-RHS column. */
  function NonBasisCosts(NumbersOfVariables: seq<int>, TargetFunction: seq<real>, m: nat, n: nat): (cN: seq<real>)
    requires CostIndexed(NumbersOfVariables, TargetFunction, m + n)
    ensures |cN| == n && forall j :: 0 <= j < n ==> cN[j] == TargetFunction[NumbersOfVariables[m + j] - 1]
  {
    seq(n, j requires 0 <= j < n => TargetFunction[NumbersOfVariables[m + j] - 1])
  }

  /** The objective at basic values xB and non-basic values xN: costs times values, plus the constant. */
  ghost function ObjectiveValue(NumbersOfVariables: seq<int>, TargetFunction: seq<real>, xB: seq<real>, xN: seq<real>,
                                m: nat): real
    requires CostIndexed(NumbersOfVariables, TargetFunction, m + |xN|) && m <= |xB|
  {
    Dot(BasisCosts(NumbersOfVariables, TargetFunction, m), xB, m) +
    Dot(NonBasisCosts(NumbersOfVariables, TargetFunction, m, |xN|), xN, |xN|) + TargetFunction[|TargetFunction| - 1]
  }

  /**
   * The priced-out tableau: constraint rows kept; objective entry j is the
   * non-basic cost minus the basis-cost-weighted column sum, and the RHS is
   * minus the weighted RHS sum and the constant.
   */
  function PriceOut(g: Grid<real>, NumbersOfVariables: seq<int>, TargetFunction: seq<real>): (h: Grid<real>)
    requires IsTableau(g) && CostIndexed(NumbersOfVariables, TargetFunction, (|g| - 1) + (|g[0]| - 1))
    ensures IsTableau(h) && |h| == |g| && |h[0]| == |g[0]|
    ensures forall i :: 0 <= i < |g| - 1 ==> h[i] == g[i]
  {
    g[|g| - 1 := seq(|g[0]|, j requires 0 <= j < |g[0]| => ObjectiveEntry(g, NumbersOfVariables, TargetFunction, j))]
  }

  /** Entry j of the priced-out objective row. */
  function ObjectiveEntry(g: Grid<real>, NumbersOfVariables: seq<int>, TargetFunction: seq<real>, j: nat): real
    requires IsTableau(g) && CostIndexed(NumbersOfVariables, TargetFunction, (|g| - 1) + (|g[0]| - 1))
    requires j < |g[0]|
  {
    var m, n := |g| - 1, |g[0]| - 1;
    var w := BasisCosts(NumbersOfVariables, TargetFunction, m);
    if j < n then NonBasisCosts(NumbersOfVariables, TargetFunction, m, n)[j] - WeightedColumnSum(w, g, j, m)
    else -(WeightedColumnSum(w, g, n, m) + TargetFunction[|TargetFunction| - 1])
  }

  /**
   * The Step overloads (and the generic one, up to its free-coefficient
   * start): a scratch copy holds every constraint row times minus its
   * basis cost (the RHS cell times plus the cost); column sums of the copy
   * plus the non-basic costs give the objective row, and the RHS sum plus
   * the constant, negated, gives its RHS.
   */
  method MakeSimplexAlgorithmFunctionCoefficients(m: Matrix<real>, NumbersOfVariables: seq<int>,
                                                  TargetFunction: seq<real>)
    requires m.Valid() && m.RowNumber >= 1 && m.ColNumber >= 1
    requires CostIndexed(NumbersOfVariables, TargetFunction, (m.RowNumber - 1) + (m.ColNumber - 1))
    modifies m.matrix
    ensures m.Valid() && m.Contents() == PriceOut(old(m.Contents()), NumbersOfVariables, TargetFunction)
  {
    ghost var g := m.Contents();
    ghost var w := BasisCosts(NumbersOfVariables, TargetFunction, m.RowNumber - 1);
    var TargetFunctionCoefficientsMatrix := new Matrix<real>.Copy(m);
    var temp := TargetFunctionCoefficientsMatrix.matrix;
    ScaleBasisRows(temp, g, NumbersOfVariables, TargetFunction, w);
    ghost var row := PriceOut(g, NumbersOfVariables, TargetFunction)[m.RowNumber - 1];
    PriceOutCells(g, NumbersOfVariables, TargetFunction);
    forall j | 0 <= j < |g[0]| {
      ObjectiveEntryIs(g, NumbersOfVariables, TargetFunction, w, j);
    }
    FillObjectiveRow(m.matrix, temp, g, NumbersOfVariables, TargetFunction, w, row);
    GridOfCells(m.matrix, PriceOut(g, NumbersOfVariables, TargetFunction));
  }

  lemma PriceOutCells(g: Grid<real>, NumbersOfVariables: seq<int>, TargetFunction: seq<real>)
    requires IsTableau(g) && CostIndexed(NumbersOfVariables, TargetFunction, (|g| - 1) + (|g[0]| - 1))
    ensures var h := PriceOut(g, NumbersOfVariables, TargetFunction);
      forall r, j :: 0 <= r < |g| && 0 <= j < |g[0]| ==>
        h[r][j] == (if r == |g| - 1 then ObjectiveEntry(g, NumbersOfVariables, TargetFunction, j) else g[r][j])
  {
  }

  /** The scratch copy's constraint row r: minus its basis cost times the row, the RHS cell times plus the cost. */
  ghost predicate ScaledRows(temp: array2<real>, g: Grid<real>, w: seq<real>, rows: nat)
    requires IsGrid(g, temp.Length0, temp.Length1) && rows <= |w| && rows <= temp.Length0
    reads temp
  {
    forall r, j :: 0 <= r < rows && 0 <= j < temp.Length1 ==>
      temp[r, j] == (if j < temp.Length1 - 1 then (-1.0) * w[r] * g[r][j] else w[r] * g[r][j])
  }

  /** The first loop: the constraint rows of the scratch copy, scaled by their basis costs. */
  method ScaleBasisRows(temp: array2<real>, ghost g: Grid<real>, NumbersOfVariables: seq<int>,
                        TargetFunction: seq<real>, ghost w: seq<real>)
    requires IsGrid(g, temp.Length0, temp.Length1) && temp.Length0 >= 1 && temp.Length1 >= 1
    requires forall r, j :: 0 <= r < temp.Length0 && 0 <= j < temp.Length1 ==> temp[r, j] == g[r][j]
    requires CostIndexed(NumbersOfVariables, TargetFunction, temp.Length0 - 1)
    requires w == BasisCosts(NumbersOfVariables, TargetFunction, temp.Length0 - 1)
    modifies temp
    ensures ScaledRows(temp, g, w, temp.Length0 - 1)
  {
    var R, C := temp.Length0, temp.Length1;
    var i := 0;
    while i < R - 1
      invariant 0 <= i <= R - 1
      invariant ScaledRows(temp, g, w, i)
      invariant forall r, j :: i <= r < R && 0 <= j < C ==> temp[r, j] == g[r][j]
    {
      ScaleRow(temp, g, i, TargetFunction[NumbersOfVariables[i] - 1]);
      i := i + 1;
    }
  }

  /** Scratch row i times minus cost, its RHS cell times plus cost; the other rows stay as they are. */
  method ScaleRow(temp: array2<real>, ghost g: Grid<real>, i: nat, cost: real)
    requires IsGrid(g, temp.Length0, temp.Length1) && i < temp.Length0
    requires forall j :: 0 <= j < temp.Length1 ==> temp[i, j] == g[i][j]
    modifies temp
    ensures forall r, j :: 0 <= r < temp.Length0 && r != i && 0 <= j < temp.Length1 ==> temp[r, j] == old(temp[r, j])
    ensures forall j :: 0 <= j < temp.Length1 ==>
      temp[i, j] == (if j < temp.Length1 - 1 then (-1.0) * cost * g[i][j] else cost * g[i][j])
  {
    var C := temp.Length1;
    var j := 0;
    while j < C
      invariant 0 <= j <= C
      invariant forall r, j' :: 0 <= r < temp.Length0 && r != i && 0 <= j' < C ==> temp[r, j'] == old(temp[r, j'])
      invariant forall j' :: j <= j' < C ==> temp[i, j'] == g[i][j']
      invariant forall j' :: 0 <= j' < j ==>
        temp[i, j'] == (if j' < C - 1 then (-1.0) * cost * g[i][j'] else cost * g[i][j'])
    {
      if j < C - 1 {
        temp[i, j] := (-1.0) * cost * temp[i, j];
      } else {
        temp[i, j] := cost * temp[i, j];
      }
      j := j + 1;
    }
  }

  /** The second and third loops: column sums of the scratch copy, plus costs, into the objective row. */
  method FillObjectiveRow(a: array2<real>, temp: array2<real>, ghost g: Grid<real>, NumbersOfVariables: seq<int>,
                          TargetFunction: seq<real>, ghost w: seq<real>, ghost row: seq<real>)
    requires a != temp && IsTableau(g) && a.Length0 == temp.Length0 == |g| && a.Length1 == temp.Length1 == |g[0]|
    requires forall r, j :: 0 <= r < a.Length0 && 0 <= j < a.Length1 ==> a[r, j] == g[r][j]
    requires CostIndexed(NumbersOfVariables, TargetFunction, (|g| - 1) + (|g[0]| - 1))
    requires |w| == |g| - 1 && ScaledRows(temp, g, w, |g| - 1) && |row| == |g[0]|
    requires forall j :: 0 <= j < |g[0]| - 1 ==>
      row[j] == -WeightedColumnSum(w, g, j, |g| - 1) + TargetFunction[NumbersOfVariables[j + |g| - 1] - 1]
    requires row[|g[0]| - 1] == -(WeightedColumnSum(w, g, |g[0]| - 1, |g| - 1) + TargetFunction[|TargetFunction| - 1])
    modifies a
    ensures forall r, j :: 0 <= r < a.Length0 && 0 <= j < a.Length1 ==>
      a[r, j] == (if r == a.Length0 - 1 then row[j] else g[r][j])
  {
    var R, C := a.Length0, a.Length1;
    var i := 0;
    while i < C - 1
      invariant 0 <= i <= C - 1
      invariant forall r, j :: 0 <= r < R && 0 <= j < C ==>
        a[r, j] == (if r == R - 1 && j < i then row[j] else g[r][j])
    {
      var ColumnTotal := ScratchColumnTotal(temp, g, w, i);
      ColumnTotal := ColumnTotal + TargetFunction[NumbersOfVariables[i + R - 1] - 1];
      a[R - 1, i] := ColumnTotal;
      i := i + 1;
    }
    var ColumnTotal := ScratchColumnTotal(temp, g, w, C - 1);
    ColumnTotal := ColumnTotal + TargetFunction[|TargetFunction| - 1];
    a[R - 1, C - 1] := -ColumnTotal;
  }

  /** Entry j of the priced-out objective row, in terms of the basis costs w and the cost of column j's variable. */
  lemma ObjectiveEntryIs(g: Grid<real>, NumbersOfVariables: seq<int>, TargetFunction: seq<real>, w: seq<real>, j: nat)
    requires IsTableau(g) && CostIndexed(NumbersOfVariables, TargetFunction, (|g| - 1) + (|g[0]| - 1))
    requires w == BasisCosts(NumbersOfVariables, TargetFunction, |g| - 1) && j < |g[0]|
    ensures ObjectiveEntry(g, NumbersOfVariables, TargetFunction, j) ==
      if j < |g[0]| - 1 then -WeightedColumnSum(w, g, j, |g| - 1) + TargetFunction[NumbersOfVariables[j + |g| - 1] - 1]
      else -(WeightedColumnSum(w, g, j, |g| - 1) + TargetFunction[|TargetFunction| - 1])
  {
  }

  /** One column's sum over the scratch copy's constraint rows, in terms of the original tableau. */
  method ScratchColumnTotal(temp: array2<real>, ghost g: Grid<real>, ghost w: seq<real>, col: nat) returns (ColumnTotal: real)
    requires IsGrid(g, temp.Length0, temp.Length1) && temp.Length0 >= 1 && col < temp.Length1
    requires |w| == temp.Length0 - 1 && ScaledRows(temp, g, w, temp.Length0 - 1)
    ensures ColumnTotal == if col < temp.Length1 - 1 then -WeightedColumnSum(w, g, col, |w|) else WeightedColumnSum(w, g, col, |w|)
  {
    ColumnTotal := 0.0;
    var j := 0;
    while j < temp.Length0 - 1
      invariant 0 <= j <= temp.Length0 - 1
      invariant ColumnTotal == if col < temp.Length1 - 1 then -WeightedColumnSum(w, g, col, j) else WeightedColumnSum(w, g, col, j)
    {
      ColumnTotal := ColumnTotal + temp[j, col];
      j := j + 1;
    }
  }

  /**
   * What the priced-out row means: whenever the constraint rows hold, the
   * objective row holds with minus the objective value in place of its
   * basic entry, so its RHS is minus the objective of the basic solution.
   */
  lemma PriceOutMeaning(g: Grid<real>, NumbersOfVariables: seq<int>, TargetFunction: seq<real>,
                        xB: seq<real>, xN: seq<real>)
    requires IsTableau(g) && CostIndexed(NumbersOfVariables, TargetFunction, (|g| - 1) + (|g[0]| - 1))
    requires SatisfiesConstraints(g, xB, xN)
    ensures Satisfies(PriceOut(g, NumbersOfVariables, TargetFunction),
                      xB[|g| - 1 := -ObjectiveValue(NumbersOfVariables, TargetFunction, xB, xN, |g| - 1)], xN)
  {
    var h := PriceOut(g, NumbersOfVariables, TargetFunction);
    var m, n := |g| - 1, |xN|;
    var w := BasisCosts(NumbersOfVariables, TargetFunction, m);
    var cN := NonBasisCosts(NumbersOfVariables, TargetFunction, m, n);
    var c0 := TargetFunction[|TargetFunction| - 1];
    var sums := WeightedColumnSums(w, g, m, n);
    CombineRows(w, g, xB, xN, m);
    SumInterchange(w, g, xN, m, n);
    DotLinear(h[m], cN, sums, -1.0, xN, n);
    var f := ObjectiveValue(NumbersOfVariables, TargetFunction, xB, xN, m);
    var xB' := xB[m := -f];
    forall i | 0 <= i < |g|
      ensures xB'[i] + Dot(h[i], xN, n) == h[i][n]
    {
      if i == m {
        PriceOutRowAlgebra(Dot(w, xB, m), Dot(cN, xN, n), c0, WeightedRowDots(w, g, xN, m, n),
                           WeightedColumnSum(w, g, n, m), Dot(h[m], xN, n), Dot(sums, xN, n), f);
      }
    }
  }

  lemma PriceOutRowAlgebra(dB: real, dN: real, c0: real, rowDots: real, rhs: real, d: real, dSums: real, f: real)
    requires dB + rowDots == rhs && dSums == rowDots && f == dB + dN + c0
    requires d == dN + -1.0 * dSums
    ensures -f + d == -(rhs + c0)
  {
  }

  /**
   * The generic overload as written: its free-coefficient sum starts from
   * the element type's zero tolerance instead of from zero.
   */
  function PriceOutAsWritten(g: Grid<real>, NumbersOfVariables: seq<int>, TargetFunction: seq<real>,
                             kind: ElementKind): (h: Grid<real>)
    requires IsTableau(g) && CostIndexed(NumbersOfVariables, TargetFunction, (|g| - 1) + (|g[0]| - 1))
    ensures IsTableau(h) && |h| == |g| && |h[0]| == |g[0]|
  {
    var m, n := |g| - 1, |g[0]| - 1;
    var w := BasisCosts(NumbersOfVariables, TargetFunction, m);
    var cN := NonBasisCosts(NumbersOfVariables, TargetFunction, m, n);
    g[m := seq(n + 1, j requires 0 <= j <= n =>
      if j < n then cN[j] - WeightedColumnSum(w, g, j, m)
      else -(ZeroElement(kind) + WeightedColumnSum(w, g, n, m) + TargetFunction[|TargetFunction| - 1]))]
  }

  /**
   * The generic overload agrees with the Step overloads on fractions, but
   * on floats its objective RHS is EPSILON too low, so the objective value
   * it reports for the basic solution is off by EPSILON.
   */
  lemma PriceOutAsWrittenOffByEpsilon(g: Grid<real>, NumbersOfVariables: seq<int>, TargetFunction: seq<real>,
                                      kind: ElementKind)
    requires IsTableau(g) && CostIndexed(NumbersOfVariables, TargetFunction, (|g| - 1) + (|g[0]| - 1))
    ensures var h, h' := PriceOut(g, NumbersOfVariables, TargetFunction),
                         PriceOutAsWritten(g, NumbersOfVariables, TargetFunction, kind);
      (forall i, j :: 0 <= i < |g| && 0 <= j < |g[0]| && (i, j) != (|g| - 1, |g[0]| - 1) ==> h'[i][j] == h[i][j]) &&
      h'[|g| - 1][|g[0]| - 1] == h[|g| - 1][|g[0]| - 1] - ZeroElement(kind)
    ensures kind == RealElements ==>
      PriceOutAsWritten(g, NumbersOfVariables, TargetFunction, kind) != PriceOut(g, NumbersOfVariables, TargetFunction)
  {
    var h, h' := PriceOut(g, NumbersOfVariables, TargetFunction),
                 PriceOutAsWritten(g, NumbersOfVariables, TargetFunction, kind);
    var R, C := |g|, |g[0]|;
    if kind == RealElements {
      assert h'[R - 1][C - 1] != h[R - 1][C - 1];
    }
  }
}
