/**
 * `ExplicitBasis`: the first simplex tableau from a basis the user names by
 * one value per variable. The variables whose value passes the non-zero
 * test are basic: their columns are swapped, in order, to the front, and the
 * variable ids (`VariablesPositions`, 1 .. n) are swapped alongside. Gauss-
 * Jordan elimination then turns the leading block into the identity, the
 * first RowNumber-1 columns are deleted, and the objective row is priced
 * out against the new basis.
 *
 * Both revisions do this; they differ in the non-zero test and in the
 * tolerance of the elimination.
 */
module ExplicitBases {
  import opened Matrices
  import opened Steps
  import opened LinearForms
  import opened Gauss
  import opened GaussProperties
  import opened ObjectiveRows

  /** How a basis value is judged non-zero: magnitude at least the bound, or above it. */
  datatype BasisTest = AtLeast(bound: real) | Above(bound: real)

  function InBasis(t: BasisTest, x: real): (r: bool)
    ensures t.Above? && t.bound >= 0.0 && r ==> x != 0.0
    ensures t.AtLeast? && t.bound > 0.0 && r ==> x != 0.0
    ensures t == AtLeast(0.0) ==> r
  {
    match t
    case AtLeast(z) => RAbs(x) >= z
    case Above(z) => RAbs(x) > z
  }

  /** The current revision's test as written, `Genfabs(x) >= ZeroElement`. */
  function CurrentBasisTestAsWritten(kind: ElementKind): (t: BasisTest)
    ensures kind == FractionalElements ==> forall x :: InBasis(t, x)
  {
    AtLeast(ZeroElement(kind))
  }

  /**
   * The test the current revision evidently intends: as written for floats
   * (magnitude at least EPSILON), and non-zero for fractions.
   */
  function CurrentBasisTest(kind: ElementKind): (t: BasisTest)
    ensures forall x :: InBasis(t, x) ==> x != 0.0
    ensures kind == FractionalElements ==> forall x :: InBasis(t, x) <==> x != 0.0
    ensures kind == RealElements ==> t == CurrentBasisTestAsWritten(kind)
  {
    match kind
    case RealElements => AtLeast(EPSILON)
    case FractionalElements => Above(0.0)
  }

  /** The older revision's test, `fabs(x) > EPSILON`. */
  function LegacyBasisTest(): (t: BasisTest)
    ensures forall x :: InBasis(t, x) <==> RAbs(x) > EPSILON
  {
    Above(EPSILON)
  }

  /**
   * `PositionsOfNonZeroElements` after positions 0 .. n-1: exactly the
   * positions whose value passes the test, in ascending order.
   */
  function NonZeroPositions(b: seq<real>, t: BasisTest, n: nat): (P: seq<nat>)
    requires n <= |b|
    ensures |P| <= n && forall k :: 0 <= k < |P| ==> k <= P[k] < n
  {
    if n == 0 then []
    else NonZeroPositions(b, t, n - 1) + (if InBasis(t, b[n - 1]) then [n - 1] else [])
  }

  /**
   * The positions are exactly those whose value passes the test, and they
   * ascend.
   */
  lemma {:induction false} NonZeroPositionsExact(b: seq<real>, t: BasisTest, n: nat)
    requires n <= |b|
    ensures var P := NonZeroPositions(b, t, n);
      (forall k, l :: 0 <= k < l < |P| ==> P[k] < P[l]) &&
      (forall i :: 0 <= i < n ==> (i in P <==> InBasis(t, b[i])))
  {
    NonZeroPositionsAscend(b, t, n);
    NonZeroPositionsMembers(b, t, n);
    assert Ascending(NonZeroPositions(b, t, n));
  }

  /** Each position is smaller than every later one. */
  predicate Ascending(P: seq<nat>)
  {
    forall k, l :: 0 <= k < l < |P| ==> P[k] < P[l]
  }

  lemma {:induction false} NonZeroPositionsAscend(b: seq<real>, t: BasisTest, n: nat)
    requires n <= |b|
    ensures Ascending(NonZeroPositions(b, t, n))
  {
    if n > 0 {
      var Q := NonZeroPositions(b, t, n - 1);
      var tail: seq<nat> := if InBasis(t, b[n - 1]) then [n - 1] else [];
      NonZeroPositionsAscend(b, t, n - 1);
      assert NonZeroPositions(b, t, n) == Q + tail;
      forall k, l | 0 <= k < l < |Q + tail|
        ensures (Q + tail)[k] < (Q + tail)[l]
      {
        if l >= |Q| {
          assert tail == [n - 1] && l == |Q| && k < |Q|;
          assert (Q + tail)[k] == Q[k] < n - 1 == (Q + tail)[l];
        } else {
          assert (Q + tail)[k] == Q[k] && (Q + tail)[l] == Q[l];
        }
      }
      assert Ascending(Q + tail);
    }
  }

  lemma {:induction false} NonZeroPositionsMembers(b: seq<real>, t: BasisTest, n: nat)
    requires n <= |b|
    ensures var P := NonZeroPositions(b, t, n); forall i :: 0 <= i < n ==> (i in P <==> InBasis(t, b[i]))
  {
    if n > 0 {
      var Q := NonZeroPositions(b, t, n - 1);
      var selected := InBasis(t, b[n - 1]);
      var tail: seq<nat> := if selected then [n - 1] else [];
      NonZeroPositionsMembers(b, t, n - 1);
      assert NonZeroPositions(b, t, n) == Q + tail;
      assert n - 1 !in Q;
      forall i | 0 <= i < n
        ensures i in Q + tail <==> InBasis(t, b[i])
      {
        assert i in Q + tail <==> i in Q || i in tail;
      }
    }
  }

  /** The swaps (0, P[0]), (1, P[1]), ..., (k-1, P[k-1]), applied in that order. */
  function SwapsOf<T>(s: seq<T>, P: seq<nat>, k: nat): (r: seq<T>)
    requires k <= |P| && k <= |s| && forall l :: 0 <= l < k ==> P[l] < |s|
    ensures |r| == |s|
  {
    if k == 0 then s else Swapped(SwapsOf(s, P, k - 1), k - 1, P[k - 1])
  }

  /** The swaps keep the entries, with their multiplicities. */
  lemma {:induction false} SwapsPermute<T>(s: seq<T>, P: seq<nat>, k: nat)
    requires k <= |P| && k <= |s| && forall l :: 0 <= l < k ==> P[l] < |s|
    ensures multiset(SwapsOf(s, P, k)) == multiset(s)
  {
    if k > 0 {
      SwapsPermute(s, P, k - 1);
      LastSwapPermutes(s, P, k);
    }
  }

  /** The k-th swap keeps the entries of the first k - 1 swaps' result. */
  lemma LastSwapPermutes<T>(s: seq<T>, P: seq<nat>, k: nat)
    requires 0 < k <= |P| && k <= |s| && forall l :: 0 <= l < k ==> P[l] < |s|
    ensures multiset(SwapsOf(s, P, k)) == multiset(SwapsOf(s, P, k - 1))
  {
    SwappedPermutes(SwapsOf(s, P, k - 1), k - 1, P[k - 1]);
  }

  /** The positions 0 .. n-1 in order. */
  function Positions(n: nat): (s: seq<nat>)
    ensures |s| == n && forall j :: 0 <= j < n ==> s[j] == j
  {
    seq(n, j => j)
  }

  /** Where the entry at each position came from, after the first k swaps. */
  function Arrangement(n: nat, P: seq<nat>, k: nat): (sigma: seq<nat>)
    requires k <= |P| && k <= n && forall l :: 0 <= l < k ==> P[l] < n
    ensures |sigma| == n && forall j :: 0 <= j < n ==> sigma[j] < n
  {
    if k == 0 then Positions(n) else Swapped(Arrangement(n, P, k - 1), k - 1, P[k - 1])
  }

  /** `VariablesPositions` before the swaps: the ids 1 .. n. */
  function InitialIds(n: nat): (ids: seq<int>)
    ensures |ids| == n && forall j :: 0 <= j < n ==> ids[j] == j + 1
    ensures forall id :: id in ids <==> 1 <= id <= n
  {
    var s := seq(n, j => j + 1);
    assert forall id :: 1 <= id <= n ==> id in s by {
      forall id | 1 <= id <= n ensures id in s {
        assert s[id - 1] == id;
      }
    }
    s
  }

  /** The swaps of every row of a tableau: columns moved, the RHS column left alone. */
  function SwappedColumns(g: Grid<real>, P: seq<nat>, k: nat): (h: Grid<real>)
    requires IsTableau(g) && k <= |P| && k < |g[0]| && forall l :: 0 <= l < k ==> P[l] < |g[0]| - 1
    ensures IsTableau(h) && |h| == |g| && |h[0]| == |g[0]|
    ensures forall i :: 0 <= i < |g| ==> h[i] == SwapsOf(g[i], P, k)
  {
    seq(|g|, i requires 0 <= i < |g| => SwapsOf(g[i], P, k))
  }

  /** The grid without its first k columns. */
  function DropColumns(g: Grid<real>, k: nat): (h: Grid<real>)
    requires forall i :: 0 <= i < |g| ==> k <= |g[i]|
    ensures |h| == |g| && forall i :: 0 <= i < |g| ==> |h[i]| == |g[i]| - k
    ensures IsTableau(g) && k < |g[0]| ==> IsTableau(h) && |h[0]| == |g[0]| - k
  {
    seq(|g|, i requires 0 <= i < |g| => g[i][k..])
  }

  /** The basis values an `ExplicitBasis` call accepts: one per variable, costs with a constant. */
  ghost predicate SetupFits(g: Grid<real>, b: seq<real>, TargetFunction: seq<real>) {
    IsTableau(g) && |g| <= |g[0]| && |b| == |g[0]| - 1 && |TargetFunction| == |b| + 1
  }

  /** The ids the setup returns: 1 .. n, swapped alongside the columns. */
  function ExplicitBasisIds(b: seq<real>, t: BasisTest): (ids: seq<int>)
    ensures |ids| == |b| && forall j :: 0 <= j < |b| ==> 1 <= ids[j] <= |b|
  {
    var P := NonZeroPositions(b, t, |b|);
    SwapsStayWithin(InitialIds(|b|), P, |P|, 1, |b|);
    SwapsOf(InitialIds(|b|), P, |P|)
  }

  /** Swaps keep every entry within the bounds the entries had. */
  lemma {:induction false} SwapsStayWithin(s: seq<int>, P: seq<nat>, k: nat, lo: int, hi: int)
    requires k <= |P| && k <= |s| && forall l :: 0 <= l < k ==> P[l] < |s|
    requires forall j :: 0 <= j < |s| ==> lo <= s[j] <= hi
    ensures forall j :: 0 <= j < |s| ==> lo <= SwapsOf(s, P, k)[j] <= hi
  {
    if k > 0 {
      SwapsStayWithin(s, P, k - 1, lo, hi);
    }
  }

  /** The ids are a permutation of 1 .. n. */
  lemma ExplicitBasisIdsPermute(b: seq<real>, t: BasisTest)
    ensures multiset(ExplicitBasisIds(b, t)) == multiset(InitialIds(|b|))
  {
    var P := NonZeroPositions(b, t, |b|);
    SwapsPermute(InitialIds(|b|), P, |P|);
  }

  /** Entry j of the ids names the variable whose column ends up in position j. */
  lemma ExplicitBasisIdsArranged(b: seq<real>, t: BasisTest)
    ensures var ids, P := ExplicitBasisIds(b, t), NonZeroPositions(b, t, |b|);
      forall j :: 0 <= j < |b| ==> ids[j] == Arrangement(|b|, P, |P|)[j] + 1
  {
    var P := NonZeroPositions(b, t, |b|);
    SwapsFollowArrangement(InitialIds(|b|), |b|, P, |P|);
  }

  /** The first entries of the ids are the selected variables, in order. */
  lemma ExplicitBasisIdsFront(b: seq<real>, t: BasisTest)
    ensures var ids, P := ExplicitBasisIds(b, t), NonZeroPositions(b, t, |b|);
      forall i :: 0 <= i < |P| ==> ids[i] == P[i] + 1
  {
    var P := NonZeroPositions(b, t, |b|);
    ExplicitBasisIdsArranged(b, t);
    NonZeroPositionsExact(b, t, |b|);
    FrontIsSelected(|b|, P, |P|);
  }

  /** The tableau the setup leaves: swapped, eliminated, leading block dropped, priced out. */
  ghost function ExplicitBasisTableau(g: Grid<real>, b: seq<real>, TargetFunction: seq<real>,
                                      t: BasisTest, tol: Tolerance): (h: Grid<real>)
    requires SetupFits(g, b, TargetFunction) && ValidTolerance(tol)
    ensures IsTableau(h) && |h| == |g| && |h[0]| == |g[0]| - (|g| - 1)
  {
    IdsIndexCosts(b, t, TargetFunction);
    Staged(g, NonZeroPositions(b, t, |b|), ExplicitBasisIds(b, t), TargetFunction, tol)
  }

  /** The stages for given selected positions and final ids. */
  ghost function Staged(g: Grid<real>, P: seq<nat>, ids: seq<int>, TargetFunction: seq<real>, tol: Tolerance): (h: Grid<real>)
    requires IsTableau(g) && |g| <= |g[0]| && ValidTolerance(tol)
    requires |P| < |g[0]| && forall l :: 0 <= l < |P| ==> P[l] < |g[0]| - 1
    requires CostIndexed(ids, TargetFunction, |g[0]| - 1)
    ensures IsTableau(h) && |h| == |g| && |h[0]| == |g[0]| - (|g| - 1)
  {
    PriceOut(DropColumns(Reduced(g, P, tol), |g| - 1), ids, TargetFunction)
  }

  /** The first two stages: the selected columns swapped to the front, then eliminated. */
  ghost function Reduced(g: Grid<real>, P: seq<nat>, tol: Tolerance): (h: Grid<real>)
    requires IsTableau(g) && |g| <= |g[0]| && ValidTolerance(tol)
    requires |P| < |g[0]| && forall l :: 0 <= l < |P| ==> P[l] < |g[0]| - 1
    ensures IsTableau(h) && |h| == |g| && |h[0]| == |g[0]|
  {
    GaussSpec(SwappedColumns(g, P, |P|), tol)
  }

  /** The new ids index the cost vector. */
  lemma IdsIndexCosts(b: seq<real>, t: BasisTest, TargetFunction: seq<real>)
    requires |TargetFunction| == |b| + 1
    ensures CostIndexed(ExplicitBasisIds(b, t), TargetFunction, |b|)
  {
  }

  /**
   * The current revision's `ExplicitBasis`, on the tableau in `matrix`, with
   * three corrections: the intended non-zero test (not `>= ZeroElement`),
   * the Gauss search over every constraint row, and a price-out total that
   * starts at 0 (the generic overload starts it at `ZeroElement`). The
   * returned step carries the new ids.
   */
  method ExplicitBasis(step: Step, matrix: Matrix<real>, ExplicitBasis: seq<real>, TargetFunction: seq<real>,
                       kind: ElementKind) returns (NewStep: Step)
    requires matrix.Valid() && SetupFits(matrix.Contents(), ExplicitBasis, TargetFunction)
    modifies matrix, matrix.matrix
    ensures matrix.Valid() && matrix.RowNumber == old(matrix.RowNumber)
    ensures matrix.Contents() == ExplicitBasisTableau(old(matrix.Contents()), ExplicitBasis, TargetFunction,
                                                      CurrentBasisTest(kind), CurrentTolerance(kind))
    ensures NewStep == step.(NumbersOfVariables := ExplicitBasisIds(ExplicitBasis, CurrentBasisTest(kind)))
  {
    var VariablesPositions := SetUpBasis(matrix, ExplicitBasis, TargetFunction, CurrentBasisTest(kind),
                                         CurrentTolerance(kind));
    NewStep := step.(NumbersOfVariables := VariablesPositions);
  }

  /** The older `ExplicitBasis`, on the step's own tableau, with the Gauss search over every constraint row. */
  method LegacyExplicitBasis(step: Step, RealExplicitBasis: seq<real>, RealTargetFunction: seq<real>)
    returns (NewStep: Step)
    requires SetupFits(step.Tableau, RealExplicitBasis, RealTargetFunction)
    ensures NewStep == step.(Tableau := ExplicitBasisTableau(step.Tableau, RealExplicitBasis, RealTargetFunction,
                                                            LegacyBasisTest(), LegacyTolerance()),
                             NumbersOfVariables := ExplicitBasisIds(RealExplicitBasis, LegacyBasisTest()))
  {
    var g := step.Tableau;
    var RealMatrix := new Matrix<real>.FromContents(g, |g|, |g[0]|);
    var VariablesPositions := SetUpBasis(RealMatrix, RealExplicitBasis, RealTargetFunction, LegacyBasisTest(),
                                         LegacyTolerance());
    var h := RealMatrix.Snapshot();
    NewStep := step.(Tableau := h, NumbersOfVariables := VariablesPositions);
  }

  /** The three stages shared by both revisions, for a given test and tolerance. */
  method SetUpBasis(matrix: Matrix<real>, ExplicitBasis: seq<real>, TargetFunction: seq<real>,
                    t: BasisTest, tol: Tolerance) returns (VariablesPositions: seq<int>)
    requires matrix.Valid() && SetupFits(matrix.Contents(), ExplicitBasis, TargetFunction) && ValidTolerance(tol)
    modifies matrix, matrix.matrix
    ensures matrix.Valid() && matrix.RowNumber == old(matrix.RowNumber)
    ensures matrix.Contents() == ExplicitBasisTableau(old(matrix.Contents()), ExplicitBasis, TargetFunction, t, tol)
    ensures VariablesPositions == ExplicitBasisIds(ExplicitBasis, t)
  {
    ghost var g := matrix.Contents();
    var n := |ExplicitBasis|;

    // 1. The ids 1 .. n and the positions of the values that pass the test.
    var ids := InitialIdsOf(n);
    var PositionsOfNonZeroElements := NonZeroPositionsOf(ExplicitBasis, t);
    IdsIndexCosts(ExplicitBasis, t, TargetFunction);
    VariablesPositions := AllStages(matrix, PositionsOfNonZeroElements, ids, TargetFunction, tol, g);
  }

  /** Stages 1.2 to 3 for given selected positions and initial ids. */
  method AllStages(matrix: Matrix<real>, PositionsOfNonZeroElements: seq<nat>, ids: seq<int>, TargetFunction: seq<real>,
                   tol: Tolerance, ghost g: Grid<real>) returns (VariablesPositions: seq<int>)
    requires matrix.Valid() && matrix.Contents() == g && IsTableau(g) && matrix.RowNumber <= matrix.ColNumber && ValidTolerance(tol)
    requires |ids| == matrix.ColNumber - 1 && |PositionsOfNonZeroElements| <= |ids|
    requires forall l :: 0 <= l < |PositionsOfNonZeroElements| ==> PositionsOfNonZeroElements[l] < |ids|
    requires CostIndexed(SwapsOf(ids, PositionsOfNonZeroElements, |PositionsOfNonZeroElements|), TargetFunction, matrix.ColNumber - 1)
    modifies matrix, matrix.matrix
    ensures matrix.Valid() && matrix.RowNumber == old(matrix.RowNumber)
    ensures VariablesPositions == SwapsOf(ids, PositionsOfNonZeroElements, |PositionsOfNonZeroElements|)
    ensures matrix.Contents() == PriceOut(DropColumns(Reduced(g, PositionsOfNonZeroElements, tol), |g| - 1), VariablesPositions, TargetFunction)
  {
    VariablesPositions := SwapAndEliminate(matrix, PositionsOfNonZeroElements, ids, tol);
    DropAndPriceOut(matrix, VariablesPositions, TargetFunction);
  }

  /** Stages 1.2 and 2: swap the selected columns and their ids to the front, then eliminate. */
  method SwapAndEliminate(matrix: Matrix<real>, PositionsOfNonZeroElements: seq<nat>, ids: seq<int>, tol: Tolerance)
    returns (VariablesPositions: seq<int>)
    requires matrix.Valid() && IsTableau(matrix.Contents()) && matrix.RowNumber <= matrix.ColNumber && ValidTolerance(tol)
    requires |ids| == matrix.ColNumber - 1 && |PositionsOfNonZeroElements| <= |ids|
    requires forall l :: 0 <= l < |PositionsOfNonZeroElements| ==> PositionsOfNonZeroElements[l] < |ids|
    modifies matrix.matrix
    ensures VariablesPositions == SwapsOf(ids, PositionsOfNonZeroElements, |PositionsOfNonZeroElements|)
    ensures matrix.Valid() && matrix.Contents() == Reduced(old(matrix.Contents()), PositionsOfNonZeroElements, tol)
  {
    VariablesPositions := SwapToFront(matrix, PositionsOfNonZeroElements, ids);
    GaussElimination(matrix, tol);
  }

  /** Stage 3: delete the first RowNumber-1 columns, then price out the objective row with a total that starts at 0. */
  method DropAndPriceOut(matrix: Matrix<real>, VariablesPositions: seq<int>, TargetFunction: seq<real>)
    requires matrix.Valid() && IsTableau(matrix.Contents()) && matrix.RowNumber <= matrix.ColNumber
    requires CostIndexed(VariablesPositions, TargetFunction, matrix.ColNumber - 1)
    modifies matrix, matrix.matrix
    ensures matrix.Valid() && matrix.RowNumber == old(matrix.RowNumber)
    ensures matrix.Contents() == PriceOut(DropColumns(old(matrix.Contents()), |old(matrix.Contents())| - 1), VariablesPositions, TargetFunction)
  {
    DropLeadingColumns(matrix, matrix.RowNumber - 1);
    MakeSimplexAlgorithmFunctionCoefficients(matrix, VariablesPositions, TargetFunction);
  }

  /** Loop 1: the ids 1 .. n, in column order. */
  method InitialIdsOf(n: nat) returns (VariablesPositions: seq<int>)
    ensures VariablesPositions == InitialIds(n)
  {
    VariablesPositions := [];
    var i := 0;
    while i < n
      invariant 0 <= i <= n && VariablesPositions == InitialIds(i)
    {
      VariablesPositions := VariablesPositions + [i + 1];
      i := i + 1;
    }
  }

  /** Loop 1.2: column i trades places with the i-th selected column, and so do their ids. */
  method SwapToFront(matrix: Matrix<real>, PositionsOfNonZeroElements: seq<nat>, ids: seq<int>)
    returns (VariablesPositions: seq<int>)
    requires matrix.Valid() && IsTableau(matrix.Contents())
    requires |ids| == matrix.ColNumber - 1 && |PositionsOfNonZeroElements| <= |ids|
    requires forall l :: 0 <= l < |PositionsOfNonZeroElements| ==> PositionsOfNonZeroElements[l] < |ids|
    modifies matrix.matrix
    ensures matrix.Valid() && matrix.Contents() == SwappedColumns(old(matrix.Contents()), PositionsOfNonZeroElements, |PositionsOfNonZeroElements|)
    ensures VariablesPositions == SwapsOf(ids, PositionsOfNonZeroElements, |PositionsOfNonZeroElements|)
  {
    ghost var g := matrix.Contents();
    ghost var P := PositionsOfNonZeroElements;
    VariablesPositions := ids;
    var i := 0;
    while i < |PositionsOfNonZeroElements|
      invariant 0 <= i <= |P| && matrix.Valid()
      invariant matrix.Contents() == SwappedColumns(g, P, i)
      invariant VariablesPositions == SwapsOf(ids, P, i)
    {
      VariablesPositions := SwapPass(matrix, PositionsOfNonZeroElements, ids, VariablesPositions, i, g);
      i := i + 1;
    }
    assert i == |P|;
  }

  /** One turn of loop 1.2: column i and its id trade places with the i-th selected ones. */
  method SwapPass(matrix: Matrix<real>, PositionsOfNonZeroElements: seq<nat>, ids: seq<int>, VariablesPositions: seq<int>,
                  i: nat, ghost g: Grid<real>) returns (NewPositions: seq<int>)
    requires IsTableau(g) && |ids| == |g[0]| - 1 && i < |PositionsOfNonZeroElements| <= |ids|
    requires forall l :: 0 <= l < |PositionsOfNonZeroElements| ==> PositionsOfNonZeroElements[l] < |ids|
    requires matrix.Valid() && matrix.Contents() == SwappedColumns(g, PositionsOfNonZeroElements, i)
    requires VariablesPositions == SwapsOf(ids, PositionsOfNonZeroElements, i)
    modifies matrix.matrix
    ensures matrix.Valid() && matrix.Contents() == SwappedColumns(g, PositionsOfNonZeroElements, i + 1)
    ensures NewPositions == SwapsOf(ids, PositionsOfNonZeroElements, i + 1)
  {
    var NonZeroPosition := PositionsOfNonZeroElements[i];
    matrix.SwapColumns(i, NonZeroPosition);
    NewPositions := Swapped(VariablesPositions, i, NonZeroPosition);
    SwapColumnsStep(g, PositionsOfNonZeroElements, i);
    SwapsOfNext(ids, PositionsOfNonZeroElements, i);
  }

  /** One more swap of a sequence extends its swaps by one. */
  lemma SwapsOfNext<T>(s: seq<T>, P: seq<nat>, i: nat)
    requires i < |P| && i < |s| && forall l :: 0 <= l <= i ==> P[l] < |s|
    ensures SwapsOf(s, P, i + 1) == Swapped(SwapsOf(s, P, i), i, P[i])
  {
  }

  /** One more column swap extends the swaps by one. */
  lemma SwapColumnsStep(g: Grid<real>, P: seq<nat>, i: nat)
    requires IsTableau(g) && i < |P| && i + 1 < |g[0]| && forall l :: 0 <= l <= i ==> P[l] < |g[0]| - 1
    ensures SwapColumnsOf(SwappedColumns(g, P, i), i, P[i]) == SwappedColumns(g, P, i + 1)
  {
    var h, h' := SwapColumnsOf(SwappedColumns(g, P, i), i, P[i]), SwappedColumns(g, P, i + 1);
    forall r | 0 <= r < |g| ensures h[r] == h'[r] {
      assert h[r] == Swapped(SwapsOf(g[r], P, i), i, P[i]);
    }
  }

  /** Loop 3: the first k columns are deleted one by one. */
  method DropLeadingColumns(matrix: Matrix<real>, k: nat)
    requires matrix.Valid() && IsTableau(matrix.Contents()) && k < matrix.ColNumber
    modifies matrix
    ensures matrix.Valid() && matrix.RowNumber == old(matrix.RowNumber) && matrix.ColNumber == old(matrix.ColNumber) - k
    ensures matrix.Contents() == DropColumns(old(matrix.Contents()), k)
    ensures matrix.matrix == old(matrix.matrix) || fresh(matrix.matrix)
  {
    ghost var G := matrix.Contents();
    var i := 0;
    while i < k
      invariant 0 <= i <= k && matrix.Valid()
      invariant matrix.RowNumber == old(matrix.RowNumber) && matrix.ColNumber == old(matrix.ColNumber) - i
      invariant matrix.Contents() == DropColumns(G, i)
      invariant matrix.matrix == old(matrix.matrix) || fresh(matrix.matrix)
    {
      matrix.DeleteColumn(0);
      DropOneMore(G, i);
      i := i + 1;
    }
  }

  /** Loop 1.1: the positions whose value passes the test. */
  method NonZeroPositionsOf(b: seq<real>, t: BasisTest) returns (PositionsOfNonZeroElements: seq<nat>)
    ensures PositionsOfNonZeroElements == NonZeroPositions(b, t, |b|)
  {
    PositionsOfNonZeroElements := [];
    var i := 0;
    while i < |b|
      invariant 0 <= i <= |b| && PositionsOfNonZeroElements == NonZeroPositions(b, t, i)
    {
      if InBasis(t, b[i]) {
        PositionsOfNonZeroElements := PositionsOfNonZeroElements + [i];
      }
      i := i + 1;
    }
  }

  lemma DropOneMore(g: Grid<real>, k: nat)
    requires forall i :: 0 <= i < |g| ==> k < |g[i]|
    ensures DeleteColumnOf(DropColumns(g, k), 0) == DropColumns(g, k + 1)
  {
    var d := DeleteColumnOf(DropColumns(g, k), 0);
    forall i | 0 <= i < |g| ensures d[i] == g[i][k + 1..] {
      assert d[i] == g[i][k..][..0] + g[i][k..][1..];
    }
  }

  /** Every sequence of the same length follows the same arrangement under the swaps. */
  lemma {:induction false} SwapsFollowArrangement<T>(s: seq<T>, n: nat, P: seq<nat>, k: nat)
    requires n <= |s| && k <= |P| && k <= n && forall l :: 0 <= l < k ==> P[l] < n
    ensures forall j :: 0 <= j < |s| ==> SwapsOf(s, P, k)[j] == (if j < n then s[Arrangement(n, P, k)[j]] else s[j])
  {
    if k > 0 {
      SwapsFollowArrangement(s, n, P, k - 1);
    }
  }

  /**
   * After the first k swaps the first k positions hold the selected ones,
   * and the selected positions not yet reached are still in place.
   */
  lemma {:induction false} FrontIsSelected(n: nat, P: seq<nat>, k: nat)
    requires k <= |P| && (forall l :: 0 <= l < |P| ==> l <= P[l] < n)
    requires forall l, l' :: 0 <= l < l' < |P| ==> P[l] < P[l']
    ensures forall i :: 0 <= i < k ==> Arrangement(n, P, k)[i] == P[i]
    ensures forall l :: k <= l < |P| ==> Arrangement(n, P, k)[P[l]] == P[l]
  {
    if k > 0 {
      FrontIsSelected(n, P, k - 1);
    }
  }

  /** With the value test of the current revision as written, fractional bases select every position. */
  lemma AsWrittenSelectsEverything(b: seq<real>)
    ensures NonZeroPositions(b, CurrentBasisTestAsWritten(FractionalElements), |b|) == Positions(|b|)
    ensures ExplicitBasisIds(b, CurrentBasisTestAsWritten(FractionalElements)) == InitialIds(|b|)
  {
    var t := CurrentBasisTestAsWritten(FractionalElements);
    AllPositions(b, t, |b|);
    ExplicitBasisIdsFront(b, t);
    var ids := ExplicitBasisIds(b, t);
    assert forall i :: 0 <= i < |b| ==> ids[i] == InitialIds(|b|)[i];
  }

  /** When every value passes the test, every position is selected. */
  lemma {:induction false} AllPositions(b: seq<real>, t: BasisTest, n: nat)
    requires n <= |b| && forall x :: InBasis(t, x)
    ensures NonZeroPositions(b, t, n) == Positions(n)
  {
    if n > 0 {
      AllPositions(b, t, n - 1);
    }
  }

  /**
   * The basis (x1 = 0, x2 = 1) names x2 as the basic variable. As written,
   * the fractional test keeps x1 in front; the intended test moves x2 there.
   */
  lemma AsWrittenKeepsZeroVariable()
    ensures ExplicitBasisIds([0.0, 1.0], CurrentBasisTestAsWritten(FractionalElements)) == [1, 2]
    ensures ExplicitBasisIds([0.0, 1.0], CurrentBasisTest(FractionalElements)) == [2, 1]
  {
    var b := [0.0, 1.0];
    AsWrittenSelectsEverything(b);
    assert InitialIds(2) == [1, 2];
    var t := CurrentBasisTest(FractionalElements);
    var P := NonZeroPositions(b, t, 2);
    assert P == [1];
    ExplicitBasisIdsArranged(b, t);
    assert Arrangement(2, P, 1) == [1, 0];
  }

  // The meaning of the setup: the new tableau stands for the same system.

  /** Changing entry k of both vectors changes the dot product accordingly. */
  lemma {:induction false} DotUpdate(a: seq<real>, x: seq<real>, n: nat, k: nat, u: real, v: real)
    requires n <= |a| && n <= |x| && k < |a| && k < |x|
    ensures Dot(a[k := u], x[k := v], n) == Dot(a, x, n) + (if k < n then u * v - a[k] * x[k] else 0.0)
  {
    if n > 0 {
      DotUpdate(a, x, n - 1, k, u, v);
    }
  }

  /** Swapping the same two entries of both vectors keeps the dot product. */
  lemma DotSwapped(a: seq<real>, x: seq<real>, n: nat, p: nat, q: nat)
    requires n <= |a| && n <= |x| && p < n && q < n
    ensures Dot(Swapped(a, p, q), Swapped(x, p, q), n) == Dot(a, x, n)
  {
    if p != q {
      var a', x' := a[p := a[q]], x[p := x[q]];
      DotUpdate(a, x, n, p, a[q], x[q]);
      DotUpdate(a', x', n, q, a[p], x[p]);
      assert a'[q] == a[q] && x'[q] == x[q];
      assert Swapped(a, p, q) == a'[q := a[p]] && Swapped(x, p, q) == x'[q := x[p]];
    } else {
      assert Swapped(a, p, q) == a && Swapped(x, p, q) == x;
    }
  }

  /** A column swap with the matching swap of the unknowns keeps every solution. */
  lemma {:induction false} SwapsKeepSolutions(g: Grid<real>, P: seq<nat>, k: nat, x: seq<real>)
    requires IsTableau(g) && k <= |P| && k < |g[0]| && forall l :: 0 <= l < k ==> P[l] < |g[0]| - 1
    requires |x| == |g[0]| - 1
    ensures SystemHolds(SwappedColumns(g, P, k), SwapsOf(x, P, k)) <==> SystemHolds(g, x)
  {
    if k > 0 {
      SwapsKeepSolutions(g, P, k - 1, x);
      var h, h' := SwappedColumns(g, P, k - 1), SwappedColumns(g, P, k);
      var y := SwapsOf(x, P, k - 1);
      forall i | 0 <= i < |g| - 1
        ensures RowHolds(h'[i], SwapsOf(x, P, k)) <==> RowHolds(h[i], y)
      {
        DotSwapped(h[i], y, |x|, k - 1, P[k - 1]);
      }
    }
  }

  /** One pushed 1 and zeros elsewhere in the first m entries of a row. */
  ghost predicate UnitPrefix(row: seq<real>, m: nat, i: nat)
    requires m <= |row|
  {
    forall j :: 0 <= j < m ==> row[j] == (if j == i then 1.0 else 0.0)
  }

  lemma {:induction false} DotUnitPrefix(row: seq<real>, y: seq<real>, m: nat, n: nat, i: nat)
    requires n <= m <= |row| && m <= |y| && i < m && UnitPrefix(row, m, i)
    ensures Dot(row, y, n) == (if i < n then y[i] else 0.0)
  {
    if n > 0 {
      DotUnitPrefix(row, y, m, n - 1, i);
    }
  }

  lemma {:induction false} DotSplit(a: seq<real>, x: seq<real>, m: nat, n: nat)
    requires m <= n <= |a| && n <= |x|
    ensures Dot(a, x, n) == Dot(a, x, m) + Dot(a[m..], x[m..], n - m)
  {
    if n > m {
      DotSplit(a, x, m, n - 1);
      assert a[m..][n - 1 - m] == a[n - 1] && x[m..][n - 1 - m] == x[n - 1];
    }
  }

  /** A row whose first m entries are the unit vector e_i says y[i] plus the rest equals the RHS. */
  lemma UnitRowHolds(row: seq<real>, y: seq<real>, m: nat, i: nat)
    requires |row| == |y| + 1 && i < m <= |y| && UnitPrefix(row, m, i)
    ensures RowHolds(row, y) <==> y[i] + Dot(row[m..], y[m..], |y| - m) == row[|y|]
  {
    DotSplit(row, y, m, |y|);
    DotUnitPrefix(row, y, m, m, i);
  }

  /** The first k values of x, then 0 for the objective row. */
  ghost function BasicEntries(y: seq<real>, k: nat): (xB: seq<real>)
    requires k <= |y|
    ensures |xB| == k + 1
  {
    y[..k] + [0.0]
  }

  /**
   * A system whose leading block is the identity, read as a tableau
   * without that block: the first RowNumber-1 unknowns are the basic values.
   */
  lemma IdentityBlockSolutions(G: Grid<real>, y: seq<real>)
    requires IsTableau(G) && |G| <= |G[0]| && |y| == |G[0]| - 1
    requires forall i :: 0 <= i < |G| - 1 ==> UnitPrefix(G[i], |G| - 1, i)
    ensures SystemHolds(G, y) <==>
      SatisfiesConstraints(DropColumns(G, |G| - 1), BasicEntries(y, |G| - 1), y[|G| - 1..])
  {
    var m := |G| - 1;
    var D := DropColumns(G, m);
    forall i | 0 <= i < m
      ensures RowHolds(G[i], y) <==> BasicEntries(y, m)[i] + Dot(D[i], y[m..], |y| - m) == D[i][|y| - m]
    {
      UnitRowHolds(G[i], y, m, i);
      assert D[i][|y| - m] == G[i][|y|];
    }
  }

  /** The exact elimination leaves the identity in front when it finds every diagonal pivot. */
  lemma IdentityBlock(S: Grid<real>)
    requires IsTableau(S) && |S| <= |S[0]|
    requires forall i :: 0 <= i < |S| - 1 ==> GaussSpec(S, AtMost(0.0))[i][i] == 1.0
    ensures var G := GaussSpec(S, AtMost(0.0));
      forall i :: 0 <= i < |S| - 1 ==> UnitPrefix(G[i], |S| - 1, i)
  {
    GaussReducesToIdentity(S);
    assert CurrentTolerance(FractionalElements) == AtMost(0.0);
    var G := GaussSpec(S, AtMost(0.0));
    forall i | 0 <= i < |S| - 1 ensures UnitPrefix(G[i], |S| - 1, i) {
      forall j | 0 <= j < |S| - 1 ensures G[i][j] == (if j == i then 1.0 else 0.0) {
        if j != i {
          assert G[j][j] == 1.0;
        }
      }
    }
  }

  /** The unknowns in the order of the ids: entry j is the value of variable ids[j]. */
  ghost function ValuesInIdOrder(x: seq<real>, ids: seq<int>): (y: seq<real>)
    requires forall j :: 0 <= j < |ids| ==> 1 <= ids[j] <= |x|
    ensures |y| == |ids|
  {
    seq(|ids|, j requires 0 <= j < |ids| => x[ids[j] - 1])
  }

  /** The unknowns in id order are the unknowns swapped along with the columns. */
  lemma IdOrderIsSwaps(b: seq<real>, t: BasisTest, x: seq<real>)
    requires |x| == |b|
    ensures var P := NonZeroPositions(b, t, |b|);
      ValuesInIdOrder(x, ExplicitBasisIds(b, t)) == SwapsOf(x, P, |P|)
  {
    var P := NonZeroPositions(b, t, |b|);
    var ids := ExplicitBasisIds(b, t);
    SwapsFollowArrangement(x, |b|, P, |P|);
    SwapsFollowArrangement(InitialIds(|b|), |b|, P, |P|);
    forall j | 0 <= j < |b| ensures ValuesInIdOrder(x, ids)[j] == SwapsOf(x, P, |P|)[j] {
      assert ids[j] == Arrangement(|b|, P, |P|)[j] + 1;
    }
  }

  /**
   * Swapping, then eliminating exactly with a unit pivot on every
   * constraint row, gives a system whose non-leading columns, read with the
   * swapped unknowns (the first RowNumber-1 of them basic), have exactly the
   * solutions of the original system.
   */
  lemma ReducedKeepsSolutions(g: Grid<real>, P: seq<nat>, x: seq<real>)
    requires IsTableau(g) && |g| <= |g[0]| && |x| == |g[0]| - 1
    requires |P| < |g[0]| && forall l :: 0 <= l < |P| ==> P[l] < |g[0]| - 1
    requires forall i :: 0 <= i < |g| - 1 ==> Reduced(g, P, CurrentTolerance(FractionalElements))[i][i] == 1.0
    ensures var y := SwapsOf(x, P, |P|);
      SystemHolds(g, x) <==>
      SatisfiesConstraints(DropColumns(Reduced(g, P, CurrentTolerance(FractionalElements)), |g| - 1),
                           BasicEntries(y, |g| - 1), y[|g| - 1..])
  {
    var S := SwappedColumns(g, P, |P|);
    var y := SwapsOf(x, P, |P|);
    var G := GaussSpec(S, AtMost(0.0));
    assert CurrentTolerance(FractionalElements) == AtMost(0.0);
    assert Reduced(g, P, CurrentTolerance(FractionalElements)) == G;
    assert SystemHolds(g, x) <==> SystemHolds(G, y) by {
      SwapsKeepSolutions(g, P, |P|, x);
      GaussKeepsSolutions(S, y);
    }
    IdentityBlock(S);
    IdentityBlockSolutions(G, y);
  }

  /** Pricing out changes only the objective row. */
  lemma PriceOutKeepsConstraints(D: Grid<real>, ids: seq<int>, TargetFunction: seq<real>, xB: seq<real>, xN: seq<real>)
    requires IsTableau(D) && CostIndexed(ids, TargetFunction, (|D| - 1) + (|D[0]| - 1))
    ensures SatisfiesConstraints(PriceOut(D, ids, TargetFunction), xB, xN) <==> SatisfiesConstraints(D, xB, xN)
  {
  }

  /** The stages on fractions keep the solutions, for any selected positions and ids that index the costs. */
  lemma StagedKeepsSolutions(g: Grid<real>, P: seq<nat>, ids: seq<int>, TargetFunction: seq<real>, x: seq<real>)
    requires IsTableau(g) && |g| <= |g[0]| && |x| == |g[0]| - 1
    requires |P| < |g[0]| && forall l :: 0 <= l < |P| ==> P[l] < |g[0]| - 1
    requires CostIndexed(ids, TargetFunction, |g[0]| - 1)
    requires forall i :: 0 <= i < |g| - 1 ==> Reduced(g, P, CurrentTolerance(FractionalElements))[i][i] == 1.0
    ensures var y := SwapsOf(x, P, |P|);
      SystemHolds(g, x) <==>
      SatisfiesConstraints(Staged(g, P, ids, TargetFunction, CurrentTolerance(FractionalElements)),
                           BasicEntries(y, |g| - 1), y[|g| - 1..])
  {
    var D := DropColumns(Reduced(g, P, CurrentTolerance(FractionalElements)), |g| - 1);
    var y := SwapsOf(x, P, |P|);
    ReducedKeepsSolutions(g, P, x);
    PriceOutKeepsConstraints(D, ids, TargetFunction, BasicEntries(y, |g| - 1), y[|g| - 1..]);
  }

  /**
   * The setup on fractions, when the named columns are independent (the
   * elimination finds a unit pivot on every constraint row): the new
   * tableau, read with the ids it returns (basic values first), has exactly
   * the solutions of the original system.
   */
  lemma ExplicitBasisKeepsSolutions(g: Grid<real>, b: seq<real>, TargetFunction: seq<real>, x: seq<real>)
    requires SetupFits(g, b, TargetFunction) && |x| == |b|
    requires var P := NonZeroPositions(b, CurrentBasisTest(FractionalElements), |b|);
      forall i :: 0 <= i < |g| - 1 ==> Reduced(g, P, CurrentTolerance(FractionalElements))[i][i] == 1.0
    ensures var y := ValuesInIdOrder(x, ExplicitBasisIds(b, CurrentBasisTest(FractionalElements)));
      SystemHolds(g, x) <==>
      SatisfiesConstraints(ExplicitBasisTableau(g, b, TargetFunction, CurrentBasisTest(FractionalElements),
                                                CurrentTolerance(FractionalElements)),
                           BasicEntries(y, |g| - 1), y[|g| - 1..])
  {
    var t := CurrentBasisTest(FractionalElements);
    IdOrderIsSwaps(b, t, x);
    IdsIndexCosts(b, t, TargetFunction);
    StagedKeepsSolutions(g, NonZeroPositions(b, t, |b|), ExplicitBasisIds(b, t), TargetFunction, x);
  }

  /** A priced-out tableau whose constraint rows hold also holds in its objective row, with minus the objective value. */
  lemma PricedObjectiveHolds(D: Grid<real>, ids: seq<int>, TargetFunction: seq<real>, xB: seq<real>, xN: seq<real>)
    requires IsTableau(D) && CostIndexed(ids, TargetFunction, (|D| - 1) + (|D[0]| - 1))
    requires SatisfiesConstraints(PriceOut(D, ids, TargetFunction), xB, xN)
    ensures Satisfies(PriceOut(D, ids, TargetFunction),
                      xB[|D| - 1 := -ObjectiveValue(ids, TargetFunction, xB, xN, |D| - 1)], xN)
  {
    PriceOutKeepsConstraints(D, ids, TargetFunction, xB, xN);
    PriceOutMeaning(D, ids, TargetFunction, xB, xN);
  }

  /** The new tableau is some tableau with the identity block dropped, priced out against the new ids. */
  lemma ExplicitBasisTableauIsPricedOut(g: Grid<real>, b: seq<real>, TargetFunction: seq<real>,
                                        t: BasisTest, tol: Tolerance) returns (D: Grid<real>)
    requires SetupFits(g, b, TargetFunction) && ValidTolerance(tol)
    ensures IsTableau(D) && |D| == |g| && |D[0]| == |g[0]| - (|g| - 1)
    ensures CostIndexed(ExplicitBasisIds(b, t), TargetFunction, (|D| - 1) + (|D[0]| - 1))
    ensures ExplicitBasisTableau(g, b, TargetFunction, t, tol) == PriceOut(D, ExplicitBasisIds(b, t), TargetFunction)
  {
    IdsIndexCosts(b, t, TargetFunction);
    D := DropColumns(Reduced(g, NonZeroPositions(b, t, |b|), tol), |g| - 1);
  }

  /**
   * When the constraint rows of the new tableau hold at a basic solution,
   * its objective row holds too, with minus the objective value in place of
   * its basic entry: the setup prices the objective out against the new ids.
   */
  lemma ExplicitBasisPricesObjective(g: Grid<real>, b: seq<real>, TargetFunction: seq<real>, t: BasisTest,
                                     tol: Tolerance, xB: seq<real>, xN: seq<real>)
    requires SetupFits(g, b, TargetFunction) && ValidTolerance(tol)
    requires SatisfiesConstraints(ExplicitBasisTableau(g, b, TargetFunction, t, tol), xB, xN)
    ensures var ids := ExplicitBasisIds(b, t);
      Satisfies(ExplicitBasisTableau(g, b, TargetFunction, t, tol),
                xB[|g| - 1 := -ObjectiveValue(ids, TargetFunction, xB, xN, |g| - 1)], xN)
  {
    var D := ExplicitBasisTableauIsPricedOut(g, b, TargetFunction, t, tol);
    PricedObjectiveHolds(D, ExplicitBasisIds(b, t), TargetFunction, xB, xN);
  }
}
