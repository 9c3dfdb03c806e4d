/**
 * Finite sums over tableau rows and columns, and what a tableau means: the
 * system of equations its rows stand for.
 *
 * Row i of a tableau with C columns says
 *     xB[i] + g[i][0]*xN[0] + ... + g[i][C-2]*xN[C-2] == g[i][C-1]
 * where xB[i] is the value of the row's basic variable and xN the values of
 * the non-basic variables. For the objective row the "basic variable" is
 * minus the objective, so its RHS is minus the objective value at xN = 0.
 */
module LinearForms {
  import opened Matrices
  import opened Steps

  /** a[0]*x[0] + ... + a[n-1]*x[n-1]. */
  function Dot(a: seq<real>, x: seq<real>, n: nat): real
    requires n <= |a| && n <= |x|
  {
    if n == 0 then 0.0 else Dot(a, x, n - 1) + a[n - 1] * x[n - 1]
  }

  /** x[0] + ... + x[n-1]. */
  function Sum(x: seq<real>, n: nat): real
    requires n <= |x|
  {
    if n == 0 then 0.0 else Sum(x, n - 1) + x[n - 1]
  }

  /** g[0][j] + ... + g[n-1][j], accumulated from the first row on. */
  function ColumnSum(g: Grid<real>, j: nat, n: nat): real
    requires n <= |g| && forall i :: 0 <= i < n ==> j < |g[i]|
  {
    if n == 0 then 0.0 else ColumnSum(g, j, n - 1) + g[n - 1][j]
  }

  /** w[0]*g[0][j] + ... + w[n-1]*g[n-1][j]. */
  function WeightedColumnSum(w: seq<real>, g: Grid<real>, j: nat, n: nat): real
    requires n <= |g| && n <= |w| && forall i :: 0 <= i < n ==> j < |g[i]|
  {
    if n == 0 then 0.0 else WeightedColumnSum(w, g, j, n - 1) + w[n - 1] * g[n - 1][j]
  }

  /** w[0]*Dot(g[0], x, n) + ... + w[m-1]*Dot(g[m-1], x, n). */
  function WeightedRowDots(w: seq<real>, g: Grid<real>, x: seq<real>, m: nat, n: nat): real
    requires m <= |g| && m <= |w| && n <= |x| && forall i :: 0 <= i < m ==> n <= |g[i]|
  {
    if m == 0 then 0.0 else WeightedRowDots(w, g, x, m - 1, n) + w[m - 1] * Dot(g[m - 1], x, n)
  }

  /** The row whose j-th entry is WeightedColumnSum(w, g, j, m). */
  function WeightedColumnSums(w: seq<real>, g: Grid<real>, m: nat, n: nat): (s: seq<real>)
    requires m <= |g| && m <= |w| && forall i :: 0 <= i < m ==> n <= |g[i]|
    ensures |s| == n && forall j :: 0 <= j < n ==> s[j] == WeightedColumnSum(w, g, j, m)
  {
    seq(n, j requires 0 <= j < n => WeightedColumnSum(w, g, j, m))
  }

  /** Basic values xB and non-basic values xN satisfy every row of the tableau. */
  ghost predicate Satisfies(g: Grid<real>, xB: seq<real>, xN: seq<real>)
    requires IsTableau(g)
  {
    |xB| == |g| && |xN| == |g[0]| - 1 &&
    forall i :: 0 <= i < |g| ==> xB[i] + Dot(g[i], xN, |xN|) == g[i][|xN|]
  }

  /** The same, for the constraint rows only (the objective row is not required). */
  ghost predicate SatisfiesConstraints(g: Grid<real>, xB: seq<real>, xN: seq<real>)
    requires IsTableau(g)
  {
    |xB| == |g| && |xN| == |g[0]| - 1 &&
    forall i :: 0 <= i < |g| - 1 ==> xB[i] + Dot(g[i], xN, |xN|) == g[i][|xN|]
  }

  ghost predicate NonNegative(x: seq<real>, n: nat)
    requires n <= |x|
  {
    forall j :: 0 <= j < n ==> x[j] >= 0.0
  }

  /**
   * Every term a2[j]*x2[j] with j < k, except the one at c, is p times the
   * term a[j]*x[j] plus q times the term b[j]*x[j]. Stated recursively so
   * that it unfolds one index at a time.
   */
  ghost predicate TermsCombine(a2: seq<real>, x2: seq<real>, a: seq<real>, b: seq<real>,
                               x: seq<real>, k: nat, c: nat, p: real, q: real)
    requires k <= |a2| && k <= |x2| && k <= |a| && k <= |b| && k <= |x|
  {
    k == 0 ||
    (TermsCombine(a2, x2, a, b, x, k - 1, c, p, q) &&
     (k - 1 == c || a2[k - 1] * x2[k - 1] == p * (a[k - 1] * x[k - 1]) + q * (b[k - 1] * x[k - 1])))
  }

  lemma {:induction false} TermsCombineIntro(a2: seq<real>, x2: seq<real>, a: seq<real>, b: seq<real>,
                                             x: seq<real>, k: nat, c: nat, p: real, q: real)
    requires k <= |a2| && k <= |x2| && k <= |a| && k <= |b| && k <= |x|
    requires forall j :: 0 <= j < k && j != c ==> a2[j] * x2[j] == p * (a[j] * x[j]) + q * (b[j] * x[j])
    ensures TermsCombine(a2, x2, a, b, x, k, c, p, q)
  {
    if k > 0 {
      TermsCombineIntro(a2, x2, a, b, x, k - 1, c, p, q);
    }
  }

  /** p*(a[0]*x[0]) + ... + p*(a[n-1]*x[n-1]): the scaled terms, summed one by one. */
  ghost function ScaledDot(p: real, a: seq<real>, x: seq<real>, n: nat): real
    requires n <= |a| && n <= |x|
  {
    if n == 0 then 0.0 else ScaledDot(p, a, x, n - 1) + p * (a[n - 1] * x[n - 1])
  }

  lemma {:induction false} ScaledDotIsScaled(p: real, a: seq<real>, x: seq<real>, n: nat)
    requires n <= |a| && n <= |x|
    ensures ScaledDot(p, a, x, n) == p * Dot(a, x, n)
  {
    if n == 0 {
      MulZero(p);
    } else {
      ScaledDotIsScaled(p, a, x, n - 1);
      MulDistributes(p, Dot(a, x, n), Dot(a, x, n - 1), a[n - 1] * x[n - 1]);
    }
  }

  lemma {:induction false} ScaledCombinationBelow(a2: seq<real>, x2: seq<real>, a: seq<real>, b: seq<real>,
                                                  x: seq<real>, k: nat, c: nat, p: real, q: real)
    requires k <= |a2| && k <= |x2| && k <= |a| && k <= |b| && k <= |x| && k <= c
    requires TermsCombine(a2, x2, a, b, x, k, c, p, q)
    ensures Dot(a2, x2, k) == ScaledDot(p, a, x, k) + ScaledDot(q, b, x, k)
  {
    if k > 0 {
      ScaledCombinationBelow(a2, x2, a, b, x, k - 1, c, p, q);
    }
  }

  lemma {:induction false} ScaledCombination(a2: seq<real>, x2: seq<real>, a: seq<real>, b: seq<real>,
                                             x: seq<real>, k: nat, c: nat, p: real, q: real)
    requires k <= |a2| && k <= |x2| && k <= |a| && k <= |b| && k <= |x| && c < k
    requires TermsCombine(a2, x2, a, b, x, k, c, p, q)
    ensures Dot(a2, x2, k) == ScaledDot(p, a, x, k) + ScaledDot(q, b, x, k) + a2[c] * x2[c] - p * (a[c] * x[c]) - q * (b[c] * x[c])
  {
    if k - 1 == c {
      ScaledCombinationBelow(a2, x2, a, b, x, k - 1, c, p, q);
    } else {
      ScaledCombination(a2, x2, a, b, x, k - 1, c, p, q);
    }
  }

  /** When every term below k combines, so do the sums. */
  lemma DotCombinationBelow(a2: seq<real>, x2: seq<real>, a: seq<real>, b: seq<real>,
                            x: seq<real>, k: nat, c: nat, p: real, q: real)
    requires k <= |a2| && k <= |x2| && k <= |a| && k <= |b| && k <= |x| && k <= c
    requires TermsCombine(a2, x2, a, b, x, k, c, p, q)
    ensures Dot(a2, x2, k) == p * Dot(a, x, k) + q * Dot(b, x, k)
  {
    ScaledCombinationBelow(a2, x2, a, b, x, k, c, p, q);
    ScaledDotIsScaled(p, a, x, k);
    ScaledDotIsScaled(q, b, x, k);
  }

  /**
   * The linear combination behind a pivot: if the terms combine, then a2·x2
   * is p times a·x plus q times b·x, corrected by the c-th terms.
   */
  lemma DotCombination(a2: seq<real>, x2: seq<real>, a: seq<real>, b: seq<real>,
                       x: seq<real>, k: nat, c: nat, p: real, q: real)
    requires k <= |a2| && k <= |x2| && k <= |a| && k <= |b| && k <= |x| && c < k
    requires TermsCombine(a2, x2, a, b, x, k, c, p, q)
    ensures Dot(a2, x2, k) == p * Dot(a, x, k) + q * Dot(b, x, k) + a2[c] * x2[c] - p * (a[c] * x[c]) - q * (b[c] * x[c])
  {
    ScaledCombination(a2, x2, a, b, x, k, c, p, q);
    ScaledDotIsScaled(p, a, x, k);
    ScaledDotIsScaled(q, b, x, k);
  }

  lemma MulZero(p: real)
    ensures p * 0.0 == 0.0
  {
  }

  lemma MulDistributes(p: real, s: real, s': real, t: real)
    requires s == s' + t
    ensures p * s == p * s' + p * t
  {
  }

  /** Dot is linear in its first argument. */
  lemma {:induction false} DotLinear(u: seq<real>, v: seq<real>, y: seq<real>, s: real, x: seq<real>, n: nat)
    requires n <= |u| && n <= |v| && n <= |y| && n <= |x|
    requires forall j :: 0 <= j < n ==> u[j] == v[j] + s * y[j]
    ensures Dot(u, x, n) == Dot(v, x, n) + s * Dot(y, x, n)
  {
    if n > 0 {
      DotLinear(u, v, y, s, x, n - 1);
      assert u[n - 1] * x[n - 1] == v[n - 1] * x[n - 1] + s * (y[n - 1] * x[n - 1]);
    }
  }

  /** Dot of a row that vanishes on the first n entries. */
  lemma {:induction false} DotZero(u: seq<real>, x: seq<real>, n: nat)
    requires n <= |u| && n <= |x|
    requires forall j :: 0 <= j < n ==> u[j] == 0.0
    ensures Dot(u, x, n) == 0.0
  {
    if n > 0 {
      DotZero(u, x, n - 1);
    }
  }

  /** Dot only depends on the first n entries of each argument. */
  lemma {:induction false} DotPrefix(a: seq<real>, a': seq<real>, x: seq<real>, x': seq<real>, n: nat)
    requires n <= |a| && n <= |a'| && n <= |x| && n <= |x'|
    requires forall j :: 0 <= j < n ==> a[j] == a'[j] && x[j] == x'[j]
    ensures Dot(a, x, n) == Dot(a', x', n)
  {
    if n > 0 {
      DotPrefix(a, a', x, x', n - 1);
    }
  }

  /**
   * Interchanging the two sums: combining the rows first and then taking
   * the dot product gives the weighted sum of the rows' dot products.
   */
  lemma {:induction false} SumInterchange(w: seq<real>, g: Grid<real>, x: seq<real>, m: nat, n: nat)
    requires m <= |g| && m <= |w| && n <= |x| && forall i :: 0 <= i < m ==> n <= |g[i]|
    ensures Dot(WeightedColumnSums(w, g, m, n), x, n) == WeightedRowDots(w, g, x, m, n)
  {
    if m == 0 {
      DotZero(WeightedColumnSums(w, g, 0, n), x, n);
    } else {
      SumInterchange(w, g, x, m - 1, n);
      WeightedColumnSumsStep(w, g, m, n);
      DotLinear(WeightedColumnSums(w, g, m, n), WeightedColumnSums(w, g, m - 1, n), g[m - 1], w[m - 1], x, n);
    }
  }

  /** Adding row m - 1 to the weighted column sums adds w[m - 1] times that row. */
  lemma WeightedColumnSumsStep(w: seq<real>, g: Grid<real>, m: nat, n: nat)
    requires 0 < m <= |g| && m <= |w| && forall i :: 0 <= i < m ==> n <= |g[i]|
    ensures var u, v := WeightedColumnSums(w, g, m, n), WeightedColumnSums(w, g, m - 1, n);
      forall j :: 0 <= j < n ==> u[j] == v[j] + w[m - 1] * g[m - 1][j]
  {
  }

  /** A column sum is the weighted column sum with every weight equal to one. */
  lemma {:induction false} ColumnSumIsWeighted(w: seq<real>, g: Grid<real>, j: nat, n: nat)
    requires n <= |g| && n <= |w| && forall i :: 0 <= i < n ==> j < |g[i]|
    requires forall i :: 0 <= i < n ==> w[i] == 1.0
    ensures WeightedColumnSum(w, g, j, n) == ColumnSum(g, j, n)
  {
    if n > 0 {
      ColumnSumIsWeighted(w, g, j, n - 1);
    }
  }

  /** The dot product of non-negative rows and non-negative values is non-negative. */
  lemma {:induction false} DotNonNegative(a: seq<real>, x: seq<real>, n: nat)
    requires n <= |a| && n <= |x|
    requires forall j :: 0 <= j < n ==> a[j] >= 0.0 && x[j] >= 0.0
    ensures Dot(a, x, n) >= 0.0
  {
    if n > 0 {
      DotNonNegative(a, x, n - 1);
    }
  }

  /** A lower bound on every coefficient bounds the dot product with non-negative values. */
  lemma {:induction false} DotLowerBound(a: seq<real>, x: seq<real>, n: nat, lo: real)
    requires n <= |a| && n <= |x|
    requires forall j :: 0 <= j < n ==> a[j] >= lo && x[j] >= 0.0
    ensures Dot(a, x, n) >= lo * Sum(x, n)
  {
    if n > 0 {
      DotLowerBound(a, x, n - 1, lo);
      assert a[n - 1] * x[n - 1] >= lo * x[n - 1];
    }
  }

  /** The dot product with the unit vector t*e_c picks out t*a[c]. */
  lemma {:induction false} DotUnit(a: seq<real>, x: seq<real>, n: nat, c: nat, t: real)
    requires n <= |a| && n <= |x| && c < n
    requires forall j :: 0 <= j < n ==> x[j] == (if j == c then t else 0.0)
    ensures Dot(a, x, n) == t * a[c]
  {
    TermsCombineIntro(a, x, a, a, x, n, c, 0.0, 0.0);
    DotCombination(a, x, a, a, x, n, c, 0.0, 0.0);
    MulZero(Dot(a, x, n));
  }

  /** The dot product with the zero vector vanishes. */
  lemma {:induction false} DotZeroValues(a: seq<real>, x: seq<real>, n: nat)
    requires n <= |a| && n <= |x|
    requires forall j :: 0 <= j < n ==> x[j] == 0.0
    ensures Dot(a, x, n) == 0.0
  {
    if n > 0 {
      DotZeroValues(a, x, n - 1);
    }
  }
}
