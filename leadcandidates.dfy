/**
 * The lead cells offered in step-by-step mode.
 *
 * The current revision scans every column whose objective entry is below
 * -ZeroElement, records each row whose ratio is at most the running minimum
 * plus ZeroElement, then erases the recorded pairs that differ from the final
 * minimum and offers every pair left (ties included). The older revision
 * offers one cell per column: the first row with the strictly smallest ratio
 * among the positive entries of a negative column, and in the artificial
 * phase only when that row is not banned.
 */
module LeadCandidates {
  import opened Matrices
  import opened Steps
  import opened StateCheck
  import opened LeadSelection
  import opened SimplexSteps

  /** One pair of `MinimumAndRowIndex`: a ratio that became the running minimum, and its row. */
  datatype RatioEntry = RatioEntry(Ratio: real, Row: nat)

  /** The state of one column's scan: the last row that set the minimum (-1 if none), the minimum, the recorded pairs. */
  datatype ColumnScan = ColumnScan(CurrentRowIndex: int, ColumnMinimum: real, MinimumAndRowIndex: seq<RatioEntry>)

  /**
   * The scan of rows 0..k-1 of column c. A row is recorded when its entry
   * exceeds zero and its ratio is at most the running minimum plus zero; the
   * first such row has no minimum to compare with.
   */
  ghost function ScanRows(g: Grid<real>, c: nat, zero: real, k: nat): ColumnScan
    requires IsTableau(g) && c < |g[0]| - 1 && zero >= 0.0 && k <= |g| - 1
  {
    if k == 0 then ColumnScan(-1, 0.0, [])
    else
      var s := ScanRows(g, c, zero, k - 1);
      if g[k - 1][c] > zero && (s.CurrentRowIndex == -1 || Ratio(g, k - 1, c) <= s.ColumnMinimum + zero) then
        ColumnScan(k - 1, Ratio(g, k - 1, c), s.MinimumAndRowIndex + [RatioEntry(Ratio(g, k - 1, c), k - 1)])
      else s
  }

  /** The scan of a whole column; a column whose objective entry is not below -zero records nothing. */
  ghost function ScanColumn(g: Grid<real>, c: nat, zero: real): ColumnScan
    requires IsTableau(g) && c < |g[0]| - 1 && zero >= 0.0
  {
    if IsNegativeColumn(g, c, zero) then ScanRows(g, c, zero, |g| - 1) else ColumnScan(-1, 0.0, [])
  }

  /** `IsCurrentNotEqualToMinimum`: farther than EPSILON from the minimum for floats, different for fractions. */
  function NotEqualToMinimum(kind: ElementKind, r: real, m: real): (b: bool)
    ensures b <==> RAbs(r - m) > ZeroElement(kind)
  {
    match kind
    case RealElements => RAbs(r - m) > EPSILON
    case FractionalElements => r != m
  }

  /** The recorded pairs that are equal to the minimum m, in their order. */
  function KeepMinimal(E: seq<RatioEntry>, m: real, kind: ElementKind): (K: seq<RatioEntry>)
    ensures |K| <= |E|
  {
    if E == [] then []
    else (if NotEqualToMinimum(kind, E[0].Ratio, m) then [] else [E[0]]) + KeepMinimal(E[1..], m, kind)
  }

  /** The cells of column c in the rows of the recorded pairs. */
  function AtColumn(E: seq<RatioEntry>, c: nat): (L: seq<RowAndColumn>)
    ensures |L| == |E| && forall l :: 0 <= l < |L| ==> L[l] == RowAndColumn(E[l].Row, c)
  {
    seq(|E|, l requires 0 <= l < |E| => RowAndColumn(E[l].Row, c))
  }

  /** The cells column c offers. */
  ghost function ColumnCandidates(g: Grid<real>, c: nat, kind: ElementKind): seq<RowAndColumn>
    requires IsTableau(g) && c < |g[0]| - 1
  {
    var s := ScanColumn(g, c, ZeroElement(kind));
    AtColumn(KeepMinimal(s.MinimumAndRowIndex, s.ColumnMinimum, kind), c)
  }

  /** The cells columns 0..n-1 offer, column by column. */
  ghost function CandidatesUpTo(g: Grid<real>, kind: ElementKind, n: nat): seq<RowAndColumn>
    requires IsTableau(g) && n <= |g[0]| - 1
  {
    if n == 0 then [] else CandidatesUpTo(g, kind, n - 1) + ColumnCandidates(g, n - 1, kind)
  }

  /** `PotentialLeads`: the cells every non-RHS column offers. */
  ghost function CandidateLeads(g: Grid<real>, kind: ElementKind): seq<RowAndColumn>
    requires IsTableau(g)
  {
    CandidatesUpTo(g, kind, |g[0]| - 1)
  }

  /** The scan of one column, as the candidate loop does it. */
  method ScanColumnOf(g: Grid<real>, i: nat, kind: ElementKind)
    returns (CurrentRowIndex: int, ColumnMinimum: real, MinimumAndRowIndex: seq<RatioEntry>)
    requires IsTableau(g) && i < |g[0]| - 1
    ensures ColumnScan(CurrentRowIndex, ColumnMinimum, MinimumAndRowIndex) == ScanColumn(g, i, ZeroElement(kind))
  {
    var zero := ZeroElement(kind);
    var R, C := |g|, |g[0]|;
    CurrentRowIndex, ColumnMinimum, MinimumAndRowIndex := -1, 0.0, [];
    if g[R - 1][i] < -zero {
      var j := 0;
      while j < R - 1
        invariant 0 <= j <= R - 1
        invariant ColumnScan(CurrentRowIndex, ColumnMinimum, MinimumAndRowIndex) == ScanRows(g, i, zero, j)
      {
        if g[j][i] > zero {
          var ratio := g[j][C - 1] / g[j][i];
          assert ratio == Ratio(g, j, i);
          if CurrentRowIndex == -1 || ratio <= ColumnMinimum + zero {
            ColumnMinimum := ratio;
            CurrentRowIndex := j;
            MinimumAndRowIndex := MinimumAndRowIndex + [RatioEntry(ColumnMinimum, CurrentRowIndex)];
          }
        }
        j := j + 1;
      }
    }
  }

  /**
   * The erase loop: a pair that differs from the minimum is erased and the
   * scan restarts from the front, until every pair left equals the minimum.
   */
  method EraseNonMinimal(Recorded: seq<RatioEntry>, ColumnMinimum: real, kind: ElementKind)
    returns (MinimumAndRowIndex: seq<RatioEntry>)
    ensures MinimumAndRowIndex == KeepMinimal(Recorded, ColumnMinimum, kind)
  {
    MinimumAndRowIndex := Recorded;
    var i := 0;
    while i < |MinimumAndRowIndex|
      invariant 0 <= i <= |MinimumAndRowIndex|
      invariant KeepMinimal(MinimumAndRowIndex, ColumnMinimum, kind) == KeepMinimal(Recorded, ColumnMinimum, kind)
      invariant forall l :: 0 <= l < i ==> !NotEqualToMinimum(kind, MinimumAndRowIndex[l].Ratio, ColumnMinimum)
      decreases |MinimumAndRowIndex|, |MinimumAndRowIndex| - i
    {
      var MR := MinimumAndRowIndex[i];
      var IsCurrentNotEqualToMinimum := NotEqualToMinimum(kind, MR.Ratio, ColumnMinimum);
      if IsCurrentNotEqualToMinimum {
        EraseKeepsMinimal(MinimumAndRowIndex, i, ColumnMinimum, kind);
        MinimumAndRowIndex := MinimumAndRowIndex[..i] + MinimumAndRowIndex[i + 1..];
        i := -1;
      }
      i := i + 1;
    }
    AllMinimalKept(MinimumAndRowIndex, ColumnMinimum, kind);
  }

  /** The candidate loop over the non-RHS columns. */
  method FindPotentialLeads(g: Grid<real>, kind: ElementKind) returns (PotentialLeads: seq<RowAndColumn>)
    requires IsTableau(g)
    ensures PotentialLeads == CandidateLeads(g, kind)
  {
    PotentialLeads := [];
    var i := 0;
    while i < |g[0]| - 1
      invariant 0 <= i <= |g[0]| - 1
      invariant PotentialLeads == CandidatesUpTo(g, kind, i)
    {
      PotentialLeads := ColumnPass(g, kind, PotentialLeads, i);
      assert CandidatesUpTo(g, kind, i + 1) == CandidatesUpTo(g, kind, i) + ColumnCandidates(g, i, kind);
      i := i + 1;
    }
  }

  /** One pass of the candidate loop: scan column i, keep its minimal rows, push them. */
  method ColumnPass(g: Grid<real>, kind: ElementKind, Leads: seq<RowAndColumn>, i: nat) returns (PotentialLeads: seq<RowAndColumn>)
    requires IsTableau(g) && i < |g[0]| - 1
    ensures PotentialLeads == Leads + ColumnCandidates(g, i, kind)
  {
    PotentialLeads := Leads;
    var CurrentRowIndex, ColumnMinimum, MinimumAndRowIndex := ScanColumnOf(g, i, kind);
    NoRowNoCandidates(g, i, kind);
    if CurrentRowIndex != -1 {
      MinimumAndRowIndex := EraseNonMinimal(MinimumAndRowIndex, ColumnMinimum, kind);
      PotentialLeads := PushColumn(PotentialLeads, MinimumAndRowIndex, i);
    }
  }

  /** A column whose scan finds no row offers nothing. */
  lemma NoRowNoCandidates(g: Grid<real>, c: nat, kind: ElementKind)
    requires IsTableau(g) && c < |g[0]| - 1
    ensures ScanColumn(g, c, ZeroElement(kind)).CurrentRowIndex == -1 ==> ColumnCandidates(g, c, kind) == []
  {
    if IsNegativeColumn(g, c, ZeroElement(kind)) {
      ScanRowsOutcome(g, c, ZeroElement(kind), |g| - 1);
    }
  }

  /** The push loop: one cell of column i per pair left. */
  method PushColumn(Leads: seq<RowAndColumn>, MinimumAndRowIndex: seq<RatioEntry>, i: nat) returns (PotentialLeads: seq<RowAndColumn>)
    ensures PotentialLeads == Leads + AtColumn(MinimumAndRowIndex, i)
  {
    PotentialLeads := Leads;
    var k := 0;
    while k < |MinimumAndRowIndex|
      invariant 0 <= k <= |MinimumAndRowIndex|
      invariant PotentialLeads == Leads + AtColumn(MinimumAndRowIndex[..k], i)
    {
      assert MinimumAndRowIndex[..k + 1] == MinimumAndRowIndex[..k] + [MinimumAndRowIndex[k]];
      PotentialLeads := PotentialLeads + [RowAndColumn(MinimumAndRowIndex[k].Row, i)];
      k := k + 1;
    }
    assert MinimumAndRowIndex[..k] == MinimumAndRowIndex;
  }

  /** Filtering distributes over concatenation. */
  lemma {:induction false} KeepMinimalAppend(a: seq<RatioEntry>, b: seq<RatioEntry>, m: real, kind: ElementKind)
    ensures KeepMinimal(a + b, m, kind) == KeepMinimal(a, m, kind) + KeepMinimal(b, m, kind)
  {
    if a == [] {
      assert a + b == b;
    } else {
      assert (a + b)[0] == a[0];
      assert (a + b)[1..] == a[1..] + b;
      KeepMinimalAppend(a[1..], b, m, kind);
    }
  }

  /** Erasing a pair that differs from the minimum leaves the filtered list as it was. */
  lemma EraseKeepsMinimal(E: seq<RatioEntry>, i: nat, m: real, kind: ElementKind)
    requires i < |E| && NotEqualToMinimum(kind, E[i].Ratio, m)
    ensures KeepMinimal(E[..i] + E[i + 1..], m, kind) == KeepMinimal(E, m, kind)
  {
    assert E == E[..i] + ([E[i]] + E[i + 1..]);
    KeepMinimalAppend(E[..i], [E[i]] + E[i + 1..], m, kind);
    KeepMinimalAppend([E[i]], E[i + 1..], m, kind);
    KeepMinimalAppend(E[..i], E[i + 1..], m, kind);
  }

  /** A list whose every pair equals the minimum passes the filter whole. */
  lemma {:induction false} AllMinimalKept(E: seq<RatioEntry>, m: real, kind: ElementKind)
    requires forall l :: 0 <= l < |E| ==> !NotEqualToMinimum(kind, E[l].Ratio, m)
    ensures KeepMinimal(E, m, kind) == E
  {
    if E != [] {
      AllMinimalKept(E[1..], m, kind);
    }
  }

  /** The filter keeps exactly the pairs equal to the minimum. */
  lemma {:induction false} KeepMinimalMembers(E: seq<RatioEntry>, m: real, kind: ElementKind, e: RatioEntry)
    ensures e in KeepMinimal(E, m, kind) <==> e in E && !NotEqualToMinimum(kind, e.Ratio, m)
  {
    if E != [] {
      KeepMinimalMembers(E[1..], m, kind, e);
      assert E == [E[0]] + E[1..];
    }
  }

  /**
   * The scan finds a row exactly when some constraint row's entry exceeds
   * zero; it then ends on a recorded row whose ratio is the minimum, and the
   * last recorded pair is that row.
   */
  lemma {:induction false} ScanRowsOutcome(g: Grid<real>, c: nat, zero: real, k: nat)
    requires IsTableau(g) && c < |g[0]| - 1 && zero >= 0.0 && k <= |g| - 1
    ensures var s := ScanRows(g, c, zero, k);
      (s.CurrentRowIndex == -1 <==> forall i :: 0 <= i < k ==> !(g[i][c] > zero)) &&
      (s.CurrentRowIndex == -1 <==> s.MinimumAndRowIndex == [])
    ensures var s := ScanRows(g, c, zero, k);
      s.CurrentRowIndex != -1 ==>
        0 <= s.CurrentRowIndex < k && g[s.CurrentRowIndex][c] > zero &&
        s.ColumnMinimum == Ratio(g, s.CurrentRowIndex, c) &&
        s.MinimumAndRowIndex[|s.MinimumAndRowIndex| - 1] == RatioEntry(s.ColumnMinimum, s.CurrentRowIndex)
  {
    if k > 0 {
      ScanRowsOutcome(g, c, zero, k - 1);
    }
  }

  /** A pair records a constraint row of column c whose entry exceeds zero, with that row's ratio. */
  ghost predicate IsRecorded(g: Grid<real>, c: nat, zero: real, e: RatioEntry)
    requires IsTableau(g) && c < |g[0]| - 1 && zero >= 0.0
  {
    e.Row < |g| - 1 && g[e.Row][c] > zero && e.Ratio == Ratio(g, e.Row, c)
  }

  /** Every recorded pair is a constraint row with an entry above zero, and its own ratio. */
  lemma {:induction false} ScanEntries(g: Grid<real>, c: nat, zero: real, k: nat)
    requires IsTableau(g) && c < |g[0]| - 1 && zero >= 0.0 && k <= |g| - 1
    ensures forall e :: e in ScanRows(g, c, zero, k).MinimumAndRowIndex ==> IsRecorded(g, c, zero, e)
  {
    if k > 0 {
      ScanEntries(g, c, zero, k - 1);
      var s := ScanRows(g, c, zero, k - 1);
      if g[k - 1][c] > zero && (s.CurrentRowIndex == -1 || Ratio(g, k - 1, c) <= s.ColumnMinimum + zero) {
        assert IsRecorded(g, c, zero, RatioEntry(Ratio(g, k - 1, c), k - 1));
      }
    }
  }

  /**
   * With an exact zero the running minimum is the smallest ratio so far, and
   * every row that attains it was recorded with it.
   */
  lemma {:induction false} ScanRowsExact(g: Grid<real>, c: nat, k: nat)
    requires IsTableau(g) && c < |g[0]| - 1 && k <= |g| - 1
    ensures var s := ScanRows(g, c, 0.0, k);
      s.CurrentRowIndex != -1 ==> forall i :: 0 <= i < k && g[i][c] > 0.0 ==> s.ColumnMinimum <= Ratio(g, i, c)
    ensures var s := ScanRows(g, c, 0.0, k);
      forall i :: 0 <= i < k && g[i][c] > 0.0 && Ratio(g, i, c) == s.ColumnMinimum ==>
        RatioEntry(s.ColumnMinimum, i) in s.MinimumAndRowIndex
  {
    if k > 0 {
      ScanRowsExact(g, c, k - 1);
      ScanRowsOutcome(g, c, 0.0, k - 1);
    }
  }

  /** An offered cell: a constraint row and a non-RHS column below -zero, with an entry above zero. */
  ghost predicate IsOfferedCell(g: Grid<real>, zero: real, rc: RowAndColumn)
    requires IsTableau(g)
  {
    0 <= rc.Row < |g| - 1 && 0 <= rc.Column < |g[0]| - 1 &&
    IsNegativeColumn(g, rc.Column, zero) && g[rc.Row][rc.Column] > zero
  }

  /** Every cell column c offers lies in column c. */
  lemma ColumnCandidatesInColumn(g: Grid<real>, c: nat, kind: ElementKind)
    requires IsTableau(g) && c < |g[0]| - 1
    ensures forall rc :: rc in ColumnCandidates(g, c, kind) ==> rc.Column == c
  {
    var s := ScanColumn(g, c, ZeroElement(kind));
    var L := AtColumn(KeepMinimal(s.MinimumAndRowIndex, s.ColumnMinimum, kind), c);
    forall rc | rc in L
      ensures rc.Column == c
    {
      var l :| 0 <= l < |L| && L[l] == rc;
    }
  }

  /** Every cell column c offers is an offered cell of column c. */
  lemma ColumnCandidatesSound(g: Grid<real>, c: nat, kind: ElementKind)
    requires IsTableau(g) && c < |g[0]| - 1
    ensures forall rc :: rc in ColumnCandidates(g, c, kind) ==> rc.Column == c && IsOfferedCell(g, ZeroElement(kind), rc)
  {
    var zero := ZeroElement(kind);
    var s := ScanColumn(g, c, zero);
    var K := KeepMinimal(s.MinimumAndRowIndex, s.ColumnMinimum, kind);
    var L := AtColumn(K, c);
    assert ColumnCandidates(g, c, kind) == L;
    if IsNegativeColumn(g, c, zero) {
      ScanEntries(g, c, zero, |g| - 1);
    }
    forall rc | rc in L
      ensures rc.Column == c && IsOfferedCell(g, zero, rc)
    {
      var l :| 0 <= l < |L| && L[l] == rc;
      KeepMinimalMembers(s.MinimumAndRowIndex, s.ColumnMinimum, kind, K[l]);
      assert IsRecorded(g, c, zero, K[l]);
    }
  }

  /** Every offered cell lies in a negative non-RHS column and a constraint row with an entry above zero. */
  lemma {:induction false} CandidatesUpToSound(g: Grid<real>, kind: ElementKind, n: nat)
    requires IsTableau(g) && n <= |g[0]| - 1
    ensures forall rc :: rc in CandidatesUpTo(g, kind, n) ==> rc.Column < n && IsOfferedCell(g, ZeroElement(kind), rc)
  {
    if n > 0 {
      CandidatesUpToSound(g, kind, n - 1);
      ColumnCandidatesSound(g, n - 1, kind);
    }
  }

  lemma CandidatesSound(g: Grid<real>, kind: ElementKind)
    requires IsTableau(g)
    ensures var zero := ZeroElement(kind);
      forall rc :: rc in CandidateLeads(g, kind) ==>
        0 <= rc.Row < |g| - 1 && 0 <= rc.Column < |g[0]| - 1 &&
        IsNegativeColumn(g, rc.Column, zero) && g[rc.Row][rc.Column] > zero
  {
    CandidatesUpToSound(g, kind, |g[0]| - 1);
  }

  /**
   * A column offers a cell exactly when its objective entry is below -zero
   * and some constraint row has an entry above zero: the last recorded pair
   * is the minimum itself and always survives the filter.
   */
  lemma ColumnOffersCells(g: Grid<real>, c: nat, kind: ElementKind)
    requires IsTableau(g) && c < |g[0]| - 1
    ensures var zero := ZeroElement(kind);
      ColumnCandidates(g, c, kind) != [] <==> IsNegativeColumn(g, c, zero) && HasPositiveEntry(g, c, zero)
  {
    var zero := ZeroElement(kind);
    var s := ScanColumn(g, c, zero);
    var E := s.MinimumAndRowIndex;
    if IsNegativeColumn(g, c, zero) {
      ScanRowsOutcome(g, c, zero, |g| - 1);
    }
    if IsNegativeColumn(g, c, zero) && HasPositiveEntry(g, c, zero) {
      var i :| 0 <= i < |g| - 1 && g[i][c] > zero;
      assert s.CurrentRowIndex != -1;
      KeepMinimalMembers(E, s.ColumnMinimum, kind, E[|E| - 1]);
      assert E[|E| - 1] in KeepMinimal(E, s.ColumnMinimum, kind);
    } else if IsNegativeColumn(g, c, zero) {
      assert s.CurrentRowIndex == -1;
    }
  }

  /** Some cell is offered exactly when some non-RHS column is negative and has an entry above zero. */
  lemma {:induction false} CandidatesUpToNonEmpty(g: Grid<real>, kind: ElementKind, n: nat)
    requires IsTableau(g) && n <= |g[0]| - 1
    ensures var zero := ZeroElement(kind);
      CandidatesUpTo(g, kind, n) != [] <==>
        exists c :: 0 <= c < n && IsNegativeColumn(g, c, zero) && HasPositiveEntry(g, c, zero)
  {
    if n > 0 {
      var zero := ZeroElement(kind);
      CandidatesUpToNonEmpty(g, kind, n - 1);
      ColumnOffersCells(g, n - 1, kind);
      var P, Q := CandidatesUpTo(g, kind, n - 1), ColumnCandidates(g, n - 1, kind);
      assert CandidatesUpTo(g, kind, n) == P + Q;
      if exists c :: 0 <= c < n && IsNegativeColumn(g, c, zero) && HasPositiveEntry(g, c, zero) {
        var c :| 0 <= c < n && IsNegativeColumn(g, c, zero) && HasPositiveEntry(g, c, zero);
        if c < n - 1 {
          assert P != [];
        } else {
          assert Q != [];
        }
      }
    }
  }

  /**
   * The offered cells against the classifier: a tableau on which the
   * algorithm continues offers at least one cell, and a completed one (or one
   * whose artificial problem has no solution) offers none.
   */
  lemma CandidatesMatchClassifier(g: Grid<real>, kind: ElementKind, IsArtificialStep: bool)
    requires IsTableau(g)
    ensures Classify(g, ZeroElement(kind), IsArtificialStep) == Continue ==> CandidateLeads(g, kind) != []
    ensures Classify(g, ZeroElement(kind), IsArtificialStep) in {Completed, SolutionDoesntExist} ==> CandidateLeads(g, kind) == []
  {
    var zero := ZeroElement(kind);
    CandidatesUpToNonEmpty(g, kind, |g[0]| - 1);
    if Classify(g, zero, IsArtificialStep) == Continue {
      var j :| 0 <= j < |g[0]| - 1 && IsNegativeColumn(g, j, zero);
      assert HasPositiveEntry(g, j, zero);
    }
  }

  /** A cell of column c is offered overall exactly when column c offers it. */
  lemma {:induction false} CandidatesUpToMembers(g: Grid<real>, kind: ElementKind, n: nat, r: int, c: int)
    requires IsTableau(g) && n <= |g[0]| - 1
    ensures RowAndColumn(r, c) in CandidatesUpTo(g, kind, n) <==>
      0 <= c < n && RowAndColumn(r, c) in ColumnCandidates(g, c, kind)
  {
    if n > 0 {
      CandidatesUpToMembers(g, kind, n - 1, r, c);
      ColumnCandidatesInColumn(g, n - 1, kind);
    }
  }

  /** The true ties of column c: constraint rows with a positive entry and the smallest ratio. */
  ghost predicate IsExactTie(g: Grid<real>, r: int, c: nat)
    requires IsTableau(g) && c < |g[0]| - 1
  {
    0 <= r < |g| - 1 && g[r][c] > 0.0 &&
    forall i :: 0 <= i < |g| - 1 && g[i][c] > 0.0 ==> Ratio(g, r, c) <= Ratio(g, i, c)
  }

  /** With exact fractions an offered cell of a negative column is a true tie. */
  lemma OfferedIsExactTie(g: Grid<real>, r: int, c: nat)
    requires IsTableau(g) && c < |g[0]| - 1 && IsNegativeColumn(g, c, 0.0)
    requires RowAndColumn(r, c) in ColumnCandidates(g, c, FractionalElements)
    ensures IsExactTie(g, r, c)
  {
    var s := ScanRows(g, c, 0.0, |g| - 1);
    var E, m := s.MinimumAndRowIndex, s.ColumnMinimum;
    var K := KeepMinimal(E, m, FractionalElements);
    var L := AtColumn(K, c);
    assert ColumnCandidates(g, c, FractionalElements) == L;
    var l :| 0 <= l < |L| && L[l] == RowAndColumn(r, c);
    ScanRowsOutcome(g, c, 0.0, |g| - 1);
    KeepMinimalMembers(E, m, FractionalElements, K[l]);
    ScanEntries(g, c, 0.0, |g| - 1);
    assert IsRecorded(g, c, 0.0, K[l]) && K[l].Row == r;
    ScanRowsExact(g, c, |g| - 1);
  }

  /** With exact fractions every true tie of a negative column is offered. */
  lemma ExactTieIsOffered(g: Grid<real>, r: int, c: nat)
    requires IsTableau(g) && c < |g[0]| - 1 && IsNegativeColumn(g, c, 0.0) && IsExactTie(g, r, c)
    ensures RowAndColumn(r, c) in ColumnCandidates(g, c, FractionalElements)
  {
    var s := ScanRows(g, c, 0.0, |g| - 1);
    var E, m := s.MinimumAndRowIndex, s.ColumnMinimum;
    var K := KeepMinimal(E, m, FractionalElements);
    var L := AtColumn(K, c);
    assert ColumnCandidates(g, c, FractionalElements) == L;
    ScanRowsOutcome(g, c, 0.0, |g| - 1);
    assert s.CurrentRowIndex != -1;
    ScanRowsExact(g, c, |g| - 1);
    assert Ratio(g, r, c) == m;
    KeepMinimalMembers(E, m, FractionalElements, RatioEntry(m, r));
    var l :| 0 <= l < |K| && K[l] == RatioEntry(m, r);
    assert L[l] == RowAndColumn(r, c);
  }

  /** With exact fractions a negative column offers exactly its true ties. */
  lemma ExactColumnCandidates(g: Grid<real>, r: int, c: nat)
    requires IsTableau(g) && c < |g[0]| - 1 && IsNegativeColumn(g, c, 0.0)
    ensures RowAndColumn(r, c) in ColumnCandidates(g, c, FractionalElements) <==> IsExactTie(g, r, c)
  {
    if RowAndColumn(r, c) in ColumnCandidates(g, c, FractionalElements) {
      OfferedIsExactTie(g, r, c);
    }
    if IsExactTie(g, r, c) {
      ExactTieIsOffered(g, r, c);
    }
  }

  /**
   * With exact fractions the offered cells are exactly the true ties: the
   * cells of negative columns with a positive entry whose ratio is the
   * smallest in that column.
   */
  lemma ExactCandidates(g: Grid<real>, r: int, c: int)
    requires IsTableau(g)
    ensures RowAndColumn(r, c) in CandidateLeads(g, FractionalElements) <==>
      0 <= c < |g[0]| - 1 && IsNegativeColumn(g, c, 0.0) && IsExactTie(g, r, c)
  {
    CandidatesUpToMembers(g, FractionalElements, |g[0]| - 1, r, c);
    if 0 <= c < |g[0]| - 1 {
      if IsNegativeColumn(g, c, 0.0) {
        ExactColumnCandidates(g, r, c);
      } else {
        assert ColumnCandidates(g, c, FractionalElements) == [];
      }
    }
  }

  /** With exact fractions the automatic lead is one of the offered cells. */
  lemma AutoLeadIsCandidate(g: Grid<real>, IsArtificialStep: bool)
    requires IsTableau(g) && Classify(g, 0.0, IsArtificialStep) == Continue
    ensures AutoLead(g, 0.0, IsArtificialStep) in CandidateLeads(g, FractionalElements)
  {
    var rc := AutoLead(g, 0.0, IsArtificialStep);
    ContinueFindsLead(g, 0.0, IsArtificialStep);
    ExactCandidates(g, rc.Row, rc.Column);
  }

  /**
   * The older revision's lead in column c: the ratio-test row among the
   * positive entries when the objective entry is negative, and -1 otherwise.
   */
  ghost function LegacyColumnLead(g: Grid<real>, c: nat): int
    requires IsTableau(g) && c < |g[0]| - 1
  {
    if g[|g| - 1][c] < 0.0 then RatioRow(g, c, 0.0, |g| - 1) else -1
  }

  /** The older `Leads` of columns 0..n-1; with ExcludeBanned a lead in a banned row is skipped. */
  ghost function LegacyLeadsUpTo(g: Grid<real>, RowsBannedToSwap: seq<int>, ExcludeBanned: bool, n: nat): seq<RowAndColumn>
    requires IsTableau(g) && n <= |g[0]| - 1
  {
    if n == 0 then []
    else LegacyLeadsUpTo(g, RowsBannedToSwap, ExcludeBanned, n - 1) + LegacyColumnLeads(g, RowsBannedToSwap, ExcludeBanned, n - 1)
  }

  /** The older lead column c contributes: its ratio-test row, when there is one and it is not excluded. */
  ghost function LegacyColumnLeads(g: Grid<real>, RowsBannedToSwap: seq<int>, ExcludeBanned: bool, c: nat): seq<RowAndColumn>
    requires IsTableau(g) && c < |g[0]| - 1
  {
    var r := LegacyColumnLead(g, c);
    if r != -1 && !(ExcludeBanned && r in RowsBannedToSwap) then [RowAndColumn(r, c)] else []
  }

  ghost function LegacyLeads(g: Grid<real>, RowsBannedToSwap: seq<int>, ExcludeBanned: bool): seq<RowAndColumn>
    requires IsTableau(g)
  {
    LegacyLeadsUpTo(g, RowsBannedToSwap, ExcludeBanned, |g[0]| - 1)
  }

  /** The older lead loop: a ratio test per negative column and, in the artificial phase, the banned-row check. */
  method FindLegacyLeads(g: Grid<real>, RowsBannedToSwap: seq<int>, ExcludeBanned: bool) returns (Leads: seq<RowAndColumn>)
    requires IsTableau(g)
    ensures Leads == LegacyLeads(g, RowsBannedToSwap, ExcludeBanned)
  {
    Leads := [];
    var i := 0;
    while i < |g[0]| - 1
      invariant 0 <= i <= |g[0]| - 1
      invariant Leads == LegacyLeadsUpTo(g, RowsBannedToSwap, ExcludeBanned, i)
    {
      Leads := PushLegacyLead(g, RowsBannedToSwap, ExcludeBanned, Leads, i);
      assert LegacyLeadsUpTo(g, RowsBannedToSwap, ExcludeBanned, i + 1) ==
        LegacyLeadsUpTo(g, RowsBannedToSwap, ExcludeBanned, i) + LegacyColumnLeads(g, RowsBannedToSwap, ExcludeBanned, i);
      i := i + 1;
    }
  }

  /** One column of the older lead loop: the ratio test in a negative column, then the banned-row check. */
  method PushLegacyLead(g: Grid<real>, RowsBannedToSwap: seq<int>, ExcludeBanned: bool, Leads: seq<RowAndColumn>, i: nat)
    returns (NewLeads: seq<RowAndColumn>)
    requires IsTableau(g) && i < |g[0]| - 1
    ensures NewLeads == Leads + LegacyColumnLeads(g, RowsBannedToSwap, ExcludeBanned, i)
  {
    NewLeads := Leads;
    var CurrentRowIndex := -1;
    if g[|g| - 1][i] < 0.0 {
      var CurrentLead;
      CurrentRowIndex, CurrentLead := ChooseLeadRow(g, i, 0.0);
    }
    if CurrentRowIndex != -1 {
      var IsRowBanned := IsBanned(RowsBannedToSwap, CurrentRowIndex);
      if !(ExcludeBanned && IsRowBanned) {
        NewLeads := NewLeads + [RowAndColumn(CurrentRowIndex, i)];
      }
    }
  }

  /** The banned-row loop over `RowsBannedToSwap`. */
  method IsBanned(RowsBannedToSwap: seq<int>, CurrentRowIndex: int) returns (IsRowBanned: bool)
    ensures IsRowBanned <==> CurrentRowIndex in RowsBannedToSwap
  {
    IsRowBanned := false;
    var k := 0;
    while k < |RowsBannedToSwap|
      invariant 0 <= k <= |RowsBannedToSwap|
      invariant IsRowBanned <==> CurrentRowIndex in RowsBannedToSwap[..k]
    {
      if RowsBannedToSwap[k] == CurrentRowIndex {
        IsRowBanned := true;
      }
      assert RowsBannedToSwap[..k + 1] == RowsBannedToSwap[..k] + [RowsBannedToSwap[k]];
      k := k + 1;
    }
    assert RowsBannedToSwap[..k] == RowsBannedToSwap;
  }

  /** The older ratio test in column c: a positive entry, the smallest ratio, and strictly smaller than every earlier row's. */
  ghost predicate IsLegacyLead(g: Grid<real>, r: int, c: nat)
    requires IsTableau(g) && c < |g[0]| - 1
  {
    0 <= r < |g| - 1 && g[|g| - 1][c] < 0.0 && g[r][c] > 0.0 &&
    (forall i :: 0 <= i < |g| - 1 && g[i][c] > 0.0 ==> Ratio(g, r, c) <= Ratio(g, i, c)) &&
    (forall i :: 0 <= i < r && g[i][c] > 0.0 ==> Ratio(g, r, c) < Ratio(g, i, c))
  }

  /** Column c contributes at most one older lead: a ratio test in column c, not banned when banned rows are excluded. */
  lemma LegacyColumnLeadsAreRatioTests(g: Grid<real>, RowsBannedToSwap: seq<int>, ExcludeBanned: bool, c: nat)
    requires IsTableau(g) && c < |g[0]| - 1
    ensures var Q := LegacyColumnLeads(g, RowsBannedToSwap, ExcludeBanned, c);
      |Q| <= 1 && forall rc :: rc in Q ==>
        rc.Column == c && IsLegacyLead(g, rc.Row, c) && !(ExcludeBanned && rc.Row in RowsBannedToSwap)
  {
  }

  /** The older leads of columns 0..n are those of columns 0..n-1 followed by column n's. */
  lemma LegacyLeadsUpToLast(g: Grid<real>, RowsBannedToSwap: seq<int>, ExcludeBanned: bool, n: nat)
    requires IsTableau(g) && n < |g[0]| - 1
    ensures LegacyLeadsUpTo(g, RowsBannedToSwap, ExcludeBanned, n + 1) ==
      LegacyLeadsUpTo(g, RowsBannedToSwap, ExcludeBanned, n) + LegacyColumnLeads(g, RowsBannedToSwap, ExcludeBanned, n)
  {
  }

  /** Column c contributes at most one older lead, and in column c. */
  lemma LegacyColumnLeadsInColumn(g: Grid<real>, RowsBannedToSwap: seq<int>, ExcludeBanned: bool, c: nat)
    requires IsTableau(g) && c < |g[0]| - 1
    ensures var Q := LegacyColumnLeads(g, RowsBannedToSwap, ExcludeBanned, c);
      |Q| <= 1 && forall rc :: rc in Q ==> rc.Column == c
  {
  }

  /** The older leads are ratio tests in negative columns, not banned when banned rows are excluded. */
  lemma {:induction false} LegacyLeadsAreRatioTests(g: Grid<real>, RowsBannedToSwap: seq<int>, ExcludeBanned: bool, n: nat)
    requires IsTableau(g) && n <= |g[0]| - 1
    ensures forall rc :: rc in LegacyLeadsUpTo(g, RowsBannedToSwap, ExcludeBanned, n) ==>
      0 <= rc.Column < n && IsLegacyLead(g, rc.Row, rc.Column) && !(ExcludeBanned && rc.Row in RowsBannedToSwap)
  {
    if n > 0 {
      var m := n - 1;
      LegacyLeadsUpToLast(g, RowsBannedToSwap, ExcludeBanned, m);
      LegacyLeadsAreRatioTests(g, RowsBannedToSwap, ExcludeBanned, m);
      LegacyColumnLeadsAreRatioTests(g, RowsBannedToSwap, ExcludeBanned, m);
    }
  }

  /** The older leads of columns 0..n-1 lie in those columns. */
  lemma {:induction false} LegacyLeadsColumns(g: Grid<real>, RowsBannedToSwap: seq<int>, ExcludeBanned: bool, n: nat)
    requires IsTableau(g) && n <= |g[0]| - 1
    ensures forall rc :: rc in LegacyLeadsUpTo(g, RowsBannedToSwap, ExcludeBanned, n) ==> 0 <= rc.Column < n
  {
    if n > 0 {
      var m := n - 1;
      LegacyLeadsUpToLast(g, RowsBannedToSwap, ExcludeBanned, m);
      LegacyLeadsColumns(g, RowsBannedToSwap, ExcludeBanned, m);
      LegacyColumnLeadsInColumn(g, RowsBannedToSwap, ExcludeBanned, m);
    }
  }

  /** Cells in strictly increasing column order. */
  ghost predicate ColumnsIncrease(L: seq<RowAndColumn>) {
    forall l, l' :: 0 <= l < l' < |L| ==> L[l].Column < L[l'].Column
  }

  /** Appending at most one cell of a column beyond all listed ones keeps the columns increasing. */
  lemma AppendColumn(P: seq<RowAndColumn>, Q: seq<RowAndColumn>, c: int)
    requires ColumnsIncrease(P) && (forall rc :: rc in P ==> rc.Column < c)
    requires |Q| <= 1 && (forall rc :: rc in Q ==> rc.Column == c)
    ensures ColumnsIncrease(P + Q)
  {
    var L := P + Q;
    forall l, l' | 0 <= l < l' < |L|
      ensures L[l].Column < L[l'].Column
    {
      assert L[l] == P[l] && P[l] in P;
      if l' < |P| {
        assert L[l'] == P[l'];
      } else {
        assert L[l'] == Q[0] && Q[0] in Q;
      }
    }
  }

  /** The older leads come at most one per column, in column order. */
  lemma {:induction false} LegacyLeadsOnePerColumn(g: Grid<real>, RowsBannedToSwap: seq<int>, ExcludeBanned: bool, n: nat)
    requires IsTableau(g) && n <= |g[0]| - 1
    ensures ColumnsIncrease(LegacyLeadsUpTo(g, RowsBannedToSwap, ExcludeBanned, n))
  {
    if n > 0 {
      var m := n - 1;
      LegacyLeadsUpToLast(g, RowsBannedToSwap, ExcludeBanned, m);
      LegacyLeadsOnePerColumn(g, RowsBannedToSwap, ExcludeBanned, m);
      LegacyLeadsColumns(g, RowsBannedToSwap, ExcludeBanned, m);
      LegacyColumnLeadsInColumn(g, RowsBannedToSwap, ExcludeBanned, m);
      AppendColumn(LegacyLeadsUpTo(g, RowsBannedToSwap, ExcludeBanned, m), LegacyColumnLeads(g, RowsBannedToSwap, ExcludeBanned, m), m);
    }
  }

  /** The older leads of a prefix of the columns are a prefix of those of a longer one. */
  lemma {:induction false} LegacyLeadsPrefix(g: Grid<real>, RowsBannedToSwap: seq<int>, ExcludeBanned: bool, k: nat, n: nat)
    requires IsTableau(g) && k <= n <= |g[0]| - 1
    ensures LegacyLeadsUpTo(g, RowsBannedToSwap, ExcludeBanned, k) <= LegacyLeadsUpTo(g, RowsBannedToSwap, ExcludeBanned, n)
    decreases n
  {
    if k != n {
      var m := n - 1;
      LegacyLeadsUpToLast(g, RowsBannedToSwap, ExcludeBanned, m);
      LegacyLeadsPrefix(g, RowsBannedToSwap, ExcludeBanned, k, m);
      PrefixOfAppend(LegacyLeadsUpTo(g, RowsBannedToSwap, ExcludeBanned, k), LegacyLeadsUpTo(g, RowsBannedToSwap, ExcludeBanned, m),
                     LegacyColumnLeads(g, RowsBannedToSwap, ExcludeBanned, m));
    }
  }

  /** A prefix of a sequence is a prefix of that sequence extended. */
  lemma PrefixOfAppend<T>(A: seq<T>, P: seq<T>, Q: seq<T>)
    requires A <= P
    ensures A <= P + Q
  {
    assert (P + Q)[..|A|] == P[..|A|];
  }

  /** An element of a prefix is an element of the whole sequence. */
  lemma InPrefix<T>(x: T, A: seq<T>, L: seq<T>)
    requires x in A && A <= L
    ensures x in L
  {
    var i :| 0 <= i < |A| && A[i] == x;
    assert L[i] == x;
  }

  /** An element of either part is an element of the concatenation. */
  lemma InAppend<T>(x: T, P: seq<T>, Q: seq<T>)
    requires x in P || x in Q
    ensures x in P + Q
  {
  }

  /** A negative column with a positive entry has its ratio-test row among the older leads, unless it is excluded as banned. */
  lemma LegacyLeadOfColumn(g: Grid<real>, RowsBannedToSwap: seq<int>, ExcludeBanned: bool, c: nat)
    requires IsTableau(g) && c < |g[0]| - 1
    requires g[|g| - 1][c] < 0.0 && HasPositiveEntry(g, c, 0.0)
    requires !(ExcludeBanned && RatioRow(g, c, 0.0, |g| - 1) in RowsBannedToSwap)
    ensures RowAndColumn(RatioRow(g, c, 0.0, |g| - 1), c) in LegacyLeads(g, RowsBannedToSwap, ExcludeBanned)
  {
    var n := |g[0]| - 1;
    assert LegacyLeads(g, RowsBannedToSwap, ExcludeBanned) == LegacyLeadsUpTo(g, RowsBannedToSwap, ExcludeBanned, n);
    var x := RowAndColumn(RatioRow(g, c, 0.0, |g| - 1), c);
    LegacyColumnHasLead(g, RowsBannedToSwap, ExcludeBanned, c);
    LegacyLeadsUpToLast(g, RowsBannedToSwap, ExcludeBanned, c);
    var A := LegacyLeadsUpTo(g, RowsBannedToSwap, ExcludeBanned, c + 1);
    InAppend(x, LegacyLeadsUpTo(g, RowsBannedToSwap, ExcludeBanned, c), LegacyColumnLeads(g, RowsBannedToSwap, ExcludeBanned, c));
    LegacyLeadsPrefix(g, RowsBannedToSwap, ExcludeBanned, c + 1, n);
    InPrefix(x, A, LegacyLeadsUpTo(g, RowsBannedToSwap, ExcludeBanned, n));
  }

  /** A negative column with a positive entry contributes its ratio-test row, unless it is excluded as banned. */
  lemma LegacyColumnHasLead(g: Grid<real>, RowsBannedToSwap: seq<int>, ExcludeBanned: bool, c: nat)
    requires IsTableau(g) && c < |g[0]| - 1
    requires g[|g| - 1][c] < 0.0 && HasPositiveEntry(g, c, 0.0)
    requires !(ExcludeBanned && RatioRow(g, c, 0.0, |g| - 1) in RowsBannedToSwap)
    ensures LegacyColumnLeads(g, RowsBannedToSwap, ExcludeBanned, c) == [RowAndColumn(RatioRow(g, c, 0.0, |g| - 1), c)]
  {
    var i :| 0 <= i < |g| - 1 && g[i][c] > 0.0;
  }

  /**
   * The two revisions agree on exact values: every older lead is among the
   * cells the current revision offers for fractions.
   */
  lemma LegacyLeadIsCandidate(g: Grid<real>, RowsBannedToSwap: seq<int>, ExcludeBanned: bool)
    requires IsTableau(g)
    ensures forall rc :: rc in LegacyLeads(g, RowsBannedToSwap, ExcludeBanned) ==> rc in CandidateLeads(g, FractionalElements)
  {
    LegacyLeadsAreRatioTests(g, RowsBannedToSwap, ExcludeBanned, |g[0]| - 1);
    forall rc | rc in LegacyLeads(g, RowsBannedToSwap, ExcludeBanned)
      ensures rc in CandidateLeads(g, FractionalElements)
    {
      ExactCandidates(g, rc.Row, rc.Column);
    }
  }
}
