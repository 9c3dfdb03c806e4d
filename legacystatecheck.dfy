/**
 * `CheckAlgorithmState` of the older revision. It does not reset its verdict
 * per column and does not stop early: one column with a positive entry
 * makes the verdict CONTINUE whatever the other negative columns hold, and
 * UNLIMITED_SOLUTION needs every negative column to lack a positive entry.
 * It never reports SOLUTION_DOESNT_EXIST. In automatic mode it also hands
 * back, through `CurrentColumnIndex`, the last column that can enter.
 */
module LegacyStateCheck {
  import opened Matrices
  import opened Steps
  import opened StateCheck

  /** A column that can enter the basis: negative objective entry and a positive coefficient. */
  ghost predicate IsEnteringColumn(g: Grid<real>, j: nat)
    requires IsTableau(g) && j < |g[0]|
  {
    IsNegativeColumn(g, j, EPSILON) && HasPositiveEntry(g, j, EPSILON)
  }

  ghost function LegacyClassify(g: Grid<real>): AlgorithmState
    requires IsTableau(g)
  {
    var C := |g[0]|;
    if exists j :: 0 <= j < C - 1 && IsEnteringColumn(g, j) then Continue
    else if exists j :: 0 <= j < C - 1 && IsNegativeColumn(g, j, EPSILON) then UnlimitedSolution
    else Completed
  }

  /** The last column below n that can enter, or -1 when there is none. */
  ghost function LastEnteringColumn(g: Grid<real>, n: nat): (c: int)
    requires IsTableau(g) && n <= |g[0]|
    ensures c == -1 <==> forall j :: 0 <= j < n ==> !IsEnteringColumn(g, j)
    ensures c != -1 ==> 0 <= c < n && IsEnteringColumn(g, c)
    ensures c != -1 ==> forall j :: c < j < n ==> !IsEnteringColumn(g, j)
  {
    if n == 0 then -1
    else if IsEnteringColumn(g, n - 1) then n - 1
    else LastEnteringColumn(g, n - 1)
  }

  method CheckAlgorithmState(g: Grid<real>, IsAutomatic: bool, IsArtificialStep: bool, CurrentColumnIndex: int)
    returns (state: AlgorithmState, ColumnIndex: int)
    requires IsTableau(g)
    ensures state == LegacyClassify(g)
    ensures state != Undefined && state != SolutionDoesntExist
    ensures state == Continue <==> LastEnteringColumn(g, |g[0]| - 1) != -1
    ensures ColumnIndex == (if IsAutomatic && state == Continue then LastEnteringColumn(g, |g[0]| - 1)
                            else CurrentColumnIndex)
  {
    var R, C := |g|, |g[0]|;
    state := Undefined;
    ColumnIndex := CurrentColumnIndex;
    var i := 0;
    while i < C - 1
      invariant 0 <= i <= C - 1
      invariant state == (if exists j :: 0 <= j < i && IsEnteringColumn(g, j) then Continue
                          else if exists j :: 0 <= j < i && IsNegativeColumn(g, j, EPSILON) then UnlimitedSolution
                          else Undefined)
      invariant ColumnIndex == (if IsAutomatic && LastEnteringColumn(g, i) != -1 then LastEnteringColumn(g, i)
                                else CurrentColumnIndex)
    {
      ghost var before := state;
      if g[R - 1][i] < -EPSILON {
        assert IsNegativeColumn(g, i, EPSILON);
        var j := 0;
        ghost var found := false;
        while j < R - 1
          invariant 0 <= j <= R - 1
          invariant state == before && !found
          invariant ColumnIndex == (if IsAutomatic && LastEnteringColumn(g, i) != -1 then LastEnteringColumn(g, i)
                                    else CurrentColumnIndex)
          invariant forall k :: 0 <= k < j ==> !(g[k][i] > EPSILON)
        {
          if g[j][i] > EPSILON {
            assert IsEnteringColumn(g, i);
            state := Continue;
            if IsAutomatic {
              ColumnIndex := i;
            }
            found := true;
            break;
          }
          j := j + 1;
        }
        if !found {
          assert !IsEnteringColumn(g, i);
        }
        if state == Undefined {
          state := UnlimitedSolution;
        }
      } else {
        assert !IsEnteringColumn(g, i);
      }
      i := i + 1;
    }

    if state == Undefined {
      state := Completed;
    }
  }

  /** Both revisions see an optimal tableau alike (outside phase 1's infeasibility test). */
  lemma RevisionsAgreeOnCompleted(g: Grid<real>)
    requires IsTableau(g)
    ensures LegacyClassify(g) == Completed <==> Classify(g, EPSILON, false) == Completed
  {
  }

  /** The older verdict UNLIMITED_SOLUTION is also the current one. */
  lemma {:induction false} LegacyUnlimitedIsUnlimited(g: Grid<real>, IsArtificialStep: bool)
    requires IsTableau(g) && LegacyClassify(g) == UnlimitedSolution
    ensures Classify(g, EPSILON, IsArtificialStep) == UnlimitedSolution
  {
    var j :| 0 <= j < |g[0]| - 1 && IsNegativeColumn(g, j, EPSILON);
    assert !IsEnteringColumn(g, j);
  }

  /**
   * The revisions part ways when one negative column is unbounded and
   * another can enter: the current classifier stops with
   * UNLIMITED_SOLUTION, the older one goes on pivoting.
   */
  lemma RevisionsDisagree()
    ensures var g := [[0.0, 1.0, 5.0], [-1.0, -1.0, 0.0]];
      IsTableau(g) && Classify(g, EPSILON, false) == UnlimitedSolution && LegacyClassify(g) == Continue
  {
    var g := [[0.0, 1.0, 5.0], [-1.0, -1.0, 0.0]];
    assert IsNegativeColumn(g, 0, EPSILON) && !HasPositiveEntry(g, 0, EPSILON);
    assert g[0][1] > EPSILON;
    assert IsEnteringColumn(g, 1);
  }
}
