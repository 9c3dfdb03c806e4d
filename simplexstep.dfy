/**
 * `SimplexStep` of the current revision: one step of the tableau method.
 * A step already marked completed is handed back as it is. Otherwise the
 * classifier decides: any verdict but CONTINUE marks the step completed and
 * leaves the tableau alone. On CONTINUE the lead element is chosen (by the
 * automatic search, or taken from `LeadElementRC` in step-by-step mode), the
 * tableau is pivoted on it, and the new step gets the next `StepID`, records
 * the lead as `StepChosenRC` and appends its row to `RowsBannedToSwap`.
 * The variable ids are not touched here; the drivers swap them.
 */
module SimplexSteps {
  import opened Matrices
  import opened Steps
  import opened LinearForms
  import opened StateCheck
  import opened Pivoting
  import opened LeadSelection

  /** The cell a step-by-step pivot names lies in the tableau and is non-zero. */
  ghost predicate ManualLeadValid(step: Step)
    requires IsTableau(step.Tableau)
  {
    var g, rc := step.Tableau, step.LeadElementRC;
    0 <= rc.Row < |g| && 0 <= rc.Column < |g[0]| && g[rc.Row][rc.Column] != 0.0
  }

  /**
   * What the step needs from its caller: a tableau, and a usable lead cell
   * whenever a step-by-step step will actually pivot.
   */
  ghost predicate StepReady(step: Step, kind: ElementKind) {
    IsTableau(step.Tableau) &&
    (!step.IsCompleted && !step.IsAutomatic &&
       Classify(step.Tableau, ZeroElement(kind), step.IsArtificialStep) == Continue ==>
     ManualLeadValid(step))
  }

  /** The step after pivoting on (r, c). */
  ghost function PivotedStep(step: Step, r: nat, c: nat): (s: Step)
    requires IsTableau(step.Tableau) && r < |step.Tableau| && c < |step.Tableau[0]| && step.Tableau[r][c] != 0.0
    ensures IsTableau(s.Tableau)
  {
    step.(Tableau := PivotSpec(step.Tableau, r, c), StepID := step.StepID + 1,
          StepChosenRC := RowAndColumn(r, c), RowsBannedToSwap := step.RowsBannedToSwap + [r])
  }

  /** The lead the automatic search picks: the searched column and the ratio-test row in it. */
  ghost function AutoLead(g: Grid<real>, zero: real, IsArtificialStep: bool): (rc: RowAndColumn)
    requires IsTableau(g) && zero >= 0.0 && Classify(g, zero, IsArtificialStep) == Continue
    ensures 0 <= rc.Row < |g| - 1 && 0 <= rc.Column < |g[0]| - 1 && g[rc.Row][rc.Column] > zero
  {
    ContinueFindsLead(g, zero, IsArtificialStep);
    var c := AutoColumn(g, zero, |g| - 1);
    RowAndColumn(RatioRow(g, c, zero, |g| - 1), c)
  }

  /** The whole step, as a function of the step it starts from. */
  ghost function SimplexStepSpec(step: Step, kind: ElementKind): (s: Step)
    requires StepReady(step, kind)
    ensures IsTableau(s.Tableau)
  {
    var g, zero := step.Tableau, ZeroElement(kind);
    if step.IsCompleted then step
    else if Classify(g, zero, step.IsArtificialStep) != Continue then step.(IsCompleted := true)
    else if step.IsAutomatic then
      var rc := AutoLead(g, zero, step.IsArtificialStep);
      PivotedStep(step, rc.Row, rc.Column)
    else PivotedStep(step, step.LeadElementRC.Row, step.LeadElementRC.Column)
  }

  method SimplexStep(step: Step, kind: ElementKind) returns (NewStep: Step)
    requires StepReady(step, kind)
    ensures NewStep == SimplexStepSpec(step, kind)
  {
    var CurrentColumnIndex: int := -1;
    var CurrentRowIndex: int := -1;
    var CurrentLead := 0.0;

    if step.IsCompleted {
      return step;
    }

    var g := step.Tableau;
    var matrix := new Matrix<real>.FromContents(g, |g|, |g[0]|);
    var zero := ZeroElement(kind);

    var state := CheckAlgorithmState(g, kind, step.IsAutomatic, step.IsArtificialStep);
    if state == UnlimitedSolution {
      return step.(IsCompleted := true);
    } else if state == Completed {
      return step.(IsCompleted := true);
    } else if state == SolutionDoesntExist {
      return step.(IsCompleted := true);
    }

    CurrentRowIndex, CurrentColumnIndex, CurrentLead := ChooseLead(step, kind, matrix);
    NewStep := PivotStep(step, matrix, CurrentRowIndex, CurrentColumnIndex, CurrentLead);
  }

  /** The lead choice of a step that goes on: the automatic search, or the step's own lead cell. */
  method ChooseLead(step: Step, kind: ElementKind, matrix: Matrix<real>)
    returns (CurrentRowIndex: nat, CurrentColumnIndex: nat, CurrentLead: real)
    requires StepReady(step, kind) && !step.IsCompleted
    requires Classify(step.Tableau, ZeroElement(kind), step.IsArtificialStep) == Continue
    requires matrix.Valid() && matrix.Contents() == step.Tableau
    ensures CurrentRowIndex < |step.Tableau| && CurrentColumnIndex < |step.Tableau[0]|
    ensures CurrentLead == step.Tableau[CurrentRowIndex][CurrentColumnIndex] && CurrentLead != 0.0
    ensures SimplexStepSpec(step, kind) == PivotedStep(step, CurrentRowIndex, CurrentColumnIndex)
  {
    var g, zero := step.Tableau, ZeroElement(kind);
    if step.IsAutomatic {
      ContinueFindsLead(g, zero, step.IsArtificialStep);
      var c := ChooseLeadColumn(g, zero);
      var r;
      r, CurrentLead := ChooseLeadRow(g, c, zero);
      CurrentRowIndex, CurrentColumnIndex := r, c;
      var rc := AutomaticStepIsPivot(step, kind);
    } else {
      CurrentColumnIndex := step.LeadElementRC.Column;
      CurrentRowIndex := step.LeadElementRC.Row;
      CurrentLead := matrix.matrix[CurrentRowIndex, CurrentColumnIndex];
    }
  }

  /** The pivot and the bookkeeping of the new step, on the step's own copy of the tableau. */
  method PivotStep(step: Step, matrix: Matrix<real>, CurrentRowIndex: nat, CurrentColumnIndex: nat, CurrentLead: real)
    returns (NewStep: Step)
    requires IsTableau(step.Tableau) && matrix.Valid() && matrix.Contents() == step.Tableau
    requires CurrentRowIndex < |step.Tableau| && CurrentColumnIndex < |step.Tableau[0]|
    requires CurrentLead == step.Tableau[CurrentRowIndex][CurrentColumnIndex] && CurrentLead != 0.0
    modifies matrix.matrix
    ensures NewStep == PivotedStep(step, CurrentRowIndex, CurrentColumnIndex)
  {
    Pivot(matrix, CurrentRowIndex, CurrentColumnIndex, CurrentLead);
    var h := matrix.Snapshot();
    NewStep := step.(Tableau := h, StepID := step.StepID + 1,
                     StepChosenRC := RowAndColumn(CurrentRowIndex, CurrentColumnIndex),
                     RowsBannedToSwap := step.RowsBannedToSwap + [CurrentRowIndex]);
  }

  /** An automatic step that goes on pivots on the automatic lead. */
  lemma AutomaticStepIsPivot(step: Step, kind: ElementKind) returns (rc: RowAndColumn)
    requires StepReady(step, kind) && step.IsAutomatic && !step.IsCompleted
    requires Classify(step.Tableau, ZeroElement(kind), step.IsArtificialStep) == Continue
    ensures rc == AutoLead(step.Tableau, ZeroElement(kind), step.IsArtificialStep)
    ensures SimplexStepSpec(step, kind) == PivotedStep(step, rc.Row, rc.Column)
  {
    rc := AutoLead(step.Tableau, ZeroElement(kind), step.IsArtificialStep);
  }

  /**
   * The outcome of a step: it stops (same tableau, marked completed) exactly
   * when it was completed already or the verdict is not CONTINUE; otherwise
   * it pivots on the cell it records, counts one more step and bans that row.
   * Mode, phase and variable ids never change.
   */
  lemma SimplexStepOutcome(step: Step, kind: ElementKind)
    requires StepReady(step, kind)
    ensures var s := SimplexStepSpec(step, kind);
      s.IsAutomatic == step.IsAutomatic && s.IsArtificialStep == step.IsArtificialStep &&
      s.NumbersOfVariables == step.NumbersOfVariables && s.LeadElementRC == step.LeadElementRC
    ensures var s := SimplexStepSpec(step, kind);
      (s.Tableau == step.Tableau && s.IsCompleted && s.StepID == step.StepID) <==>
      (step.IsCompleted || Classify(step.Tableau, ZeroElement(kind), step.IsArtificialStep) != Continue)
    ensures var s := SimplexStepSpec(step, kind);
      !step.IsCompleted && Classify(step.Tableau, ZeroElement(kind), step.IsArtificialStep) == Continue ==>
        var rc := s.StepChosenRC;
        0 <= rc.Row < |step.Tableau| && 0 <= rc.Column < |step.Tableau[0]| && step.Tableau[rc.Row][rc.Column] != 0.0 &&
        s.Tableau == PivotSpec(step.Tableau, rc.Row, rc.Column) && !s.IsCompleted &&
        s.StepID == step.StepID + 1 && s.RowsBannedToSwap == step.RowsBannedToSwap + [rc.Row]
  {
  }

  /**
   * The automatic choice: the lead column still lowers the objective, the
   * lead is above zero in a constraint row, and its row has the smallest
   * RHS / entry ratio of all rows whose entry is above zero (the first such
   * row on ties).
   */
  lemma AutomaticLeadIsRatioTest(step: Step, kind: ElementKind)
    requires StepReady(step, kind) && step.IsAutomatic && !step.IsCompleted
    requires Classify(step.Tableau, ZeroElement(kind), step.IsArtificialStep) == Continue
    ensures var g, zero, rc := step.Tableau, ZeroElement(kind), SimplexStepSpec(step, kind).StepChosenRC;
      0 <= rc.Row < |g| - 1 && 0 <= rc.Column < |g[0]| - 1 &&
      IsNegativeColumn(g, rc.Column, zero) && g[rc.Row][rc.Column] > zero &&
      (forall i :: 0 <= i < |g| - 1 && g[i][rc.Column] > zero ==> Ratio(g, rc.Row, rc.Column) <= Ratio(g, i, rc.Column)) &&
      (forall i :: 0 <= i < rc.Row && g[i][rc.Column] > zero ==> Ratio(g, rc.Row, rc.Column) < Ratio(g, i, rc.Column))
  {
    var rc := AutomaticStepIsPivot(step, kind);
    AutoLeadIsRatioTest(step.Tableau, ZeroElement(kind), step.IsArtificialStep);
  }

  lemma AutoLeadIsRatioTest(g: Grid<real>, zero: real, IsArtificialStep: bool)
    requires IsTableau(g) && zero >= 0.0 && Classify(g, zero, IsArtificialStep) == Continue
    ensures var rc := AutoLead(g, zero, IsArtificialStep);
      IsNegativeColumn(g, rc.Column, zero) &&
      (forall i :: 0 <= i < |g| - 1 && g[i][rc.Column] > zero ==> Ratio(g, rc.Row, rc.Column) <= Ratio(g, i, rc.Column)) &&
      (forall i :: 0 <= i < rc.Row && g[i][rc.Column] > zero ==> Ratio(g, rc.Row, rc.Column) < Ratio(g, i, rc.Column))
  {
    ContinueFindsLead(g, zero, IsArtificialStep);
  }

  /**
   * A pivot on a non-RHS column exchanges a basic and a non-basic variable:
   * the old tableau holds at (xB, xN) exactly when the new one holds with the
   * two values swapped.
   */
  lemma SimplexStepPreservesSolutions(step: Step, kind: ElementKind, xB: seq<real>, xN: seq<real>)
    requires StepReady(step, kind) && !step.IsCompleted
    requires Classify(step.Tableau, ZeroElement(kind), step.IsArtificialStep) == Continue
    requires step.IsAutomatic || step.LeadElementRC.Column < |step.Tableau[0]| - 1
    requires |xB| == |step.Tableau| && |xN| == |step.Tableau[0]| - 1
    ensures var s := SimplexStepSpec(step, kind); var r, c := s.StepChosenRC.Row, s.StepChosenRC.Column;
      0 <= r < |xB| && 0 <= c < |xN| &&
      (Satisfies(step.Tableau, xB, xN) <==> Satisfies(s.Tableau, xB[r := xN[c]], xN[c := xB[r]]))
  {
    var s := SimplexStepSpec(step, kind);
    PivotEquivalence(step.Tableau, s.StepChosenRC.Row, s.StepChosenRC.Column, xB, xN);
  }

  /**
   * An automatic step on a feasible tableau stays feasible and does not lower
   * the objective row's RHS (minus the objective value of the basic
   * solution), provided the chosen column has no entry in (0, zero].
   */
  lemma AutomaticStepImproves(step: Step, kind: ElementKind)
    requires StepReady(step, kind) && step.IsAutomatic && !step.IsCompleted && FeasibleRhs(step.Tableau)
    requires Classify(step.Tableau, ZeroElement(kind), step.IsArtificialStep) == Continue
    requires var g, c := step.Tableau, AutoLead(step.Tableau, ZeroElement(kind), step.IsArtificialStep).Column;
      forall i :: 0 <= i < |g| - 1 ==> !(0.0 < g[i][c] <= ZeroElement(kind))
    ensures var g, h := step.Tableau, SimplexStepSpec(step, kind).Tableau;
      FeasibleRhs(h) && h[|h| - 1][|h[0]| - 1] >= g[|g| - 1][|g[0]| - 1]
  {
    var rc := AutomaticStepIsPivot(step, kind);
    AutoLeadImproves(step.Tableau, ZeroElement(kind), step.IsArtificialStep);
  }

  /** Pivoting a feasible tableau on its automatic lead keeps it feasible and does not lower the objective RHS. */
  lemma AutoLeadImproves(g: Grid<real>, zero: real, IsArtificialStep: bool)
    requires IsTableau(g) && zero >= 0.0 && FeasibleRhs(g) && Classify(g, zero, IsArtificialStep) == Continue
    requires forall i :: 0 <= i < |g| - 1 ==> !(0.0 < g[i][AutoLead(g, zero, IsArtificialStep).Column] <= zero)
    ensures var rc := AutoLead(g, zero, IsArtificialStep);
      var h := PivotSpec(g, rc.Row, rc.Column);
      FeasibleRhs(h) && h[|h| - 1][|h[0]| - 1] >= g[|g| - 1][|g[0]| - 1]
  {
    ContinueFindsLead(g, zero, IsArtificialStep);
    var c := AutoColumn(g, zero, |g| - 1);
    var r := RatioRow(g, c, zero, |g| - 1);
    assert AutoLead(g, zero, IsArtificialStep) == RowAndColumn(r, c);
    assert g[|g| - 1][c] < 0.0 by {
      assert IsNegativeColumn(g, c, zero);
    }
    RatioPivotKeepsFeasible(g, c, zero);
    PivotObjectiveMonotone(g, r, c);
  }

  /** With exact fractions there is no tolerance band, so every automatic step improves. */
  lemma FractionalStepImproves(step: Step)
    requires StepReady(step, FractionalElements) && step.IsAutomatic && !step.IsCompleted && FeasibleRhs(step.Tableau)
    requires Classify(step.Tableau, 0.0, step.IsArtificialStep) == Continue
    ensures var g, h := step.Tableau, SimplexStepSpec(step, FractionalElements).Tableau;
      FeasibleRhs(h) && h[|h| - 1][|h[0]| - 1] >= g[|g| - 1][|g[0]| - 1]
  {
    AutomaticStepImproves(step, FractionalElements);
  }
}
