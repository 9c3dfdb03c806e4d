/**
 * `SimplexStep` of the older, float-only revision. It does not look at
 * `IsCompleted` first: the older classifier decides every time, and
 * UNLIMITED_SOLUTION or COMPLETED mark the step completed. On CONTINUE the
 * automatic lead column is the one the classifier reported (the last column
 * that can enter), the row is the ratio test with tolerance EPSILON, and the
 * pivot applies the same four cell formulas to the step's float tableau.
 */
module LegacySimplexSteps {
  import opened Matrices
  import opened Steps
  import opened LinearForms
  import opened StateCheck
  import opened LegacyStateCheck
  import opened Pivoting
  import opened LeadSelection
  import opened SimplexSteps

  /** What the older step needs: a tableau, and a usable lead cell when a step-by-step step pivots. */
  ghost predicate LegacyStepReady(step: Step) {
    IsTableau(step.Tableau) &&
    (!step.IsAutomatic && LegacyClassify(step.Tableau) == Continue ==> ManualLeadValid(step))
  }

  /** The older automatic lead: the last column that can enter and the ratio-test row in it. */
  ghost function LegacyAutoLead(g: Grid<real>): (rc: RowAndColumn)
    requires IsTableau(g) && LegacyClassify(g) == Continue
    ensures 0 <= rc.Row < |g| - 1 && 0 <= rc.Column < |g[0]| - 1 && g[rc.Row][rc.Column] > EPSILON
  {
    LegacyContinueFindsLead(g);
    var c := LastEnteringColumn(g, |g[0]| - 1);
    RowAndColumn(RatioRow(g, c, EPSILON, |g| - 1), c)
  }

  ghost function LegacySimplexStepSpec(step: Step): (s: Step)
    requires LegacyStepReady(step)
    ensures IsTableau(s.Tableau)
  {
    var g := step.Tableau;
    if LegacyClassify(g) != Continue then step.(IsCompleted := true)
    else if step.IsAutomatic then
      var rc := LegacyAutoLead(g);
      PivotedStep(step, rc.Row, rc.Column)
    else PivotedStep(step, step.LeadElementRC.Row, step.LeadElementRC.Column)
  }

  method LegacySimplexStep(step: Step) returns (NewStep: Step)
    requires LegacyStepReady(step)
    ensures NewStep == LegacySimplexStepSpec(step)
  {
    var CurrentColumnIndex := -1;

    var g := step.Tableau;
    var state;
    state, CurrentColumnIndex := LegacyStateCheck.CheckAlgorithmState(g, step.IsAutomatic, step.IsArtificialStep, CurrentColumnIndex);

    if state == UnlimitedSolution {
      return step.(IsCompleted := true);
    } else if state == Completed {
      return step.(IsCompleted := true);
    }

    var CurrentRowIndex, CurrentLead;
    CurrentRowIndex, CurrentColumnIndex, CurrentLead := LegacyChooseLead(step, CurrentColumnIndex);
    var RealMatrix := new Matrix<real>.FromContents(g, |g|, |g[0]|);
    NewStep := PivotStep(step, RealMatrix, CurrentRowIndex, CurrentColumnIndex, CurrentLead);
  }

  /** The older lead choice: the ratio test in the reported column, or the step's own lead cell. */
  method LegacyChooseLead(step: Step, ReportedColumn: int) returns (CurrentRowIndex: nat, CurrentColumnIndex: nat, CurrentLead: real)
    requires LegacyStepReady(step) && LegacyClassify(step.Tableau) == Continue
    requires step.IsAutomatic ==> ReportedColumn == LastEnteringColumn(step.Tableau, |step.Tableau[0]| - 1)
    ensures CurrentRowIndex < |step.Tableau| && CurrentColumnIndex < |step.Tableau[0]|
    ensures CurrentLead == step.Tableau[CurrentRowIndex][CurrentColumnIndex] && CurrentLead != 0.0
    ensures LegacySimplexStepSpec(step) == PivotedStep(step, CurrentRowIndex, CurrentColumnIndex)
  {
    var g := step.Tableau;
    if step.IsAutomatic {
      LegacyContinueFindsLead(g);
      var r;
      r, CurrentLead := ChooseLeadRow(g, ReportedColumn, EPSILON);
      CurrentRowIndex, CurrentColumnIndex := r, ReportedColumn;
      LegacyAutomaticStepIsPivot(step, CurrentRowIndex, CurrentColumnIndex);
    } else {
      CurrentColumnIndex := step.LeadElementRC.Column;
      CurrentRowIndex := step.LeadElementRC.Row;
      CurrentLead := g[CurrentRowIndex][CurrentColumnIndex];
    }
  }

  /** An older automatic step that goes on pivots on the older automatic lead. */
  lemma LegacyAutomaticStepIsPivot(step: Step, r: nat, c: nat)
    requires LegacyStepReady(step) && step.IsAutomatic && LegacyClassify(step.Tableau) == Continue
    requires c == LastEnteringColumn(step.Tableau, |step.Tableau[0]| - 1)
    requires r == RatioRow(step.Tableau, c, EPSILON, |step.Tableau| - 1)
    ensures r < |step.Tableau| && c < |step.Tableau[0]| && step.Tableau[r][c] != 0.0
    ensures LegacySimplexStepSpec(step) == PivotedStep(step, r, c)
  {
    assert LegacyAutoLead(step.Tableau) == RowAndColumn(r, c);
  }

  /** On CONTINUE the older search finds an entering column and a ratio-test row in it. */
  lemma LegacyContinueFindsLead(g: Grid<real>)
    requires IsTableau(g) && LegacyClassify(g) == Continue
    ensures LastEnteringColumn(g, |g[0]| - 1) != -1
    ensures RatioRow(g, LastEnteringColumn(g, |g[0]| - 1), EPSILON, |g| - 1) != -1
  {
    var j :| 0 <= j < |g[0]| - 1 && IsEnteringColumn(g, j);
    var c := LastEnteringColumn(g, |g[0]| - 1);
    assert IsEnteringColumn(g, c);
    assert HasPositiveEntry(g, c, EPSILON);
  }

  /**
   * The older step stops exactly when its classifier does not say CONTINUE,
   * even for a step already marked completed; otherwise it pivots on the
   * cell it records, counts one more step and bans that row.
   */
  lemma LegacySimplexStepOutcome(step: Step)
    requires LegacyStepReady(step)
    ensures var s := LegacySimplexStepSpec(step);
      s.IsAutomatic == step.IsAutomatic && s.NumbersOfVariables == step.NumbersOfVariables
    ensures var s := LegacySimplexStepSpec(step);
      (s.Tableau == step.Tableau && s.IsCompleted && s.StepID == step.StepID) <==> LegacyClassify(step.Tableau) != Continue
    ensures var s := LegacySimplexStepSpec(step);
      LegacyClassify(step.Tableau) == Continue ==>
        var rc := s.StepChosenRC;
        0 <= rc.Row < |step.Tableau| && 0 <= rc.Column < |step.Tableau[0]| && step.Tableau[rc.Row][rc.Column] != 0.0 &&
        s.Tableau == PivotSpec(step.Tableau, rc.Row, rc.Column) &&
        s.StepID == step.StepID + 1 && s.RowsBannedToSwap == step.RowsBannedToSwap + [rc.Row]
  {
  }

  /**
   * The older automatic choice: the lead column is the last one that can
   * enter, the lead exceeds EPSILON, and its row has the smallest RHS / entry
   * ratio among the rows whose entry exceeds EPSILON.
   */
  lemma LegacyAutomaticLeadIsRatioTest(step: Step)
    requires LegacyStepReady(step) && step.IsAutomatic && LegacyClassify(step.Tableau) == Continue
    ensures var g, rc := step.Tableau, LegacySimplexStepSpec(step).StepChosenRC;
      0 <= rc.Row < |g| - 1 && 0 <= rc.Column < |g[0]| - 1 &&
      IsEnteringColumn(g, rc.Column) && (forall j :: rc.Column < j < |g[0]| - 1 ==> !IsEnteringColumn(g, j)) &&
      g[rc.Row][rc.Column] > EPSILON &&
      (forall i :: 0 <= i < |g| - 1 && g[i][rc.Column] > EPSILON ==> Ratio(g, rc.Row, rc.Column) <= Ratio(g, i, rc.Column))
  {
    LegacyContinueFindsLead(step.Tableau);
  }

  /**
   * The two revisions pivot alike on a tableau they both continue on,
   * whenever their automatic columns coincide (in particular when only one
   * column can enter).
   */
  lemma RevisionsPivotAlike(step: Step, kind: ElementKind)
    requires kind == RealElements && StepReady(step, kind) && LegacyStepReady(step)
    requires step.IsAutomatic && !step.IsCompleted
    requires Classify(step.Tableau, EPSILON, step.IsArtificialStep) == Continue
    requires LegacyClassify(step.Tableau) == Continue
    requires AutoColumn(step.Tableau, EPSILON, |step.Tableau| - 1) == LastEnteringColumn(step.Tableau, |step.Tableau[0]| - 1)
    ensures SimplexStepSpec(step, kind) == LegacySimplexStepSpec(step)
  {
    var rc := AutomaticStepIsPivot(step, kind);
    LegacyAutomaticStepIsPivot(step, rc.Row, rc.Column);
  }
}
