/**
 * The drivers of the older, float-only revision, `ArtificialBasis` and
 * `SimplexAlgorithm`, without their window code.
 *
 * In step-by-step mode each collects the older candidate leads column by
 * column and, once per column, asks the older classifier for its verdict:
 * UNLIMITED_SOLUTION and COMPLETED mark the step completed. Automatic mode
 * neither classifies up front nor clears the waiting flag. A step not
 * waiting then runs at most RowNumber pivots. After a pivot on (Row, Column)
 * the ids at Row and (RowNumber - 1) + Column trade places; in phase one
 * the id now at (RowNumber - 1) + Column (the one that left the basis) is
 * erased and tableau column Column deleted, whatever that id is; a pivoted
 * tableau whose objective RHS is below EPSILON in magnitude is marked
 * completed; a step-by-step run stops after one pivot and waits for input.
 */
module LegacyDrivers {
  import opened Matrices
  import opened Steps
  import opened SimplexSteps
  import opened LegacyStateCheck
  import opened LegacySimplexSteps
  import opened LeadCandidates
  import opened Drivers

  /** What the older pivot loop needs: fitted ids on RowNumber rows and, for a step-by-step pivot, a lead in a non-RHS column. */
  ghost predicate LegacyLoopReady(step: Step, RowNumber: nat) {
    LegacyStepReady(step) && IdsFit(step) && |step.Tableau| == RowNumber &&
    (!step.IsAutomatic && LegacyClassify(step.Tableau) == Continue ==>
       step.LeadElementRC.Column < |step.Tableau[0]| - 1)
  }

  /**
   * The older id swap after a pivot on (Row, Column); in phase one the id
   * that now sits at (RowNumber - 1) + Column is erased and tableau column
   * Column deleted.
   */
  ghost function LegacyExchanged(s: Step, Retiring: bool, RowNumber: nat): (r: Step)
    requires IdsFit(s) && |s.Tableau| == RowNumber
    requires 0 <= s.StepChosenRC.Row < RowNumber && 0 <= s.StepChosenRC.Column < |s.Tableau[0]| - 1
    ensures IdsFit(r) && |r.Tableau| == RowNumber
    ensures |r.Tableau[0]| == |s.Tableau[0]| - (if Retiring then 1 else 0)
    ensures r.IsAutomatic == s.IsAutomatic && r.StepID == s.StepID && r.IsArtificialStep == s.IsArtificialStep
    ensures r.IsCompleted == s.IsCompleted
  {
    var rc := s.StepChosenRC;
    var w := s.(NumbersOfVariables := Swapped(s.NumbersOfVariables, rc.Row, (RowNumber - 1) + rc.Column));
    if Retiring then
      w.(NumbersOfVariables := Erased(w.NumbersOfVariables, (RowNumber - 1) + rc.Column),
         Tableau := DeleteColumnOf(w.Tableau, rc.Column))
    else w
  }

  /** The objective RHS of a tableau is zero within EPSILON. */
  ghost predicate RhsVanishes(g: Grid<real>)
    requires IsTableau(g)
  {
    RAbs(g[|g| - 1][|g[0]| - 1]) < EPSILON
  }

  /** The older bookkeeping after a pivot: the id exchange, and the completion mark on a vanishing objective RHS. */
  ghost function LegacyBookkeeping(s: Step, Retiring: bool, RowNumber: nat): (t: Step)
    requires IdsFit(s) && |s.Tableau| == RowNumber
    requires 0 <= s.StepChosenRC.Row < RowNumber && 0 <= s.StepChosenRC.Column < |s.Tableau[0]| - 1
    ensures IdsFit(t) && |t.Tableau| == RowNumber
    ensures t.IsAutomatic == s.IsAutomatic && t.StepID == s.StepID && t.IsArtificialStep == s.IsArtificialStep
  {
    var r := LegacyExchanged(s, Retiring, RowNumber);
    if RhsVanishes(r.Tableau) then r.(IsCompleted := true) else r
  }

  /** An older step that pivots keeps its shape, and its lead cell names a row and a non-RHS column. */
  lemma LegacyPivotedFits(step: Step, RowNumber: nat)
    requires LegacyLoopReady(step, RowNumber)
    ensures var s := LegacySimplexStepSpec(step);
      !s.IsCompleted ==>
        IdsFit(s) && |s.Tableau| == RowNumber && s.IsAutomatic == step.IsAutomatic &&
        s.StepID == step.StepID + 1 &&
        0 <= s.StepChosenRC.Row < RowNumber && 0 <= s.StepChosenRC.Column < |s.Tableau[0]| - 1
  {
  }

  /**
   * The pivots the older loop pushes when it started from step id Start: at
   * most RowNumber iterations, each adding one to the id; it stops when the
   * next step is completed, and after the first pivot of a step-by-step run,
   * which then waits for input.
   */
  ghost function LegacyPivotRun(step: Step, Retiring: bool, RowNumber: nat, Start: int): seq<Step>
    requires LegacyLoopReady(step, RowNumber)
    decreases Start + RowNumber - step.StepID
  {
    if step.StepID >= Start + RowNumber then []
    else
      LegacyPivotedFits(step, RowNumber);
      var s := LegacySimplexStepSpec(step);
      if s.IsCompleted then []
      else
        var t := LegacyBookkeeping(s, Retiring, RowNumber);
        if !t.IsAutomatic then [t.(IsWaitingForInput := true)]
        else [t] + LegacyPivotRun(t, Retiring, RowNumber, Start)
  }

  /** One unfolding of the older run. */
  lemma LegacyRunStep(step: Step, Retiring: bool, RowNumber: nat, Start: int)
    requires LegacyLoopReady(step, RowNumber) && step.StepID < Start + RowNumber
    ensures var s := LegacySimplexStepSpec(step);
      s.IsCompleted ==> LegacyPivotRun(step, Retiring, RowNumber, Start) == []
    ensures var s := LegacySimplexStepSpec(step);
      !s.IsCompleted ==>
        IdsFit(s) && |s.Tableau| == RowNumber &&
        0 <= s.StepChosenRC.Row < RowNumber && 0 <= s.StepChosenRC.Column < |s.Tableau[0]| - 1 &&
        var t := LegacyBookkeeping(s, Retiring, RowNumber);
        t.StepID == step.StepID + 1 &&
        (!t.IsAutomatic ==> LegacyPivotRun(step, Retiring, RowNumber, Start) == [t.(IsWaitingForInput := true)]) &&
        (t.IsAutomatic ==>
           LegacyLoopReady(t, RowNumber) &&
           LegacyPivotRun(step, Retiring, RowNumber, Start) == [t] + LegacyPivotRun(t, Retiring, RowNumber, Start))
  {
    LegacyPivotedFits(step, RowNumber);
  }

  /** The older id swap, erase and column deletion of one iteration. */
  method LegacyExchange(s: Step, Retiring: bool, RowNumber: nat) returns (NewStep: Step)
    requires IdsFit(s) && |s.Tableau| == RowNumber
    requires 0 <= s.StepChosenRC.Row < RowNumber && 0 <= s.StepChosenRC.Column < |s.Tableau[0]| - 1
    ensures NewStep == LegacyExchanged(s, Retiring, RowNumber)
  {
    var rc := s.StepChosenRC;
    NewStep := s.(NumbersOfVariables := Swapped(s.NumbersOfVariables, rc.Row, (RowNumber - 1) + rc.Column));
    if Retiring {
      NewStep := NewStep.(NumbersOfVariables := Erased(NewStep.NumbersOfVariables, (RowNumber - 1) + rc.Column));
      NewStep := NewStep.(Tableau := DeleteColumnOf(NewStep.Tableau, rc.Column));
    }
  }

  /** The older bookkeeping of one iteration, as the loop does it. */
  method LegacyAfterPivot(s: Step, Retiring: bool, RowNumber: nat) returns (NewStep: Step)
    requires IdsFit(s) && |s.Tableau| == RowNumber
    requires 0 <= s.StepChosenRC.Row < RowNumber && 0 <= s.StepChosenRC.Column < |s.Tableau[0]| - 1
    ensures NewStep == LegacyBookkeeping(s, Retiring, RowNumber)
  {
    NewStep := LegacyExchange(s, Retiring, RowNumber);
    var g := NewStep.Tableau;
    if RAbs(g[RowNumber - 1][|g[0]| - 1]) < EPSILON {
      NewStep := NewStep.(IsCompleted := true);
    }
  }

  /** One iteration of the older pivot loop; `Now` is what it pushes. */
  method LegacyIteration(current: Step, Retiring: bool, RowNumber: nat, ghost Start: int)
    returns (NewStep: Step, Stop: bool, Now: seq<Step>)
    requires LegacyLoopReady(current, RowNumber) && current.StepID < Start + RowNumber
    ensures Stop ==> LegacyPivotRun(current, Retiring, RowNumber, Start) == Now
    ensures !Stop ==>
      Now == [NewStep] && LegacyLoopReady(NewStep, RowNumber) && NewStep.StepID == current.StepID + 1 &&
      LegacyPivotRun(current, Retiring, RowNumber, Start) == Now + LegacyPivotRun(NewStep, Retiring, RowNumber, Start)
  {
    LegacyRunStep(current, Retiring, RowNumber, Start);
    NewStep := LegacySimplexStep(current);
    if NewStep.IsCompleted {
      return NewStep, true, [];
    }
    NewStep := LegacyAfterPivot(NewStep, Retiring, RowNumber);
    if !NewStep.IsAutomatic {
      NewStep := NewStep.(IsWaitingForInput := true);
      return NewStep, true, [NewStep];
    }
    return NewStep, false, [NewStep];
  }

  /**
   * The history the older loop leaves when it starts on `History` from
   * `step`: each pivot it does is appended at the end.
   */
  ghost function LegacyHistoryAfter(History: seq<Step>, step: Step, Retiring: bool, RowNumber: nat, Start: int): seq<Step>
    requires LegacyLoopReady(step, RowNumber)
    decreases Start + RowNumber - step.StepID
  {
    if step.StepID >= Start + RowNumber then History
    else
      LegacyPivotedFits(step, RowNumber);
      var s := LegacySimplexStepSpec(step);
      if s.IsCompleted then History
      else
        var t := LegacyBookkeeping(s, Retiring, RowNumber);
        if !t.IsAutomatic then History + [t.(IsWaitingForInput := true)]
        else LegacyHistoryAfter(History + [t], t, Retiring, RowNumber, Start)
  }

  /** The history the older loop leaves is the one it found followed by the run. */
  lemma {:induction false} LegacyHistoryAfterRun(History: seq<Step>, step: Step, Retiring: bool, RowNumber: nat, Start: int)
    requires LegacyLoopReady(step, RowNumber)
    ensures LegacyHistoryAfter(History, step, Retiring, RowNumber, Start) == History + LegacyPivotRun(step, Retiring, RowNumber, Start)
    decreases Start + RowNumber - step.StepID
  {
    if step.StepID < Start + RowNumber {
      LegacyPivotedFits(step, RowNumber);
      var s := LegacySimplexStepSpec(step);
      if !s.IsCompleted {
        var t := LegacyBookkeeping(s, Retiring, RowNumber);
        if t.IsAutomatic {
          LegacyRunStep(step, Retiring, RowNumber, Start);
          LegacyHistoryAfterRun(History + [t], t, Retiring, RowNumber, Start);
          ConcatAssoc(History, [t], LegacyPivotRun(t, Retiring, RowNumber, Start));
        }
      }
    }
  }

  /** One turn of the older pivot loop: the history the loop will leave does not change. */
  method LegacyAdvance(current: Step, Retiring: bool, RowNumber: nat, Pushed: seq<Step>, ghost Start: int)
    returns (NewStep: Step, Stop: bool, NewPushed: seq<Step>)
    requires LegacyLoopReady(current, RowNumber) && current.StepID < Start + RowNumber
    ensures Stop ==> NewPushed == LegacyHistoryAfter(Pushed, current, Retiring, RowNumber, Start)
    ensures !Stop ==>
      LegacyLoopReady(NewStep, RowNumber) && NewStep.StepID == current.StepID + 1 &&
      LegacyHistoryAfter(NewPushed, NewStep, Retiring, RowNumber, Start) ==
      LegacyHistoryAfter(Pushed, current, Retiring, RowNumber, Start)
  {
    var Now;
    NewStep, Stop, Now := LegacyIteration(current, Retiring, RowNumber, Start);
    NewPushed := Pushed + Now;
    LegacyHistoryAfterRun(Pushed, current, Retiring, RowNumber, Start);
    if !Stop {
      LegacyHistoryAfterRun(NewPushed, NewStep, Retiring, RowNumber, Start);
      ConcatAssoc(Pushed, Now, LegacyPivotRun(NewStep, Retiring, RowNumber, Start));
    }
  }

  /** The older bounded pivot loop; it returns the steps it pushes. */
  method LegacyPivotLoop(step: Step, Retiring: bool, RowNumber: nat) returns (Pushed: seq<Step>)
    requires LegacyLoopReady(step, RowNumber)
    ensures Pushed == LegacyPivotRun(step, Retiring, RowNumber, step.StepID)
  {
    LegacyHistoryAfterRun([], step, Retiring, RowNumber, step.StepID);
    ghost var Whole := LegacyHistoryAfter([], step, Retiring, RowNumber, step.StepID);
    Pushed := [];
    var current := step;
    var iteration := 0;
    while iteration < RowNumber
      invariant 0 <= iteration <= RowNumber && current.StepID == step.StepID + iteration
      invariant LegacyLoopReady(current, RowNumber)
      invariant LegacyHistoryAfter(Pushed, current, Retiring, RowNumber, step.StepID) == Whole
    {
      var NewStep, Stop, NewPushed := LegacyAdvance(current, Retiring, RowNumber, Pushed, step.StepID);
      Pushed := NewPushed;
      if Stop {
        return;
      }
      current := NewStep;
      iteration := iteration + 1;
    }
  }

  /**
   * What an older driver needs of its step: fitted ids and, when a
   * step-by-step step that no longer waits for input pivots, a usable lead
   * in a non-RHS column. The lead of a step still waiting is never read.
   */
  ghost predicate LegacyDriverReady(step: Step) {
    IdsFit(step) &&
    (!step.IsAutomatic && !step.IsWaitingForInput && LegacyClassify(step.Tableau) == Continue ==>
       ManualLeadValid(step) && step.LeadElementRC.Column < |step.Tableau[0]| - 1)
  }

  /** What an older driver's loop needs of its step: fitted ids, and what the older pivot loop needs unless the step waits. */
  ghost predicate LegacyRunReady(e: Step) {
    IdsFit(e) && (!e.IsWaitingForInput ==> LegacyLoopReady(e, |e.Tableau|))
  }

  /**
   * Whether the step-by-step lead loop marks the step completed: it asks
   * the older classifier once per non-RHS column, so only when there is one.
   */
  ghost function LegacyMarked(step: Step): bool
    requires IsTableau(step.Tableau)
  {
    !step.IsAutomatic && |step.Tableau[0]| > 1 && LegacyClassify(step.Tableau) != Continue
  }

  /** A step marked only on a verdict other than CONTINUE is still ready for the older driver's loop. */
  lemma LegacyEnteredReady(step: Step)
    requires LegacyDriverReady(step)
    ensures LegacyRunReady(MarkedStep(step, LegacyMarked(step)))
  {
  }

  /** The older pivots from the entered step: none while it waits for input. */
  ghost function LegacyDriverRun(e: Step, Retiring: bool): seq<Step>
    requires LegacyRunReady(e)
  {
    if e.IsWaitingForInput then [] else LegacyPivotRun(e, Retiring, |e.Tableau|, e.StepID)
  }

  /** The older cells offered for a manual choice; phase one skips those in banned rows. */
  ghost function LegacyOffered(step: Step, ExcludeBanned: bool): seq<RowAndColumn>
    requires IsTableau(step.Tableau)
  {
    if step.IsAutomatic then [] else LegacyLeads(step.Tableau, step.RowsBannedToSwap, ExcludeBanned)
  }

  /**
   * The older `ArtificialBasis`: nothing once phase one is completed;
   * otherwise the step-by-step lead loop (leads outside banned rows, and the
   * completion mark), then the pivot loop with retirement.
   */
  ghost function LegacyArtificialBasisSpec(step: Step): DriverResult
    requires LegacyDriverReady(step)
  {
    if step.IsArtificialStep && step.IsCompleted then DriverResult([], [])
    else
      LegacyEnteredReady(step);
      DriverResult(LegacyDriverRun(MarkedStep(step, LegacyMarked(step)), true), LegacyOffered(step, true))
  }

  /**
   * The older `SimplexAlgorithm`: nothing once a phase-two step is
   * completed; otherwise the step-by-step lead loop (every lead, and the
   * completion mark), then the pivot loop without retirement.
   */
  ghost function LegacySimplexAlgorithmSpec(step: Step): DriverResult
    requires LegacyDriverReady(step)
  {
    if !step.IsArtificialStep && step.IsCompleted then DriverResult([], [])
    else
      LegacyEnteredReady(step);
      DriverResult(LegacyDriverRun(MarkedStep(step, LegacyMarked(step)), false), LegacyOffered(step, false))
  }

  /** The older step-by-step lead loop: one candidate and one verdict per non-RHS column. */
  method LegacyChooseLeads(step: Step, ExcludeBanned: bool) returns (current: Step, Leads: seq<RowAndColumn>)
    requires IsTableau(step.Tableau) && !step.IsAutomatic
    ensures current == MarkedStep(step, LegacyMarked(step))
    ensures Leads == LegacyLeads(step.Tableau, step.RowsBannedToSwap, ExcludeBanned)
  {
    var g := step.Tableau;
    current := step;
    Leads := [];
    var CurrentColumnIndex := -1;
    var i := 0;
    while i < |g[0]| - 1
      invariant 0 <= i <= |g[0]| - 1
      invariant Leads == LegacyLeadsUpTo(g, step.RowsBannedToSwap, ExcludeBanned, i)
      invariant current == MarkedStep(step, i > 0 && LegacyClassify(g) != Continue)
    {
      Leads := PushLegacyLead(g, step.RowsBannedToSwap, ExcludeBanned, Leads, i);
      assert LegacyLeadsUpTo(g, step.RowsBannedToSwap, ExcludeBanned, i + 1) ==
        LegacyLeadsUpTo(g, step.RowsBannedToSwap, ExcludeBanned, i) + LegacyColumnLeads(g, step.RowsBannedToSwap, ExcludeBanned, i);
      var state;
      state, CurrentColumnIndex := CheckAlgorithmState(g, step.IsAutomatic, step.IsArtificialStep, CurrentColumnIndex);
      if state == UnlimitedSolution {
        current := current.(IsCompleted := true);
      } else if state == Completed {
        current := current.(IsCompleted := true);
      }
      i := i + 1;
    }
  }

  /** The older loop of a driver, entered only when the step is not waiting for input. */
  method LegacyRunDriverLoop(current: Step, Retiring: bool) returns (Pushed: seq<Step>)
    requires LegacyRunReady(current)
    ensures Pushed == LegacyDriverRun(current, Retiring)
  {
    Pushed := [];
    if !current.IsWaitingForInput {
      Pushed := LegacyPivotLoop(current, Retiring, |current.Tableau|);
    }
  }

  /** The older `ArtificialBasis` (phase one), with the offered leads and the pushed steps as results. */
  method LegacyArtificialBasis(step: Step) returns (ArtificialBasisSteps: seq<Step>, Leads: seq<RowAndColumn>)
    requires LegacyDriverReady(step)
    ensures DriverResult(ArtificialBasisSteps, Leads) == LegacyArtificialBasisSpec(step)
  {
    ArtificialBasisSteps := [];
    Leads := [];
    if step.IsArtificialStep && step.IsCompleted {
      return;
    }
    var current := step;
    if !step.IsAutomatic {
      current, Leads := LegacyChooseLeads(step, true);
    }
    LegacyEnteredReady(step);
    ArtificialBasisSteps := LegacyRunDriverLoop(current, true);
  }

  /** The older `SimplexAlgorithm` (phase two), with the offered leads and the pushed steps as results. */
  method LegacySimplexAlgorithm(step: Step) returns (SimplexAlgorithmSteps: seq<Step>, Leads: seq<RowAndColumn>)
    requires LegacyDriverReady(step)
    ensures DriverResult(SimplexAlgorithmSteps, Leads) == LegacySimplexAlgorithmSpec(step)
  {
    SimplexAlgorithmSteps := [];
    Leads := [];
    if !step.IsArtificialStep && step.IsCompleted {
      return;
    }
    var current := step;
    if !step.IsAutomatic {
      current, Leads := LegacyChooseLeads(step, false);
    }
    LegacyEnteredReady(step);
    SimplexAlgorithmSteps := LegacyRunDriverLoop(current, false);
  }
}
