/**
 * The drivers of the current revision, `ArtificialBasis` (phase one) and
 * `SimplexAlgorithm` (phase two), without their window code.
 *
 * Each classifies the incoming step, offers the candidate lead cells in
 * step-by-step mode, and then runs at most RowNumber pivots. After a pivot
 * on (Row, Column) the ids at Row and (RowNumber - 1) + Column trade places;
 * in phase one the first non-basic id above the structural-variable count
 * is then erased with its tableau column; a pivoted tableau the classifier
 * calls COMPLETED is marked completed; a step-by-step run stops after one
 * pivot and waits for input.
 */
module Drivers {
  import opened Matrices
  import opened Steps
  import opened StateCheck
  import opened SimplexSteps
  import opened LeadCandidates

  /** NumbersOfVariables holds one id per constraint row (the basic ones), then one per non-RHS column. */
  ghost predicate IdsFit(step: Step) {
    IsTableau(step.Tableau) && |step.NumbersOfVariables| == (|step.Tableau| - 1) + (|step.Tableau[0]| - 1)
  }

  /**
   * What the pivot loop needs of a step: fitted ids on a tableau of RowNumber
   * rows, and, when a step-by-step step pivots, a usable lead cell in a
   * non-RHS column.
   */
  ghost predicate LoopReady(step: Step, kind: ElementKind, RowNumber: nat) {
    StepReady(step, kind) && IdsFit(step) && |step.Tableau| == RowNumber &&
    (!step.IsAutomatic && !step.IsCompleted && Classify(step.Tableau, ZeroElement(kind), step.IsArtificialStep) == Continue ==>
       step.LeadElementRC.Column < |step.Tableau[0]| - 1)
  }

  /** The first position from `from` on whose id exceeds StructuralCount, or -1. */
  function FirstArtificial(ids: seq<int>, from: nat, StructuralCount: int): (i: int)
    ensures i == -1 || (from <= i < |ids| && ids[i] > StructuralCount)
    ensures i == -1 <==> forall j :: from <= j < |ids| ==> ids[j] <= StructuralCount
    ensures i != -1 ==> forall j :: from <= j < i ==> ids[j] <= StructuralCount
    decreases |ids| - from
  {
    if from >= |ids| then -1
    else if ids[from] > StructuralCount then from
    else FirstArtificial(ids, from + 1, StructuralCount)
  }

  /** NumbersOfVariables with position i erased. */
  function Erased(ids: seq<int>, i: nat): (r: seq<int>)
    requires i < |ids|
    ensures |r| == |ids| - 1
  {
    ids[..i] + ids[i + 1..]
  }

  /** Erasing one position takes exactly that id out of the multiset. */
  lemma ErasedIds(ids: seq<int>, i: nat)
    requires i < |ids|
    ensures multiset(Erased(ids, i)) + multiset{ids[i]} == multiset(ids)
  {
    assert ids == ids[..i] + [ids[i]] + ids[i + 1..];
  }

  /** Phase-one retirement: the first non-basic id above StructuralCount is erased and its column deleted. */
  ghost function Retired(s: Step, RowNumber: nat, StructuralCount: int): (t: Step)
    requires IdsFit(s) && |s.Tableau| == RowNumber
    ensures IdsFit(t) && |t.Tableau| == RowNumber
  {
    var i := FirstArtificial(s.NumbersOfVariables, RowNumber - 1, StructuralCount);
    if i == -1 then s
    else s.(NumbersOfVariables := Erased(s.NumbersOfVariables, i),
            Tableau := DeleteColumnOf(s.Tableau, i - (RowNumber - 1)))
  }

  /** The id swap after a pivot on (Row, Column), then phase-one retirement. */
  ghost function Exchanged(s: Step, Retiring: bool, StructuralCount: int, RowNumber: nat): (r: Step)
    requires IdsFit(s) && |s.Tableau| == RowNumber
    requires 0 <= s.StepChosenRC.Row < RowNumber && 0 <= s.StepChosenRC.Column < |s.Tableau[0]| - 1
    ensures IdsFit(r) && |r.Tableau| == RowNumber
    ensures r.IsAutomatic == s.IsAutomatic && r.StepID == s.StepID && r.IsArtificialStep == s.IsArtificialStep
    ensures r.IsCompleted == s.IsCompleted
  {
    var rc := s.StepChosenRC;
    var w := s.(NumbersOfVariables := Swapped(s.NumbersOfVariables, rc.Row, (RowNumber - 1) + rc.Column));
    if Retiring then Retired(w, RowNumber, StructuralCount) else w
  }

  /** The bookkeeping after a pivot: the id exchange, and the COMPLETED mark. */
  ghost function Bookkeeping(s: Step, kind: ElementKind, Retiring: bool, StructuralCount: int, RowNumber: nat): (t: Step)
    requires IdsFit(s) && |s.Tableau| == RowNumber
    requires 0 <= s.StepChosenRC.Row < RowNumber && 0 <= s.StepChosenRC.Column < |s.Tableau[0]| - 1
    ensures IdsFit(t) && |t.Tableau| == RowNumber
    ensures t.IsAutomatic == s.IsAutomatic && t.StepID == s.StepID && t.IsArtificialStep == s.IsArtificialStep
  {
    var r := Exchanged(s, Retiring, StructuralCount, RowNumber);
    if Classify(r.Tableau, ZeroElement(kind), r.IsArtificialStep) == Completed then r.(IsCompleted := true) else r
  }

  /** A step that pivots keeps its shape, and its lead cell names a row and a non-RHS column. */
  lemma PivotedFits(step: Step, kind: ElementKind, RowNumber: nat)
    requires LoopReady(step, kind, RowNumber)
    ensures var s := SimplexStepSpec(step, kind);
      !s.IsCompleted ==>
        IdsFit(s) && |s.Tableau| == RowNumber && s.IsAutomatic == step.IsAutomatic &&
        s.StepID == step.StepID + 1 &&
        0 <= s.StepChosenRC.Row < RowNumber && 0 <= s.StepChosenRC.Column < |s.Tableau[0]| - 1
  {
    var s := SimplexStepSpec(step, kind);
    if !s.IsCompleted && step.IsAutomatic {
      var rc := AutomaticStepIsPivot(step, kind);
    }
  }

  /**
   * The pivots the loop pushes when it started from step id Start: it runs
   * at most RowNumber iterations, each of which adds one to the id; it stops
   * when the next step is completed, and after the first pivot of a
   * step-by-step run, which then waits for input.
   */
  ghost function PivotRun(step: Step, kind: ElementKind, Retiring: bool, StructuralCount: int, RowNumber: nat, Start: int): seq<Step>
    requires LoopReady(step, kind, RowNumber)
    decreases Start + RowNumber - step.StepID
  {
    if step.StepID >= Start + RowNumber then []
    else
      PivotedFits(step, kind, RowNumber);
      var s := SimplexStepSpec(step, kind);
      if s.IsCompleted then []
      else
        var t := Bookkeeping(s, kind, Retiring, StructuralCount, RowNumber);
        if !t.IsAutomatic then [t.(IsWaitingForInput := true)]
        else [t] + PivotRun(t, kind, Retiring, StructuralCount, RowNumber, Start)
  }

  /** One unfolding of the run: a completed step ends it, a step-by-step pivot ends it waiting, an automatic pivot goes on. */
  lemma RunStep(step: Step, kind: ElementKind, Retiring: bool, StructuralCount: int, RowNumber: nat, Start: int)
    requires LoopReady(step, kind, RowNumber) && step.StepID < Start + RowNumber
    ensures var s := SimplexStepSpec(step, kind);
      s.IsCompleted ==> PivotRun(step, kind, Retiring, StructuralCount, RowNumber, Start) == []
    ensures var s := SimplexStepSpec(step, kind);
      !s.IsCompleted ==>
        IdsFit(s) && |s.Tableau| == RowNumber &&
        0 <= s.StepChosenRC.Row < RowNumber && 0 <= s.StepChosenRC.Column < |s.Tableau[0]| - 1 &&
        var t := Bookkeeping(s, kind, Retiring, StructuralCount, RowNumber);
        t.StepID == step.StepID + 1 &&
        (!t.IsAutomatic ==> PivotRun(step, kind, Retiring, StructuralCount, RowNumber, Start) == [t.(IsWaitingForInput := true)]) &&
        (t.IsAutomatic ==>
           LoopReady(t, kind, RowNumber) &&
           PivotRun(step, kind, Retiring, StructuralCount, RowNumber, Start) == [t] + PivotRun(t, kind, Retiring, StructuralCount, RowNumber, Start))
  {
    PivotedFits(step, kind, RowNumber);
  }

  /** The retirement loop over the non-basic ids. */
  method RetireArtificial(NewStep: Step, RowNumber: nat, StructuralCount: int) returns (RetiredStep: Step)
    requires IdsFit(NewStep) && |NewStep.Tableau| == RowNumber
    ensures RetiredStep == Retired(NewStep, RowNumber, StructuralCount)
  {
    RetiredStep := NewStep;
    var i := RowNumber - 1;
    while i < |NewStep.NumbersOfVariables|
      invariant RowNumber - 1 <= i <= |NewStep.NumbersOfVariables|
      invariant RetiredStep == NewStep
      invariant FirstArtificial(NewStep.NumbersOfVariables, i, StructuralCount) ==
        FirstArtificial(NewStep.NumbersOfVariables, RowNumber - 1, StructuralCount)
    {
      if NewStep.NumbersOfVariables[i] > StructuralCount {
        RetiredStep := NewStep.(NumbersOfVariables := Erased(NewStep.NumbersOfVariables, i),
                                Tableau := DeleteColumnOf(NewStep.Tableau, i - (RowNumber - 1)));
        break;
      }
      i := i + 1;
    }
  }

  /** The id swap and the retirement of one iteration. */
  method Exchange(s: Step, Retiring: bool, StructuralCount: int, RowNumber: nat) returns (NewStep: Step)
    requires IdsFit(s) && |s.Tableau| == RowNumber
    requires 0 <= s.StepChosenRC.Row < RowNumber && 0 <= s.StepChosenRC.Column < |s.Tableau[0]| - 1
    ensures NewStep == Exchanged(s, Retiring, StructuralCount, RowNumber)
  {
    var rc := s.StepChosenRC;
    NewStep := s.(NumbersOfVariables := Swapped(s.NumbersOfVariables, rc.Row, (RowNumber - 1) + rc.Column));
    assert NewStep.Tableau == s.Tableau && |NewStep.NumbersOfVariables| == |s.NumbersOfVariables|;
    if Retiring {
      assert Exchanged(s, true, StructuralCount, RowNumber) == Retired(NewStep, RowNumber, StructuralCount);
      NewStep := RetireArtificial(NewStep, RowNumber, StructuralCount);
    } else {
      assert Exchanged(s, false, StructuralCount, RowNumber) == NewStep;
    }
  }

  /** The bookkeeping of one iteration, as the loop does it. */
  method AfterPivot(s: Step, kind: ElementKind, Retiring: bool, StructuralCount: int, RowNumber: nat) returns (NewStep: Step)
    requires IdsFit(s) && |s.Tableau| == RowNumber
    requires 0 <= s.StepChosenRC.Row < RowNumber && 0 <= s.StepChosenRC.Column < |s.Tableau[0]| - 1
    ensures NewStep == Bookkeeping(s, kind, Retiring, StructuralCount, RowNumber)
  {
    NewStep := Exchange(s, Retiring, StructuralCount, RowNumber);
    var state := CheckAlgorithmState(NewStep.Tableau, kind, false, NewStep.IsArtificialStep);
    if state == Completed {
      NewStep := NewStep.(IsCompleted := true);
    }
  }

  /**
   * One iteration of the pivot loop: the pivot, then either a stop (the step
   * is completed, or a step-by-step pivot now waits for input) or the step
   * the loop goes on from. `Now` is what this iteration pushes.
   */
  method Iteration(current: Step, kind: ElementKind, Retiring: bool, StructuralCount: int, RowNumber: nat, ghost Start: int)
    returns (NewStep: Step, Stop: bool, Now: seq<Step>)
    requires LoopReady(current, kind, RowNumber) && current.StepID < Start + RowNumber
    ensures Stop ==> PivotRun(current, kind, Retiring, StructuralCount, RowNumber, Start) == Now
    ensures !Stop ==>
      Now == [NewStep] && LoopReady(NewStep, kind, RowNumber) && NewStep.StepID == current.StepID + 1 &&
      PivotRun(current, kind, Retiring, StructuralCount, RowNumber, Start) ==
      Now + PivotRun(NewStep, kind, Retiring, StructuralCount, RowNumber, Start)
  {
    RunStep(current, kind, Retiring, StructuralCount, RowNumber, Start);
    NewStep := SimplexStep(current, kind);
    if NewStep.IsCompleted {
      return NewStep, true, [];
    }
    NewStep := AfterPivot(NewStep, kind, Retiring, StructuralCount, RowNumber);
    if !NewStep.IsAutomatic {
      NewStep := NewStep.(IsWaitingForInput := true);
      return NewStep, true, [NewStep];
    }
    return NewStep, false, [NewStep];
  }

  lemma ConcatAssoc<T>(a: seq<T>, b: seq<T>, c: seq<T>)
    ensures (a + b) + c == a + (b + c)
  {
  }

  /**
   * The history the loop leaves when it starts on `History` from `step`:
   * each pivot it does is appended at the end, as the source pushes onto
   * its step list.
   */
  ghost function HistoryAfter(History: seq<Step>, step: Step, kind: ElementKind, Retiring: bool, StructuralCount: int,
                              RowNumber: nat, Start: int): seq<Step>
    requires LoopReady(step, kind, RowNumber)
    decreases Start + RowNumber - step.StepID
  {
    if step.StepID >= Start + RowNumber then History
    else
      PivotedFits(step, kind, RowNumber);
      var s := SimplexStepSpec(step, kind);
      if s.IsCompleted then History
      else
        var t := Bookkeeping(s, kind, Retiring, StructuralCount, RowNumber);
        if !t.IsAutomatic then History + [t.(IsWaitingForInput := true)]
        else HistoryAfter(History + [t], t, kind, Retiring, StructuralCount, RowNumber, Start)
  }

  /** The history the loop leaves is the one it found followed by the run. */
  lemma {:induction false} HistoryAfterRun(History: seq<Step>, step: Step, kind: ElementKind, Retiring: bool,
                                           StructuralCount: int, RowNumber: nat, Start: int)
    requires LoopReady(step, kind, RowNumber)
    ensures HistoryAfter(History, step, kind, Retiring, StructuralCount, RowNumber, Start) ==
            History + PivotRun(step, kind, Retiring, StructuralCount, RowNumber, Start)
    decreases Start + RowNumber - step.StepID
  {
    if step.StepID < Start + RowNumber {
      PivotedFits(step, kind, RowNumber);
      var s := SimplexStepSpec(step, kind);
      if !s.IsCompleted {
        var t := Bookkeeping(s, kind, Retiring, StructuralCount, RowNumber);
        if t.IsAutomatic {
          RunStep(step, kind, Retiring, StructuralCount, RowNumber, Start);
          HistoryAfterRun(History + [t], t, kind, Retiring, StructuralCount, RowNumber, Start);
          ConcatAssoc(History, [t], PivotRun(t, kind, Retiring, StructuralCount, RowNumber, Start));
        }
      }
    }
  }

  /** One turn of the pivot loop: the history the loop will leave does not change. */
  method Advance(current: Step, kind: ElementKind, Retiring: bool, StructuralCount: int, RowNumber: nat,
                 Pushed: seq<Step>, ghost Start: int)
    returns (NewStep: Step, Stop: bool, NewPushed: seq<Step>)
    requires LoopReady(current, kind, RowNumber) && current.StepID < Start + RowNumber
    ensures Stop ==> NewPushed == HistoryAfter(Pushed, current, kind, Retiring, StructuralCount, RowNumber, Start)
    ensures !Stop ==>
      LoopReady(NewStep, kind, RowNumber) && NewStep.StepID == current.StepID + 1 &&
      HistoryAfter(NewPushed, NewStep, kind, Retiring, StructuralCount, RowNumber, Start) ==
      HistoryAfter(Pushed, current, kind, Retiring, StructuralCount, RowNumber, Start)
  {
    var Now;
    NewStep, Stop, Now := Iteration(current, kind, Retiring, StructuralCount, RowNumber, Start);
    NewPushed := Pushed + Now;
    HistoryAfterRun(Pushed, current, kind, Retiring, StructuralCount, RowNumber, Start);
    if !Stop {
      HistoryAfterRun(NewPushed, NewStep, kind, Retiring, StructuralCount, RowNumber, Start);
      ConcatAssoc(Pushed, Now, PivotRun(NewStep, kind, Retiring, StructuralCount, RowNumber, Start));
    }
  }

  /** The bounded pivot loop shared by both phases; it returns the steps it pushes. */
  method PivotLoop(step: Step, kind: ElementKind, Retiring: bool, StructuralCount: int, RowNumber: nat) returns (Pushed: seq<Step>)
    requires LoopReady(step, kind, RowNumber)
    ensures Pushed == PivotRun(step, kind, Retiring, StructuralCount, RowNumber, step.StepID)
  {
    HistoryAfterRun([], step, kind, Retiring, StructuralCount, RowNumber, step.StepID);
    ghost var Whole := HistoryAfter([], step, kind, Retiring, StructuralCount, RowNumber, step.StepID);
    Pushed := [];
    var current := step;
    var iteration := 0;
    while iteration < RowNumber
      invariant 0 <= iteration <= RowNumber && current.StepID == step.StepID + iteration
      invariant LoopReady(current, kind, RowNumber)
      invariant HistoryAfter(Pushed, current, kind, Retiring, StructuralCount, RowNumber, step.StepID) == Whole
    {
      var NewStep, Stop, NewPushed := Advance(current, kind, Retiring, StructuralCount, RowNumber, Pushed, step.StepID);
      Pushed := NewPushed;
      if Stop {
        return;
      }
      current := NewStep;
      iteration := iteration + 1;
    }
  }

  /** What one call of a driver produces: the steps it pushes and the candidate lead cells. */
  datatype DriverResult = DriverResult(Pushed: seq<Step>, PotentialLeads: seq<RowAndColumn>)

  /**
   * What a driver needs of its step: fitted ids and, when a step-by-step
   * step that no longer waits for input pivots, a usable lead in a non-RHS
   * column. A step still waiting for input is only offered the candidate
   * cells; its `LeadElementRC` is never read and may be anything.
   */
  ghost predicate DriverReady(step: Step, kind: ElementKind) {
    IdsFit(step) &&
    (!step.IsAutomatic && !step.IsCompleted && !step.IsWaitingForInput &&
     Classify(step.Tableau, ZeroElement(kind), step.IsArtificialStep) == Continue ==>
       ManualLeadValid(step) && step.LeadElementRC.Column < |step.Tableau[0]| - 1)
  }

  /** What a driver's loop needs of the entered step: fitted ids, and what the pivot loop needs unless the step waits for input. */
  ghost predicate RunReady(e: Step, kind: ElementKind) {
    IdsFit(e) && (!e.IsWaitingForInput ==> LoopReady(e, kind, |e.Tableau|))
  }

  /** The step with its verdict recorded: marked completed when `Marked`. */
  function MarkedStep(step: Step, Marked: bool): (m: Step)
    ensures m.IsCompleted == (step.IsCompleted || Marked)
    ensures m == step.(IsCompleted := m.IsCompleted)
  {
    if Marked then step.(IsCompleted := true) else step
  }

  /** The step a driver hands to its loop: in automatic mode it no longer waits for input. */
  function Entered(step: Step): (e: Step)
    ensures e.IsWaitingForInput == (step.IsWaitingForInput && !step.IsAutomatic)
    ensures e == step.(IsWaitingForInput := e.IsWaitingForInput)
  {
    if step.IsAutomatic then step.(IsWaitingForInput := false) else step
  }

  /** A step marked only when the verdict is not CONTINUE is still ready for the driver's loop. */
  lemma EnteredReady(step: Step, kind: ElementKind, Marked: bool)
    requires DriverReady(step, kind)
    requires Marked ==> Classify(step.Tableau, ZeroElement(kind), step.IsArtificialStep) != Continue
    ensures RunReady(Entered(MarkedStep(step, Marked)), kind)
  {
  }

  /** The pivots a driver runs from the entered step: none while it waits for input. */
  ghost function DriverRun(e: Step, kind: ElementKind, Retiring: bool, StructuralCount: int): seq<Step>
    requires RunReady(e, kind)
  {
    if e.IsWaitingForInput then [] else PivotRun(e, kind, Retiring, StructuralCount, |e.Tableau|, e.StepID)
  }

  /** The cells offered for a manual choice: the candidates of a step-by-step step when `Offer` holds, or none. */
  ghost function OfferedLeads(step: Step, kind: ElementKind, Offer: bool): seq<RowAndColumn>
    requires IsTableau(step.Tableau)
  {
    if !step.IsAutomatic && Offer then CandidateLeads(step.Tableau, kind) else []
  }

  /**
   * `ArtificialBasis`: nothing once phase one is completed; otherwise a
   * verdict other than CONTINUE marks the step completed (SOLUTION_DOESNT_EXIST
   * also pushes it), step-by-step mode offers the candidate cells, automatic
   * mode clears the waiting flag, and a step not waiting runs the loop with
   * retirement.
   */
  ghost function ArtificialBasisSpec(step: Step, kind: ElementKind, StructuralCount: int): DriverResult
    requires DriverReady(step, kind)
  {
    if step.IsArtificialStep && step.IsCompleted then DriverResult([], [])
    else
      var state := Classify(step.Tableau, ZeroElement(kind), step.IsArtificialStep);
      var marked := MarkedStep(step, state != Continue);
      var reported := if state == SolutionDoesntExist then [marked] else [];
      EnteredReady(step, kind, state != Continue);
      DriverResult(reported + DriverRun(Entered(marked), kind, true, StructuralCount), OfferedLeads(marked, kind, true))
  }

  /**
   * `SimplexAlgorithm`: nothing once a phase-two step is completed;
   * otherwise UNLIMITED_SOLUTION and COMPLETED mark the step completed,
   * step-by-step mode offers the candidate cells when the verdict is
   * CONTINUE, and a step not waiting runs the loop without retirement.
   */
  ghost function SimplexAlgorithmSpec(step: Step, kind: ElementKind): DriverResult
    requires DriverReady(step, kind)
  {
    if !step.IsArtificialStep && step.IsCompleted then DriverResult([], [])
    else
      var state := Classify(step.Tableau, ZeroElement(kind), step.IsArtificialStep);
      var marked := MarkedStep(step, state == UnlimitedSolution || state == Completed);
      EnteredReady(step, kind, state == UnlimitedSolution || state == Completed);
      DriverResult(DriverRun(Entered(marked), kind, false, 0), OfferedLeads(marked, kind, state == Continue))
  }

  /** The verdict switch of `ArtificialBasis`: every verdict but CONTINUE ends phase one; SOLUTION_DOESNT_EXIST is also pushed. */
  method ArtificialVerdict(step: Step, kind: ElementKind) returns (current: Step, state: AlgorithmState, Reported: seq<Step>)
    requires IsTableau(step.Tableau)
    ensures state == Classify(step.Tableau, ZeroElement(kind), step.IsArtificialStep)
    ensures current == MarkedStep(step, state != Continue)
    ensures Reported == if state == SolutionDoesntExist then [current] else []
  {
    current := step;
    Reported := [];
    state := CheckAlgorithmState(current.Tableau, kind, current.IsAutomatic, current.IsArtificialStep);
    if state == UnlimitedSolution {
      current := current.(IsCompleted := true);
    } else if state == Completed {
      current := current.(IsCompleted := true);
    } else if state == SolutionDoesntExist {
      current := current.(IsCompleted := true);
      Reported := Reported + [current];
    }
  }

  /** The verdict switch of `SimplexAlgorithm`: UNLIMITED_SOLUTION and COMPLETED end phase two. */
  method SimplexVerdict(step: Step, kind: ElementKind) returns (current: Step, state: AlgorithmState)
    requires IsTableau(step.Tableau)
    ensures state == Classify(step.Tableau, ZeroElement(kind), step.IsArtificialStep)
    ensures current == MarkedStep(step, state == UnlimitedSolution || state == Completed)
  {
    current := step;
    state := CheckAlgorithmState(current.Tableau, kind, current.IsAutomatic, current.IsArtificialStep);
    if state == UnlimitedSolution {
      current := current.(IsCompleted := true);
    } else if state == Completed {
      current := current.(IsCompleted := true);
    }
  }

  /** Step-by-step mode collects the candidate cells (when `Offer` holds); automatic mode stops waiting for input. */
  method OfferLeads(current: Step, kind: ElementKind, Offer: bool) returns (entered: Step, PotentialLeads: seq<RowAndColumn>)
    requires IsTableau(current.Tableau)
    ensures entered == Entered(current)
    ensures PotentialLeads == OfferedLeads(current, kind, Offer)
  {
    entered := current;
    PotentialLeads := [];
    if !current.IsAutomatic {
      if Offer {
        PotentialLeads := FindPotentialLeads(current.Tableau, kind);
      }
    } else {
      entered := entered.(IsWaitingForInput := false);
    }
  }

  /** The loop of a driver, entered only when the step is not waiting for input. */
  method RunDriverLoop(current: Step, kind: ElementKind, Retiring: bool, StructuralCount: int) returns (Pushed: seq<Step>)
    requires RunReady(current, kind)
    ensures Pushed == DriverRun(current, kind, Retiring, StructuralCount)
  {
    Pushed := [];
    if !current.IsWaitingForInput {
      Pushed := PivotLoop(current, kind, Retiring, StructuralCount, |current.Tableau|);
    }
  }

  /** `ArtificialBasis` (phase one), with the candidate cells and the pushed steps as results. */
  method ArtificialBasis(step: Step, kind: ElementKind, StructuralCount: int)
    returns (ArtificialBasisSteps: seq<Step>, PotentialLeads: seq<RowAndColumn>)
    requires DriverReady(step, kind)
    ensures DriverResult(ArtificialBasisSteps, PotentialLeads) == ArtificialBasisSpec(step, kind, StructuralCount)
  {
    PotentialLeads := [];
    ArtificialBasisSteps := [];
    if step.IsArtificialStep && step.IsCompleted {
      return;
    }
    var current, state;
    current, state, ArtificialBasisSteps := ArtificialVerdict(step, kind);
    current, PotentialLeads := OfferLeads(current, kind, true);
    EnteredReady(step, kind, state != Continue);
    var run := RunDriverLoop(current, kind, true, StructuralCount);
    ArtificialBasisSteps := ArtificialBasisSteps + run;
  }

  /** `SimplexAlgorithm` (phase two), with the candidate cells and the pushed steps as results. */
  method SimplexAlgorithm(step: Step, kind: ElementKind)
    returns (SimplexAlgorithmSteps: seq<Step>, PotentialLeads: seq<RowAndColumn>)
    requires DriverReady(step, kind)
    ensures DriverResult(SimplexAlgorithmSteps, PotentialLeads) == SimplexAlgorithmSpec(step, kind)
  {
    PotentialLeads := [];
    SimplexAlgorithmSteps := [];
    if !step.IsArtificialStep && step.IsCompleted {
      return;
    }
    var current, state;
    current, state := SimplexVerdict(step, kind);
    // The source tests CONTINUE per column; the verdict is the same for every column.
    current, PotentialLeads := OfferLeads(current, kind, state == Continue);
    EnteredReady(step, kind, state == UnlimitedSolution || state == Completed);
    SimplexAlgorithmSteps := RunDriverLoop(current, kind, false, 0);
  }
}
