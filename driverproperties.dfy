/**
 * What the drivers of the current revision promise: the pivot loop pushes
 * consecutive step ids, keeps the id list fitted to the tableau, marks a
 * step completed exactly when the classifier says COMPLETED, stops early
 * only at a step that cannot pivot, and waits after one pivot in
 * step-by-step mode; the id exchange keeps every variable (phase two) or
 * every structural variable (phase one); the drivers offer candidate cells
 * exactly when a manual choice can be made.
 */
module DriverProperties {
  import opened Matrices
  import opened Pivoting
  import opened Steps
  import opened StateCheck
  import opened SimplexSteps
  import opened LeadCandidates
  import opened Drivers

  /** Retirement erases at most one id, and never a structural one. */
  lemma RetiredIds(s: Step, RowNumber: nat, StructuralCount: int)
    requires IdsFit(s) && |s.Tableau| == RowNumber
    ensures var t, ids := Retired(s, RowNumber, StructuralCount), s.NumbersOfVariables;
      multiset(t.NumbersOfVariables) <= multiset(ids) &&
      forall x :: x <= StructuralCount ==> multiset(t.NumbersOfVariables)[x] == multiset(ids)[x]
  {
    var ids := s.NumbersOfVariables;
    var i := FirstArtificial(ids, RowNumber - 1, StructuralCount);
    if i != -1 {
      ErasedIds(ids, i);
    }
  }

  /**
   * Retirement never erases a basic id, erases one exactly when some
   * non-basic id exceeds StructuralCount, and otherwise leaves the step as
   * it is; it changes nothing but the ids and the tableau.
   */
  lemma RetiredShape(s: Step, RowNumber: nat, StructuralCount: int)
    requires IdsFit(s) && |s.Tableau| == RowNumber
    ensures var t, ids := Retired(s, RowNumber, StructuralCount), s.NumbersOfVariables;
      t.NumbersOfVariables[..RowNumber - 1] == ids[..RowNumber - 1] &&
      (|t.NumbersOfVariables| < |ids| <==> exists j :: RowNumber - 1 <= j < |ids| && ids[j] > StructuralCount) &&
      (|t.NumbersOfVariables| == |ids| ==> t == s) &&
      t == s.(NumbersOfVariables := t.NumbersOfVariables, Tableau := t.Tableau)
  {
    var ids := s.NumbersOfVariables;
    var i := FirstArtificial(ids, RowNumber - 1, StructuralCount);
    if i != -1 {
      assert Erased(ids, i)[..RowNumber - 1] == ids[..RowNumber - 1];
    }
  }

  /**
   * The exchange after a pivot keeps every id in phase two (it only swaps
   * two of them) and every structural id with its multiplicity in phase one.
   */
  lemma ExchangedIds(s: Step, Retiring: bool, StructuralCount: int, RowNumber: nat)
    requires IdsFit(s) && |s.Tableau| == RowNumber
    requires 0 <= s.StepChosenRC.Row < RowNumber && 0 <= s.StepChosenRC.Column < |s.Tableau[0]| - 1
    ensures var r, ids := Exchanged(s, Retiring, StructuralCount, RowNumber), s.NumbersOfVariables;
      multiset(r.NumbersOfVariables) <= multiset(ids) &&
      (forall x :: x <= StructuralCount ==> multiset(r.NumbersOfVariables)[x] == multiset(ids)[x]) &&
      (!Retiring ==> multiset(r.NumbersOfVariables) == multiset(ids))
  {
    var rc := s.StepChosenRC;
    var w := s.(NumbersOfVariables := Swapped(s.NumbersOfVariables, rc.Row, (RowNumber - 1) + rc.Column));
    SwappedPermutes(s.NumbersOfVariables, rc.Row, (RowNumber - 1) + rc.Column);
    if Retiring {
      RetiredIds(w, RowNumber, StructuralCount);
    }
  }

  /**
   * After a pivot on (Row, Column) the entering id (the label of the pivot
   * column) becomes the basic id of a constraint pivot row, and the tableau
   * changes only when phase-one retirement erases an id.
   */
  lemma ExchangedShape(s: Step, Retiring: bool, StructuralCount: int, RowNumber: nat)
    requires IdsFit(s) && |s.Tableau| == RowNumber
    requires 0 <= s.StepChosenRC.Row < RowNumber && 0 <= s.StepChosenRC.Column < |s.Tableau[0]| - 1
    ensures var r, ids, rc := Exchanged(s, Retiring, StructuralCount, RowNumber), s.NumbersOfVariables, s.StepChosenRC;
      (rc.Row < RowNumber - 1 ==> r.NumbersOfVariables[rc.Row] == ids[(RowNumber - 1) + rc.Column]) &&
      (!Retiring ==> |r.NumbersOfVariables| == |ids|) &&
      (|r.NumbersOfVariables| == |ids| ==> r.Tableau == s.Tableau) &&
      r == s.(NumbersOfVariables := r.NumbersOfVariables, Tableau := r.Tableau)
  {
    var rc := s.StepChosenRC;
    var w := s.(NumbersOfVariables := Swapped(s.NumbersOfVariables, rc.Row, (RowNumber - 1) + rc.Column));
    if Retiring {
      RetiredShape(w, RowNumber, StructuralCount);
      var r := Retired(w, RowNumber, StructuralCount);
      if rc.Row < RowNumber - 1 {
        assert r.NumbersOfVariables[rc.Row] == r.NumbersOfVariables[..RowNumber - 1][rc.Row];
      }
    }
  }

  /**
   * Every step the loop pushes has fitted ids on a tableau of RowNumber rows,
   * keeps the mode and the phase of the step it started from, and is
   * completed exactly when the classifier calls its tableau COMPLETED.
   */
  lemma {:induction false} RunShape(step: Step, kind: ElementKind, Retiring: bool, StructuralCount: int, RowNumber: nat, Start: int)
    requires LoopReady(step, kind, RowNumber)
    ensures forall t :: t in PivotRun(step, kind, Retiring, StructuralCount, RowNumber, Start) ==>
      IdsFit(t) && |t.Tableau| == RowNumber &&
      t.IsAutomatic == step.IsAutomatic && t.IsArtificialStep == step.IsArtificialStep &&
      (t.IsCompleted <==> Classify(t.Tableau, ZeroElement(kind), t.IsArtificialStep) == Completed)
    decreases Start + RowNumber - step.StepID
  {
    if step.StepID < Start + RowNumber {
      RunStep(step, kind, Retiring, StructuralCount, RowNumber, Start);
      SimplexStepOutcome(step, kind);
      var s := SimplexStepSpec(step, kind);
      if !s.IsCompleted {
        var t := Bookkeeping(s, kind, Retiring, StructuralCount, RowNumber);
        if t.IsAutomatic {
          RunShape(t, kind, Retiring, StructuralCount, RowNumber, Start);
        }
      }
    }
  }

  /** The loop pushes at most one step per id left below Start + RowNumber. */
  lemma {:induction false} RunLength(step: Step, kind: ElementKind, Retiring: bool, StructuralCount: int, RowNumber: nat, Start: int)
    requires LoopReady(step, kind, RowNumber) && step.StepID <= Start + RowNumber
    ensures |PivotRun(step, kind, Retiring, StructuralCount, RowNumber, Start)| <= Start + RowNumber - step.StepID
    decreases Start + RowNumber - step.StepID
  {
    if step.StepID < Start + RowNumber {
      RunStep(step, kind, Retiring, StructuralCount, RowNumber, Start);
      var s := SimplexStepSpec(step, kind);
      if !s.IsCompleted {
        var t := Bookkeeping(s, kind, Retiring, StructuralCount, RowNumber);
        if t.IsAutomatic {
          RunLength(t, kind, Retiring, StructuralCount, RowNumber, Start);
        }
      }
    }
  }

  /** The pushed steps carry consecutive ids after the starting one. */
  lemma {:induction false} RunStepIds(step: Step, kind: ElementKind, Retiring: bool, StructuralCount: int, RowNumber: nat, Start: int)
    requires LoopReady(step, kind, RowNumber)
    ensures var run := PivotRun(step, kind, Retiring, StructuralCount, RowNumber, Start);
      forall k :: 0 <= k < |run| ==> run[k].StepID == step.StepID + k + 1
    decreases Start + RowNumber - step.StepID
  {
    if step.StepID < Start + RowNumber {
      RunStep(step, kind, Retiring, StructuralCount, RowNumber, Start);
      var s := SimplexStepSpec(step, kind);
      if !s.IsCompleted {
        var t := Bookkeeping(s, kind, Retiring, StructuralCount, RowNumber);
        if t.IsAutomatic {
          RunStepIds(t, kind, Retiring, StructuralCount, RowNumber, Start);
          var run := PivotRun(step, kind, Retiring, StructuralCount, RowNumber, Start);
          var rest := PivotRun(t, kind, Retiring, StructuralCount, RowNumber, Start);
          forall k | 1 <= k < |run|
            ensures run[k].StepID == step.StepID + k + 1
          {
            ConsIndex(t, rest, k);
          }
        }
      }
    }
  }

  lemma ConsIndex<T>(a: T, r: seq<T>, k: nat)
    requires 1 <= k <= |r|
    ensures ([a] + r)[k] == r[k - 1]
  {
  }

  /** A step-by-step run pushes at most one step, and that step waits for input. */
  lemma ManualRunWaits(step: Step, kind: ElementKind, Retiring: bool, StructuralCount: int, RowNumber: nat, Start: int)
    requires LoopReady(step, kind, RowNumber) && !step.IsAutomatic
    ensures var run := PivotRun(step, kind, Retiring, StructuralCount, RowNumber, Start);
      |run| <= 1 && forall t :: t in run ==> t.IsWaitingForInput
  {
    if step.StepID < Start + RowNumber {
      RunStep(step, kind, Retiring, StructuralCount, RowNumber, Start);
    }
  }

  /** The step the loop ended on: the last one pushed, or the starting one. */
  function Last<T>(step: T, run: seq<T>): (l: T)
    ensures run == [] ==> l == step
    ensures run != [] ==> l == run[|run| - 1]
  {
    if run == [] then step else run[|run| - 1]
  }

  lemma LastCons<T>(step: T, t: T, rest: seq<T>)
    ensures Last(step, [t] + rest) == Last(t, rest)
  {
  }

  /**
   * An automatic run that stops before its RowNumber iterations are used up
   * stops at a step that is completed or whose verdict is not CONTINUE: the
   * loop never abandons a tableau it could still pivot.
   */
  lemma {:induction false} AutomaticRunStops(step: Step, kind: ElementKind, Retiring: bool, StructuralCount: int, RowNumber: nat, Start: int)
    requires LoopReady(step, kind, RowNumber) && step.IsAutomatic
    ensures var run := PivotRun(step, kind, Retiring, StructuralCount, RowNumber, Start);
      var last := Last(step, run);
      |run| < Start + RowNumber - step.StepID ==>
        IsTableau(last.Tableau) &&
        (last.IsCompleted || Classify(last.Tableau, ZeroElement(kind), last.IsArtificialStep) != Continue)
    decreases Start + RowNumber - step.StepID
  {
    if step.StepID < Start + RowNumber {
      RunStep(step, kind, Retiring, StructuralCount, RowNumber, Start);
      SimplexStepOutcome(step, kind);
      var s := SimplexStepSpec(step, kind);
      if !s.IsCompleted {
        var t := Bookkeeping(s, kind, Retiring, StructuralCount, RowNumber);
        AutomaticRunStops(t, kind, Retiring, StructuralCount, RowNumber, Start);
        var rest := PivotRun(t, kind, Retiring, StructuralCount, RowNumber, Start);
        LastCons(step, t, rest);
      }
    }
  }

  /** The bookkeeping is the exchange, marked completed when the classifier calls the result COMPLETED. */
  lemma BookkeepingMarks(s: Step, kind: ElementKind, Retiring: bool, StructuralCount: int, RowNumber: nat)
    requires IdsFit(s) && |s.Tableau| == RowNumber
    requires 0 <= s.StepChosenRC.Row < RowNumber && 0 <= s.StepChosenRC.Column < |s.Tableau[0]| - 1
    ensures var r, t := Exchanged(s, Retiring, StructuralCount, RowNumber), Bookkeeping(s, kind, Retiring, StructuralCount, RowNumber);
      t.NumbersOfVariables == r.NumbersOfVariables && t.Tableau == r.Tableau && t.StepChosenRC == s.StepChosenRC &&
      (t.IsCompleted <==> s.IsCompleted || Classify(r.Tableau, ZeroElement(kind), r.IsArtificialStep) == Completed)
  {
    ExchangedShape(s, Retiring, StructuralCount, RowNumber);
  }

  /** The pivot bookkeeping changes the ids only as the exchange does. */
  lemma BookkeepingIds(s: Step, kind: ElementKind, Retiring: bool, StructuralCount: int, RowNumber: nat)
    requires IdsFit(s) && |s.Tableau| == RowNumber
    requires 0 <= s.StepChosenRC.Row < RowNumber && 0 <= s.StepChosenRC.Column < |s.Tableau[0]| - 1
    ensures var ids, ids' := s.NumbersOfVariables, Bookkeeping(s, kind, Retiring, StructuralCount, RowNumber).NumbersOfVariables;
      multiset(ids') <= multiset(ids) &&
      (forall x :: x <= StructuralCount ==> multiset(ids')[x] == multiset(ids)[x]) &&
      (!Retiring ==> multiset(ids') == multiset(ids))
  {
    ExchangedIds(s, Retiring, StructuralCount, RowNumber);
  }

  /**
   * Along a run the ids never gain a variable: phase two only permutes them,
   * and phase one keeps every structural id with its multiplicity.
   */
  lemma {:induction false} RunIds(step: Step, kind: ElementKind, Retiring: bool, StructuralCount: int, RowNumber: nat, Start: int)
    requires LoopReady(step, kind, RowNumber)
    ensures forall t :: t in PivotRun(step, kind, Retiring, StructuralCount, RowNumber, Start) ==>
      multiset(t.NumbersOfVariables) <= multiset(step.NumbersOfVariables) &&
      (forall x :: x <= StructuralCount ==> multiset(t.NumbersOfVariables)[x] == multiset(step.NumbersOfVariables)[x]) &&
      (!Retiring ==> multiset(t.NumbersOfVariables) == multiset(step.NumbersOfVariables))
    decreases Start + RowNumber - step.StepID
  {
    if step.StepID < Start + RowNumber {
      RunStep(step, kind, Retiring, StructuralCount, RowNumber, Start);
      SimplexStepOutcome(step, kind);
      var s := SimplexStepSpec(step, kind);
      if !s.IsCompleted {
        BookkeepingIds(s, kind, Retiring, StructuralCount, RowNumber);
        var t := Bookkeeping(s, kind, Retiring, StructuralCount, RowNumber);
        if t.IsAutomatic {
          RunIds(t, kind, Retiring, StructuralCount, RowNumber, Start);
        }
      }
    }
  }

  /**
   * The first pushed step names its lead cell: the automatic lead, or the
   * one entered by hand, a non-zero entry in a non-RHS column.
   */
  lemma FirstPushedLead(step: Step, kind: ElementKind, Retiring: bool, StructuralCount: int, RowNumber: nat, Start: int)
    requires LoopReady(step, kind, RowNumber)
    requires PivotRun(step, kind, Retiring, StructuralCount, RowNumber, Start) != []
    ensures var g, t := step.Tableau, PivotRun(step, kind, Retiring, StructuralCount, RowNumber, Start)[0];
      var rc := t.StepChosenRC;
      0 <= rc.Row < RowNumber && 0 <= rc.Column < |g[0]| - 1 && g[rc.Row][rc.Column] != 0.0 &&
      (step.IsAutomatic ==> rc == AutoLead(g, ZeroElement(kind), step.IsArtificialStep)) &&
      (!step.IsAutomatic ==> rc == step.LeadElementRC)
  {
    RunStep(step, kind, Retiring, StructuralCount, RowNumber, Start);
    SimplexStepOutcome(step, kind);
    if step.IsAutomatic {
      var rc := AutomaticStepIsPivot(step, kind);
    }
  }

  /**
   * The first pushed step holds the pivot of the starting tableau on its
   * lead cell, unless phase-one retirement erased an id (and so a column).
   */
  lemma FirstPushedIsPivot(step: Step, kind: ElementKind, Retiring: bool, StructuralCount: int, RowNumber: nat, Start: int)
    requires LoopReady(step, kind, RowNumber)
    requires PivotRun(step, kind, Retiring, StructuralCount, RowNumber, Start) != []
    ensures var g, t := step.Tableau, PivotRun(step, kind, Retiring, StructuralCount, RowNumber, Start)[0];
      var rc := t.StepChosenRC;
      0 <= rc.Row < RowNumber && 0 <= rc.Column < |g[0]| - 1 && g[rc.Row][rc.Column] != 0.0 &&
      (|t.NumbersOfVariables| == |step.NumbersOfVariables| ==> t.Tableau == PivotSpec(g, rc.Row, rc.Column)) &&
      (!Retiring ==> |t.NumbersOfVariables| == |step.NumbersOfVariables|)
  {
    FirstPushedLead(step, kind, Retiring, StructuralCount, RowNumber, Start);
    RunStep(step, kind, Retiring, StructuralCount, RowNumber, Start);
    SimplexStepOutcome(step, kind);
    var s := SimplexStepSpec(step, kind);
    ExchangedShape(s, Retiring, StructuralCount, RowNumber);
    BookkeepingMarks(s, kind, Retiring, StructuralCount, RowNumber);
  }

  /** After the first pivot the entering id (the label of the pivot column) is the basic id of a constraint pivot row. */
  lemma FirstPushedEnters(step: Step, kind: ElementKind, Retiring: bool, StructuralCount: int, RowNumber: nat, Start: int)
    requires LoopReady(step, kind, RowNumber)
    requires PivotRun(step, kind, Retiring, StructuralCount, RowNumber, Start) != []
    ensures var t := PivotRun(step, kind, Retiring, StructuralCount, RowNumber, Start)[0];
      var rc := t.StepChosenRC;
      0 <= rc.Row < RowNumber - 1 ==>
        0 <= (RowNumber - 1) + rc.Column < |step.NumbersOfVariables| &&
        t.NumbersOfVariables[rc.Row] == step.NumbersOfVariables[(RowNumber - 1) + rc.Column]
  {
    FirstPushedLead(step, kind, Retiring, StructuralCount, RowNumber, Start);
    RunStep(step, kind, Retiring, StructuralCount, RowNumber, Start);
    SimplexStepOutcome(step, kind);
    var s := SimplexStepSpec(step, kind);
    ExchangedShape(s, Retiring, StructuralCount, RowNumber);
    BookkeepingMarks(s, kind, Retiring, StructuralCount, RowNumber);
  }
}

/** What one call of `ArtificialBasis` or `SimplexAlgorithm` promises. */
module DriverOutcomes {
  import opened Steps
  import opened StateCheck
  import opened SimplexSteps
  import opened LeadCandidates
  import opened Drivers
  import opened DriverProperties

  /** A completed step pushes nothing more when the loop starts from it. */
  lemma CompletedRunsNothing(e: Step, kind: ElementKind, Retiring: bool, StructuralCount: int)
    requires RunReady(e, kind) && e.IsCompleted
    ensures DriverRun(e, kind, Retiring, StructuralCount) == []
  {
    if !e.IsWaitingForInput {
      RunStep(e, kind, Retiring, StructuralCount, |e.Tableau|, e.StepID);
    }
  }

  /**
   * A CONTINUE verdict makes progress: an automatic run pushes the next
   * step id, a step-by-step run that is not waiting pushes exactly one step,
   * which then waits for input.
   */
  lemma ContinueRunsPivot(e: Step, kind: ElementKind, Retiring: bool, StructuralCount: int)
    requires RunReady(e, kind) && !e.IsCompleted && !e.IsWaitingForInput
    requires Classify(e.Tableau, ZeroElement(kind), e.IsArtificialStep) == Continue
    ensures var run := DriverRun(e, kind, Retiring, StructuralCount);
      run != [] && run[0].StepID == e.StepID + 1 &&
      (!e.IsAutomatic ==> |run| == 1 && run[0].IsWaitingForInput)
  {
    RunStep(e, kind, Retiring, StructuralCount, |e.Tableau|, e.StepID);
    SimplexStepOutcome(e, kind);
  }

  /**
   * The cells offered by hand are exactly what a manual choice needs: some
   * when the verdict is CONTINUE, each a positive entry of a column that
   * still lowers the objective, and in exact arithmetic the automatic lead
   * among them.
   */
  lemma OfferedLeadsSound(step: Step, kind: ElementKind, Offer: bool)
    requires IsTableau(step.Tableau) && !step.IsAutomatic && Offer
    requires Classify(step.Tableau, ZeroElement(kind), step.IsArtificialStep) == Continue
    ensures var leads, g := OfferedLeads(step, kind, Offer), step.Tableau;
      leads != [] &&
      (forall rc :: rc in leads ==> IsOfferedCell(g, ZeroElement(kind), rc)) &&
      (kind == FractionalElements ==> AutoLead(g, 0.0, step.IsArtificialStep) in leads)
  {
    CandidatesMatchClassifier(step.Tableau, kind, step.IsArtificialStep);
    CandidatesSound(step.Tableau, kind);
    if kind == FractionalElements {
      AutoLeadIsCandidate(step.Tableau, step.IsArtificialStep);
    }
  }

  /**
   * `ArtificialBasis`: a completed phase one is left alone; UNLIMITED_SOLUTION
   * and COMPLETED push nothing; SOLUTION_DOESNT_EXIST pushes only the
   * completed step; CONTINUE pivots (one step and a wait by hand, at least
   * one step automatically), except on a step-by-step step still waiting
   * for input, which pushes nothing; automatic mode offers no cells.
   */
  lemma ArtificialBasisPushes(step: Step, kind: ElementKind, StructuralCount: int)
    requires DriverReady(step, kind)
    ensures var r, state := ArtificialBasisSpec(step, kind, StructuralCount), Classify(step.Tableau, ZeroElement(kind), step.IsArtificialStep);
      (step.IsArtificialStep && step.IsCompleted ==> r == DriverResult([], [])) &&
      (!(step.IsArtificialStep && step.IsCompleted) ==>
         (step.IsAutomatic ==> r.PotentialLeads == []) &&
         (state == UnlimitedSolution || state == Completed ==> r.Pushed == []) &&
         (state == SolutionDoesntExist ==> r.Pushed == [step.(IsCompleted := true)]) &&
         (state == Continue && !step.IsCompleted && (step.IsAutomatic || !step.IsWaitingForInput) ==>
            r.Pushed != [] && r.Pushed[0].StepID == step.StepID + 1 &&
            (!step.IsAutomatic ==> |r.Pushed| == 1 && r.Pushed[0].IsWaitingForInput)) &&
         (state == Continue && !step.IsAutomatic && step.IsWaitingForInput ==> r.Pushed == []))
  {
    if !(step.IsArtificialStep && step.IsCompleted) {
      var state := Classify(step.Tableau, ZeroElement(kind), step.IsArtificialStep);
      EnteredReady(step, kind, state != Continue);
      var e := Entered(MarkedStep(step, state != Continue));
      if state != Continue {
        CompletedRunsNothing(e, kind, true, StructuralCount);
      } else if !step.IsCompleted && !e.IsWaitingForInput {
        ContinueRunsPivot(e, kind, true, StructuralCount);
      }
    }
  }

  /** In step-by-step mode `ArtificialBasis` offers sound cells whenever the verdict is CONTINUE. */
  lemma ArtificialBasisLeads(step: Step, kind: ElementKind, StructuralCount: int)
    requires DriverReady(step, kind) && !step.IsAutomatic && !(step.IsArtificialStep && step.IsCompleted)
    requires Classify(step.Tableau, ZeroElement(kind), step.IsArtificialStep) == Continue
    ensures var leads, g := ArtificialBasisSpec(step, kind, StructuralCount).PotentialLeads, step.Tableau;
      leads != [] &&
      (forall rc :: rc in leads ==> IsOfferedCell(g, ZeroElement(kind), rc)) &&
      (kind == FractionalElements ==> AutoLead(g, 0.0, step.IsArtificialStep) in leads)
  {
    OfferedLeadsSound(MarkedStep(step, false), kind, true);
  }

  /**
   * `SimplexAlgorithm`: a completed phase two is left alone; any verdict but
   * CONTINUE pushes nothing; CONTINUE pivots (one step and a wait by hand,
   * at least one step automatically), except on a step-by-step step still
   * waiting for input, which pushes nothing; cells are offered only by hand
   * and only on CONTINUE.
   */
  lemma SimplexAlgorithmPushes(step: Step, kind: ElementKind)
    requires DriverReady(step, kind)
    ensures var r, state := SimplexAlgorithmSpec(step, kind), Classify(step.Tableau, ZeroElement(kind), step.IsArtificialStep);
      (!step.IsArtificialStep && step.IsCompleted ==> r == DriverResult([], [])) &&
      (!(!step.IsArtificialStep && step.IsCompleted) ==>
         (step.IsAutomatic || state != Continue ==> r.PotentialLeads == []) &&
         (state != Continue ==> r.Pushed == []) &&
         (state == Continue && !step.IsCompleted && (step.IsAutomatic || !step.IsWaitingForInput) ==>
            r.Pushed != [] && r.Pushed[0].StepID == step.StepID + 1 &&
            (!step.IsAutomatic ==> |r.Pushed| == 1 && r.Pushed[0].IsWaitingForInput)) &&
         (!step.IsAutomatic && step.IsWaitingForInput ==> r.Pushed == []))
  {
    if !(!step.IsArtificialStep && step.IsCompleted) {
      var state := Classify(step.Tableau, ZeroElement(kind), step.IsArtificialStep);
      var Marked := state == UnlimitedSolution || state == Completed;
      EnteredReady(step, kind, Marked);
      var e := Entered(MarkedStep(step, Marked));
      if Marked || step.IsCompleted {
        CompletedRunsNothing(e, kind, false, 0);
      } else if state != Continue {
        if !e.IsWaitingForInput {
          RunStep(e, kind, false, 0, |e.Tableau|, e.StepID);
          SimplexStepOutcome(e, kind);
        }
      } else if !e.IsWaitingForInput {
        ContinueRunsPivot(e, kind, false, 0);
      }
    }
  }

  /** In step-by-step mode `SimplexAlgorithm` offers sound cells whenever the verdict is CONTINUE. */
  lemma SimplexAlgorithmLeads(step: Step, kind: ElementKind)
    requires DriverReady(step, kind) && !step.IsAutomatic && !(!step.IsArtificialStep && step.IsCompleted)
    requires Classify(step.Tableau, ZeroElement(kind), step.IsArtificialStep) == Continue
    ensures var leads, g := SimplexAlgorithmSpec(step, kind).PotentialLeads, step.Tableau;
      leads != [] &&
      (forall rc :: rc in leads ==> IsOfferedCell(g, ZeroElement(kind), rc)) &&
      (kind == FractionalElements ==> AutoLead(g, 0.0, step.IsArtificialStep) in leads)
  {
    OfferedLeadsSound(MarkedStep(step, false), kind, true);
  }
}
