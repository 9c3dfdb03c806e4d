/**
 * What the drivers of the older revision promise: the pivot loop pushes
 * consecutive step ids, keeps the id list fitted to the tableau, marks a
 * step completed exactly when its objective RHS vanishes, and waits after
 * one pivot in step-by-step mode; phase two only permutes the ids, and
 * phase one deletes one column per pivot, erasing the id that left the
 * basis, structural or not.
 */
module LegacyDriverProperties {
  import opened Matrices
  import opened Steps
  import opened Pivoting
  import opened LeadSelection
  import opened SimplexSteps
  import opened LegacyStateCheck
  import opened LegacySimplexSteps
  import opened LeadCandidates
  import opened Drivers
  import opened DriverProperties
  import opened LegacyDrivers

  /**
   * The older exchange only swaps two ids in phase two; in phase one it
   * takes out exactly the id of the basic variable that left, the one at
   * the pivot row.
   */
  lemma LegacyExchangedIds(s: Step, Retiring: bool, RowNumber: nat)
    requires IdsFit(s) && |s.Tableau| == RowNumber
    requires 0 <= s.StepChosenRC.Row < RowNumber && 0 <= s.StepChosenRC.Column < |s.Tableau[0]| - 1
    ensures var r, ids := LegacyExchanged(s, Retiring, RowNumber), s.NumbersOfVariables;
      (!Retiring ==> multiset(r.NumbersOfVariables) == multiset(ids)) &&
      (Retiring ==> multiset(r.NumbersOfVariables) + multiset{ids[s.StepChosenRC.Row]} == multiset(ids))
  {
    var rc := s.StepChosenRC;
    var k := (RowNumber - 1) + rc.Column;
    var r := LegacyExchanged(s, Retiring, RowNumber);
    if Retiring {
      assert r.NumbersOfVariables == Erased(Swapped(s.NumbersOfVariables, rc.Row, k), k);
      LeavingErased(s.NumbersOfVariables, rc.Row, k);
    } else {
      assert r.NumbersOfVariables == Swapped(s.NumbersOfVariables, rc.Row, k);
      SwappedPermutes(s.NumbersOfVariables, rc.Row, k);
    }
  }

  /** Swapping positions a and k and then erasing position k takes out the id that was at a. */
  lemma LeavingErased(ids: seq<int>, a: nat, k: nat)
    requires a < |ids| && k < |ids|
    ensures multiset(Erased(Swapped(ids, a, k), k)) + multiset{ids[a]} == multiset(ids)
  {
    var w := Swapped(ids, a, k);
    SwappedPermutes(ids, a, k);
    ErasedIds(w, k);
  }

  /**
   * After an older pivot on (Row, Column) the entering id becomes the basic
   * id of a constraint pivot row; phase two keeps the tableau, phase one
   * deletes its column Column.
   */
  lemma LegacyExchangedShape(s: Step, Retiring: bool, RowNumber: nat)
    requires IdsFit(s) && |s.Tableau| == RowNumber
    requires 0 <= s.StepChosenRC.Row < RowNumber && 0 <= s.StepChosenRC.Column < |s.Tableau[0]| - 1
    ensures var r, ids, rc := LegacyExchanged(s, Retiring, RowNumber), s.NumbersOfVariables, s.StepChosenRC;
      (rc.Row < RowNumber - 1 ==> r.NumbersOfVariables[rc.Row] == ids[(RowNumber - 1) + rc.Column]) &&
      (!Retiring ==> r.Tableau == s.Tableau) &&
      (Retiring ==> r.Tableau == DeleteColumnOf(s.Tableau, rc.Column)) &&
      r == s.(NumbersOfVariables := r.NumbersOfVariables, Tableau := r.Tableau)
  {
    var rc := s.StepChosenRC;
    var k := (RowNumber - 1) + rc.Column;
    var w := Swapped(s.NumbersOfVariables, rc.Row, k);
    if Retiring && rc.Row < RowNumber - 1 {
      assert Erased(w, k)[rc.Row] == w[rc.Row];
    }
  }

  /**
   * The older phase one loses a structural variable whenever one leaves the
   * basis: its id is erased although its column is still needed.
   */
  lemma LegacyDropsStructural(s: Step, RowNumber: nat, StructuralCount: int)
    requires IdsFit(s) && |s.Tableau| == RowNumber
    requires 0 <= s.StepChosenRC.Row < RowNumber && 0 <= s.StepChosenRC.Column < |s.Tableau[0]| - 1
    requires s.NumbersOfVariables[s.StepChosenRC.Row] <= StructuralCount
    ensures var x, r := s.NumbersOfVariables[s.StepChosenRC.Row], LegacyExchanged(s, true, RowNumber);
      multiset(r.NumbersOfVariables)[x] < multiset(s.NumbersOfVariables)[x]
  {
    LegacyExchangedIds(s, true, RowNumber);
  }

  /** The first phase-one step of x1 + x2 = 2, x1 = 2: artificial x3 and x4 basic, ids [3, 4, 1, 2]. */
  const ExampleStart := Step(1, RowAndColumn(0, 0), RowAndColumn(0, 0), true, false, false, [],
                             [[1.0, 1.0, 2.0], [1.0, 0.0, 2.0], [-2.0, -1.0, -4.0]], [3, 4, 1, 2], true)

  /** The step ExampleStart leads to in the older loop: x2 entered at row 0, x3's column deleted. */
  const ExampleSecond := Step(2, RowAndColumn(0, 1), RowAndColumn(0, 0), true, false, false, [0],
                              [[1.0, 2.0], [1.0, 2.0], [-1.0, -2.0]], [2, 4, 1], true)

  /** The step after that: x1 entered at row 0, x2 erased, the objective RHS at 0. */
  const ExampleThird := Step(3, RowAndColumn(0, 0), RowAndColumn(0, 0), true, false, true, [0, 0],
                             [[2.0], [0.0], [0.0]], [1, 4], true)

  /**
   * An automatic older phase-one run that loses a structural variable. From
   * ExampleStart the last column that can enter is x2's, whose ratio test
   * picks row 0: x2 replaces x3, leaving [2, 4, 1]. Then x1 enters at row 0
   * and x2 leaves; the older exchange erases x2, leaving [1, 4], and the
   * objective RHS reaches 0, so the run ends marked completed.
   */
  lemma LegacyRetirementExample()
    ensures LegacyRunReady(ExampleStart) && LegacyDriverRun(ExampleStart, true) == [ExampleSecond, ExampleThird]
    ensures 2 in ExampleStart.NumbersOfVariables && ExampleThird.IsCompleted && 2 !in ExampleThird.NumbersOfVariables
  {
    ExampleRunFromStart();
    assert !ExampleStart.IsWaitingForInput && |ExampleStart.Tableau| == 3;
    ExampleLosesX2();
  }

  /** x2 is an id of the start and not of the completed last step. */
  lemma ExampleLosesX2()
    ensures 2 in ExampleStart.NumbersOfVariables && ExampleThird.IsCompleted && 2 !in ExampleThird.NumbersOfVariables
  {
    assert ExampleStart.NumbersOfVariables[3] == 2;
  }

  /** From the start the older loop pushes the second step and goes on from it. */
  lemma ExampleRunFromStart()
    ensures LegacyLoopReady(ExampleStart, 3) &&
      LegacyPivotRun(ExampleStart, true, 3, 1) == [ExampleSecond, ExampleThird]
  {
    ExampleFirstTurn();
    ExampleRunFromSecond();
  }

  /** The older loop's first turn from the start pushes the second step and goes on from it. */
  lemma ExampleFirstTurn()
    ensures LegacyLoopReady(ExampleStart, 3) && LegacyLoopReady(ExampleSecond, 3) &&
      LegacyPivotRun(ExampleStart, true, 3, 1) == [ExampleSecond] + LegacyPivotRun(ExampleSecond, true, 3, 1)
  {
    ExampleFirstStep();
    ExampleSecondStep();
  }

  /** From the second step the older loop pushes the completed third step and stops. */
  lemma ExampleRunFromSecond()
    ensures LegacyLoopReady(ExampleSecond, 3) && LegacyPivotRun(ExampleSecond, true, 3, 1) == [ExampleThird]
  {
    ExampleSecondStep();
    ExampleRunFromThird();
    LegacyRunStep(ExampleSecond, true, 3, 1);
  }

  /** A completed step with no column left to enter makes the older loop push nothing. */
  lemma ExampleRunFromThird()
    ensures LegacyLoopReady(ExampleThird, 3) && LegacyPivotRun(ExampleThird, true, 3, 1) == []
  {
    assert IsTableau(ExampleThird.Tableau);
    assert LegacyClassify(ExampleThird.Tableau) == Completed;
  }

  /** On the second pivot of that run, the current exchange keeps every structural id: [1, 4, 2]. */
  lemma CurrentExchangeKeepsExample()
    ensures LegacyStepReady(ExampleSecond) &&
      var p := LegacySimplexStepSpec(ExampleSecond);
      IdsFit(p) && |p.Tableau| == 3 && p.StepChosenRC == RowAndColumn(0, 0) && |p.Tableau[0]| == 2 &&
      LegacyBookkeeping(p, true, 3) == ExampleThird &&
      Exchanged(p, true, 2, 3).NumbersOfVariables == [1, 4, 2]
  {
    ExampleSecondStep();
    assert Swapped([2, 4, 1], 0, 2) == [1, 4, 2];
    assert FirstArtificial([1, 4, 2], 2, 2) == -1;
  }

  /** The older loop's first turn from ExampleStart: the ratio test at (0, 1), then the older exchange. */
  lemma ExampleFirstStep()
    ensures LegacyLoopReady(ExampleStart, 3) &&
      var p := LegacySimplexStepSpec(ExampleStart);
      !p.IsCompleted && IdsFit(p) && |p.Tableau| == 3 &&
      0 <= p.StepChosenRC.Row < 3 && 0 <= p.StepChosenRC.Column < |p.Tableau[0]| - 1 &&
      LegacyBookkeeping(p, true, 3) == ExampleSecond
  {
    var g0 := ExampleStart.Tableau;
    assert IsTableau(g0);
    assert IsEnteringColumn(g0, 1) by { assert g0[0][1] > EPSILON; }
    assert LastEnteringColumn(g0, 2) == 1;
    assert RatioRow(g0, 1, EPSILON, 2) == 0;
    assert LegacyAutoLead(g0) == RowAndColumn(0, 1);
    ExampleFirstPivot();
    var p := LegacySimplexStepSpec(ExampleStart);
    assert p == PivotedStep(ExampleStart, 0, 1);
    assert Swapped([3, 4, 1, 2], 0, 3) == [2, 4, 1, 3];
    assert Erased([2, 4, 1, 3], 3) == [2, 4, 1];
  }

  /** The older loop's second turn: the ratio test at (0, 0), then the older exchange and the completion mark. */
  lemma ExampleSecondStep()
    ensures LegacyLoopReady(ExampleSecond, 3) &&
      var p := LegacySimplexStepSpec(ExampleSecond);
      !p.IsCompleted && IdsFit(p) && |p.Tableau| == 3 && p.StepChosenRC == RowAndColumn(0, 0) && |p.Tableau[0]| == 2 &&
      LegacyBookkeeping(p, true, 3) == ExampleThird
  {
    var h1 := ExampleSecond.Tableau;
    assert IsTableau(h1);
    assert IsEnteringColumn(h1, 0) by { assert h1[0][0] > EPSILON; }
    assert LastEnteringColumn(h1, 1) == 0;
    assert RatioRow(h1, 0, EPSILON, 2) == 0;
    assert LegacyAutoLead(h1) == RowAndColumn(0, 0);
    ExampleSecondPivot();
    var p := LegacySimplexStepSpec(ExampleSecond);
    assert p == PivotedStep(ExampleSecond, 0, 0);
    assert Swapped([2, 4, 1], 0, 2) == [1, 4, 2];
    assert Erased([1, 4, 2], 2) == [1, 4];
  }

  /** The first pivot of that run, at (0, 1), and the older deletion of column 1. */
  lemma ExampleFirstPivot()
    ensures var g: Grid<real> := [[1.0, 1.0, 2.0], [1.0, 0.0, 2.0], [-2.0, -1.0, -4.0]];
      IsTableau(g) && g[0][1] != 0.0 &&
      DeleteColumnOf(PivotSpec(g, 0, 1), 1) == [[1.0, 2.0], [1.0, 2.0], [-1.0, -2.0]]
  {
    var g: Grid<real> := [[1.0, 1.0, 2.0], [1.0, 0.0, 2.0], [-2.0, -1.0, -4.0]];
    assert IsTableau(g);
    var h := PivotSpec(g, 0, 1);
    assert h[0][0] == 1.0 && h[0][2] == 2.0;
    assert h[1][0] == 1.0 && h[1][2] == 2.0;
    assert h[2][0] == -1.0 && h[2][2] == -2.0;
    var d := DeleteColumnOf(h, 1);
    assert d[0] == [1.0, 2.0] && d[1] == [1.0, 2.0] && d[2] == [-1.0, -2.0];
  }

  /** The second pivot of that run, at (0, 0), and the older deletion of column 0. */
  lemma ExampleSecondPivot()
    ensures var g: Grid<real> := [[1.0, 2.0], [1.0, 2.0], [-1.0, -2.0]];
      IsTableau(g) && g[0][0] != 0.0 &&
      DeleteColumnOf(PivotSpec(g, 0, 0), 0) == [[2.0], [0.0], [0.0]]
  {
    var g: Grid<real> := [[1.0, 2.0], [1.0, 2.0], [-1.0, -2.0]];
    assert IsTableau(g);
    var h := PivotSpec(g, 0, 0);
    assert h[0][1] == 2.0 && h[1][1] == 0.0 && h[2][1] == 0.0;
    var d := DeleteColumnOf(h, 0);
    assert d[0] == [2.0] && d[1] == [0.0] && d[2] == [0.0];
  }

  /** The older bookkeeping is the exchange, marked completed exactly when the objective RHS vanishes. */
  lemma LegacyBookkeepingMarks(s: Step, Retiring: bool, RowNumber: nat)
    requires IdsFit(s) && |s.Tableau| == RowNumber && !s.IsCompleted
    requires 0 <= s.StepChosenRC.Row < RowNumber && 0 <= s.StepChosenRC.Column < |s.Tableau[0]| - 1
    ensures var r, t := LegacyExchanged(s, Retiring, RowNumber), LegacyBookkeeping(s, Retiring, RowNumber);
      t.NumbersOfVariables == r.NumbersOfVariables && t.Tableau == r.Tableau && t.StepChosenRC == s.StepChosenRC &&
      |t.Tableau[0]| == |s.Tableau[0]| - (if Retiring then 1 else 0) &&
      (t.IsCompleted <==> RhsVanishes(t.Tableau))
  {
    LegacyExchangedShape(s, Retiring, RowNumber);
  }

  /**
   * Every step the older loop pushes has fitted ids on a tableau of
   * RowNumber rows, keeps the mode and the phase, and is completed exactly
   * when its objective RHS vanishes.
   */
  lemma {:induction false} LegacyRunShape(step: Step, Retiring: bool, RowNumber: nat, Start: int)
    requires LegacyLoopReady(step, RowNumber)
    ensures forall t :: t in LegacyPivotRun(step, Retiring, RowNumber, Start) ==>
      IdsFit(t) && |t.Tableau| == RowNumber &&
      t.IsAutomatic == step.IsAutomatic && t.IsArtificialStep == step.IsArtificialStep &&
      (t.IsCompleted <==> RhsVanishes(t.Tableau))
    decreases Start + RowNumber - step.StepID
  {
    if step.StepID < Start + RowNumber {
      LegacyRunStep(step, Retiring, RowNumber, Start);
      var s := LegacySimplexStepSpec(step);
      if !s.IsCompleted {
        LegacyBookkeepingMarks(s, Retiring, RowNumber);
        var t := LegacyBookkeeping(s, Retiring, RowNumber);
        if t.IsAutomatic {
          LegacyRunShape(t, Retiring, RowNumber, Start);
        }
      }
    }
  }

  /** The older loop pushes at most one step per id left below Start + RowNumber. */
  lemma {:induction false} LegacyRunLength(step: Step, Retiring: bool, RowNumber: nat, Start: int)
    requires LegacyLoopReady(step, RowNumber) && step.StepID <= Start + RowNumber
    ensures |LegacyPivotRun(step, Retiring, RowNumber, Start)| <= Start + RowNumber - step.StepID
    decreases Start + RowNumber - step.StepID
  {
    if step.StepID < Start + RowNumber {
      LegacyRunStep(step, Retiring, RowNumber, Start);
      var s := LegacySimplexStepSpec(step);
      if !s.IsCompleted {
        var t := LegacyBookkeeping(s, Retiring, RowNumber);
        if t.IsAutomatic {
          LegacyRunLength(t, Retiring, RowNumber, Start);
        }
      }
    }
  }

  /** The older pushed steps carry consecutive ids after the starting one. */
  lemma {:induction false} LegacyRunStepIds(step: Step, Retiring: bool, RowNumber: nat, Start: int)
    requires LegacyLoopReady(step, RowNumber)
    ensures var run := LegacyPivotRun(step, Retiring, RowNumber, Start);
      forall k :: 0 <= k < |run| ==> run[k].StepID == step.StepID + k + 1
    decreases Start + RowNumber - step.StepID
  {
    if step.StepID < Start + RowNumber {
      LegacyRunStep(step, Retiring, RowNumber, Start);
      var s := LegacySimplexStepSpec(step);
      if !s.IsCompleted {
        var t := LegacyBookkeeping(s, Retiring, RowNumber);
        if t.IsAutomatic {
          LegacyRunStepIds(t, Retiring, RowNumber, Start);
          var run := LegacyPivotRun(step, Retiring, RowNumber, Start);
          var rest := LegacyPivotRun(t, Retiring, RowNumber, Start);
          forall k | 1 <= k < |run|
            ensures run[k].StepID == step.StepID + k + 1
          {
            ConsIndex(t, rest, k);
          }
        }
      }
    }
  }

  /** The k-th step of an older phase one has k + 1 columns fewer than the starting tableau; phase two keeps them all. */
  lemma {:induction false} LegacyRunColumns(step: Step, Retiring: bool, RowNumber: nat, Start: int)
    requires LegacyLoopReady(step, RowNumber)
    ensures var run := LegacyPivotRun(step, Retiring, RowNumber, Start);
      forall k :: 0 <= k < |run| ==>
        IsTableau(run[k].Tableau) && |run[k].Tableau[0]| + (if Retiring then k + 1 else 0) == |step.Tableau[0]|
    decreases Start + RowNumber - step.StepID
  {
    if step.StepID < Start + RowNumber {
      LegacyRunStep(step, Retiring, RowNumber, Start);
      LegacySimplexStepOutcome(step);
      var s := LegacySimplexStepSpec(step);
      if !s.IsCompleted {
        LegacyBookkeepingMarks(s, Retiring, RowNumber);
        var t := LegacyBookkeeping(s, Retiring, RowNumber);
        if t.IsAutomatic {
          LegacyRunColumns(t, Retiring, RowNumber, Start);
          var run := LegacyPivotRun(step, Retiring, RowNumber, Start);
          var rest := LegacyPivotRun(t, Retiring, RowNumber, Start);
          forall k | 1 <= k < |run|
            ensures IsTableau(run[k].Tableau) && |run[k].Tableau[0]| + (if Retiring then k + 1 else 0) == |step.Tableau[0]|
          {
            ConsIndex(t, rest, k);
          }
        }
      }
    }
  }

  /** Each phase-one pivot deletes a column, so the older phase one pushes fewer steps than the tableau has columns. */
  lemma {:induction false} LegacyArtificialRunBound(step: Step, RowNumber: nat, Start: int)
    requires LegacyLoopReady(step, RowNumber)
    ensures |LegacyPivotRun(step, true, RowNumber, Start)| < |step.Tableau[0]|
    decreases Start + RowNumber - step.StepID
  {
    if step.StepID < Start + RowNumber {
      LegacyRunStep(step, true, RowNumber, Start);
      LegacySimplexStepOutcome(step);
      var s := LegacySimplexStepSpec(step);
      if !s.IsCompleted {
        LegacyBookkeepingMarks(s, true, RowNumber);
        var t := LegacyBookkeeping(s, true, RowNumber);
        if t.IsAutomatic {
          LegacyArtificialRunBound(t, RowNumber, Start);
        }
      }
    }
  }

  /** Along an older run phase two only permutes the ids, and phase one only takes ids out. */
  lemma {:induction false} LegacyRunIds(step: Step, Retiring: bool, RowNumber: nat, Start: int)
    requires LegacyLoopReady(step, RowNumber)
    ensures forall t :: t in LegacyPivotRun(step, Retiring, RowNumber, Start) ==>
      multiset(t.NumbersOfVariables) <= multiset(step.NumbersOfVariables) &&
      (!Retiring ==> multiset(t.NumbersOfVariables) == multiset(step.NumbersOfVariables))
    decreases Start + RowNumber - step.StepID
  {
    if step.StepID < Start + RowNumber {
      LegacyRunStep(step, Retiring, RowNumber, Start);
      LegacySimplexStepOutcome(step);
      var s := LegacySimplexStepSpec(step);
      if !s.IsCompleted {
        LegacyBookkeepingMarks(s, Retiring, RowNumber);
        LegacyExchangedIds(s, Retiring, RowNumber);
        var t := LegacyBookkeeping(s, Retiring, RowNumber);
        if t.IsAutomatic {
          LegacyRunIds(t, Retiring, RowNumber, Start);
        }
      }
    }
  }

  /** An older step-by-step run pushes at most one step, and that step waits for input. */
  lemma LegacyManualRunWaits(step: Step, Retiring: bool, RowNumber: nat, Start: int)
    requires LegacyLoopReady(step, RowNumber) && !step.IsAutomatic
    ensures var run := LegacyPivotRun(step, Retiring, RowNumber, Start);
      |run| <= 1 && forall t :: t in run ==> t.IsWaitingForInput
  {
    if step.StepID < Start + RowNumber {
      LegacyRunStep(step, Retiring, RowNumber, Start);
    }
  }

  /**
   * An older automatic run that stops before its RowNumber iterations are
   * used up stops at a step that is completed or whose older verdict is not
   * CONTINUE.
   */
  lemma {:induction false} LegacyAutomaticRunStops(step: Step, Retiring: bool, RowNumber: nat, Start: int)
    requires LegacyLoopReady(step, RowNumber) && step.IsAutomatic
    ensures var run := LegacyPivotRun(step, Retiring, RowNumber, Start);
      var last := Last(step, run);
      |run| < Start + RowNumber - step.StepID ==>
        IsTableau(last.Tableau) && (last.IsCompleted || LegacyClassify(last.Tableau) != Continue)
    decreases Start + RowNumber - step.StepID
  {
    if step.StepID < Start + RowNumber {
      LegacyRunStep(step, Retiring, RowNumber, Start);
      var s := LegacySimplexStepSpec(step);
      if !s.IsCompleted {
        var t := LegacyBookkeeping(s, Retiring, RowNumber);
        LegacyAutomaticRunStops(t, Retiring, RowNumber, Start);
        var rest := LegacyPivotRun(t, Retiring, RowNumber, Start);
        LastCons(step, t, rest);
      }
    }
  }

  /** The first older pushed step records the pivot of the starting tableau on its lead cell, the automatic one or the one entered by hand. */
  lemma LegacyFirstPushedLead(step: Step, Retiring: bool, RowNumber: nat, Start: int)
    requires LegacyLoopReady(step, RowNumber)
    requires LegacyPivotRun(step, Retiring, RowNumber, Start) != []
    ensures var g, t := step.Tableau, LegacyPivotRun(step, Retiring, RowNumber, Start)[0];
      var rc := t.StepChosenRC;
      0 <= rc.Row < RowNumber && 0 <= rc.Column < |g[0]| - 1 && g[rc.Row][rc.Column] != 0.0 &&
      (step.IsAutomatic ==> rc == LegacyAutoLead(g)) &&
      (!step.IsAutomatic ==> rc == step.LeadElementRC)
  {
    LegacyRunStep(step, Retiring, RowNumber, Start);
    LegacySimplexStepOutcome(step);
    var s := LegacySimplexStepSpec(step);
    LegacyBookkeepingMarks(s, Retiring, RowNumber);
  }
}

/** What one call of the older `ArtificialBasis` or `SimplexAlgorithm` promises. */
module LegacyDriverOutcomes {
  import opened Matrices
  import opened Steps
  import opened LeadSelection
  import opened SimplexSteps
  import opened LegacyStateCheck
  import opened LegacySimplexSteps
  import opened LeadCandidates
  import opened Drivers
  import opened LegacyDrivers

  /**
   * The older loop from a driver's step: nothing when the older verdict is
   * not CONTINUE, the step is already completed or it waits for input;
   * otherwise one pivot at least, and exactly one, waiting, by hand.
   */
  lemma LegacyDriverRunOutcome(e: Step, Retiring: bool)
    requires LegacyRunReady(e)
    ensures var run := LegacyDriverRun(e, Retiring);
      (LegacyClassify(e.Tableau) != Continue || e.IsCompleted || e.IsWaitingForInput ==> run == []) &&
      (LegacyClassify(e.Tableau) == Continue && !e.IsCompleted && !e.IsWaitingForInput ==>
         run != [] && run[0].StepID == e.StepID + 1 &&
         (!e.IsAutomatic ==> |run| == 1 && run[0].IsWaitingForInput))
  {
    if !e.IsWaitingForInput {
      LegacyRunStep(e, Retiring, |e.Tableau|, e.StepID);
      LegacySimplexStepOutcome(e);
    }
  }

  /**
   * The older `ArtificialBasis`: a completed phase one is left alone; a step
   * whose older verdict is not CONTINUE, or that waits for input, pushes
   * nothing; CONTINUE on a step
   * neither completed nor waiting pivots; automatic mode offers no leads,
   * step-by-step mode offers ratio-test leads outside the banned rows.
   */
  lemma LegacyArtificialBasisOutcome(step: Step)
    requires LegacyDriverReady(step)
    ensures var r, g := LegacyArtificialBasisSpec(step), step.Tableau;
      (step.IsArtificialStep && step.IsCompleted ==> r == DriverResult([], [])) &&
      (!(step.IsArtificialStep && step.IsCompleted) ==>
         (step.IsAutomatic ==> r.PotentialLeads == []) &&
         (forall rc :: rc in r.PotentialLeads ==>
            0 <= rc.Column < |g[0]| - 1 && IsLegacyLead(g, rc.Row, rc.Column) && rc.Row !in step.RowsBannedToSwap) &&
         (LegacyClassify(g) != Continue || step.IsWaitingForInput ==> r.Pushed == []) &&
         (LegacyClassify(g) == Continue && !step.IsCompleted && !step.IsWaitingForInput ==>
            r.Pushed != [] && r.Pushed[0].StepID == step.StepID + 1 &&
            (!step.IsAutomatic ==> |r.Pushed| == 1 && r.Pushed[0].IsWaitingForInput)))
  {
    if !(step.IsArtificialStep && step.IsCompleted) {
      LegacyEnteredReady(step);
      LegacyDriverRunOutcome(MarkedStep(step, LegacyMarked(step)), true);
      LegacyLeadsAreRatioTests(step.Tableau, step.RowsBannedToSwap, true, |step.Tableau[0]| - 1);
    }
  }

  /**
   * The older `SimplexAlgorithm`: a completed phase two is left alone; a
   * step whose older verdict is not CONTINUE, or that waits for input,
   * pushes nothing; CONTINUE on a
   * step neither completed nor waiting pivots; step-by-step mode offers one
   * ratio-test lead per negative column that has a positive entry.
   */
  lemma LegacySimplexAlgorithmOutcome(step: Step)
    requires LegacyDriverReady(step)
    ensures var r, g := LegacySimplexAlgorithmSpec(step), step.Tableau;
      (!step.IsArtificialStep && step.IsCompleted ==> r == DriverResult([], [])) &&
      (!(!step.IsArtificialStep && step.IsCompleted) ==>
         (step.IsAutomatic ==> r.PotentialLeads == []) &&
         (forall rc :: rc in r.PotentialLeads ==> 0 <= rc.Column < |g[0]| - 1 && IsLegacyLead(g, rc.Row, rc.Column)) &&
         (LegacyClassify(g) != Continue || step.IsWaitingForInput ==> r.Pushed == []) &&
         (LegacyClassify(g) == Continue && !step.IsCompleted && !step.IsWaitingForInput ==>
            r.Pushed != [] && r.Pushed[0].StepID == step.StepID + 1 &&
            (!step.IsAutomatic ==> |r.Pushed| == 1 && r.Pushed[0].IsWaitingForInput)))
  {
    if !(!step.IsArtificialStep && step.IsCompleted) {
      LegacyEnteredReady(step);
      LegacyDriverRunOutcome(MarkedStep(step, LegacyMarked(step)), false);
      LegacyLeadsAreRatioTests(step.Tableau, step.RowsBannedToSwap, false, |step.Tableau[0]| - 1);
    }
  }

  /** A column that can enter has an older lead when banned rows are not excluded. */
  lemma LegacyEnteringHasLead(g: Grid<real>, RowsBannedToSwap: seq<int>, c: nat)
    requires IsTableau(g) && c < |g[0]| - 1 && IsEnteringColumn(g, c)
    ensures exists rc :: rc in LegacyLeads(g, RowsBannedToSwap, false) && rc.Column == c
  {
    var i :| 0 <= i < |g| - 1 && g[i][c] > EPSILON;
    assert g[i][c] > 0.0;
    LegacyLeadOfColumn(g, RowsBannedToSwap, false, c);
    var rc := RowAndColumn(RatioRow(g, c, 0.0, |g| - 1), c);
    assert rc.Column == c;
  }

  /** By hand, the older phase two offers the older leads of every column. */
  lemma LegacySimplexAlgorithmOffers(step: Step)
    requires LegacyDriverReady(step) && !step.IsAutomatic && !(!step.IsArtificialStep && step.IsCompleted)
    ensures LegacySimplexAlgorithmSpec(step).PotentialLeads == LegacyLeads(step.Tableau, step.RowsBannedToSwap, false)
  {
    LegacyEnteredReady(step);
  }

  /** By hand, the older phase two offers a lead in every column that can enter. */
  lemma LegacySimplexAlgorithmLeadsComplete(step: Step, c: nat)
    requires LegacyDriverReady(step) && !step.IsAutomatic && !(!step.IsArtificialStep && step.IsCompleted)
    requires c < |step.Tableau[0]| - 1 && IsEnteringColumn(step.Tableau, c)
    ensures exists rc :: rc in LegacySimplexAlgorithmSpec(step).PotentialLeads && rc.Column == c
  {
    LegacyEnteringHasLead(step.Tableau, step.RowsBannedToSwap, c);
    LegacySimplexAlgorithmOffers(step);
  }
}
