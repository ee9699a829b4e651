/**
 How activations and the manager's disposal end, told from the steps of a run: which calls were made, and how
 the backends and their disposals answered.
 */
module BackendOutcomes {
  import opened Vault
  import opened BackendLifecycle

  /** How many activate calls there were. */
  function Activates(steps: seq<Step>): nat {
    if steps == [] then 0
    else Activates(steps[..|steps| - 1]) + if steps[|steps| - 1].Activate? then 1 else 0
  }

  /** Before step `k`, activation `i` is the latest and dispose has not been called. */
  predicate Latest(steps: seq<Step>, k: nat, i: nat)
    requires k <= |steps|
  {
    Activates(steps[..k]) == i + 1 && Step.Dispose !in steps[..k]
  }

  lemma {:induction false} RunCounts(ss: seq<State>, steps: seq<Step>, j: nat)
    requires IsRun(ss, steps) && j <= |steps|
    ensures |ss[j].activations| == Activates(steps[..j])
    ensures ss[j].closed <==> Step.Dispose in steps[..j]
    decreases j
  {
    if j > 0 {
      RunCounts(ss, steps, j - 1);
      assert StepAt(ss, steps, j - 1);
      assert steps[..j] == steps[..j - 1] + [steps[j - 1]];
      StepCounts(ss[j - 1], steps[j - 1]);
      RunInv(ss, steps, j - 1);
    }
  }

  lemma StepCounts(s: State, step: Step)
    requires Enabled(s, step)
    ensures |Next(s, step).activations| == |s.activations| + if step.Activate? then 1 else 0
    ensures s.closed && !step.Dispose? ==> Next(s, step).closed
    ensures !s.closed && !step.Dispose? ==> !Next(s, step).closed
    ensures step.Dispose? && (s.closed <==> s.disposal.Some?) ==> Next(s, step).closed
  {
  }

  /// ---- single steps ------------------------------------------------------------------------------

  /** activate tells the active backend to dispose, if there is one, and waits for the activation before it. */
  lemma ActivateOutcome(ss: seq<State>, steps: seq<Step>, k: nat)
    requires IsRun(ss, steps) && k < |steps| && steps[k] == Step.Activate
    ensures
      var s, s', i := ss[k], ss[k + 1], Activates(steps[..k]);
      && s'.active == None && s'.created == s.created && |s'.activations| == i + 1
      && s'.activations[i].phase == AwaitPrior
      && (s.active.None? ==> s'.calls == s.calls && s'.activations[i].immediate == None)
      && (s.active.Some? ==> s'.calls == s.calls + [Call(s.active.value, Some(i), None)] && s'.activations[i].immediate == Some(|s.calls|))
  {
    RunCounts(ss, steps, k);
    assert StepAt(ss, steps, k);
  }

  /**
   Once the prior activation has ended and the dispose call of activate has settled: the activation fails with that
   call, gives up if a later activate or dispose was called, and otherwise makes the next backend and makes it active.
   */
  lemma CreationOutcome(ss: seq<State>, steps: seq<Step>, k: nat, i: nat)
    requires IsRun(ss, steps) && k < |steps| && steps[k] == ImmediateSettled(i)
    ensures
      i < |ss[k].activations| && i < |ss[k + 1].activations|
      && var s, s', a := ss[k], ss[k + 1], ss[k].activations[i];
      && s'.calls == s.calls
      && (a.immediate.Some? ==> a.immediate.value < |s.calls| && s.calls[a.immediate.value].settled.Some?)
      && if (a.immediate.Some? && s.calls[a.immediate.value].settled == Some(false)) || !Latest(steps, k, i)
         then s'.activations[i].phase == Rejected && s'.active == s.active && s'.created == s.created
         else s'.activations[i].phase == Initializing(s.created) && s'.active == Some(s.created) && s'.created == s.created + 1
  {
    RunCounts(ss, steps, k);
    RunInv(ss, steps, k);
    assert StepAt(ss, steps, k);
    NoStrayPrevious(ss[k], i);
  }

  /** A factory that throws ends the activation and makes nothing. */
  lemma FactoryThrowsOutcome(ss: seq<State>, steps: seq<Step>, k: nat, i: nat)
    requires IsRun(ss, steps) && k < |steps| && steps[k] == FactoryThrows(i)
    ensures i < |ss[k + 1].activations| && ss[k + 1].activations[i].phase == Rejected && Latest(steps, k, i)
    ensures ss[k + 1].created == ss[k].created && ss[k + 1].calls == ss[k].calls && ss[k + 1].active == ss[k].active
  {
    RunCounts(ss, steps, k);
    assert StepAt(ss, steps, k);
  }

  /**
   When initialize succeeds, the activation resolves with the backend it made, which stays active and is not told
   to dispose, exactly if no later activate and no dispose was called; else it disposes of that backend.
   */
  lemma InitializeOutcome(ss: seq<State>, steps: seq<Step>, k: nat, i: nat)
    requires IsRun(ss, steps) && k < |steps| && steps[k] == InitializeSucceeded(i)
    ensures
      i < |ss[k].activations| && i < |ss[k + 1].activations| && ss[k].activations[i].phase.Initializing?
      && var s, s', b := ss[k], ss[k + 1], ss[k].activations[i].phase.backend;
      && s'.created == s.created
      && if Latest(steps, k, i)
         then s'.activations[i].phase == Resolved(b) && s'.active == Some(b) && !Told(s', b) && s'.calls == s.calls
         else s'.activations[i].phase == AwaitDispose(|s.calls|) && s'.active != Some(b) && s'.calls == s.calls + [Call(b, Some(i), None)]
  {
    RunCounts(ss, steps, k);
    RunInv(ss, steps, k);
    assert StepAt(ss, steps, k);
    assert HeldProperly(ss[k], i);
    ActiveIsFree(ss[k]);
  }

  lemma ActiveIsFree(s: State)
    requires Inv(s)
    ensures s.active.Some? ==> !Told(s, s.active.value)
  {
  }

  /** When initialize fails, the backend is disposed of and no longer active; the activation ends after that. */
  lemma FailureOutcome(ss: seq<State>, steps: seq<Step>, k: nat, i: nat)
    requires IsRun(ss, steps) && k < |steps| && steps[k] == InitializeFailed(i)
    ensures
      i < |ss[k].activations| && i < |ss[k + 1].activations| && ss[k].activations[i].phase.Initializing?
      && var s, s', b := ss[k], ss[k + 1], ss[k].activations[i].phase.backend;
      && s'.activations[i].phase == AwaitDispose(|s.calls|)
      && s'.active != Some(b) && s'.created == s.created && s'.calls == s.calls + [Call(b, Some(i), None)]
  {
    assert StepAt(ss, steps, k);
  }

  /** The first dispose closes the manager and tells the active backend; later ones change nothing. */
  lemma DisposeOutcome(ss: seq<State>, steps: seq<Step>, k: nat)
    requires IsRun(ss, steps) && k < |steps| && steps[k] == Step.Dispose
    ensures Step.Dispose in steps[..k] ==> ss[k + 1] == ss[k]
    ensures Step.Dispose !in steps[..k] ==>
              var s, s' := ss[k], ss[k + 1];
              && s'.active == None && s'.activations == s.activations && s'.created == s.created
              && s'.calls == s.calls + (if s.active.Some? then [Call(s.active.value, None, None)] else [])
  {
    RunCounts(ss, steps, k);
    RunInv(ss, steps, k);
    assert StepAt(ss, steps, k);
  }

  /** The disposal fails if its own dispose call failed, and then or once the last activation has ended it is over. */
  lemma DisposalOutcome(ss: seq<State>, steps: seq<Step>, k: nat)
    requires IsRun(ss, steps) && k < |steps| && ss[k].disposal.Some?
    ensures
      ss[k + 1].disposal.Some?
      && var s, d, d' := ss[k], ss[k].disposal.value, ss[k + 1].disposal.value;
      && (d.call.Some? && steps[k] == ActiveDisposed ==> d.call.value < |s.calls| && s.calls[d.call.value].settled.Some?)
      && d'.phase == if steps[k] == ActiveDisposed
                     then (if d.call.Some? && s.calls[d.call.value].settled == Some(false) then Failed else AwaitPending)
                     else if steps[k] == PendingSettled then Done
                     else d.phase
  {
    RunInv(ss, steps, k);
    assert StepAt(ss, steps, k);
    if steps[k] == PendingSettled {
      NoStrayLate(ss[k]);
    }
    NoStrayBackends(ss, steps, k);
  }

  /// ---- whole runs ------------------------------------------------------------------------------------

  /** At some step before `j`, the initialize of activation `i` succeeded while no later call was made. */
  ghost predicate Succeeded(steps: seq<Step>, j: nat, i: nat)
    requires j <= |steps|
  {
    exists k :: 0 <= k < j && steps[k] == InitializeSucceeded(i) && Latest(steps, k, i)
  }

  lemma SucceededStep(steps: seq<Step>, j: nat, i: nat)
    requires j < |steps|
    ensures Succeeded(steps, j + 1, i) <==> Succeeded(steps, j, i) || (steps[j] == InitializeSucceeded(i) && Latest(steps, j, i))
  {
  }

  /** An activation has resolved exactly if its initialize succeeded before any later activate or dispose. */
  lemma {:induction false} ResolvedIff(ss: seq<State>, steps: seq<Step>, j: nat, i: nat)
    requires IsRun(ss, steps) && j <= |steps|
    ensures i < |ss[j].activations| && ss[j].activations[i].phase.Resolved? <==> Succeeded(steps, j, i)
    decreases j
  {
    if j > 0 {
      var k := j - 1;
      ResolvedIff(ss, steps, k, i);
      SucceededStep(steps, k, i);
      assert StepAt(ss, steps, k);
      RunCounts(ss, steps, k);
      if steps[k] == InitializeSucceeded(i) {
        InitializeOutcome(ss, steps, k, i);
      } else {
        ResolvedStep(ss[k], steps[k], i);
      }
    }
  }

  lemma ResolvedStep(s: State, step: Step, i: nat)
    requires Enabled(s, step) && step != InitializeSucceeded(i)
    ensures
      var s' := Next(s, step);
      i < |s'.activations| && s'.activations[i].phase.Resolved? <==> i < |s.activations| && s.activations[i].phase.Resolved?
  {
  }

  /** The backend an activation holds is the one it made, and it was given the next number. */
  ghost predicate MadeBefore(ss: seq<State>, steps: seq<Step>, j: nat, i: nat, b: nat)
    requires j <= |steps| && |ss| == |steps| + 1
  {
    exists k :: 0 <= k < j && steps[k] == ImmediateSettled(i) && ss[k].created == b && ss[k + 1].created == b + 1
  }

  lemma {:induction false} HeldWasMade(ss: seq<State>, steps: seq<Step>, j: nat, i: nat)
    requires IsRun(ss, steps) && j <= |steps| && i < |ss[j].activations|
    ensures
      var p := ss[j].activations[i].phase;
      p.Initializing? || p.Resolved? ==> MadeBefore(ss, steps, j, i, p.backend)
    decreases j
  {
    if j > 0 {
      var k := j - 1;
      assert StepAt(ss, steps, k);
      RunInv(ss, steps, k);
      var p := ss[j].activations[i].phase;
      if p.Initializing? || p.Resolved? {
        HeldStep(ss[k], steps[k], i);
        if steps[k] == ImmediateSettled(i) {
          assert MadeBefore(ss, steps, j, i, p.backend);
        } else {
          HeldWasMade(ss, steps, k, i);
          var m :| 0 <= m < k && steps[m] == ImmediateSettled(i) && ss[m].created == p.backend && ss[m + 1].created == p.backend + 1;
          assert MadeBefore(ss, steps, j, i, p.backend);
        }
      }
    }
  }

  lemma HeldStep(s: State, step: Step, i: nat)
    requires Inv(s) && Enabled(s, step)
    ensures
      var s' := Next(s, step);
      i < |s'.activations| && Held(s'.activations[i].phase).Some? ==>
        && i < |s.activations|
        && (if step == ImmediateSettled(i)
            then s'.created == s.created + 1 && Held(s'.activations[i].phase) == Some(s.created)
            else Held(s.activations[i].phase) == Held(s'.activations[i].phase))
  {
  }

  /** While nothing supersedes it, the backend of a resolved activation stays active and is handed out by current. */
  lemma ResolvedIsCurrent(ss: seq<State>, steps: seq<Step>, j: nat, i: nat)
    requires IsRun(ss, steps) && j <= |steps| && Succeeded(steps, j, i) && Latest(steps, j, i)
    ensures
      i < |ss[j].activations| && ss[j].activations[i].phase.Resolved?
      && var b := ss[j].activations[i].phase.backend;
      ss[j].active == Some(b) && !Told(ss[j], b) && Current(ss[j], Some(b)) == Some(b)
  {
    ResolvedIff(ss, steps, j, i);
    RunCounts(ss, steps, j);
    RunInv(ss, steps, j);
    assert HeldProperly(ss[j], i);
    ActiveIsFree(ss[j]);
  }

  /// ---- every activation ends --------------------------------------------------------------------------

  /** The calls an activation refers to are among the first `n`. */
  predicate CallsOf(a: Activation, n: nat) {
    && (a.immediate.Some? ==> a.immediate.value < n)
    && (a.phase.AwaitPrevious? || a.phase.AwaitDispose? ==> a.phase.call < n)
  }

  /** Every call an activation or the disposal waits for has been made. */
  predicate CallsExist(s: State) {
    && (forall i :: 0 <= i < |s.activations| ==> CallsOf(s.activations[i], |s.calls|))
    && (s.disposal.Some? ==>
          && (s.disposal.value.call.Some? ==> s.disposal.value.call.value < |s.calls|)
          && (s.disposal.value.phase.AwaitLate? ==> s.disposal.value.phase.call < |s.calls|))
  }

  lemma CallsExistStep(s: State, step: Step)
    requires CallsExist(s) && Enabled(s, step)
    ensures CallsExist(Next(s, step))
  {
    var s' := Next(s, step);
    forall i: nat | i < |s'.activations| ensures CallsOf(s'.activations[i], |s'.calls|) {
      assert i < |s.activations| ==> CallsOf(s.activations[i], |s.calls|);
      CallsOfStep(s, step, i);
    }
  }

  lemma CallsOfStep(s: State, step: Step, i: nat)
    requires Enabled(s, step) && i < |Next(s, step).activations|
    requires i < |s.activations| ==> CallsOf(s.activations[i], |s.calls|)
    ensures CallsOf(Next(s, step).activations[i], |Next(s, step).calls|)
  {
  }

  lemma {:induction false} RunCallsExist(ss: seq<State>, steps: seq<Step>, j: nat)
    requires IsRun(ss, steps) && j <= |steps|
    ensures CallsExist(ss[j])
    decreases j
  {
    if j > 0 {
      RunCallsExist(ss, steps, j - 1);
      assert StepAt(ss, steps, j - 1);
      CallsExistStep(ss[j - 1], steps[j - 1]);
    }
  }

  /** A step that no caller takes: an await of the manager is over, or a backend answers. */
  predicate Internal(step: Step) {
    !step.Activate? && !step.Dispose?
  }

  function PhaseRank(p: Phase): nat {
    match p
    case AwaitPrior => 5
    case AwaitImmediate(_) => 4
    case AwaitPrevious(_) => 3
    case Initializing(_) => 2
    case AwaitDispose(_) => 1
    case _ => 0
  }

  function ActivationsRank(activations: seq<Activation>): nat {
    if activations == [] then 0
    else ActivationsRank(activations[..|activations| - 1]) + PhaseRank(activations[|activations| - 1].phase)
  }

  function Unsettled(calls: seq<Call>): nat {
    if calls == [] then 0
    else Unsettled(calls[..|calls| - 1]) + if calls[|calls| - 1].settled.None? then 1 else 0
  }

  function DisposalRank(d: Option<Disposal>): nat {
    match d
    case None => 0
    case Some(d) => match d.phase
      case AwaitActive => 3
      case AwaitPending => 2
      case AwaitLate(_) => 1
      case _ => 0
  }

  /** An upper bound on the steps still to come when no caller calls again. */
  function Rank(s: State): nat {
    2 * ActivationsRank(s.activations) + Unsettled(s.calls) + 2 * DisposalRank(s.disposal)
  }

  lemma {:induction false} RankUpdated(activations: seq<Activation>, i: nat, a: Activation)
    requires i < |activations|
    ensures ActivationsRank(activations[i := a]) == ActivationsRank(activations) - PhaseRank(activations[i].phase) + PhaseRank(a.phase)
  {
    var n := |activations| - 1;
    if i < n {
      RankUpdated(activations[..n], i, a);
      assert activations[i := a][..n] == activations[..n][i := a];
    } else {
      assert activations[i := a][..n] == activations[..n];
    }
  }

  lemma {:induction false} UnsettledUpdated(calls: seq<Call>, c: nat, call: Call)
    requires c < |calls| && calls[c].settled.None? && call.settled.Some?
    ensures Unsettled(calls[c := call]) == Unsettled(calls) - 1
  {
    var n := |calls| - 1;
    if c < n {
      UnsettledUpdated(calls[..n], c, call);
      assert calls[c := call][..n] == calls[..n][c := call];
    } else {
      assert calls[c := call][..n] == calls[..n];
    }
  }

  lemma UnsettledAppended(calls: seq<Call>, call: Call)
    ensures Unsettled(calls + [call]) == Unsettled(calls) + if call.settled.None? then 1 else 0
  {
    assert (calls + [call])[..|calls|] == calls;
  }

  /** `s'` makes at most one call more than `s`, which has not settled. */
  ghost predicate OneMoreCall(s: State, s': State) {
    s'.calls == s.calls || exists call: Call :: call.settled.None? && s'.calls == s.calls + [call]
  }

  /** A step of an activation takes it to a later phase. */
  lemma PhaseFalls(s: State, step: Step)
    requires Enabled(s, step) && Resumes(step).Some?
    ensures
      var s', i := Next(s, step), Resumes(step).value;
      && Resumed(s, s', i) && OneMoreCall(s, s')
      && PhaseRank(s'.activations[i].phase) < PhaseRank(s.activations[i].phase)
  {
    ResumesShape(s, step);
    var s', i := Next(s, step), Resumes(step).value;
    if s'.calls != s.calls {
      var call := s'.calls[|s.calls|];
      assert s'.calls == s.calls + [call] && call.settled.None?;
    }
  }

  /** Left to themselves, the manager and its backends take only finitely many steps. */
  lemma InternalDecreases(s: State, step: Step)
    requires Enabled(s, step) && Internal(step)
    ensures Rank(Next(s, step)) < Rank(s)
  {
    if Resumes(step).Some? {
      ResumingDecreases(s, step);
    } else if step.SettleCall? {
      UnsettledUpdated(s.calls, step.c, s.calls[step.c].(settled := Some(step.ok)));
    } else {
      DisposalDecreases(s, step);
    }
  }

  lemma ResumingDecreases(s: State, step: Step)
    requires Enabled(s, step) && Internal(step) && Resumes(step).Some?
    ensures Rank(Next(s, step)) < Rank(s)
  {
    var s', i := Next(s, step), Resumes(step).value;
    PhaseFalls(s, step);
    RankUpdated(s.activations, i, s'.activations[i]);
    assert s'.activations == s.activations[i := s'.activations[i]];
    if call: Call :| call.settled.None? && s'.calls == s.calls + [call] {
      UnsettledAppended(s.calls, call);
    }
  }

  lemma DisposalDecreases(s: State, step: Step)
    requires Enabled(s, step) && (step.ActiveDisposed? || step.PendingSettled? || step.LateDisposed?)
    ensures Rank(Next(s, step)) < Rank(s)
  {
    var late := PriorResult(s, |s.activations|);
    if step.PendingSettled? && late.Some? {
      UnsettledAppended(s.calls, Call(late.value, None, None));
    }
  }

  /** Nothing is in progress: every activation and the disposal, if there is one, has ended, and so has every dispose call. */
  predicate AtRest(s: State) {
    && (forall i :: 0 <= i < |s.activations| ==> s.activations[i].phase.Resolved? || s.activations[i].phase.Rejected?)
    && (forall c :: 0 <= c < |s.calls| ==> s.calls[c].settled.Some?)
    && (s.disposal.Some? ==> s.disposal.value.phase == Done || s.disposal.value.phase == Failed)
  }

  lemma {:induction false} FirstUnended(s: State, n: nat) returns (i: nat)
    requires n <= |s.activations| && exists k :: 0 <= k < n && !Ended(s.activations[k].phase)
    ensures i < n && !Ended(s.activations[i].phase) && PriorEnded(s, i)
  {
    i := 0;
    while Ended(s.activations[i].phase)
      invariant i < n && forall k :: 0 <= k < i ==> Ended(s.activations[k].phase)
      decreases n - i
    {
      i := i + 1;
    }
  }

  /** Until they are at rest, some await is over or some backend has an answer to give. */
  lemma SomethingToDo(s: State) returns (step: Step)
    requires CallsExist(s) && !AtRest(s)
    ensures Enabled(s, step) && Internal(step)
  {
    if c :| 0 <= c < |s.calls| && s.calls[c].settled.None? {
      return SettleCall(c, true);
    }
    if k :| 0 <= k < |s.activations| && !Ended(s.activations[k].phase) {
      var i := FirstUnended(s, |s.activations|);
      match s.activations[i].phase
      case AwaitPrior => return PriorSettled(i);
      case AwaitImmediate(_) => return ImmediateSettled(i);
      case AwaitPrevious(_) => return PreviousSettled(i);
      case Initializing(_) => return InitializeSucceeded(i);
      case AwaitDispose(_) => return OwnDisposeSettled(i);
    }
    match s.disposal.value.phase
    case AwaitActive => return ActiveDisposed;
    case AwaitPending => return PendingSettled;
    case AwaitLate(_) => return LateDisposed;
  }

  /** No activate or dispose is called from step `j` on. */
  predicate QuietFrom(steps: seq<Step>, j: nat) {
    forall k :: j <= k < |steps| ==> Internal(steps[k])
  }

  lemma {:induction false} RankCounts(ss: seq<State>, steps: seq<Step>, j: nat, k: nat)
    requires IsRun(ss, steps) && QuietFrom(steps, j) && j <= k <= |steps|
    ensures k - j + Rank(ss[k]) <= Rank(ss[j])
    decreases k
  {
    if j < k {
      RankCounts(ss, steps, j, k - 1);
      assert StepAt(ss, steps, k - 1);
      InternalDecreases(ss[k - 1], steps[k - 1]);
    }
  }

  /**
   When callers stop, the run is over after at most Rank steps; where it cannot go on, every activation has resolved
   or rejected and the disposal has resolved or rejected.
   */
  lemma EverythingEnds(ss: seq<State>, steps: seq<Step>, j: nat)
    requires IsRun(ss, steps) && QuietFrom(steps, j) && j <= |steps|
    ensures |steps| - j <= Rank(ss[j])
    ensures (forall step :: Internal(step) ==> !Enabled(ss[|steps|], step)) ==> AtRest(ss[|steps|])
  {
    RankCounts(ss, steps, j, |steps|);
    RunCallsExist(ss, steps, |steps|);
    if !AtRest(ss[|steps|]) {
      var step := SomethingToDo(ss[|steps|]);
    }
  }
}
