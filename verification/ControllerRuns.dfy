/** Whole runs of the index controller: losslessness, quiescence and rescan debt. */
module ControllerRuns {
  import opened Vault
  import opened PendingQueues
  import opened Coverage
  import opened IndexController
  import opened Coalescing
  import opened FailedDrains

  ghost predicate RunStep(ss: seq<State>, steps: seq<Step>, n: nat, i: nat)
    requires i < |steps| && |ss| == |steps| + 1
  {
    Enabled(ss[i], steps[i]) && ss[i + 1] == Next(ss[i], steps[i], n)
  }

  ghost predicate IsRun(ss: seq<State>, steps: seq<Step>, n: nat) {
    && |ss| == |steps| + 1
    && ss[0] == Init(ss[0].vault)
    && forall i :: 0 <= i < |steps| ==> RunStep(ss, steps, n, i)
  }

  /** The guard of Coalescing.EventSafe, asked only while some index is tracked. */
  ghost predicate SafeStep(s: State, step: Step) {
    step.Observe? && Tracking(s) ==> EventSafe(s, step.change)
  }

  ghost predicate HypothesisAt(s: State, step: Step) {
    step.Observe? && Tracking(s) ==> Hypothesis(s, step.change)
  }

  lemma {:induction false} RunConsistent(ss: seq<State>, steps: seq<Step>, n: nat, i: nat)
    requires IsRun(ss, steps, n) && i < |ss|
    ensures Consistent(ss[i])
    decreases i
  {
    if i > 0 {
      assert RunStep(ss, steps, n, i - 1);
      RunConsistent(ss, steps, n, i - 1);
      ConsistentStep(ss[i - 1], steps[i - 1], n);
    }
  }

  lemma AcyclicStep(s: State, step: Step, n: nat)
    requires Consistent(s) && Enabled(s, step) && !Cyclic(s.q.renames)
    ensures !Cyclic(Next(s, step, n).q.renames)
  {
    FewerAcyclic(s.q.renames, []);
    match step {
      case Observe(c) =>
        AcyclicEnqueue(Stamp(s.q, EventOf(c)), EventOf(c));
      case Take(_) =>
        if s.q.renames != [] { FewerAcyclic(s.q.renames, s.q.renames[1..]); }
      case Fail =>
        if DrainOf(s.work).Applying? { AcyclicRequeue(s.q, DrainOf(s.work).change); }
      case _ =>
    }
  }

  lemma AcyclicRequeue(q: Queues, change: Change)
    requires WellFormed(q) && !Cyclic(q.renames)
    ensures !Cyclic(Requeue(q, change).renames)
  {
    if change.rename.Some? {
      AcyclicEnqueue(q, Moved(change.rename.value.root, change.rename.value.dest));
    } else if change.removals != {} {
      AcyclicEnqueue(q, Remove(Only(change.removals)));
    }
  }

  /** In every run, whatever the events and failures, the pending renames form no cycle, so every walk along them ends. */
  lemma {:induction false} RunAcyclic(ss: seq<State>, steps: seq<Step>, n: nat, i: nat)
    requires IsRun(ss, steps, n) && i < |ss|
    ensures !Cyclic(ss[i].q.renames)
    decreases i
  {
    if i > 0 {
      assert RunStep(ss, steps, n, i - 1);
      RunConsistent(ss, steps, n, i - 1);
      RunAcyclic(ss, steps, n, i - 1);
      AcyclicStep(ss[i - 1], steps[i - 1], n);
    }
  }

  lemma SafeStepCovered(s: State, step: Step, n: nat)
    requires Consistent(s) && AllCovered(s) && Enabled(s, step) && SafeStep(s, step)
    ensures AllCovered(Next(s, step, n))
  {
    if !step.Observe? {
      QuietStepCoverage(s, step, n);
    } else if Tracking(s) {
      EventCoverage(s, step.change, n);
    } else {
      EventEffect(s.q, EventOf(step.change), n);
    }
  }

  /** While events are safe, every path where index and vault differ is pending or in flight. */
  lemma {:induction false} SafeRunCovered(ss: seq<State>, steps: seq<Step>, n: nat, i: nat)
    requires IsRun(ss, steps, n) && i < |ss|
    requires forall j :: 0 <= j < i ==> SafeStep(ss[j], steps[j])
    ensures AllCovered(ss[i])
    decreases i
  {
    if i > 0 {
      assert RunStep(ss, steps, n, i - 1);
      RunConsistent(ss, steps, n, i - 1);
      SafeRunCovered(ss, steps, n, i - 1);
      SafeStepCovered(ss[i - 1], steps[i - 1], n);
    }
  }

  /** The guards of events and of failures outside a build, asked also while a failure blocks the controller. */
  ghost predicate GuardedStep(s: State, step: Step) {
    && (step.Observe? && Followed(s) ==> EventSafe(s, step.change))
    && (step.Fail? && Tracking(s) && s.work.Serving? && s.work.drain.Applying? ==>
          RequeueRescans(s.q, s.work.drain.change) || RequeueSafe(s.q, s.vault, s.work.drain.change, s.active.value))
    && (step.Fail? && Tracking(s) && s.work.Restoring? ==> RestoreSafe(s))
  }

  lemma GuardedStepFollowed(s: State, step: Step, n: nat)
    requires Consistent(s) && AllFollowed(s) && Enabled(s, step) && GuardedStep(s, step)
    ensures AllFollowed(Next(s, step, n))
  {
    if step.Observe? {
      if Followed(s) {
        EventCoverage(s, step.change, n);
      } else {
        EventEffect(s.q, EventOf(step.change), n);
      }
    } else if step.Fail? && s.work.Serving? {
      if Tracking(s) {
        FailCoverage(s, n);
      } else {
        RequeueRescansExactly(s.q, s.work.drain.change);
      }
    } else if step.Fail? && s.work.Restoring? {
      if Tracking(s) {
        FailRestoreCoverage(s, n);
      }
    } else {
      QuietStepFollowed(s, step, n);
    }
  }

  /**
   While events and failures are safe, every path where index and vault differ is pending or in flight, also
   while a failure blocks the controller.
   */
  lemma {:induction false} GuardedRunFollowed(ss: seq<State>, steps: seq<Step>, n: nat, i: nat)
    requires IsRun(ss, steps, n) && i < |ss|
    requires forall j :: 0 <= j < i ==> GuardedStep(ss[j], steps[j])
    ensures AllFollowed(ss[i])
    decreases i
  {
    if i > 0 {
      assert RunStep(ss, steps, n, i - 1);
      RunConsistent(ss, steps, n, i - 1);
      GuardedRunFollowed(ss, steps, n, i - 1);
      GuardedStepFollowed(ss[i - 1], steps[i - 1], n);
    }
  }

  lemma HypothesisStep(s: State, step: Step, n: nat)
    requires Consistent(s) && Untangled(s) && Enabled(s, step) && HypothesisAt(s, step)
    ensures Untangled(Next(s, step, n)) && SafeStep(s, step)
  {
    if step.Observe? {
      UntangledObserve(s, step.change, n);
      if Tracking(s) {
        HypothesisIsSafe(s, step.change);
      }
    } else {
      UntangledQuiet(s, step, n);
    }
  }

  /** Under the hypothesis the pending renames stay untangled. */
  lemma {:induction false} RunUntangled(ss: seq<State>, steps: seq<Step>, n: nat, i: nat)
    requires IsRun(ss, steps, n) && i < |ss|
    requires forall j :: 0 <= j < i ==> HypothesisAt(ss[j], steps[j])
    ensures Untangled(ss[i])
    decreases i
  {
    if i > 0 {
      assert RunStep(ss, steps, n, i - 1);
      RunConsistent(ss, steps, n, i - 1);
      RunUntangled(ss, steps, n, i - 1);
      HypothesisStep(ss[i - 1], steps[i - 1], n);
    }
  }

  /** So every event of the run is safe. */
  lemma HypothesisRun(ss: seq<State>, steps: seq<Step>, n: nat, i: nat)
    requires IsRun(ss, steps, n) && i < |ss|
    requires forall j :: 0 <= j < i ==> HypothesisAt(ss[j], steps[j])
    ensures Untangled(ss[i])
    ensures forall j :: 0 <= j < i ==> SafeStep(ss[j], steps[j])
  {
    RunUntangled(ss, steps, n, i);
    forall j: nat | j < i ensures SafeStep(ss[j], steps[j]) {
      assert RunStep(ss, steps, n, j);
      RunConsistent(ss, steps, n, j);
      RunUntangled(ss, steps, n, j);
      HypothesisStep(ss[j], steps[j], n);
    }
  }

  /** Nothing pending, nothing in flight, no rescan owed, no failure unanswered. */
  predicate Quiescent(s: State) {
    s.work == Serving(NoChange) && s.active.Some? && !HasPending(s.q) && !s.q.rescanRequested && !s.q.blocked
  }

  lemma QuiescentIsCurrent(s: State)
    requires Quiescent(s) && AllCovered(s)
    ensures s.active.value == s.vault
  {
    forall p ensures Lookup(s.active.value, p) == Lookup(s.vault, p) {
      assert CoveredIn(s, p);
    }
    SameLookups(s.active.value, s.vault);
  }

  /** Under the hypothesis, whenever the queues have drained the index is the vault. */
  lemma LosslessUnderHypothesis(ss: seq<State>, steps: seq<Step>, n: nat, i: nat)
    requires IsRun(ss, steps, n) && i < |ss|
    requires forall j :: 0 <= j < i ==> HypothesisAt(ss[j], steps[j])
    ensures AllCovered(ss[i])
    ensures Quiescent(ss[i]) ==> ss[i].active.value == ss[i].vault
  {
    HypothesisRun(ss, steps, n, i);
    SafeRunCovered(ss, steps, n, i);
    if Quiescent(ss[i]) {
      QuiescentIsCurrent(ss[i]);
    }
  }

  /// ---- rescan debt -------------------------------------------------------------------------------

  /** A requested rescan that the build under way, if any, does not represent. */
  predicate Owed(s: State) {
    s.q.rescanRequested && (HasCut(s.work) ==> s.q.rescanSequence > s.work.cut)
  }

  /** A request made by an event is owed from then on, even when it arrives during a commit. */
  lemma RequestIsOwed(s: State, c: VaultChange, n: nat)
    requires Consistent(s) && Enabled(s, Observe(c)) && JustRescanned(HandleEvent(s.q, EventOf(c), n))
    ensures Owed(Next(s, Observe(c), n))
  {
    EventEffect(s.q, EventOf(c), n);
  }

  /** The snapshot of a build, or of a pass that reconciles a checkpoint. */
  predicate TakesSnapshot(step: Step) {
    step.CaptureSnapshot? || (step.Startup? && (step.start.BeginResume? || step.start.RetryResume?))
  }

  predicate SnapshotThenCommit(steps: seq<Step>, i: nat, j: nat) {
    exists c, k :: i <= c < k < j <= |steps| && TakesSnapshot(steps[c]) && steps[k] == FinishCommit
  }

  predicate SnapshotSince(steps: seq<Step>, i: nat, j: nat) {
    exists c :: i <= c < j <= |steps| && TakesSnapshot(steps[c])
  }

  /** A snapshot and a commit after it stay so as the run goes on; a commit may follow the snapshot. */
  lemma DebtRepaid(steps: seq<Step>, i: nat, j: nat)
    requires i <= j < |steps|
    ensures SnapshotThenCommit(steps, i, j) ==> SnapshotThenCommit(steps, i, j + 1)
    ensures SnapshotSince(steps, i, j) ==> SnapshotSince(steps, i, j + 1)
    ensures SnapshotSince(steps, i, j) && steps[j] == FinishCommit ==> SnapshotThenCommit(steps, i, j + 1)
    ensures TakesSnapshot(steps[j]) ==> SnapshotSince(steps, i, j + 1)
  {
    if SnapshotThenCommit(steps, i, j) {
      var c, k :| i <= c < k < j <= |steps| && TakesSnapshot(steps[c]) && steps[k] == FinishCommit;
      assert i <= c < k < j + 1;
    }
    if SnapshotSince(steps, i, j) {
      var c :| i <= c < j <= |steps| && TakesSnapshot(steps[c]);
      assert i <= c < j + 1;
    }
  }

  lemma DebtStep(s: State, step: Step, n: nat)
    requires Consistent(s) && Enabled(s, step) && s.q.rescanRequested
    ensures !Next(s, step, n).q.rescanRequested ==> step == FinishCommit && !Owed(s)
    ensures Owed(s) && !TakesSnapshot(step) ==> Owed(Next(s, step, n))
  {
    if step.Observe? {
      EventEffect(s.q, EventOf(step.change), n);
    } else if step.Fail? && DrainOf(s.work).Applying? {
      RequeueEffect(s.q, DrainOf(s.work).change);
    }
  }

  /**
   An owed rescan stays recorded through aborted and failed builds until a build whose snapshot was
   captured after the request commits.
   */
  lemma {:induction false} RescanDebt(ss: seq<State>, steps: seq<Step>, n: nat, i: nat, j: nat)
    requires IsRun(ss, steps, n) && i <= j < |ss| && Owed(ss[i])
    ensures ss[j].q.rescanRequested || SnapshotThenCommit(steps, i, j)
    ensures Owed(ss[j]) || SnapshotSince(steps, i, j)
    decreases j
  {
    if i < j {
      assert RunStep(ss, steps, n, j - 1);
      RescanDebt(ss, steps, n, i, j - 1);
      RunConsistent(ss, steps, n, j - 1);
      if ss[j - 1].q.rescanRequested {
        DebtStep(ss[j - 1], steps[j - 1], n);
      }
      DebtRepaid(steps, i, j - 1);
    }
  }

  /// ---- a rebuild request without effect ------------------------------------------------------------

  lemma {:induction false} ExtendRun(ss: seq<State>, steps: seq<Step>, n: nat, step: Step)
    requires IsRun(ss, steps, n) && Enabled(ss[|ss| - 1], step)
    ensures IsRun(ss + [Next(ss[|ss| - 1], step, n)], steps + [step], n)
  {
    var ss', steps' := ss + [Next(ss[|ss| - 1], step, n)], steps + [step];
    forall i: nat | i < |steps'| ensures RunStep(ss', steps', n, i) {
      if i < |steps| {
        assert RunStep(ss, steps, n, i);
        assert ss'[i] == ss[i] && ss'[i + 1] == ss[i + 1] && steps'[i] == steps[i];
      }
    }
  }

  const IDLE := Queues({}, {}, [], false, false, false, 0, 0, map[])

  /** A quiet build with nothing left to read commits. */
  lemma Committed(ss: seq<State>, steps: seq<Step>, n: nat) returns (ss': seq<State>, steps': seq<Step>)
    requires IsRun(ss, steps, n)
    requires var s := ss[|ss| - 1]; s.q == IDLE && s.work.Adding? && s.work.cut == 0 && s.work.entries == {} && s.work.batch == map[]
    ensures IsRun(ss', steps', n)
    ensures var s := ss[|ss| - 1]; ss'[|ss'| - 1] == s.(active := Some(s.work.target), work := Serving(NoChange))
  {
    ss', steps' := Played(ss, steps, n, FinishAdding);
    ss', steps' := Played(ss', steps', n, BeginCommit);
    ss', steps' := Played(ss', steps', n, FinishCommit);
  }

  /** The first build of an empty vault. */
  lemma FirstBuildCommits(n: nat) returns (ss: seq<State>, steps: seq<Step>)
    ensures IsRun(ss, steps, n)
    ensures ss[|ss| - 1] == State(map[], Some(map[]), true, IDLE, Serving(NoChange))
  {
    ss, steps := Played([Init(map[])], [], n, BeginBuild);
    ss, steps := Played(ss, steps, n, CaptureSnapshot);
    ss, steps := Committed(ss, steps, n);
  }

  /** A build resumed from a checkpoint whose index already holds the vault, apart from the entries after its cursor. */
  lemma ResumedBuildCommits(n: nat, vault: Files) returns (ss: seq<State>, steps: seq<Step>)
    ensures IsRun(ss, steps, n)
    ensures ss[|ss| - 1] == State(vault, Some(vault), true, IDLE, Serving(NoChange))
  {
    ss, steps := Played([Init(vault)], [], n, Startup(BeginResume));
    ss, steps := Played(ss, steps, n, Startup(ResumeSnapshot(vault, {})));
    ss, steps := Committed(ss, steps, n);
  }

  /** A restored generation with an old row for one path: its file is read, and the index is the vault. */
  lemma RestoredIndexServes(n: nat, vault: Files, p: Path, stale: Content) returns (ss: seq<State>, steps: seq<Step>)
    requires p in vault
    ensures IsRun(ss, steps, n)
    ensures ss[|ss| - 1] == State(vault, Some(vault), true, IDLE, Serving(NoChange))
  {
    ss, steps := Played([Init(vault)], [], n, Startup(RestoreCache(vault[p := stale], {p})));
    ss, steps := Played(ss, steps, n, Startup(ReadRestored(p)));
    ss, steps := Played(ss, steps, n, Startup(LandRestored));
    ss, steps := Played(ss, steps, n, Startup(FinishRestore));
    assert vault[p := stale][p := vault[p]] == vault;
  }

  /**
   A folder event during a replacement build, then a failure of that build: the controller is blocked, and
   from then on requestRebuild changes nothing.
   */
  lemma SwallowedRebuildIsReachable(n: nat) returns (ss: seq<State>, steps: seq<Step>)
    ensures IsRun(ss, steps, n)
    ensures var s := ss[|ss| - 1];
            s.q.blocked && s.active.Some? && Next(s, RequestRebuild, n) == s
  {
    ss, steps := FirstBuildCommits(n);
    ss, steps := Played(ss, steps, n, RequestRebuild);
    ss, steps := Played(ss, steps, n, BeginBuild);
    EventEffect(ss[|ss| - 1].q, Rescan, n);
    ss, steps := Played(ss, steps, n, Observe(FolderChange(map[])));
    ss, steps := Played(ss, steps, n, Fail);
  }

  lemma Played(ss: seq<State>, steps: seq<Step>, n: nat, step: Step) returns (ss': seq<State>, steps': seq<Step>)
    requires IsRun(ss, steps, n) && Enabled(ss[|ss| - 1], step)
    ensures IsRun(ss', steps', n) && ss'[|ss'| - 1] == Next(ss[|ss| - 1], step, n)
  {
    ExtendRun(ss, steps, n, step);
    ss', steps' := ss + [Next(ss[|ss| - 1], step, n)], steps + [step];
  }
}
