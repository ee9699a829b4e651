/** Left to itself an unblocked controller comes to rest, and then its index is the vault. */
module ControllerProgress {
  import opened Vault
  import opened PendingQueues
  import opened Coverage
  import opened IndexController
  import opened Coalescing
  import opened ControllerRuns

  /// ---- whatever is owed is scheduled ----------------------------------------------------------------

  /**
   The work loop looks at rebuildRequested and not at rescanRequested, so outside a build an unblocked controller
   that owes its index a rescan must have a rebuild recorded too.
   */
  predicate Scheduled(s: State) {
    && (!InBuild(s) && s.active.Some? && !s.q.blocked && s.q.rescanRequested ==> s.q.rebuildRequested)
    && (!s.startupDecided ==> !InBuild(s) && (s.q.rescanRequested ==> s.q.rebuildRequested))
    && (HasCut(s.work) && s.q.rescanSequence > s.work.cut ==> s.q.rebuildRequested)
    && (s.work.Resuming? ==> s.active.None?)
    && (DrainOf(s.work).Applying? ==> DrainOf(s.work).found.Keys <= DrainOf(s.work).change.upserts)
  }

  lemma ScheduledStartup(s: State, start: StartupStep)
    requires Consistent(s) && Scheduled(s) && StartupEnabled(s, start)
    ensures Scheduled(Started(s, start))
  {
  }

  lemma ScheduledFail(s: State, n: nat)
    requires Consistent(s) && Scheduled(s) && Enabled(s, Fail)
    ensures Scheduled(Next(s, Fail, n))
  {
    if DrainOf(s.work).Applying? {
      RequeueEffect(s.q, DrainOf(s.work).change);
    }
  }

  lemma ScheduledStep(s: State, step: Step, n: nat)
    requires Consistent(s) && Scheduled(s) && Enabled(s, step)
    ensures Scheduled(Next(s, step, n))
  {
    match step {
      case Observe(c) => EventEffect(s.q, EventOf(c), n);
      case Startup(start) => ScheduledStartup(s, start);
      case Fail => ScheduledFail(s, n);
      case _ =>
    }
  }

  lemma {:induction false} RunScheduled(ss: seq<State>, steps: seq<Step>, n: nat, i: nat)
    requires IsRun(ss, steps, n) && i < |ss|
    ensures Scheduled(ss[i])
    decreases i
  {
    if i > 0 {
      assert RunStep(ss, steps, n, i - 1);
      RunConsistent(ss, steps, n, i - 1);
      RunScheduled(ss, steps, n, i - 1);
      ScheduledStep(ss[i - 1], steps[i - 1], n);
    }
  }

  /// ---- internal steps -------------------------------------------------------------------------------

  /**
   A step the controller takes by itself: no event, no rebuild request, no failure, no loading of a cache or of a
   checkpoint, and no empty batch.
   */
  predicate Internal(s: State, step: Step) {
    match step
    case Observe(_) => false
    case RequestRebuild => false
    case Fail => false
    case Startup(start) => !start.RestoreCache? && !start.BeginResume?
    case LandBatch => s.work.Adding? && s.work.batch != map[]
    case _ => true
  }

  function PendingCount(q: Queues): nat {
    |q.upserts| + |q.removals| + |q.renames|
  }

  function DrainRank(d: Drain): nat {
    if d.NoChange? then 0 else 1 + |d.change.upserts - d.found.Keys|
  }

  /** More than the steps of one whole build of this vault. */
  function BuildSteps(v: Files): nat {
    2 * |v.Keys| + 8
  }

  /** The steps of a further build, if the one under way will not repay a later request. */
  function Again(s: State): nat
    requires HasCut(s.work)
  {
    if s.q.rescanSequence > s.work.cut then BuildSteps(s.vault) else 0
  }

  function WorkRank(s: State): nat {
    match s.work
    case Serving(d) => DrainRank(d) + (if s.active.None? || s.q.rebuildRequested then BuildSteps(s.vault) else 0)
    case Restoring(_, entries, landing) => BuildSteps(s.vault) + 2 * |entries| + (if landing.Some? then 1 else 0) + 2
    case Beginning => BuildSteps(s.vault) - 1
    case Resuming(cut) => 2 * BuildSteps(s.vault) - 1 + (if s.q.eventSequence > cut then 1 else 0)
    case Adding(_, _, entries, batch) => 2 * |entries| + (if batch != map[] then 1 else 0) + 5 + Again(s)
    case Replaying(_, _, d) => DrainRank(d) + 4 + Again(s)
    case Committing(_, _) => 2 + Again(s)
  }

  /** An upper bound on the internal steps that are left. */
  function Rank(s: State): nat {
    4 * PendingCount(s.q) + WorkRank(s)
  }

  lemma TakeDecreases(s: State, p: Path, n: nat)
    requires Enabled(s, Take(p))
    ensures Rank(Next(s, Take(p), n)) < Rank(s)
  {
    if s.q.renames == [] {
      TakenPath(s.q, p);
    }
    var (change, q) := if s.q.renames != [] then TakeRename(s.q) else TakePath(s.q, p);
    DrainDecreases(s, q, Applying(change, map[]));
  }

  /** What counts is the drain and the pending queues, as long as the flags stay. */
  lemma DrainDecreases(s: State, q: Queues, d: Drain)
    requires s.work.Serving? || s.work.Replaying?
    requires q.rebuildRequested == s.q.rebuildRequested && q.rescanSequence == s.q.rescanSequence
    requires 4 * PendingCount(q) + DrainRank(d) < 4 * PendingCount(s.q) + DrainRank(DrainOf(s.work))
    ensures Rank(s.(q := q, work := WithDrain(s.work, d))) < Rank(s)
  {
  }

  lemma TakenPath(q: Queues, p: Path)
    requires p in q.upserts + q.removals
    ensures PendingCount(TakePath(q, p).1) < PendingCount(q)
    ensures |q.upserts * {p}| <= 1
  {
    assert q.upserts * {p} <= {p};
    SubsetSize(q.upserts * {p}, {p});
    SubsetSize(q.upserts - {p}, q.upserts);
    SubsetSize(q.removals - {p}, q.removals);
    if p in q.upserts {
      assert q.upserts == (q.upserts - {p}) + {p};
    } else {
      assert q.removals == (q.removals - {p}) + {p};
    }
  }

  lemma SubsetSize<T>(a: set<T>, b: set<T>)
    requires a <= b
    ensures |a| <= |b|
  {
    assert b == a + (b - a);
  }

  lemma ReadDecreases(s: State, p: Path, n: nat)
    requires Enabled(s, ReadChange(p))
    ensures Rank(Next(s, ReadChange(p), n)) < Rank(s)
  {
    var d := DrainOf(s.work);
    ReadLeaves(d, p, Lookup(s.vault, p));
    DrainDecreases(s, s.q, d.(found := d.found[p := Lookup(s.vault, p)]));
  }

  lemma ReadLeaves(d: Drain, p: Path, read: Option<Content>)
    requires d.Applying? && p in d.change.upserts && p !in d.found
    ensures DrainRank(d.(found := d.found[p := read])) < DrainRank(d)
  {
    var left := d.change.upserts - d.found.Keys;
    assert d.change.upserts - d.found[p := read].Keys == left - {p};
    assert |left - {p}| == |left| - 1;
  }

  lemma StartupDecreases(s: State, start: StartupStep)
    requires Consistent(s) && StartupEnabled(s, start) && !start.RestoreCache? && !start.BeginResume?
    ensures Rank(Started(s, start)) < Rank(s)
  {
    if start.ResumeSnapshot? {
      SubsetSize(start.entries, s.vault.Keys);
    }
  }

  lemma BuildDecreases(s: State, step: Step, n: nat)
    requires Consistent(s) && Scheduled(s) && Enabled(s, step) && OfBuild(step) && !AddsEntries(step)
    ensures Rank(Next(s, step, n)) < Rank(s)
  {
    match step {
      case BeginBuild => BeginDecreases(s, n);
      case AbortBuild => AbortDecreases(s, n);
      case FinishAdding => AddedDecreases(s, n);
      case BeginCommit => CommitDecreases(s, n);
      case FinishCommit => CommittedDecreases(s, n);
    }
  }

  lemma BeginDecreases(s: State, n: nat)
    requires Scheduled(s) && Enabled(s, BeginBuild)
    ensures Rank(Next(s, BeginBuild, n)) < Rank(s)
  {
  }

  lemma AbortDecreases(s: State, n: nat)
    requires Enabled(s, AbortBuild)
    ensures Rank(Next(s, AbortBuild, n)) < Rank(s)
  {
  }

  lemma AddedDecreases(s: State, n: nat)
    requires Enabled(s, FinishAdding)
    ensures Rank(Next(s, FinishAdding, n)) < Rank(s)
  {
  }

  lemma CommitDecreases(s: State, n: nat)
    requires Enabled(s, BeginCommit)
    ensures Rank(Next(s, BeginCommit, n)) < Rank(s)
  {
  }

  lemma CommittedDecreases(s: State, n: nat)
    requires Enabled(s, FinishCommit)
    ensures Rank(Next(s, FinishCommit, n)) < Rank(s)
  {
  }

  predicate AddsEntries(step: Step) {
    step.ReadEntry? || step.SkipEntry? || step.LandBatch?
  }

  lemma EntriesDecrease(s: State, step: Step, n: nat)
    requires Enabled(s, step) && Internal(s, step) && AddsEntries(step)
    ensures Rank(Next(s, step, n)) < Rank(s)
  {
    if !step.LandBatch? {
      assert |s.work.entries - {step.path}| == |s.work.entries| - 1;
    }
  }

  lemma SnapshotDecreases(s: State, n: nat)
    requires Consistent(s) && Enabled(s, CaptureSnapshot)
    ensures Rank(Next(s, CaptureSnapshot, n)) < Rank(s)
  {
  }

  lemma LandDecreases(s: State, n: nat)
    requires Consistent(s) && Enabled(s, LandChange)
    ensures Rank(Next(s, LandChange, n)) < Rank(s)
  {
  }

  lemma RankDecreases(s: State, step: Step, n: nat)
    requires Consistent(s) && Scheduled(s) && Enabled(s, step) && Internal(s, step)
    ensures Rank(Next(s, step, n)) < Rank(s)
  {
    match step {
      case Take(p) => TakeDecreases(s, p, n);
      case ReadChange(p) => ReadDecreases(s, p, n);
      case Startup(start) => StartupDecreases(s, start);
      case LandChange => LandDecreases(s, n);
      case CaptureSnapshot => SnapshotDecreases(s, n);
      case _ => if AddsEntries(step) { EntriesDecrease(s, step, n); } else { BuildDecreases(s, step, n); }
    }
  }

  lemma InternalUnblocked(s: State, step: Step, n: nat)
    requires Enabled(s, step) && Internal(s, step) && !s.q.blocked
    ensures !Next(s, step, n).q.blocked
  {
  }

  /// ---- no unblocked controller is stuck ---------------------------------------------------------------

  lemma LeastPending(paths: set<Path>) returns (least: Path)
    requires paths != {}
    ensures least in paths && forall p :: p in paths ==> AtMost(least, p)
  {
    least :| least in paths;
    var rest := paths - {least};
    while rest != {}
      invariant rest <= paths && least in paths
      invariant forall p :: p in paths && p !in rest ==> AtMost(least, p)
    {
      var p :| p in rest;
      PathOrder(least, p, p);
      if Less(p, least) {
        forall q | q in paths && q !in rest ensures AtMost(p, q) {
          PathOrder(p, least, q);
        }
        least := p;
      }
      rest := rest - {p};
    }
  }

  lemma DrainMoves(s: State) returns (step: Step)
    requires Scheduled(s) && (DrainOf(s.work).Applying? || (CanDrain(s) && HasPending(s.q)))
    ensures Enabled(s, step) && Internal(s, step)
  {
    var d := DrainOf(s.work);
    if d.NoChange? {
      if s.q.renames != [] {
        return Take(s.q.renames[0].root);
      }
      var p := LeastPending(s.q.upserts + s.q.removals);
      return Take(p);
    }
    if d.found.Keys == d.change.upserts {
      return LandChange;
    }
    var p :| p in d.change.upserts && p !in d.found;
    step := ReadChange(p);
  }

  lemma BuildMoves(s: State) returns (step: Step)
    requires Consistent(s) && (s.work.Beginning? || s.work.Adding? || s.work.Committing?)
    ensures Enabled(s, step) && Internal(s, step)
  {
    match s.work {
      case Beginning => return CaptureSnapshot;
      case Committing(_, _) => return FinishCommit;
      case Adding(cut, _, entries, batch) =>
        if entries != {} {
          var p :| p in entries;
          return if TouchedAfter(s.q, p, cut) then SkipEntry(p) else ReadEntry(p);
        }
        return if batch != map[] then LandBatch else FinishAdding;
    }
  }

  lemma StartupMoves(s: State) returns (step: Step)
    requires Consistent(s) && (s.work.Restoring? || s.work.Resuming?)
    ensures Enabled(s, step) && Internal(s, step)
  {
    if s.work.Resuming? {
      return Startup(FallBack);
    }
    if s.work.landing.Some? {
      return Startup(LandRestored);
    }
    if s.work.entries != {} {
      var p :| p in s.work.entries;
      return Startup(if TouchedAfter(s.q, p, s.work.cut) then SkipRestored(p) else ReadRestored(p));
    }
    step := Startup(FinishRestore);
  }

  /** Unless it is blocked or at rest, the controller has a step to take by itself. */
  lemma SomethingToDo(s: State) returns (step: Step)
    requires Consistent(s) && Scheduled(s) && !s.q.blocked && !Quiescent(s)
    ensures Enabled(s, step) && Internal(s, step)
  {
    match s.work {
      case Serving(d) =>
        if d.NoChange? && (s.active.None? || s.q.rebuildRequested) {
          return BeginBuild;
        }
        step := DrainMoves(s);
      case Replaying(_, _, d) =>
        if d.NoChange? && !HasPending(s.q) {
          return BeginCommit;
        }
        step := DrainMoves(s);
      case Restoring(_, _, _) => step := StartupMoves(s);
      case Resuming(_) => step := StartupMoves(s);
      case _ => step := BuildMoves(s);
    }
  }

  /** After a failure the controller does nothing by itself, until an event or requestRebuild unblocks it. */
  lemma FailureStopsWork(s: State, n: nat)
    requires Consistent(s) && Enabled(s, Fail)
    ensures Next(s, Fail, n).q.blocked
    ensures forall step :: Enabled(Next(s, Fail, n), step) ==> !Internal(Next(s, Fail, n), step)
    ensures Next(s, Fail, n).active == s.active && Next(s, Fail, n).vault == s.vault
  {
    if DrainOf(s.work).Applying? {
      RequeueEffect(s.q, DrainOf(s.work).change);
    }
  }

  /** A snapshot stands for every event before it: nothing is pending and no rebuild recorded, but a rescan stays owed. */
  lemma SnapshotTakesOver(s: State, n: nat)
    requires Consistent(s) && Enabled(s, CaptureSnapshot)
    ensures
      var s' := Next(s, CaptureSnapshot, n);
      && !HasPending(s'.q) && !s'.q.rebuildRequested && (s'.q.rescanRequested <==> s.q.rescanRequested)
      && s'.work == Adding(s.q.eventSequence, map[], s.vault.Keys, map[])
      && s'.active == s.active && s'.q.rescanSequence == s.q.rescanSequence && s'.q.touched == s.q.touched
  {
  }

  /** A restored index whose check an event disturbed is served on until a rebuild, which is asked for once. */
  lemma DisturbedRestoreRebuilds(s: State, n: nat)
    requires Consistent(s) && Scheduled(s) && Enabled(s, Startup(SupersedeRestore))
    ensures
      var s' := Next(s, Startup(SupersedeRestore), n);
      && s'.work == Serving(NoChange) && s'.active == s.active && Enabled(s', BeginBuild)
      && s'.q.rebuildRequested && s'.q.rescanRequested
      && (s.q.rescanRequested ==> s'.q == s.q)
      && (!s.q.rescanRequested ==> !HasPending(s'.q) && s'.q.rescanSequence == s.q.eventSequence)
  {
  }

  /// ---- coming to rest ----------------------------------------------------------------------------------

  /** From step `i` on the controller is left to itself. */
  ghost predicate LeftAlone(ss: seq<State>, steps: seq<Step>, i: nat)
    requires |ss| == |steps| + 1
  {
    forall j :: i <= j < |steps| ==> InternalAt(ss, steps, j)
  }

  ghost predicate InternalAt(ss: seq<State>, steps: seq<Step>, j: nat)
    requires j < |steps| && |ss| == |steps| + 1
  {
    Internal(ss[j], steps[j])
  }

  lemma {:induction false} StaysUnblocked(ss: seq<State>, steps: seq<Step>, n: nat, i: nat, j: nat)
    requires IsRun(ss, steps, n) && LeftAlone(ss, steps, i) && i <= j < |ss| && !ss[i].q.blocked
    ensures !ss[j].q.blocked
    decreases j
  {
    if i < j {
      assert RunStep(ss, steps, n, j - 1) && InternalAt(ss, steps, j - 1);
      StaysUnblocked(ss, steps, n, i, j - 1);
      InternalUnblocked(ss[j - 1], steps[j - 1], n);
    }
  }

  function Ranks(ss: seq<State>): (ranks: seq<nat>)
    ensures |ranks| == |ss| && forall k :: 0 <= k < |ss| ==> ranks[k] == Rank(ss[k])
  {
    seq(|ss|, k requires 0 <= k < |ss| => Rank(ss[k]))
  }

  predicate FallsAt(ranks: seq<nat>, j: nat)
    requires j + 1 < |ranks|
  {
    ranks[j + 1] < ranks[j]
  }

  lemma StepFalls(ss: seq<State>, steps: seq<Step>, n: nat, i: nat, j: nat)
    requires IsRun(ss, steps, n) && LeftAlone(ss, steps, i) && i <= j < |steps|
    ensures FallsAt(Ranks(ss), j)
  {
    assert RunStep(ss, steps, n, j) && InternalAt(ss, steps, j);
    RunConsistent(ss, steps, n, j);
    RunScheduled(ss, steps, n, j);
    RankDecreases(ss[j], steps[j], n);
  }

  /** Falling numbers count the steps. */
  lemma {:induction false} FallCounts(ranks: seq<nat>, i: nat, j: nat)
    requires i <= j < |ranks| && forall k :: i <= k < j ==> FallsAt(ranks, k)
    ensures j - i + ranks[j] <= ranks[i]
    decreases j
  {
    if i < j {
      assert FallsAt(ranks, j - 1);
      FallCounts(ranks, i, j - 1);
    }
  }

  lemma RankCounts(ss: seq<State>, steps: seq<Step>, n: nat, i: nat)
    requires IsRun(ss, steps, n) && LeftAlone(ss, steps, i) && i <= |steps|
    ensures |steps| - i + Ranks(ss)[|steps|] <= Ranks(ss)[i]
  {
    forall k: nat | i <= k < |steps| ensures FallsAt(Ranks(ss), k) {
      StepFalls(ss, steps, n, i, k);
    }
    FallCounts(Ranks(ss), i, |steps|);
  }

  /**
   Left alone from step `i` on, an unblocked controller takes at most Rank steps; where it can take no more it is at
   rest, and if the events before met the hypothesis its index is the vault.
   */
  lemma ComesToRestCurrent(ss: seq<State>, steps: seq<Step>, n: nat, i: nat)
    requires IsRun(ss, steps, n) && i <= |steps| && LeftAlone(ss, steps, i) && !ss[i].q.blocked
    requires forall j :: 0 <= j < i ==> HypothesisAt(ss[j], steps[j])
    ensures |steps| - i <= Rank(ss[i])
    ensures
      var last := ss[|steps|];
      (forall step :: Enabled(last, step) ==> !Internal(last, step)) ==> Quiescent(last) && last.active.value == last.vault
  {
    var k := |steps|;
    RankCounts(ss, steps, n, i);
    StaysUnblocked(ss, steps, n, i, k);
    RunConsistent(ss, steps, n, k);
    RunScheduled(ss, steps, n, k);
    if !Quiescent(ss[k]) {
      var step := SomethingToDo(ss[k]);
    } else {
      forall j | i <= j < k ensures HypothesisAt(ss[j], steps[j]) {
        assert InternalAt(ss, steps, j);
      }
      LosslessUnderHypothesis(ss, steps, n, k);
    }
  }
}
