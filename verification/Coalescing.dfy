/**
 Event coalescing is lossless exactly when every event is safe, and the hypothesis under which
 every event of a run is safe.
 */
module Coalescing {
  import opened Vault
  import opened PendingQueues
  import opened Coverage
  import opened IndexController

  /// ---- what one event does to the controller's fields ----------------------------------------

  /** A rescan has been asked for at the latest event. */
  predicate JustRescanned(q: Queues) {
    q.rescanRequested && q.rebuildRequested && q.rescanSequence == q.eventSequence && !q.blocked && q.renames == []
  }

  predicate SameFlags(q: Queues, q': Queues) {
    && q'.blocked == q.blocked
    && q'.rescanRequested == q.rescanRequested
    && q'.rebuildRequested == q.rebuildRequested
    && q'.rescanSequence == q.rescanSequence
  }

  lemma RenameEffect(q: Queues, a: Path, b: Path)
    ensures var q' := QueueRename(q, a, b);
            && q'.eventSequence == q.eventSequence && q'.touched == q.touched
            && (JustRescanned(q') || SameFlags(q, q'))
  {
    if !RenameRescans(q, a, b) {
      assert SameFlags(q, QueueRename(q, a, b));
    }
  }

  lemma EnqueueEffect(q: Queues, e: Event)
    ensures
      var q' := Enqueue(q, e);
      && q'.eventSequence == q.eventSequence
      && q'.touched == q.touched
      && (JustRescanned(q') || SameFlags(q, q'))
      && (e.Rescan? ==> JustRescanned(q'))
  {
    match e {
      case Upsert(p) =>
      case Remove(p) =>
      case Moved(a, b) =>
        RenameEffect(q, a, b);
      case Rescan =>
    }
  }

  /** The parts of handleEvent that do not depend on the queues' contents. */
  predicate Stamped(q: Queues, e: Event, q': Queues) {
    && q'.eventSequence == q.eventSequence + 1
    && q'.touched == Stamp(q, e).touched
    && (JustRescanned(q') || SameFlags(q, q'))
    && (e.Rescan? ==> JustRescanned(q'))
    && WellFormed(q')
  }

  lemma EventEffect(q: Queues, e: Event, n: nat)
    requires WellFormed(q)
    ensures
      var q' := HandleEvent(q, e, n);
      && Stamped(q, e, q')
      && (JustRescanned(q') || q' == Enqueue(Stamp(q, e), e))
  {
    EnqueueEffect(Stamp(q, e), e);
    WellFormedEnqueue(Stamp(q, e), e);
  }

  lemma ConsistentStamped(s: State, c: VaultChange, q': Queues)
    requires Consistent(s) && Possible(s.vault, c) && Stamped(s.q, EventOf(c), q')
    requires q'.blocked ==> s.q.blocked
    ensures Consistent(s.(vault := Changed(s.vault, c), q := q'))
  {
  }

  lemma ConsistentObserve(s: State, c: VaultChange, n: nat)
    requires Consistent(s) && Enabled(s, Observe(c))
    ensures Consistent(Next(s, Observe(c), n))
  {
    EventEffect(s.q, EventOf(c), n);
    ConsistentStamped(s, c, HandleEvent(s.q, EventOf(c), n));
  }

  lemma RequeueEffect(q: Queues, change: Change)
    requires WellFormed(q)
    ensures
      var q' := Requeue(q, change);
      && WellFormed(q')
      && q'.eventSequence == q.eventSequence
      && q'.touched == q.touched
      && (JustRescanned(q') || SameFlags(q, q'))
  {
    if change.rename.Some? {
      var e := Moved(change.rename.value.root, change.rename.value.dest);
      EnqueueEffect(q, e);
      WellFormedEnqueue(q, e);
    } else if change.removals != {} {
      var e := Remove(Only(change.removals));
      EnqueueEffect(q, e);
      WellFormedEnqueue(q, e);
    }
  }

  lemma ConsistentFail(s: State, n: nat)
    requires Consistent(s) && Enabled(s, Fail)
    ensures Consistent(Next(s, Fail, n))
  {
    var d := DrainOf(s.work);
    if d.Applying? {
      RequeueEffect(s.q, d.change);
    }
  }

  lemma ConsistentTake(s: State, step: Step, n: nat)
    requires Consistent(s) && step.Take? && Enabled(s, step)
    ensures Consistent(Next(s, step, n))
  {
  }

  lemma ConsistentLand(s: State, n: nat)
    requires Consistent(s) && Enabled(s, LandChange)
    ensures Consistent(Next(s, LandChange, n))
  {
  }

  lemma ConsistentSnapshot(s: State, n: nat)
    requires Consistent(s) && Enabled(s, CaptureSnapshot)
    ensures Consistent(Next(s, CaptureSnapshot, n))
  {
  }

  lemma ConsistentStartup(s: State, start: StartupStep)
    requires Consistent(s) && StartupEnabled(s, start)
    ensures Consistent(Started(s, start))
  {
  }

  /** The steps of a build's snapshot and of its end. */
  predicate OfBuild(step: Step) {
    || step.BeginBuild? || step.ReadEntry? || step.SkipEntry? || step.LandBatch? || step.FinishAdding?
    || step.AbortBuild? || step.BeginCommit? || step.FinishCommit?
  }

  lemma ConsistentBuild(s: State, step: Step, n: nat)
    requires Consistent(s) && OfBuild(step) && Enabled(s, step)
    ensures Consistent(Next(s, step, n))
  {
  }

  /** The bookkeeping invariant holds whatever the events and failures. */
  lemma ConsistentStep(s: State, step: Step, n: nat)
    requires Consistent(s) && Enabled(s, step)
    ensures Consistent(Next(s, step, n))
  {
    match step {
      case Observe(c) => ConsistentObserve(s, c, n);
      case Fail => ConsistentFail(s, n);
      case Take(_) => ConsistentTake(s, step, n);
      case LandChange => ConsistentLand(s, n);
      case CaptureSnapshot => ConsistentSnapshot(s, n);
      case Startup(start) => ConsistentStartup(s, start);
      case _ =>
        if OfBuild(step) { ConsistentBuild(s, step, n); }
    }
  }

  /// ---- exactly when an event keeps every path covered -------------------------------------------

  /** What the index will hold at a path that an event has just named: a snapshot entry not yet read is skipped. */
  function TouchedBase(s: State, p: Path): Slot
    requires HasIndex(s)
  {
    if (s.work.Adding? || s.work.Restoring?) && p in s.work.entries && Underway(s, p).None? then Holds(Lookup(Target(s), p))
    else Base(s, p)
  }

  /** The guard: what a caller can check before the event to know that no path is lost. */
  predicate EventSafe(s: State, c: VaultChange)
    requires HasIndex(s)
  {
    match c
    case Write(p, _) => UpsertSafe(s.q, p)
    case Delete(_) => true
    case Move(a, b) => RenameSafe(s.q, s.vault, a, b, TouchedBase(s, a))
    case FolderChange(_) => true
  }

  predicate EventSafeAt(s: State, c: VaultChange, x: Path)
    requires HasIndex(s)
  {
    match c
    case Write(p, _) => x == p ==> UpsertSafe(s.q, p)
    case Delete(_) => true
    case Move(a, b) => RenameSafeAt(s.q, s.vault, a, b, x, TouchedBase(s, a))
    case FolderChange(_) => true
  }

  /** The event's queue operation gives up. */
  ghost predicate OperationRescans(q: Queues, c: VaultChange) {
    match c
    case Write(_, _) => false
    case Delete(p) => RemovalRescans(q, p)
    case Move(a, b) => RenameRescans(q, a, b)
    case FolderChange(_) => true
  }

  /** The event ends in a rescan request: by its queue operation or by the bound on pending paths. */
  ghost predicate EventRescans(q: Queues, c: VaultChange, n: nat) {
    OperationRescans(q, c) || |PendingPaths(Enqueue(q, EventOf(c)))| > n
  }

  /** Stamping an event changes nothing the queue operations look at. */
  lemma StampedPaths(q: Queues, c: VaultChange)
    ensures PendingPaths(Enqueue(Stamp(q, EventOf(c)), EventOf(c))) == PendingPaths(Enqueue(q, EventOf(c)))
  {
    match c {
      case Write(p, _) =>
      case Delete(p) =>
      case Move(a, b) => SameRename(q, Stamp(q, EventOf(c)), a, b);
      case FolderChange(_) =>
    }
  }

  lemma SameRename(q: Queues, q1: Queues, a: Path, b: Path)
    requires q1 == q.(eventSequence := q1.eventSequence, touched := q1.touched)
    ensures PendingPaths(QueueRename(q1, a, b)) == PendingPaths(QueueRename(q, a, b))
  {
    assert RenameRescans(q1, a, b) <==> RenameRescans(q, a, b);
  }

  lemma EnqueueRescans(q: Queues, c: VaultChange)
    requires !OperationRescans(q, c)
    ensures SameFlags(q, Enqueue(Stamp(q, EventOf(c)), EventOf(c)))
  {
    var q1 := Stamp(q, EventOf(c));
    match c {
      case Write(p, _) =>
      case Delete(p) =>
      case Move(a, b) =>
        assert RenameRescans(q1, a, b) <==> RenameRescans(q, a, b);
      case FolderChange(_) =>
    }
  }

  lemma RescansExactly(q: Queues, c: VaultChange, n: nat)
    requires WellFormed(q)
    ensures
      var q' := HandleEvent(q, EventOf(c), n);
      if EventRescans(q, c, n) then JustRescanned(q') else SameFlags(q, q')
  {
    StampedPaths(q, c);
    EventEffect(q, EventOf(c), n);
    if !EventRescans(q, c, n) {
      EnqueueRescans(q, c);
    } else if c.Move? {
      assert RenameRescans(Stamp(q, EventOf(c)), c.oldPath, c.path) <==> RenameRescans(q, c.oldPath, c.path);
    }
  }

  /** An event ends the tracking of an index exactly when it ends in a rescan request. */
  lemma StillFollowed(s: State, c: VaultChange, n: nat)
    requires Consistent(s) && Followed(s) && Enabled(s, Observe(c))
    ensures Followed(Next(s, Observe(c), n)) <==> !EventRescans(s.q, c, n)
  {
    RescansExactly(s.q, c, n);
    EventEffect(s.q, EventOf(c), n);
  }

  lemma BaseAfterEvent(s: State, c: VaultChange, q': Queues, x: Path)
    requires Consistent(s) && Followed(s) && Possible(s.vault, c)
    requires Stamped(s.q, EventOf(c), q') && SameFlags(s.q, q')
    ensures
      var s' := s.(vault := Changed(s.vault, c), q := q');
      Followed(s') && Base(s', x) == if Names(EventOf(c), x) then TouchedBase(s, x) else Base(s, x)
  {
  }

  lemma EnqueueKeeps(q: Queues, v: Files, c: VaultChange, x: Path, base: Slot, base': Slot)
    requires WellFormed(q) && Possible(v, c) && !c.FolderChange?
    requires !JustRescanned(Enqueue(q, EventOf(c)))
    requires Covered(q, v, x, base)
    requires !Names(EventOf(c), x) ==> base' == base
    ensures
      Covered(Enqueue(q, EventOf(c)), Changed(v, c), x, base') <==>
      match c
      case Write(p, _) => x == p ==> UpsertSafe(q, p)
      case Delete(_) => true
      case Move(a, b) => RenameSafeAt(q, v, a, b, x, base')
  {
    match c {
      case Write(p, content) => UpsertKeeps(q, v, p, content, x, base, base');
      case Delete(p) => RemovalKeeps(q, v, p, x, base, base');
      case Move(a, b) => RenameKeeps(q, v, a, b, x, base, base');
    }
  }

  /** EventKeeps for the queues an event leaves when it does not rescan. */
  lemma QueuedKeeps(s: State, c: VaultChange, q': Queues, x: Path)
    requires Consistent(s) && Followed(s) && Possible(s.vault, c) && !c.FolderChange?
    requires q' == Enqueue(Stamp(s.q, EventOf(c)), EventOf(c)) && Stamped(s.q, EventOf(c), q') && SameFlags(s.q, q')
    requires !JustRescanned(q') && CoveredIn(s, x)
    ensures CoveredIn(s.(vault := Changed(s.vault, c), q := q'), x) <==> EventSafeAt(s, c, x)
  {
    var e := EventOf(c);
    BaseAfterEvent(s, c, q', x);
    EnqueueKeeps(Stamp(s.q, e), s.vault, c, x, Base(s, x), if Names(e, x) then TouchedBase(s, x) else Base(s, x));
  }

  lemma NotJustRescanned(s: State, q': Queues)
    requires Consistent(s) && Followed(s) && SameFlags(s.q, q') && q'.eventSequence == s.q.eventSequence + 1
    ensures !JustRescanned(q')
  {
  }

  lemma EventKeeps(s: State, c: VaultChange, n: nat, x: Path)
    requires Consistent(s) && Followed(s) && Enabled(s, Observe(c))
    requires !EventRescans(s.q, c, n)
    requires CoveredIn(s, x)
    ensures Followed(Next(s, Observe(c), n))
    ensures CoveredIn(Next(s, Observe(c), n), x) <==> EventSafeAt(s, c, x)
  {
    var q' := HandleEvent(s.q, EventOf(c), n);
    EventEffect(s.q, EventOf(c), n);
    RescansExactly(s.q, c, n);
    StillFollowed(s, c, n);
    NotJustRescanned(s, q');
    QueuedKeeps(s, c, q', x);
  }

  /** The guard fails at one of the paths that it speaks of. */
  lemma UnsafeSomewhere(s: State, c: VaultChange)
    requires HasIndex(s)
    ensures EventSafe(s, c) <==> forall x :: EventSafeAt(s, c, x)
  {
    if c.Move? && !EventSafe(s, c) {
      var i := DestIndex(s.q.renames, c.oldPath);
      assert !EventSafeAt(s, c, s.q.renames[i].root) || !EventSafeAt(s, c, c.path) || !EventSafeAt(s, c, c.oldPath);
    } else if c.Write? {
      assert EventSafeAt(s, c, c.path) == EventSafe(s, c);
    }
  }

  /**
   Given that every difference between index and vault is pending, one more event keeps it so
   if and only if it ends in a rescan request or the guard holds.
   */
  lemma EventCoverage(s: State, c: VaultChange, n: nat)
    requires Consistent(s) && Followed(s) && AllFollowed(s) && Enabled(s, Observe(c))
    ensures AllFollowed(Next(s, Observe(c), n)) <==> EventRescans(s.q, c, n) || EventSafe(s, c)
  {
    var s' := Next(s, Observe(c), n);
    StillFollowed(s, c, n);
    if !EventRescans(s.q, c, n) {
      forall x ensures CoveredIn(s', x) <==> EventSafeAt(s, c, x) {
        EventKeeps(s, c, n, x);
      }
      UnsafeSomewhere(s, c);
    }
  }

  /// ---- every other step keeps every path covered ------------------------------------------------

  /** Draining an entry hands the fate of its paths to the change in flight. */
  lemma TakeKeeps(s: State, p: Path, n: nat, x: Path)
    requires Consistent(s) && Tracking(s) && Enabled(s, Take(p)) && CoveredIn(s, x)
    ensures CoveredIn(Next(s, Take(p), n), x)
  {
    if s.q.renames != [] {
      FateOfTail(s.q.renames, x);
    }
  }

  lemma LandKeeps(s: State, n: nat, x: Path)
    requires Consistent(s) && Tracking(s) && Enabled(s, LandChange) && CoveredIn(s, x)
    ensures CoveredIn(Next(s, LandChange, n), x)
  {
  }

  lemma SnapshotCovers(s: State, n: nat, x: Path)
    requires Consistent(s) && Enabled(s, CaptureSnapshot)
    ensures CoveredIn(Next(s, CaptureSnapshot, n), x)
  {
  }

  /** A resumed build starts from a prefix that is current and from the entries after it. */
  lemma ResumedSnapshotCovers(s: State, start: StartupStep, x: Path)
    requires Consistent(s) && start.ResumeSnapshot? && StartupEnabled(s, start)
    ensures CoveredIn(Started(s, start), x)
  {
    assert CurrentExcept(start.target, s.vault, start.entries);
    assert x !in start.target.Keys + s.vault.Keys ==> Lookup(start.target, x) == Lookup(s.vault, x);
  }

  /** A restored index may differ from the vault only where it is still to be checked. */
  lemma RestoredCacheCovers(s: State, start: StartupStep, x: Path)
    requires Consistent(s) && start.RestoreCache? && StartupEnabled(s, start)
    ensures CoveredIn(Started(s, start), x)
  {
    assert CurrentExcept(start.index, s.vault, start.entries);
    assert x !in start.index.Keys + s.vault.Keys ==> Lookup(start.index, x) == Lookup(s.vault, x);
  }

  /** A step that checks a restored index keeps it covered; the others of startup begin with a snapshot or track nothing. */
  lemma StartupKeeps(s: State, start: StartupStep, x: Path)
    requires Consistent(s) && StartupEnabled(s, start) && Tracking(Started(s, start))
    requires Tracking(s) ==> CoveredIn(s, x)
    ensures CoveredIn(Started(s, start), x)
  {
    match start {
      case ResumeSnapshot(_, _) => ResumedSnapshotCovers(s, start, x);
      case RestoreCache(_, _) => RestoredCacheCovers(s, start, x);
      case _ =>
    }
  }

  lemma BuildKeeps(s: State, step: Step, n: nat, x: Path)
    requires Consistent(s) && Tracking(s) && CoveredIn(s, x) && OfBuild(step) && Enabled(s, step)
    ensures Tracking(Next(s, step, n)) ==> CoveredIn(Next(s, step, n), x)
  {
  }

  /** Otherwise only a snapshot starts the tracking of an index. */
  lemma StillTracking(s: State, step: Step, n: nat)
    requires Consistent(s) && Enabled(s, step) && Tracking(Next(s, step, n))
    requires !step.Observe? && !step.CaptureSnapshot? && !step.Startup?
    ensures Tracking(s) && !step.Fail?
  {
  }

  lemma ReadKeeps(s: State, p: Path, n: nat, x: Path)
    requires Consistent(s) && Tracking(s) && CoveredIn(s, x) && Enabled(s, ReadChange(p))
    ensures CoveredIn(Next(s, ReadChange(p), n), x)
  {
  }

  /**
   Reads, landings, snapshots, commits and aborts lose nothing, with no hypothesis on events. A failure blocks the
   controller, which then tracks nothing until a rescan: what it keeps is stated by FailedDrains.FailCoverage.
   */
  lemma QuietStepCoverage(s: State, step: Step, n: nat)
    requires Consistent(s) && AllCovered(s) && Enabled(s, step) && !step.Observe?
    ensures AllCovered(Next(s, step, n))
  {
    match step {
      case CaptureSnapshot => SnapshotCoverage(s, n);
      case Startup(start) => StartupCoverage(s, start);
      case _ => ServingCoverage(s, step, n);
    }
  }

  lemma SnapshotCoverage(s: State, n: nat)
    requires Consistent(s) && Enabled(s, CaptureSnapshot)
    ensures AllCovered(Next(s, CaptureSnapshot, n))
  {
    forall x ensures CoveredIn(Next(s, CaptureSnapshot, n), x) {
      SnapshotCovers(s, n, x);
    }
  }

  lemma ServingCoverage(s: State, step: Step, n: nat)
    requires Consistent(s) && AllCovered(s) && Enabled(s, step)
    requires !step.Observe? && !step.CaptureSnapshot? && !step.Startup?
    ensures AllCovered(Next(s, step, n))
  {
    var s' := Next(s, step, n);
    if Tracking(s') {
      StillTracking(s, step, n);
      forall x ensures CoveredIn(s', x) {
        ServingKeeps(s, step, n, x);
      }
    }
  }

  lemma StartupCoverage(s: State, start: StartupStep)
    requires Consistent(s) && AllCovered(s) && StartupEnabled(s, start)
    ensures AllCovered(Started(s, start))
  {
    if Tracking(Started(s, start)) {
      forall x ensures CoveredIn(Started(s, start), x) {
        StartupKeeps(s, start, x);
      }
    }
  }

  lemma ServingKeeps(s: State, step: Step, n: nat, x: Path)
    requires Consistent(s) && Tracking(s) && CoveredIn(s, x) && Enabled(s, step) && Tracking(Next(s, step, n))
    requires !step.Observe? && !step.CaptureSnapshot? && !step.Startup? && !step.Fail?
    ensures CoveredIn(Next(s, step, n), x)
  {
    match step {
      case Take(p) => TakeKeeps(s, p, n, x);
      case LandChange => LandKeeps(s, n, x);
      case ReadChange(p) => ReadKeeps(s, p, n, x);
      case RequestRebuild =>
      case _ => BuildKeeps(s, step, n, x);
    }
  }

  /// ---- the hypothesis on a run ------------------------------------------------------------------

  /** A path of the change being applied, or read from the snapshot and not yet stored. */
  predicate InFlight(s: State, p: Path) {
    var d := DrainOf(s.work);
    (d.Applying? && p in d.change.upserts + d.change.removals) || Underway(s, p).Some?
  }

  /**
   No endpoint of a pending rename is created again or renamed onto, and no rename lands on a path
   that is still in the index or about to be stored there.
   */
  predicate Hypothesis(s: State, c: VaultChange)
    requires HasIndex(s)
  {
    match c
    case Write(p, _) => p in s.vault || p !in Endpoints(s.q.renames)
    case Move(_, b) => b !in Endpoints(s.q.renames) && b !in Target(s) && !InFlight(s, b)
    case _ => true
  }

  /** What the hypothesis keeps: pending renames have disjoint endpoints, gone sources, and unindexed destinations. */
  ghost predicate Untangled(s: State) {
    var m := s.q.renames;
    Tracking(s) ==>
      && (forall i :: 0 <= i < |m| ==> m[i].root !in s.vault)
      && (forall i :: 0 <= i < |m| ==> DestinationFree(s, m[i].dest))
      && DistinctDests(m) && RootsApart(m)
  }

  predicate DistinctDests(m: seq<Rename>) {
    forall i, j :: 0 <= i < j < |m| ==> m[i].dest != m[j].dest
  }

  predicate RootsApart(m: seq<Rename>) {
    forall i, j :: 0 <= i < |m| && 0 <= j < |m| ==> m[i].root != m[j].dest
  }

  predicate DestinationFree(s: State, d: Path)
    requires HasIndex(s)
  {
    && d !in Target(s) && !InFlight(s, d)
    && d !in s.q.upserts && d !in s.q.removals
    && (s.work.Adding? || s.work.Restoring? ==> TouchedAfter(s.q, d, s.work.cut))
  }

  lemma AllEndpoints(m: seq<Rename>)
    ensures forall i :: 0 <= i < |m| ==> m[i].root in Endpoints(m) && m[i].dest in Endpoints(m)
  {
    forall i | 0 <= i < |m| ensures m[i].root in Endpoints(m) && m[i].dest in Endpoints(m) {
      assert m[i] in m;
    }
  }

  /** Under the hypothesis the guard holds: no path is lost. */
  lemma HypothesisIsSafe(s: State, c: VaultChange)
    requires Consistent(s) && Tracking(s) && Untangled(s) && Possible(s.vault, c) && Hypothesis(s, c)
    ensures EventSafe(s, c)
  {
    var m := s.q.renames;
    match c {
      case Write(p, _) =>
        AllEndpoints(m);
        if HasDest(m, p) {
          assert Touches(m[DestIndex(m, p)], p);
        }
      case Move(a, b) =>
        var i := DestIndex(m, a);
        if i < |m| {
          assert DestinationFree(s, m[i].dest);
          AllEndpoints(m);
        }
      case _ =>
    }
  }

  lemma UntangledWrite(s: State, s': State, p: Path, c: Content)
    requires Consistent(s) && Tracking(s) && Untangled(s) && Hypothesis(s, Write(p, c))
    requires s'.vault == s.vault[p := c] && s'.q == QueueUpsert(Stamp(s.q, Upsert(p)), p)
    requires s'.active == s.active && s'.work == s.work
    ensures Untangled(s')
  {
    var m := s.q.renames;
    AllEndpoints(m);
    forall i | 0 <= i < |m| ensures DestinationFree(s', m[i].dest) {
      assert DestinationFree(s, m[i].dest);
    }
  }

  lemma RemovedApart(m: seq<Rename>, m': seq<Rename>, i: nat)
    requires DistinctDests(m) && RootsApart(m) && i <= |m| && m' == if i < |m| then RemoveAt(m, i) else m
    ensures DistinctDests(m') && RootsApart(m')
    ensures forall j :: 0 <= j < |m'| ==> m'[j] == m[if j < i then j else j + 1]
  {
  }

  lemma UntangledDelete(s: State, s': State, p: Path)
    requires Consistent(s) && Tracking(s) && Untangled(s) && !RemovalRescans(s.q, p)
    requires s'.vault == s.vault - {p} && s'.q == QueueRemoval(Stamp(s.q, Remove(p)), p)
    requires s'.active == s.active && s'.work == s.work
    ensures Untangled(s')
  {
    var m, m', i := s.q.renames, s'.q.renames, DestIndex(s.q.renames, p);
    RemovedApart(m, m', i);
    forall j: nat | j < |m'| ensures m'[j].root !in s'.vault && DestinationFree(s', m'[j].dest) {
      StaysFree(s, s', p, if j < i then j else j + 1);
    }
  }

  /** Every other rename keeps its gone source and its free destination when `p` goes. */
  lemma StaysFree(s: State, s': State, p: Path, k: nat)
    requires Consistent(s) && Tracking(s) && Untangled(s) && !RemovalRescans(s.q, p)
    requires k < |s.q.renames| && k != DestIndex(s.q.renames, p)
    requires s'.vault == s.vault - {p} && s'.q == QueueRemoval(Stamp(s.q, Remove(p)), p)
    requires s'.active == s.active && s'.work == s.work
    ensures s.q.renames[k].root !in s'.vault && DestinationFree(s', s.q.renames[k].dest)
  {
    assert DestinationFree(s, s.q.renames[k].dest);
  }

  /** The queues after a rename that neither rescans nor exceeds the bound. */
  predicate MovedQueues(q: Queues, a: Path, b: Path, q': Queues) {
    var i := DestIndex(q.renames, a);
    && q'.renames == (if i < |q.renames| then q.renames[i := Rename(q.renames[i].root, b)] else q.renames + [Rename(a, b)])
    && q'.upserts == q.upserts - {ChainRoot(q.renames, a), a, b}
    && q'.removals == q.removals - {b}
    && SameFlags(q, q')
    && q'.touched == Stamp(q, Moved(a, b)).touched
  }

  lemma MovedApart(m: seq<Rename>, m': seq<Rename>, a: Path, b: Path)
    requires DistinctDests(m) && RootsApart(m) && a != b && b !in Endpoints(m)
    requires var i := DestIndex(m, a); m' == if i < |m| then m[i := Rename(m[i].root, b)] else m + [Rename(a, b)]
    ensures DistinctDests(m') && RootsApart(m')
    ensures forall j :: 0 <= j < |m'| && m'[j].dest != b ==> j < |m| && m'[j] == m[j]
  {
    AllEndpoints(m);
  }

  lemma LandedOnFree(s: State, s': State, a: Path, b: Path)
    requires Consistent(s) && Tracking(s) && Hypothesis(s, Move(a, b)) && MovedQueues(s.q, a, b, s'.q)
    requires s'.active == s.active && s'.work == s.work
    ensures DestinationFree(s', b)
  {
  }

  lemma UntangledMove(s: State, s': State, a: Path, b: Path)
    requires Consistent(s) && Tracking(s) && Untangled(s) && Hypothesis(s, Move(a, b))
    requires a in s.vault && a != b && MovedQueues(s.q, a, b, s'.q)
    requires s'.vault == MoveFile(s.vault, a, b)
    requires s'.active == s.active && s'.work == s.work
    ensures Untangled(s')
  {
    var m, m' := s.q.renames, s'.q.renames;
    MovedApart(m, m', a, b);
    LandedOnFree(s, s', a, b);
    forall j | 0 <= j < |m'| ensures DestinationFree(s', m'[j].dest) {
      if m'[j].dest != b {
        assert DestinationFree(s, m[j].dest);
        MoveStaysFree(s, s', a, b, m[j].dest);
      }
    }
    forall j | 0 <= j < |m'| ensures m'[j].root !in s'.vault {
      MovedRoot(s, a, b, m', j);
    }
  }

  /** The destinations of other renames stay free. */
  lemma MoveStaysFree(s: State, s': State, a: Path, b: Path, d: Path)
    requires Consistent(s) && Tracking(s) && Tracking(s') && DestinationFree(s, d) && MovedQueues(s.q, a, b, s'.q)
    requires s'.active == s.active && s'.work == s.work
    ensures DestinationFree(s', d)
  {
    assert d in s.q.touched ==> d in s'.q.touched && s'.q.touched[d] in {s.q.touched[d], s.q.eventSequence + 1};
  }

  lemma MovedRoot(s: State, a: Path, b: Path, m': seq<Rename>, j: nat)
    requires a in s.vault && a != b && b !in Endpoints(s.q.renames) && j < |m'|
    requires forall i :: 0 <= i < |s.q.renames| ==> s.q.renames[i].root !in s.vault
    requires
      var m, i := s.q.renames, DestIndex(s.q.renames, a);
      m' == if i < |m| then m[i := Rename(m[i].root, b)] else m + [Rename(a, b)]
    ensures m'[j].root !in MoveFile(s.vault, a, b)
  {
    AllEndpoints(s.q.renames);
  }

  lemma UntangledObserve(s: State, c: VaultChange, n: nat)
    requires Consistent(s) && (Tracking(s) ==> Untangled(s) && Hypothesis(s, c)) && Enabled(s, Observe(c))
    ensures Untangled(Next(s, Observe(c), n))
  {
    var s' := Next(s, Observe(c), n);
    EventEffect(s.q, EventOf(c), n);
    if Tracking(s') {
      assert SameFlags(s.q, s'.q) && Tracking(s);
      match c {
        case Write(p, content) => UntangledWrite(s, s', p, content);
        case Delete(p) => UntangledDelete(s, s', p);
        case Move(a, b) =>
          RenamesAfter(s.q.renames, a, b);
          UntangledMove(s, s', a, b);
        case FolderChange(_) =>
      }
    }
  }

  /** The rename that is taken leaves the others untangled. */
  lemma UntangledTake(s: State, step: Step, n: nat)
    requires Consistent(s) && Tracking(s) && Untangled(s) && step.Take? && Enabled(s, step) && s.q.renames != []
    ensures Untangled(Next(s, step, n))
  {
    var s', m := Next(s, step, n), s.q.renames;
    forall i | 0 <= i < |s'.q.renames| ensures DestinationFree(s', s'.q.renames[i].dest) {
      assert s'.q.renames[i] == m[i + 1];
      assert DestinationFree(s, m[i + 1].dest);
    }
  }

  lemma UntangledStartup(s: State, start: StartupStep)
    requires Consistent(s) && Tracking(s) && Untangled(s) && StartupEnabled(s, start)
    ensures Untangled(Started(s, start))
  {
    var s' := Started(s, start);
    if Tracking(s') {
      forall i | 0 <= i < |s'.q.renames| ensures DestinationFree(s', s'.q.renames[i].dest) {
        assert s'.q.renames == s.q.renames;
        assert DestinationFree(s, s.q.renames[i].dest);
      }
    }
  }

  lemma UntangledQuiet(s: State, step: Step, n: nat)
    requires Consistent(s) && Untangled(s) && Enabled(s, step) && !step.Observe?
    ensures Untangled(Next(s, step, n))
  {
    if Tracking(Next(s, step, n)) {
      if !Tracking(s) || step.CaptureSnapshot? {
        StartsWithoutRenames(s, step, n);
      } else if step.Take? && s.q.renames != [] {
        UntangledTake(s, step, n);
      } else if step.Startup? {
        UntangledStartup(s, step.start);
      } else if !step.Fail? {
        UntangledRest(s, step, n);
      }
    }
  }

  /** When an index begins to be tracked no rename is pending. */
  lemma StartsWithoutRenames(s: State, step: Step, n: nat)
    requires Consistent(s) && Enabled(s, step) && !step.Observe?
    requires Tracking(Next(s, step, n)) && (!Tracking(s) || step.CaptureSnapshot?)
    ensures Next(s, step, n).q.renames == []
  {
  }

  lemma UntangledRest(s: State, step: Step, n: nat)
    requires Consistent(s) && Tracking(s) && Untangled(s) && Enabled(s, step) && Tracking(Next(s, step, n))
    requires !step.Observe? && !step.Startup? && !step.CaptureSnapshot? && !step.Fail? && !(step.Take? && s.q.renames != [])
    ensures Untangled(Next(s, step, n))
  {
    SameRenames(s, step, n);
    forall i | 0 <= i < |s.q.renames| ensures DestinationFree(Next(s, step, n), s.q.renames[i].dest) {
      assert DestinationFree(s, s.q.renames[i].dest);
      QuietStaysFree(s, step, n, s.q.renames[i].dest);
    }
  }

  lemma SameRenames(s: State, step: Step, n: nat)
    requires Enabled(s, step) && !step.Observe? && !step.Startup? && !step.CaptureSnapshot? && !step.Fail?
    requires !(step.Take? && s.q.renames != [])
    ensures Next(s, step, n).q.renames == s.q.renames && Next(s, step, n).vault == s.vault
  {
  }

  lemma QuietStaysFree(s: State, step: Step, n: nat, d: Path)
    requires Consistent(s) && Tracking(s) && DestinationFree(s, d) && Enabled(s, step) && Tracking(Next(s, step, n))
    requires !step.Observe? && !step.Startup? && !step.CaptureSnapshot? && !step.Fail? && !(step.Take? && s.q.renames != [])
    ensures DestinationFree(Next(s, step, n), d)
  {
  }
}
