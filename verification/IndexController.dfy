/**
 The index controller as a machine whose steps are the stretches of code between two awaits:
 vault events and rebuild requests may come between any two of them.
 */
module IndexController {
  import opened Vault
  import opened PendingQueues
  import opened Coverage

  /** What happens in the vault; the controller is told in the same turn. */
  datatype VaultChange =
    | Write(path: Path, content: Content)
    | Delete(path: Path)
    | Move(oldPath: Path, path: Path)
    | FolderChange(files: Files)

  /** applyPendingChanges between two awaits: the change taken and the reads already made. */
  datatype Drain = NoChange | Applying(change: Change, found: map<Path, Option<Content>>)

  /** A change of a restored index on its way to the Worker. */
  datatype Landing = Landing(path: Path, content: Option<Content>)

  /**
   Restoring: an index loaded from the cache is searchable while its `entries` are checked against the snapshot at
   `cut`. Resuming: a pass that reconciles a checkpoint's prefix with the snapshot at `cut`.
   */
  datatype Work =
    | Serving(drain: Drain)
    | Restoring(cut: nat, entries: set<Path>, landing: Option<Landing>)
    | Beginning
    | Resuming(cut: nat)
    | Adding(cut: nat, target: Files, entries: set<Path>, batch: Files)
    | Replaying(cut: nat, target: Files, drain: Drain)
    | Committing(cut: nat, target: Files)

  datatype State = State(vault: Files, active: Option<Files>, startupDecided: bool, q: Queues, work: Work)

  /** How a restored index is checked against a snapshot, and a checkpoint's prefix reconciled with one. */
  datatype StartupStep =
    | RestoreCache(index: Files, entries: set<Path>)
    | VerifyRestored(path: Path)
    | ReadRestored(path: Path)
    | SkipRestored(path: Path)
    | LandRestored
    | SupersedeRestore
    | FinishRestore
    | BeginResume
    | RetryResume
    | ResumeSnapshot(target: Files, entries: set<Path>)
    | FallBack

  datatype Step =
    | Observe(change: VaultChange)
    | RequestRebuild
    | Startup(start: StartupStep)
    | BeginBuild
    | CaptureSnapshot
    | ReadEntry(path: Path)
    | SkipEntry(path: Path)
    | LandBatch
    | FinishAdding
    | Take(path: Path)
    | ReadChange(path: Path)
    | LandChange
    | AbortBuild
    | BeginCommit
    | FinishCommit
    | Fail

  /// ---- the vault ---------------------------------------------------------------------------

  predicate Possible(v: Files, c: VaultChange) {
    match c
    case Write(_, _) => true
    case Delete(p) => p in v
    case Move(a, b) => a in v && a != b
    case FolderChange(_) => true
  }

  function Changed(v: Files, c: VaultChange): Files
    requires Possible(v, c)
  {
    match c
    case Write(p, content) => v[p := content]
    case Delete(p) => v - {p}
    case Move(a, b) => MoveFile(v, a, b)
    case FolderChange(files) => files
  }

  function EventOf(c: VaultChange): Event {
    match c
    case Write(p, _) => Upsert(p)
    case Delete(p) => Remove(p)
    case Move(a, b) => Moved(a, b)
    case FolderChange(_) => Rescan
  }

  /// ---- the steps ---------------------------------------------------------------------------

  predicate TouchedAfter(q: Queues, p: Path, cut: nat) {
    (p in q.touched && q.touched[p] > cut) || q.rescanSequence > cut
  }

  predicate InBuild(s: State) { !s.work.Serving? && !s.work.Restoring? }

  /** The snapshot that the build under way will be acknowledged for. */
  predicate HasCut(w: Work) { w.Resuming? || w.Adding? || w.Replaying? || w.Committing? }

  /** `index` holds what the vault holds, except perhaps at `entries`. */
  predicate CurrentExcept(index: Files, v: Files, entries: set<Path>) {
    forall p :: p in index.Keys + v.Keys && p !in entries ==> Lookup(index, p) == Lookup(v, p)
  }

  predicate CanDrain(s: State) {
    match s.work
    case Serving(drain) => drain.NoChange? && s.active.Some? && !s.q.blocked
                           && !s.q.rebuildRequested && !s.q.rescanRequested
    case Replaying(_, _, drain) => drain.NoChange?
    case _ => false
  }

  /** The path takePendingChanges looks at: any, while a rename is pending, else the least one. */
  predicate Takes(q: Queues, p: Path) {
    q.renames != [] ||
    (p in q.upserts + q.removals && forall x :: x in q.upserts + q.removals ==> AtMost(p, x))
  }

  function DrainOf(w: Work): Drain {
    if w.Serving? || w.Replaying? then w.drain else NoChange
  }

  function WithDrain(w: Work, d: Drain): Work {
    match w
    case Serving(_) => Serving(d)
    case Replaying(cut, target, _) => Replaying(cut, target, d)
    case _ => w
  }

  /** A restored path that no event has named since the snapshot may be compared with the vault. */
  predicate CanCheck(s: State, p: Path) {
    s.work.Restoring? && s.active.Some? && p in s.work.entries && !TouchedAfter(s.q, p, s.work.cut)
  }

  predicate StartupEnabled(s: State, start: StartupStep) {
    match start
    case RestoreCache(index, entries) =>
      s.work == Serving(NoChange) && s.active.None? && !s.q.blocked && !s.startupDecided
      && CurrentExcept(index, s.vault, entries)
    case VerifyRestored(p) => CanCheck(s, p) && Lookup(s.active.value, p) == Lookup(s.vault, p)
    case ReadRestored(p) => CanCheck(s, p) && s.work.landing.None?
    case SkipRestored(p) => s.work.Restoring? && p in s.work.entries && TouchedAfter(s.q, p, s.work.cut)
    case LandRestored => s.work.Restoring? && s.active.Some? && s.work.landing.Some?
    case SupersedeRestore =>
      s.work.Restoring? && s.work.landing.None? && (s.q.eventSequence > s.work.cut || s.q.rescanRequested)
    case FinishRestore => s.work.Restoring? && s.work.landing.None? && s.work.entries == {}
    case BeginResume => s.work == Serving(NoChange) && s.active.None? && !s.q.blocked && !s.startupDecided
    case RetryResume => s.work.Resuming? && s.q.eventSequence > s.work.cut
    case ResumeSnapshot(target, entries) =>
      s.work.Resuming? && s.q.eventSequence == s.work.cut && entries <= s.vault.Keys && CurrentExcept(target, s.vault, entries)
    case FallBack => s.work.Resuming?
  }

  predicate Enabled(s: State, step: Step) {
    match step
    case Observe(c) => Possible(s.vault, c)
    case RequestRebuild => true
    case Startup(start) => StartupEnabled(s, start)
    case BeginBuild => s.work == Serving(NoChange) && !s.q.blocked
                       && (s.active.None? || s.q.rebuildRequested || (s.q.rescanRequested && HasPending(s.q)))
    case CaptureSnapshot => s.work.Beginning?
    case ReadEntry(p) => s.work.Adding? && p in s.work.entries && p in s.vault
                         && !TouchedAfter(s.q, p, s.work.cut)
    case SkipEntry(p) => s.work.Adding? && p in s.work.entries && TouchedAfter(s.q, p, s.work.cut)
    case LandBatch => s.work.Adding?
    case FinishAdding => s.work.Adding? && s.work.entries == {} && s.work.batch == map[]
    case Take(p) => CanDrain(s) && HasPending(s.q) && Takes(s.q, p)
    case ReadChange(p) => DrainOf(s.work).Applying? && p in DrainOf(s.work).change.upserts
                          && p !in DrainOf(s.work).found
    case LandChange => DrainOf(s.work).Applying? && DrainOf(s.work).found.Keys == DrainOf(s.work).change.upserts
    case AbortBuild => s.work.Replaying? && s.work.drain.NoChange? && s.q.rescanSequence > s.work.cut
    case BeginCommit => s.work.Replaying? && s.work.drain.NoChange? && !HasPending(s.q)
    case FinishCommit => s.work.Committing?
    case Fail => s.work != Serving(NoChange)
  }

  /** applySourceChanges: the removals, then the upserts that were read; a missing upsert is a removal. */
  function Landed(index: Files, change: Change, found: map<Path, Option<Content>>): Files
    requires found.Keys == change.upserts
  {
    map p | p in index.Keys + change.upserts
            && (if p in change.upserts then found[p].Some? else p !in change.removals)
          :: if p in change.upserts then found[p].value else index[p]
  }

  /** The part of captureSnapshot that touches the queues. */
  function Consumed(q: Queues): Queues {
    q.(upserts := {}, removals := {}, renames := [])
  }

  /** applySourceChanges for one path. */
  function LandedAt(index: Files, l: Landing): Files {
    if l.content.Some? then index[l.path := l.content.value] else index - {l.path}
  }

  function Rebuilt(s: State): Queues {
    if s.active.None? && !s.q.blocked then s.q
    else if s.active.Some? && (s.q.rebuildRequested || InBuild(s)) then s.q
    else s.q.(blocked := false, rebuildRequested := true, rescanRequested := true,
              rescanSequence := s.q.eventSequence)
  }

  /** acknowledgeCommittedSnapshot. */
  function Acknowledged(q: Queues, cut: nat): Queues {
    if q.rescanSequence > cut then q else q.(rescanRequested := false, rebuildRequested := false)
  }

  function Started(s: State, start: StartupStep): State
    requires StartupEnabled(s, start)
  {
    match start
    case RestoreCache(index, entries) =>
      s.(active := Some(index), startupDecided := true, work := Restoring(s.q.eventSequence, entries, None), q := Consumed(s.q))
    case VerifyRestored(p) => s.(work := Restoring(s.work.cut, s.work.entries - {p}, s.work.landing))
    case ReadRestored(p) =>
      s.(work := Restoring(s.work.cut, s.work.entries - {p}, Some(Landing(p, Lookup(s.vault, p)))))
    case SkipRestored(p) => s.(work := Restoring(s.work.cut, s.work.entries - {p}, s.work.landing))
    case LandRestored =>
      s.(active := Some(LandedAt(s.active.value, s.work.landing.value)), work := Restoring(s.work.cut, s.work.entries, None))
    case SupersedeRestore =>
      s.(work := Serving(NoChange), q := if s.q.rebuildRequested || s.q.rescanRequested then s.q else RequestRescan(s.q))
    case FinishRestore => s.(work := Serving(NoChange))
    case BeginResume => s.(startupDecided := true, work := Resuming(s.q.eventSequence), q := Consumed(s.q))
    case RetryResume => s.(work := Resuming(s.q.eventSequence), q := Consumed(s.q))
    case ResumeSnapshot(target, entries) => s.(work := Adding(s.work.cut, target, entries, map[]))
    case FallBack => s.(work := Serving(NoChange))
  }

  ghost function Next(s: State, step: Step, maxPendingPaths: nat): State
    requires Enabled(s, step)
  {
    match step
    case Observe(c) =>
      s.(vault := Changed(s.vault, c), q := HandleEvent(s.q, EventOf(c), maxPendingPaths))
    case RequestRebuild => s.(q := Rebuilt(s))
    case Startup(start) => Started(s, start)
    case BeginBuild => s.(startupDecided := true, work := Beginning, q := s.q.(rebuildRequested := false))
    case CaptureSnapshot =>
      var q := Consumed(s.q);
      s.(work := Adding(s.q.eventSequence, map[], s.vault.Keys, map[]),
         q := if q.rescanSequence <= q.eventSequence then q.(rebuildRequested := false) else q)
    case ReadEntry(p) =>
      s.(work := Adding(s.work.cut, s.work.target, s.work.entries - {p}, s.work.batch[p := s.vault[p]]))
    case SkipEntry(p) => s.(work := Adding(s.work.cut, s.work.target, s.work.entries - {p}, s.work.batch))
    case LandBatch => s.(work := Adding(s.work.cut, s.work.target + s.work.batch, s.work.entries, map[]))
    case FinishAdding => s.(work := Replaying(s.work.cut, s.work.target, NoChange))
    case Take(p) =>
      var (change, q) := if s.q.renames != [] then TakeRename(s.q) else TakePath(s.q, p);
      s.(q := q, work := WithDrain(s.work, Applying(change, map[])))
    case ReadChange(p) =>
      var d := DrainOf(s.work);
      s.(work := WithDrain(s.work, d.(found := d.found[p := Lookup(s.vault, p)])))
    case LandChange =>
      var d := DrainOf(s.work);
      if s.work.Replaying? then
        s.(work := Replaying(s.work.cut, Landed(s.work.target, d.change, d.found), NoChange))
      else if s.active.Some? then
        s.(active := Some(Landed(s.active.value, d.change, d.found)), work := Serving(NoChange))
      else s.(work := Serving(NoChange))
    case AbortBuild => s.(work := Serving(NoChange))
    case BeginCommit => s.(work := Committing(s.work.cut, s.work.target))
    case FinishCommit =>
      s.(active := Some(s.work.target), work := Serving(NoChange), q := Acknowledged(s.q, s.work.cut))
    case Fail =>
      var d := DrainOf(s.work);
      var q := if d.Applying? then Requeue(s.q, d.change) else s.q;
      s.(work := Serving(NoChange), q := q.(blocked := true))
  }

  function Init(vault: Files): State {
    State(vault, None, false, Queues({}, {}, [], false, false, false, 0, 0, map[]), Serving(NoChange))
  }

  /// ---- coverage ----------------------------------------------------------------------------

  /** The index that the queues must bring up to date, when there is one. */
  predicate Tracking(s: State) {
    match s.work
    case Serving(_) => s.active.Some? && !s.q.rescanRequested && !s.q.blocked
    case Restoring(_, _, _) => s.active.Some? && !s.q.rescanRequested
    case Beginning => false
    case Resuming(_) => false
    case _ => s.q.rescanSequence <= s.work.cut
  }

  /** There is an index that the queues could answer for. */
  predicate HasIndex(s: State) {
    match s.work
    case Serving(_) => s.active.Some?
    case Restoring(_, _, _) => s.active.Some?
    case Beginning => false
    case Resuming(_) => false
    case _ => true
  }

  function Target(s: State): Files
    requires HasIndex(s)
  {
    if s.work.Serving? || s.work.Restoring? then s.active.value else s.work.target
  }

  /** A snapshot entry that is still to be read. */
  predicate ToRead(s: State, p: Path) {
    (s.work.Adding? || s.work.Restoring?) && p in s.work.entries && !TouchedAfter(s.q, p, s.work.cut)
  }

  /** The content that is already on its way to the index from a snapshot. */
  function Underway(s: State, p: Path): Option<Slot> {
    match s.work
    case Adding(_, _, _, batch) => if p in batch then Some(Holds(Some(batch[p]))) else None
    case Restoring(_, _, Some(l)) => if l.path == p then Some(Holds(l.content)) else None
    case _ => None
  }

  function Base(s: State, p: Path): Slot
    requires HasIndex(s)
  {
    var d := DrainOf(s.work);
    if d.Applying? && p in d.change.upserts then
      if p in d.found then Holds(d.found[p]) else Unread
    else if d.Applying? && p in d.change.removals then Holds(None)
    else if Underway(s, p).Some? then Underway(s, p).value
    else if ToRead(s, p) then Unread
    else Holds(Lookup(Target(s), p))
  }

  predicate CoveredIn(s: State, p: Path)
    requires HasIndex(s)
  {
    Covered(s.q, s.vault, p, Base(s, p))
  }

  /** Every path where the tracked index and the vault differ is pending or in flight. */
  ghost predicate AllCovered(s: State) {
    Tracking(s) ==> forall p :: CoveredIn(s, p)
  }

  /** A failed drain has blocked the controller, and no rescan has been asked for since. */
  predicate Waiting(s: State) {
    s.work == Serving(NoChange) && s.active.Some? && s.q.blocked && !s.q.rescanRequested
  }

  /** The queues answer for an index: the one being drained, or the one a blocked controller still serves. */
  predicate Followed(s: State) {
    Tracking(s) || Waiting(s)
  }

  ghost predicate AllFollowed(s: State) {
    Followed(s) ==> forall p :: CoveredIn(s, p)
  }

  /** A change takes one rename, or one path. */
  predicate TakesOne(change: Change) {
    if change.rename.Some? then
      change.removals == {change.rename.value.root} && change.upserts == {change.rename.value.dest}
      && change.rename.value.root != change.rename.value.dest
    else
      forall p, x :: p in change.upserts + change.removals && x in change.upserts + change.removals ==> p == x
  }

  /** What holds in every reachable state, whatever the events. */
  ghost predicate Consistent(s: State) {
    && WellFormed(s.q)
    && s.q.rescanSequence <= s.q.eventSequence
    && (forall p :: p in s.q.touched ==> s.q.touched[p] <= s.q.eventSequence)
    && (s.q.rebuildRequested ==> s.q.rescanRequested)
    && (InBuild(s) && s.active.Some? ==> s.q.rescanRequested)
    && (s.q.blocked ==> s.work == Serving(NoChange))
    && (HasCut(s.work) ==> s.work.cut <= s.q.eventSequence)
    && (HasCut(s.work) && s.q.rescanSequence > s.work.cut ==> s.q.rescanRequested)
    && (s.work.Restoring? ==> s.active.Some? && s.work.cut <= s.q.eventSequence
                              && (s.q.rescanSequence > s.work.cut ==> s.q.rescanRequested))
    && (s.work.Resuming? && s.q.eventSequence == s.work.cut ==> !HasPending(s.q))
    && (s.work.Adding? ==> forall p :: p in s.work.entries && !TouchedAfter(s.q, p, s.work.cut) ==> p in s.vault)
    && (s.work.Serving? && s.work.drain.Applying? ==> s.active.Some?)
    && (DrainOf(s.work).Applying? ==> TakesOne(DrainOf(s.work).change))
  }
}
