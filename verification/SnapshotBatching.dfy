/**
 addSnapshotSources: the snapshot entries are read in windows under a concurrency and a byte limit, and sent to
 the Worker in bounded batches. What the vault, the Worker and a shutdown do meanwhile is a `World`.
 */
module SnapshotBatching {
  import opened Arithmetic
  import opened Vault
  import opened BuildProgress

  const MAX_BATCH_SOURCES := 16
  const MAX_BATCH_BYTES := 16 * 1024 * 1024
  const MAX_SOURCE_BYTES := MAX_INDEXABLE_SOURCE_BYTES + 1

  datatype Limits = Limits(maxConcurrentReads: nat, maxBatchSources: nat, maxBatchBytes: nat)

  const DEFAULT_LIMITS := Limits(4, 16, 16 * 1024 * 1024)

  /** validateLimits. */
  predicate ValidLimits(l: Limits) {
    l.maxConcurrentReads >= 1 && l.maxBatchSources >= 1 && l.maxBatchBytes >= 1
  }

  datatype Inspection = Candidate(size: nat) | Oversized

  datatype Entry = Entry(path: Path, inspection: Inspection)

  /** What the read of one entry settles with; only a candidate is read. */
  datatype Read = Source(bytes: nat) | OversizedSource | Stale | Missing | Unreadable | Interrupted

  /** What requireActive finds. */
  datatype Activity = Running | Stopping | Gone

  /**
   `outstanding(w)` counts earlier reads still unsettled when window `w` is formed. The Worker acknowledges the k-th
   batch iff `accepts(k)`, and a shutdown has been requested by then iff `stops(k)`. The k-th requireActive of the
   loop finds `activity(k)`: two for each window, after its reads and after its yield.
   */
  datatype Surroundings = Surroundings(
    outstanding: nat -> nat,
    accepts: nat -> bool,
    stops: nat -> bool,
    activity: nat -> Activity)

  /**
   `settles[i]` and `touched[i]` are what entry `i`'s read settles with and whether its path was touched after the
   cut by then.
   */
  datatype World = World(settles: seq<Read>, touched: seq<bool>, around: Surroundings)

  datatype Error =
    | SourceExceedsBatchLimit
    | ReadCapacity
    | ReadInterrupted
    | VaultUnavailable
    | BatchRejected
    | ShutdownRequested
    | ControllerDisposed

  datatype Outcome = Done | Failed(error: Error)

  /** One source of a batch. */
  datatype Item = Item(ordinal: nat, path: Path, bytes: nat)

  /** What becomes of an entry whose read settled. */
  datatype Fate = Added(bytes: nat) | TouchedLater | RequeuedUpsert | RequeuedRemoval | MarkedUnreadable | Aborted

  function Settled(e: Entry, r: Read): Read {
    if e.inspection.Oversized? then OversizedSource else r
  }

  function FateOf(r: Read, touched: bool): Fate {
    match r
    case Unreadable => MarkedUnreadable
    case Interrupted => Aborted
    case _ =>
      if touched then TouchedLater
      else match r
        case Source(bytes) => Added(bytes)
        case OversizedSource => Added(0)
        case Stale => RequeuedUpsert
        case _ => RequeuedRemoval
  }

  function BytesOf(batch: seq<Item>): nat {
    if batch == [] then 0 else BytesOf(batch[..|batch| - 1]) + batch[|batch| - 1].bytes
  }

  function Concat(batches: seq<seq<Item>>): seq<Item> {
    if batches == [] then [] else Concat(batches[..|batches| - 1]) + batches[|batches| - 1]
  }

  predicate BoundedBatch(batch: seq<Item>, l: Limits) {
    1 <= |batch| <= l.maxBatchSources && BytesOf(batch) <= l.maxBatchBytes
  }

  /** The candidate bytes of the entries from `lo` to `hi`. */
  function Reserved(entries: seq<Entry>, lo: nat, hi: nat): nat
    requires lo <= hi <= |entries|
    decreases hi
  {
    if lo == hi then 0
    else Reserved(entries, lo, hi - 1)
         + match entries[hi - 1].inspection case Candidate(size) => size case Oversized => 0
  }

  function Candidates(entries: seq<Entry>, lo: nat, hi: nat): (n: nat)
    requires lo <= hi <= |entries|
    ensures n <= hi - lo
    decreases hi
  {
    if lo == hi then 0
    else Candidates(entries, lo, hi - 1) + if entries[hi - 1].inspection.Candidate? then 1 else 0
  }

  predicate Fits(entries: seq<Entry>, w: World) {
    |w.settles| == |w.touched| == |entries|
  }

  function EntryFate(entries: seq<Entry>, w: World, i: nat): Fate
    requires Fits(entries, w) && i < |entries|
  {
    FateOf(Settled(entries[i], w.settles[i]), w.touched[i])
  }

  /** The sources added for the entries from `lo` to `hi`, in order. */
  function AddedItems(entries: seq<Entry>, w: World, lo: nat, hi: nat): (items: seq<Item>)
    requires Fits(entries, w) && lo <= hi <= |entries|
    decreases hi
  {
    if lo == hi then []
    else
      var before := AddedItems(entries, w, lo, hi - 1);
      match EntryFate(entries, w, hi - 1)
      case Added(bytes) => before + [Item(hi - 1, entries[hi - 1].path, bytes)]
      case _ => before
  }

  /** The paths of the entries from `lo` to `hi` with the given fate, in order. */
  function PathsWith(entries: seq<Entry>, w: World, lo: nat, hi: nat, fate: Fate): seq<Path>
    requires Fits(entries, w) && lo <= hi <= |entries|
    decreases hi
  {
    if lo == hi then []
    else PathsWith(entries, w, lo, hi - 1, fate)
         + if EntryFate(entries, w, hi - 1) == fate then [entries[hi - 1].path] else []
  }

  /// ---- what the spec functions mean ----------------------------------------------------------------

  predicate Increasing(items: seq<Item>) {
    forall j, k :: 0 <= j < k < |items| ==> items[j].ordinal < items[k].ordinal
  }

  /** The added sources are exactly the entries with fate Added, each once, in path order. */
  lemma {:induction false} AddedItemsExact(entries: seq<Entry>, w: World, lo: nat, hi: nat)
    requires Fits(entries, w) && lo <= hi <= |entries|
    ensures var items := AddedItems(entries, w, lo, hi);
            && (forall k :: 0 <= k < |items| ==>
                  && lo <= items[k].ordinal < hi
                  && items[k].path == entries[items[k].ordinal].path
                  && EntryFate(entries, w, items[k].ordinal) == Added(items[k].bytes))
            && Increasing(items)
            && (forall i :: lo <= i < hi && EntryFate(entries, w, i).Added?
                  ==> Item(i, entries[i].path, EntryFate(entries, w, i).bytes) in items)
    decreases hi
  {
    if lo < hi {
      AddedItemsExact(entries, w, lo, hi - 1);
      var before, items := AddedItems(entries, w, lo, hi - 1), AddedItems(entries, w, lo, hi);
      forall i | lo <= i < hi && EntryFate(entries, w, i).Added?
        ensures Item(i, entries[i].path, EntryFate(entries, w, i).bytes) in items
      {
        if i == hi - 1 {
          assert items[|items| - 1] == Item(i, entries[i].path, EntryFate(entries, w, i).bytes);
        } else {
          assert Item(i, entries[i].path, EntryFate(entries, w, i).bytes) in before;
        }
      }
    }
  }

  lemma {:induction false} PathsWithExact(entries: seq<Entry>, w: World, lo: nat, hi: nat, fate: Fate, p: Path)
    requires Fits(entries, w) && lo <= hi <= |entries|
    ensures p in PathsWith(entries, w, lo, hi, fate)
            <==> exists i :: lo <= i < hi && entries[i].path == p && EntryFate(entries, w, i) == fate
    decreases hi
  {
    if lo < hi {
      PathsWithExact(entries, w, lo, hi - 1, fate, p);
      if EntryFate(entries, w, hi - 1) == fate && entries[hi - 1].path == p {
        var all := PathsWith(entries, w, lo, hi, fate);
        assert all[|all| - 1] == p;
      }
    }
  }

  /** Batches that concatenate to the added sources: position `k` of the concatenation is in one batch. */
  lemma {:induction false} BatchesPartition(batches: seq<seq<Item>>, item: Item)
    ensures item in Concat(batches) <==> exists b :: 0 <= b < |batches| && item in batches[b]
  {
    if batches != [] {
      var n := |batches| - 1;
      BatchesPartition(batches[..n], item);
      if item in Concat(batches[..n]) {
        var b :| 0 <= b < n && item in batches[..n][b];
        assert item in batches[b];
      }
      if b :| 0 <= b < |batches| && item in batches[b] {
        if b < n {
          assert item in batches[..n][b];
        }
      }
    }
  }

  lemma {:induction false} ConcatAppend(batches: seq<seq<Item>>, batch: seq<Item>)
    ensures Concat(batches + [batch]) == Concat(batches) + batch
    ensures Concat(batches + [batch]) + [] == Concat(batches) + batch
  {
    assert (batches + [batch])[..|batches|] == batches;
  }

  lemma BytesAppend(batch: seq<Item>, item: Item)
    ensures BytesOf(batch + [item]) == BytesOf(batch) + item.bytes
  {
    assert (batch + [item])[..|batch|] == batch;
  }

  /** The part of a window still to settle reserves no more than the window. */
  lemma {:induction false} ReservedSplit(entries: seq<Entry>, lo: nat, mid: nat, hi: nat)
    requires lo <= mid <= hi <= |entries|
    ensures Reserved(entries, lo, hi) == Reserved(entries, lo, mid) + Reserved(entries, mid, hi)
    decreases hi
  {
    if mid < hi {
      ReservedSplit(entries, lo, mid, hi - 1);
    }
  }

  /** Reads that return the inspected number of bytes, as readSource guarantees of a source it returns. */
  predicate SizesHold(entries: seq<Entry>, w: World)
    requires Fits(entries, w)
  {
    forall i :: 0 <= i < |entries| && w.settles[i].Source? && entries[i].inspection.Candidate?
                ==> w.settles[i].bytes == entries[i].inspection.size
  }

  /// ---- the loop ---------------------------------------------------------------------------------------

  function Paths(entries: seq<Entry>): (paths: seq<Path>)
    ensures |paths| == |entries| && forall i :: 0 <= i < |entries| ==> paths[i] == entries[i].path
  {
    seq(|entries|, i requires 0 <= i < |entries| => entries[i].path)
  }

  predicate HasOrdinal(items: seq<Item>, i: nat) {
    exists k :: 0 <= k < |items| && items[k].ordinal == i
  }

  predicate Represents(represented: seq<bool>, first: nat, items: seq<Item>) {
    forall i :: 0 <= i < |represented| ==> (represented[i] <==> (i < first || HasOrdinal(items, i)))
  }

  function Ordinals(batch: seq<Item>): (ordinals: seq<nat>)
    ensures |ordinals| == |batch| && forall j :: 0 <= j < |batch| ==> ordinals[j] == batch[j].ordinal
  {
    seq(|batch|, j requires 0 <= j < |batch| => batch[j].ordinal)
  }

  lemma AcknowledgedOrdinals(before: seq<Item>, batch: seq<Item>, i: nat)
    ensures HasOrdinal(before + batch, i) <==> HasOrdinal(before, i) || i in Ordinals(batch)
  {
    var all := before + batch;
    if k :| 0 <= k < |before| && before[k].ordinal == i {
      assert all[k].ordinal == i;
    }
    if k :| 0 <= k < |batch| && Ordinals(batch)[k] == i {
      assert all[|before| + k].ordinal == i;
    }
    if k :| 0 <= k < |all| && all[k].ordinal == i {
      if k >= |before| {
        assert Ordinals(batch)[k - |before|] == i;
      }
    }
  }

  lemma RepresentsMore(was: seq<bool>, now: seq<bool>, first: nat, before: seq<Item>, batch: seq<Item>)
    requires |was| == |now| && Represents(was, first, before)
    requires forall i :: 0 <= i < |was| ==> (now[i] <==> (was[i] || i in Ordinals(batch)))
    ensures Represents(now, first, before + batch)
  {
    forall i | 0 <= i < |now| ensures now[i] <==> (i < first || HasOrdinal(before + batch, i)) {
      AcknowledgedOrdinals(before, batch, i);
    }
  }

  /** The sources of the batch about to be acknowledged are entries no earlier batch held. */
  lemma NewlyAcknowledged(entries: seq<Entry>, w: World, first: nat, n: nat, before: seq<Item>, batch: seq<Item>)
    requires Fits(entries, w) && first <= n <= |entries|
    requires before + batch == AddedItems(entries, w, first, n)
    ensures forall o :: o in Ordinals(batch) ==> first <= o < |entries| && !HasOrdinal(before, o)
  {
    AddedItemsExact(entries, w, first, n);
    var all := before + batch;
    forall o | o in Ordinals(batch) ensures first <= o < |entries| && !HasOrdinal(before, o) {
      var j :| 0 <= j < |batch| && Ordinals(batch)[j] == o;
      assert all[|before| + j] == batch[j];
      forall k | 0 <= k < |before| ensures before[k].ordinal != o {
        assert all[k] == before[k];
      }
    }
  }

  /** unreadable reads outnumber the others, and there are at least two. */
  predicate SystemicOutage(unreadable: nat, attempted: nat) {
    unreadable >= 2 && 2 * unreadable > attempted
  }

  /** Why addSnapshotSources may stop short. */
  ghost predicate Cause(entries: seq<Entry>, w: World, l: Limits, first: nat, error: Error)
    requires Fits(entries, w)
  {
    match error
    case SourceExceedsBatchLimit => exists i :: first <= i < |entries| && TooLarge(entries, w, l, i)
    case ReadCapacity => exists k :: w.around.outstanding(k) >= l.maxConcurrentReads
    case ReadInterrupted => exists i :: first <= i < |entries| && EntryFate(entries, w, i).Aborted?
    case VaultUnavailable =>
      exists n :: first <= n <= |entries|
        && SystemicOutage(|PathsWith(entries, w, first, n, MarkedUnreadable)|, Candidates(entries, first, n))
    case ControllerDisposed => exists k :: w.around.activity(k) == Gone
    case _ => exists k :: FlushFails(w, k, error) || (error == ShutdownRequested && w.around.activity(k) == Stopping)
  }

  predicate TooLarge(entries: seq<Entry>, w: World, l: Limits, i: nat)
    requires Fits(entries, w) && i < |entries|
  {
    || (entries[i].inspection.Candidate? && entries[i].inspection.size > l.maxBatchBytes)
    || (EntryFate(entries, w, i).Added? && EntryFate(entries, w, i).bytes > l.maxBatchBytes)
  }

  predicate FlushFails(w: World, k: nat, error: Error) {
    (error == BatchRejected && !w.around.accepts(k)) || (error == ShutdownRequested && w.around.stops(k))
  }

  /** The variables of addSnapshotSources that its closure `flush` shares, with what it has told the others. */
  class SnapshotBatcher {
    const limits: Limits
    const entries: seq<Entry>
    const world: World
    /** Entries before this one are represented by the checkpoint. */
    const first: nat
    /** null while replacing a searchable generation. */
    const progress: InitialBuildProgress?
    const savedBatches: nat

    var cursor: nat
    var batch: seq<Item>
    var batchBytes: nat
    var attemptedCandidateReads: nat
    var requests: nat
    var acknowledged: seq<seq<Item>>
    var queuedUpserts: seq<Path>
    var queuedRemovals: seq<Path>
    /** One entry per unreadable read of this call. */
    var unreadable: seq<Path>
    /** The most bytes ever held: batched, or reserved for reads of the window that have yet to settle. */
    ghost var peakBytes: nat
    /** The most reads ever outstanding when a window starts reading. */
    ghost var peakReads: nat
    ghost const sizesHold: bool

    ghost predicate Valid()
      reads this, progress
    {
      && Batched() && first <= cursor <= |entries|
      && attemptedCandidateReads == Candidates(entries, first, cursor)
      && (sizesHold ==> peakBytes <= limits.maxBatchBytes)
    }

    ghost predicate Batched()
      reads this`batch, this`batchBytes, this`acknowledged, progress
    {
      Bounded() && (progress != null ==> ProgressAgrees())
    }

    /** The current batch and the acknowledged ones keep the limits. */
    ghost predicate Bounded()
      reads this`batch, this`batchBytes, this`acknowledged
    {
      && ValidLimits(limits) && Fits(entries, world)
      && |batch| <= limits.maxBatchSources
      && batchBytes == BytesOf(batch) <= limits.maxBatchBytes
      && forall b :: 0 <= b < |acknowledged| ==> BoundedBatch(acknowledged[b], limits)
    }

    /** The build's progress records exactly the acknowledged batches. */
    ghost predicate ProgressAgrees()
      requires progress != null
      reads this`acknowledged, progress
    {
      && progress.Valid()
      && progress.paths == Paths(entries)
      && progress.acknowledgedAddBatches == savedBatches + |acknowledged|
      && Represents(progress.represented, first, Concat(acknowledged))
    }

    /** Every entry from `first` to `n` is accounted for. */
    ghost predicate Accounted(n: nat)
      reads this`batch, this`acknowledged, this`queuedUpserts, this`queuedRemovals, this`unreadable
    {
      && Fits(entries, world) && first <= n <= |entries|
      && Concat(acknowledged) + batch == AddedItems(entries, world, first, n)
      && queuedUpserts == PathsWith(entries, world, first, n, RequeuedUpsert)
      && queuedRemovals == PathsWith(entries, world, first, n, RequeuedRemoval)
      && unreadable == PathsWith(entries, world, first, n, MarkedUnreadable)
    }

    /** An entry after those of a batch whose source does not fit in it any more. */
    ghost predicate NoRoom(b: seq<Item>, i: nat)
      requires Fits(entries, world)
    {
      && i < |entries| && (forall k :: 0 <= k < |b| ==> b[k].ordinal < i)
      && (|| (entries[i].inspection.Candidate? && BytesOf(b) + entries[i].inspection.size > limits.maxBatchBytes)
          || (world.settles[i].Source? && BytesOf(b) + world.settles[i].bytes > limits.maxBatchBytes))
    }

    /** Every request so far was acknowledged, and none of the batches was sent before it was full. */
    ghost predicate SentFull()
      requires Fits(entries, world)
      reads this`acknowledged, this`requests
    {
      AllAccepted() && AllFull(acknowledged)
    }

    ghost predicate AllFull(batches: seq<seq<Item>>)
      requires Fits(entries, world)
    {
      forall b :: 0 <= b < |batches| ==> IsFull(batches[b])
    }

    /** The Worker accepted every batch sent, and no shutdown was requested meanwhile. */
    ghost predicate AllAccepted()
      reads this`acknowledged, this`requests
    {
      requests == |acknowledged| && forall k: nat :: k < requests ==> world.around.accepts(k) && !world.around.stops(k)
    }

    ghost predicate IsFull(b: seq<Item>)
      requires Fits(entries, world)
    {
      |b| == limits.maxBatchSources || exists i :: NoRoom(b, i)
    }

    /** What is batched comes before the entry to settle next. */
    lemma BatchedBefore(n: nat)
      requires Accounted(n)
      ensures forall k :: 0 <= k < |batch| ==> batch[k].ordinal < n
    {
      AddedItemsExact(entries, world, first, n);
      forall k | 0 <= k < |batch| ensures batch[k].ordinal < n {
        assert (Concat(acknowledged) + batch)[|Concat(acknowledged)| + k] == batch[k];
      }
    }

    constructor (limits: Limits, entries: seq<Entry>, world: World, first: nat, progress: InitialBuildProgress?)
      requires ValidLimits(limits) && Fits(entries, world) && first <= |entries|
      requires progress != null ==>
                 && progress.Valid() && progress.paths == Paths(entries)
                 && progress.represented == seq(|entries|, i => i < first)
      ensures Valid() && Accounted(first) && batch == [] && acknowledged == [] && requests == 0 && peakReads == 0
      ensures this.limits == limits && this.entries == entries && this.world == world && this.first == first
      ensures this.progress == progress && cursor == first && sizesHold == SizesHold(entries, world)
    {
      this.limits, this.entries, this.world, this.first := limits, entries, world, first;
      this.progress := progress;
      savedBatches := if progress == null then 0 else progress.acknowledgedAddBatches;
      cursor, batch, batchBytes, acknowledged := first, [], 0, [];
      attemptedCandidateReads, requests := 0, 0;
      queuedUpserts, queuedRemovals, unreadable := [], [], [];
      peakBytes, peakReads, sizesHold := 0, 0, SizesHold(entries, world);
    }

    method RecordProgress(ghost n: nat)
      requires progress != null && ProgressAgrees() && Accounted(n) && batch != []
      modifies progress
      ensures progress.Valid() && progress.paths == Paths(entries)
      ensures progress.acknowledgedAddBatches == savedBatches + |acknowledged| + 1
      ensures Represents(progress.represented, first, Concat(acknowledged) + batch)
    {
      NewlyAcknowledged(entries, world, first, n, Concat(acknowledged), batch);
      assert Ordinals(batch)[0] in Ordinals(batch);
      ghost var before := progress.represented;
      progress.Acknowledge(Ordinals(batch));
      RepresentsMore(before, progress.represented, first, Concat(acknowledged), batch);
    }

    /** The turn in which the Worker's acknowledgement arrives. */
    method Acknowledge(ghost n: nat)
      requires Valid() && Accounted(n) && batch != []
      modifies progress, this`batch, this`batchBytes, this`acknowledged
      ensures Valid() && Accounted(n) && batch == [] && acknowledged == old(acknowledged) + [old(batch)]
    {
      ConcatAppend(acknowledged, batch);
      if progress != null {
        RecordProgress(n);
      }
      CloseBatch();
    }

    method CloseBatch()
      requires Bounded() && batch != []
      modifies this`batch, this`batchBytes, this`acknowledged
      ensures Bounded() && batch == [] && acknowledged == old(acknowledged) + [old(batch)]
    {
      acknowledged := acknowledged + [batch];
      batch, batchBytes := [], 0;
    }

    /** Sends the batch; a batch counts once the Worker has acknowledged it. */
    method Flush(ghost n: nat) returns (outcome: Outcome)
      requires Valid() && Accounted(n)
      modifies progress, this`batch, this`batchBytes, this`acknowledged, this`requests
      ensures Valid() && Accounted(n)
      ensures outcome.Done? ==> batch == []
      ensures outcome.Failed? ==> exists k :: FlushFails(world, k, outcome.error)
      ensures old(batch) == [] ==> outcome.Done? && requests == old(requests) && acknowledged == old(acknowledged)
      ensures old(batch) != [] ==>
                var accepted, stopping := world.around.accepts(old(requests)), world.around.stops(old(requests));
                && requests == old(requests) + 1
                && acknowledged == old(acknowledged) + (if accepted then [old(batch)] else [])
                && outcome == if !accepted then Failed(BatchRejected) else if stopping then Failed(ShutdownRequested) else Done
    {
      if batch == [] {
        return Done;
      }
      var k := requests;
      requests := requests + 1;
      if !world.around.accepts(k) {
        assert FlushFails(world, k, BatchRejected);
        return Failed(BatchRejected);
      }
      Acknowledge(n);
      if world.around.stops(k) {
        assert FlushFails(world, k, ShutdownRequested);
        return Failed(ShutdownRequested);
      }
      outcome := Done;
    }

    /** The reads that may start beside those outstanding; one even then, so that exhausted capacity is noticed. */
    function Slots(outstanding: nat): (n: nat)
      requires ValidLimits(limits)
      ensures outstanding < limits.maxConcurrentReads ==> outstanding + n == limits.maxConcurrentReads
      ensures outstanding >= limits.maxConcurrentReads ==> n == 1
    {
      if outstanding < limits.maxConcurrentReads then limits.maxConcurrentReads - outstanding else 1
    }

    lemma AllFullMore(batches: seq<seq<Item>>, b: seq<Item>)
      requires Fits(entries, world) && AllFull(batches) && IsFull(b)
      ensures AllFull(batches + [b])
    {
    }

    /** Sends a full batch. */
    method FlushWhole(ghost n: nat) returns (outcome: Outcome)
      requires Valid() && Accounted(n) && SentFull() && IsFull(batch)
      modifies progress, this`batch, this`batchBytes, this`acknowledged, this`requests
      ensures Valid() && Accounted(n) && (outcome.Done? ==> batch == [] && SentFull())
      ensures outcome.Failed? ==> exists k :: FlushFails(world, k, outcome.error)
      ensures outcome != Failed(VaultUnavailable)
    {
      AllFullMore(acknowledged, batch);
      outcome := Flush(n);
      if outcome.Done? {
        assert AllAccepted();
        assert AllFull(acknowledged);
      }
    }

    /** Sends a batch that has no room for entry `i`, whose source is or was seen to be of this size. */
    method FlushFull(i: nat, ghost size: nat) returns (outcome: Outcome)
      requires Valid() && Accounted(i) && i < |entries| && SentFull()
      requires |batch| == limits.maxBatchSources || batchBytes + size > limits.maxBatchBytes
      requires || size == 0 || (entries[i].inspection.Candidate? && entries[i].inspection.size == size)
               || world.settles[i] == Source(size)
      modifies progress, this`batch, this`batchBytes, this`acknowledged, this`requests
      ensures Valid() && Accounted(i) && (outcome.Done? ==> batch == [] && SentFull())
      ensures outcome.Failed? ==> exists k :: FlushFails(world, k, outcome.error)
      ensures outcome != Failed(VaultUnavailable)
    {
      BatchedBefore(i);
      assert |batch| == limits.maxBatchSources || NoRoom(batch, i);
      outcome := FlushWhole(i);
    }

    /** The entry at the cursor joins the window; `held` bytes are then batched or reserved. */
    method Extend(ghost held: nat)
      requires Valid() && cursor < |entries| && held <= limits.maxBatchBytes
      modifies this`cursor, this`attemptedCandidateReads, this`peakBytes
      ensures Valid() && cursor == old(cursor) + 1
    {
      if entries[cursor].inspection.Candidate? {
        attemptedCandidateReads := attemptedCandidateReads + 1;
      }
      cursor := cursor + 1;
      peakBytes := Max(peakBytes, held);
    }

    /**
     Forms the next window, entries old(cursor) to cursor, flushing when the next source does not fit. The window is
     as long as it may be: it ends with the inventory, at the read limit, or before a candidate for which there is
     no slot beside the reads still outstanding, or no room in the batch.
     */
    method FillWindow(outstanding: nat) returns (outcome: Outcome)
      requires Valid() && Accounted(cursor) && cursor < |entries| && |batch| < limits.maxBatchSources && SentFull()
      modifies this`cursor, this`attemptedCandidateReads, this`peakBytes
      modifies progress, this`batch, this`batchBytes, this`acknowledged, this`requests
      ensures Valid() && Accounted(old(cursor)) && old(cursor) <= cursor && (outcome.Done? ==> SentFull())
      ensures outcome.Failed? ==> Cause(entries, world, limits, first, outcome.error)
      ensures outcome.Done? ==>
                && old(cursor) < cursor <= old(cursor) + limits.maxConcurrentReads
                && |batch| < limits.maxBatchSources
                && Candidates(entries, old(cursor), cursor) <= Slots(outstanding)
                && batchBytes + Reserved(entries, old(cursor), cursor) <= limits.maxBatchBytes
                && (cursor < |entries| && cursor < old(cursor) + limits.maxConcurrentReads ==>
                      && entries[cursor].inspection.Candidate?
                      && (|| Candidates(entries, old(cursor), cursor) == Slots(outstanding)
                          || batchBytes + Reserved(entries, old(cursor), cursor) + entries[cursor].inspection.size > limits.maxBatchBytes))
      ensures attemptedCandidateReads >= old(attemptedCandidateReads)
    {
      var start, slots := cursor, Slots(outstanding);
      var reservedBytes, reservedReads := 0, 0;
      while cursor < |entries| && cursor - start < limits.maxConcurrentReads
        invariant Valid() && Accounted(start)
        invariant start <= cursor <= |entries| && cursor - start <= limits.maxConcurrentReads
        invariant |batch| < limits.maxBatchSources && SentFull()
        invariant reservedBytes == Reserved(entries, start, cursor)
        invariant reservedReads == Candidates(entries, start, cursor) <= slots
        invariant batchBytes + reservedBytes <= limits.maxBatchBytes
        invariant attemptedCandidateReads >= old(attemptedCandidateReads)
        decreases |entries| - cursor, batchBytes
      {
        var inspection := entries[cursor].inspection;
        if inspection.Candidate? {
          if reservedReads >= slots { break; }
          if inspection.size > limits.maxBatchBytes {
            assert TooLarge(entries, world, limits, cursor);
            return Failed(SourceExceedsBatchLimit);
          }
          if batchBytes + reservedBytes + inspection.size > limits.maxBatchBytes {
            if cursor > start { break; }
            outcome := FlushFull(start, inspection.size);
            if outcome.Failed? { return; }
            continue;
          }
          reservedBytes := reservedBytes + inspection.size;
          reservedReads := reservedReads + 1;
        }
        Extend(batchBytes + reservedBytes);
      }
      outcome := Done;
    }

    method Push(i: nat, bytes: nat)
      requires Valid() && Accounted(i) && i < cursor && EntryFate(entries, world, i) == Added(bytes)
      requires |batch| < limits.maxBatchSources && batchBytes + bytes <= limits.maxBatchBytes
      modifies this`batch, this`batchBytes
      ensures Valid() && Accounted(i + 1) && batchBytes == old(batchBytes) + bytes
    {
      var item := Item(i, entries[i].path, bytes);
      BytesAppend(batch, item);
      ghost var sent := Concat(acknowledged);
      assert sent + (batch + [item]) == (sent + batch) + [item];
      batch, batchBytes := batch + [item], batchBytes + bytes;
    }

    /** An untouched source joins the batch, which is flushed first if it has no room and then if it is full. */
    method AddSource(i: nat, bytes: nat) returns (outcome: Outcome)
      requires Valid() && Accounted(i) && i < cursor && |batch| < limits.maxBatchSources && SentFull()
      requires EntryFate(entries, world, i) == Added(bytes)
      modifies progress, this`batch, this`batchBytes, this`acknowledged, this`requests
      ensures Valid() && (outcome.Done? ==> SentFull())
      ensures outcome.Failed? ==> Cause(entries, world, limits, first, outcome.error) && (Accounted(i) || Accounted(i + 1))
      ensures outcome.Done? ==> Accounted(i + 1) && |batch| < limits.maxBatchSources
      ensures outcome != Failed(VaultUnavailable)
      ensures outcome.Done? && old(batchBytes) + bytes <= limits.maxBatchBytes ==> batchBytes <= old(batchBytes) + bytes
    {
      if bytes > limits.maxBatchBytes {
        assert TooLarge(entries, world, limits, i);
        return Failed(SourceExceedsBatchLimit);
      }
      if |batch| >= limits.maxBatchSources || batchBytes + bytes > limits.maxBatchBytes {
        outcome := FlushFull(i, bytes);
        if outcome.Failed? { return; }
      }
      Push(i, bytes);
      outcome := Done;
      if |batch| >= limits.maxBatchSources {
        outcome := FlushPushed(i);
      }
    }

    /** Sends the batch that the source of entry `i` has filled. */
    method FlushPushed(i: nat) returns (outcome: Outcome)
      requires Valid() && Accounted(i + 1) && |batch| == limits.maxBatchSources && SentFull()
      modifies progress, this`batch, this`batchBytes, this`acknowledged, this`requests
      ensures Valid() && Accounted(i + 1) && (outcome.Done? ==> batch == [] && SentFull())
      ensures outcome.Failed? ==> exists k :: FlushFails(world, k, outcome.error)
      ensures outcome != Failed(VaultUnavailable)
    {
      assert IsFull(batch);
      outcome := FlushWhole(i + 1);
    }

    /** One settled read of the window. */
    method SettleEntry(i: nat) returns (outcome: Outcome)
      requires Valid() && Accounted(i) && i < cursor && |batch| < limits.maxBatchSources && SentFull()
      requires !EntryFate(entries, world, i).Aborted?
      requires sizesHold ==> SizesHold(entries, world) && batchBytes + Reserved(entries, i, cursor) <= limits.maxBatchBytes
      modifies this`batch, this`batchBytes, this`acknowledged, this`requests, this`peakBytes
      modifies this`queuedUpserts, this`queuedRemovals, this`unreadable, progress
      ensures Valid() && (outcome.Done? ==> SentFull())
      ensures outcome.Failed? ==> Cause(entries, world, limits, first, outcome.error) && (Accounted(i) || Accounted(i + 1))
      ensures outcome.Done? ==> Accounted(i + 1) && |batch| < limits.maxBatchSources
      ensures outcome.Done? && sizesHold ==> batchBytes + Reserved(entries, i + 1, cursor) <= limits.maxBatchBytes
      ensures |unreadable| >= |old(unreadable)| && outcome != Failed(VaultUnavailable)
    {
      ReservedSplit(entries, i, i + 1, cursor);
      outcome := Done;
      if EntryFate(entries, world, i).Added? {
        outcome := AddSource(i, EntryFate(entries, world, i).bytes);
        if outcome.Done? { peakBytes := Max(peakBytes, batchBytes + Reserved(entries, i + 1, cursor)); }
      } else {
        SettleUnadded(i);
      }
    }

    /** A read that adds no source: its entry is marked, queued again, or left to its own event. */
    method SettleUnadded(i: nat)
      requires Valid() && Accounted(i) && i < cursor
      requires !EntryFate(entries, world, i).Aborted? && !EntryFate(entries, world, i).Added?
      modifies this`queuedUpserts, this`queuedRemovals, this`unreadable
      ensures Valid() && Accounted(i + 1) && |unreadable| >= |old(unreadable)|
    {
      match EntryFate(entries, world, i) {
        case MarkedUnreadable => unreadable := unreadable + [entries[i].path];
        case RequeuedUpsert => queuedUpserts := queuedUpserts + [entries[i].path];
        case RequeuedRemoval => queuedRemovals := queuedRemovals + [entries[i].path];
        case TouchedLater =>
      }
    }

    /** requireActive, for the k-th time in this call. */
    method RequireActive(k: nat) returns (outcome: Outcome)
      requires Fits(entries, world)
      ensures outcome.Done? <==> world.around.activity(k) == Running
      ensures outcome.Failed? ==> outcome.error == if world.around.activity(k) == Gone then ControllerDisposed else ShutdownRequested
      ensures outcome.Failed? ==> Cause(entries, world, limits, first, outcome.error)
    {
      match world.around.activity(k) {
        case Running => outcome := Done;
        case Stopping => outcome := Failed(ShutdownRequested);
        case Gone => outcome := Failed(ControllerDisposed);
      }
    }

    /** The settled reads of the window, in entry order. */
    method SettleEntries(start: nat) returns (outcome: Outcome)
      requires Valid() && Accounted(start) && start <= cursor && |batch| < limits.maxBatchSources && SentFull()
      requires forall i :: start <= i < cursor ==> !EntryFate(entries, world, i).Aborted?
      requires sizesHold ==> SizesHold(entries, world)
      requires batchBytes + Reserved(entries, start, cursor) <= limits.maxBatchBytes
      modifies this`batch, this`batchBytes, this`acknowledged, this`requests, this`peakBytes
      modifies this`queuedUpserts, this`queuedRemovals, this`unreadable, progress
      ensures Valid() && (outcome.Done? ==> SentFull())
      ensures outcome.Failed? ==> Cause(entries, world, limits, first, outcome.error) && Stopped()
      ensures outcome.Done? ==> Accounted(cursor) && |batch| < limits.maxBatchSources
      ensures |unreadable| >= |old(unreadable)| && outcome != Failed(VaultUnavailable)
    {
      var index := start;
      while index < cursor
        invariant start <= index <= cursor
        invariant Valid() && Accounted(index) && |batch| < limits.maxBatchSources && SentFull()
        invariant sizesHold ==> batchBytes + Reserved(entries, index, cursor) <= limits.maxBatchBytes
        invariant |unreadable| >= |old(unreadable)|
      {
        outcome := SettleEntry(index);
        if outcome.Failed? { return; }
        index := index + 1;
      }
      outcome := Done;
    }

    /** The reads of the window; any interruption abandons the whole window. */
    method SettleWindow(w: nat, start: nat) returns (outcome: Outcome)
      requires Valid() && Accounted(start) && start <= cursor && |batch| < limits.maxBatchSources && SentFull()
      requires sizesHold ==> SizesHold(entries, world)
      requires batchBytes + Reserved(entries, start, cursor) <= limits.maxBatchBytes
      modifies this`batch, this`batchBytes, this`acknowledged, this`requests, this`peakBytes
      modifies this`queuedUpserts, this`queuedRemovals, this`unreadable, progress
      ensures Valid() && (outcome.Done? ==> SentFull())
      ensures outcome.Failed? ==> Cause(entries, world, limits, first, outcome.error) && Stopped()
      ensures outcome.Done? ==> Accounted(cursor) && |batch| < limits.maxBatchSources
      ensures outcome == Failed(VaultUnavailable) ==> !FewUnreadable()
      ensures outcome.Done? ==> world.around.activity(2 * w) == world.around.activity(2 * w + 1) == Running
      ensures outcome.Done? && |unreadable| > |old(unreadable)| ==> FewUnreadable()
      ensures |unreadable| >= |old(unreadable)|
    {
      if i :| start <= i < cursor && EntryFate(entries, world, i).Aborted? {
        return Failed(ReadInterrupted);
      }
      outcome := RequireActive(2 * w);
      if outcome.Failed? { return; }
      var readable := |unreadable|;
      outcome := SettleEntries(start);
      if outcome.Failed? { return; }
      if |unreadable| > readable && SystemicOutage(|unreadable|, attemptedCandidateReads) {
        return Failed(VaultUnavailable);
      }
      outcome := RequireActive(2 * w + 1);
    }

    /** Wherever the loop stopped, the entries before that point are accounted for. */
    ghost predicate Stopped()
      reads this`batch, this`acknowledged, this`queuedUpserts, this`queuedRemovals, this`unreadable
    {
      exists n :: Accounted(n)
    }

    /** Window `w` of the outer loop. */
    method NextWindow(w: nat) returns (outcome: Outcome)
      requires Valid() && Accounted(cursor) && cursor < |entries| && |batch| < limits.maxBatchSources && SentFull()
      requires sizesHold ==> SizesHold(entries, world)
      modifies this, progress
      ensures Valid() && (outcome.Done? ==> SentFull())
      ensures outcome.Failed? ==> Cause(entries, world, limits, first, outcome.error) && Stopped()
      ensures outcome.Done? ==> old(cursor) < cursor && Accounted(cursor) && |batch| < limits.maxBatchSources
      ensures outcome.Done? ==> world.around.activity(2 * w) == world.around.activity(2 * w + 1) == Running
      ensures outcome.Done? && old(FewUnreadable()) ==> FewUnreadable()
      ensures peakReads <= Max(old(peakReads), limits.maxConcurrentReads)
    {
      var start, outstanding := cursor, world.around.outstanding(w);
      outcome := FillWindow(outstanding);
      if outcome.Failed? { return; }
      var candidateReads := Candidates(entries, start, cursor);
      if candidateReads > 0 {
        if outstanding + candidateReads > limits.maxConcurrentReads {
          return Failed(ReadCapacity);
        }
        peakReads := Max(peakReads, outstanding + candidateReads);
      }
      outcome := SettleWindow(w, start);
    }

    /** The last batch may be short. */
    method FlushLast() returns (outcome: Outcome)
      requires Valid() && Accounted(|entries|) && SentFull()
      modifies progress, this`batch, this`batchBytes, this`acknowledged, this`requests
      ensures Valid() && Accounted(|entries|)
      ensures outcome.Done? ==> batch == [] && AllButLastFull() && AllAccepted()
      ensures outcome.Failed? ==> Cause(entries, world, limits, first, outcome.error) && outcome.error != VaultUnavailable
    {
      outcome := Flush(|entries|);
      assert forall b :: 0 <= b < |old(acknowledged)| ==> acknowledged[b] == old(acknowledged)[b];
    }

    /** Of the acknowledged batches only the last may have been sent before it was full. */
    ghost predicate AllButLastFull()
      requires Fits(entries, world)
      reads this`acknowledged
    {
      forall b :: 0 <= b < |acknowledged| - 1 ==> IsFull(acknowledged[b])
    }

    /** Unreadable sources are not so many that the vault itself must be thought unreadable. */
    predicate FewUnreadable()
      reads this`unreadable, this`attemptedCandidateReads
    {
      |unreadable| < 2 || 2 * |unreadable| <= attemptedCandidateReads
    }

    method AddSnapshotSources() returns (outcome: Outcome, windows: nat)
      requires Valid() && Accounted(first) && cursor == first && batch == [] && acknowledged == [] && requests == 0 && peakReads == 0
      requires sizesHold ==> SizesHold(entries, world)
      modifies this, progress
      ensures Valid()
      ensures outcome.Done? ==> cursor == |entries| && batch == [] && Accounted(|entries|)
      ensures outcome.Done? ==> FewUnreadable() && attemptedCandidateReads == Candidates(entries, first, |entries|)
      ensures outcome.Done? ==> AllButLastFull() && AllAccepted() && (windows > 0 <==> first < |entries|)
      ensures outcome.Done? ==> forall k :: 0 <= k < 2 * windows ==> world.around.activity(k) == Running
      ensures outcome.Failed? ==> Cause(entries, world, limits, first, outcome.error) && Stopped()
      ensures peakReads <= limits.maxConcurrentReads
    {
      windows := 0;
      while cursor < |entries|
        invariant Valid() && Accounted(cursor) && |batch| < limits.maxBatchSources && SentFull()
        invariant peakReads <= limits.maxConcurrentReads
        invariant FewUnreadable() && (cursor > first <==> windows > 0)
        invariant forall k :: 0 <= k < 2 * windows ==> world.around.activity(k) == Running
      {
        outcome := NextWindow(windows);
        if outcome.Failed? { return; }
        windows := windows + 1;
      }
      outcome := FlushLast();
    }
  }

  /// ---- what a completed call means ----------------------------------------------------------------------

  predicate HoldsPath(batch: seq<Item>, p: Path) {
    exists k :: 0 <= k < |batch| && batch[k].path == p
  }

  /** Batches whose concatenation has increasing ordinals share no ordinal. */
  lemma {:induction false} OrdinalInOneBatch(batches: seq<seq<Item>>, a: nat, b: nat, x: Item, y: Item)
    requires Increasing(Concat(batches))
    requires a < b < |batches| && x in batches[a] && y in batches[b]
    ensures x.ordinal < y.ordinal
  {
    var n := |batches| - 1;
    var before, all := Concat(batches[..n]), Concat(batches);
    assert all == before + batches[n];
    if b < n {
      assert before == all[..|before|];
      assert Increasing(before);
      OrdinalInOneBatch(batches[..n], a, b, x, y);
    } else {
      assert batches[..n][a] == batches[a];
      BatchesPartition(batches[..n], x);
      var j :| 0 <= j < |before| && before[j] == x;
      var k :| 0 <= k < |batches[n]| && batches[n][k] == y;
      assert all[j] == x && all[|before| + k] == y;
    }
  }

  /** A path is in a batch iff its entry was added. */
  lemma BatchedIffAdded(entries: seq<Entry>, w: World, first: nat, batches: seq<seq<Item>>, i: nat)
    requires Fits(entries, w) && first <= i < |entries| && Ascending(Paths(entries))
    requires Concat(batches) == AddedItems(entries, w, first, |entries|)
    ensures EntryFate(entries, w, i).Added?
            <==> exists b :: 0 <= b < |batches| && HoldsPath(batches[b], entries[i].path)
  {
    AddedItemsExact(entries, w, first, |entries|);
    if EntryFate(entries, w, i).Added? {
      var item := Item(i, entries[i].path, EntryFate(entries, w, i).bytes);
      BatchesPartition(batches, item);
      var b :| 0 <= b < |batches| && item in batches[b];
      assert HoldsPath(batches[b], entries[i].path);
    }
    if b :| 0 <= b < |batches| && HoldsPath(batches[b], entries[i].path) {
      var k :| 0 <= k < |batches[b]| && batches[b][k].path == entries[i].path;
      var item := batches[b][k];
      assert item in batches[b];
      BatchesPartition(batches, item);
      SamePathSameEntry(entries, item.ordinal, i);
    }
  }

  lemma SamePathSameEntry(entries: seq<Entry>, i: nat, j: nat)
    requires i < |entries| && j < |entries| && Ascending(Paths(entries)) && entries[i].path == entries[j].path
    ensures i == j
  {
    PathOrder(entries[i].path, entries[j].path, entries[i].path);
    var paths := Paths(entries);
    assert !Less(paths[i], paths[j]) && !Less(paths[j], paths[i]);
  }

  /**
   Conservation. After a completed call every entry met exactly one end: it is in a batch, and then in only one,
   or it was touched after the cut, queued again, or marked unreadable. The batches run in path order.
   */
  lemma SourcesConserved(entries: seq<Entry>, w: World, first: nat, batches: seq<seq<Item>>,
                         upserts: seq<Path>, removals: seq<Path>, unreadable: seq<Path>, i: nat)
    requires Fits(entries, w) && first <= i < |entries| && Ascending(Paths(entries))
    requires Concat(batches) == AddedItems(entries, w, first, |entries|)
    requires upserts == PathsWith(entries, w, first, |entries|, RequeuedUpsert)
    requires removals == PathsWith(entries, w, first, |entries|, RequeuedRemoval)
    requires unreadable == PathsWith(entries, w, first, |entries|, MarkedUnreadable)
    ensures var p, fate := entries[i].path, EntryFate(entries, w, i);
            && (fate.Added? <==> exists b :: 0 <= b < |batches| && HoldsPath(batches[b], p))
            && (forall a, b :: 0 <= a < b < |batches| ==> !(HoldsPath(batches[a], p) && HoldsPath(batches[b], p)))
            && (p in upserts <==> fate == RequeuedUpsert)
            && (p in removals <==> fate == RequeuedRemoval)
            && (p in unreadable <==> fate == MarkedUnreadable)
    ensures forall a, b, x, y :: 0 <= a < b < |batches| && x in batches[a] && y in batches[b] ==> Less(x.path, y.path)
  {
    var p := entries[i].path;
    BatchedIffAdded(entries, w, first, batches, i);
    InPathOrder(entries, w, first, batches);
    forall a, b | 0 <= a < b < |batches| ensures !(HoldsPath(batches[a], p) && HoldsPath(batches[b], p)) {
      if HoldsPath(batches[a], p) && HoldsPath(batches[b], p) {
        var j :| 0 <= j < |batches[a]| && batches[a][j].path == p;
        var k :| 0 <= k < |batches[b]| && batches[b][k].path == p;
        assert batches[a][j] in batches[a] && batches[b][k] in batches[b];
        PathOrder(p, p, p);
      }
    }
    PathWithFate(entries, w, first, RequeuedUpsert, i);
    PathWithFate(entries, w, first, RequeuedRemoval, i);
    PathWithFate(entries, w, first, MarkedUnreadable, i);
  }

  /** An untouched read that yields a source, or an entry too large to be read. */
  predicate YieldsSource(e: Entry, r: Read) {
    e.inspection.Oversized? || r.OversizedSource? || r.Source?
  }

  /**
   What a completed call does with an entry, by its inspection, its read and whether its path was touched: a stale
   read is queued again, a missing file is queued for removal, an unreadable one is marked, and a source is batched
   with the bytes that were read. Only an unreadable read counts against a touched path.
   */
  lemma SettledExactly(entries: seq<Entry>, w: World, first: nat, batches: seq<seq<Item>>,
                       upserts: seq<Path>, removals: seq<Path>, unreadable: seq<Path>, i: nat)
    requires Fits(entries, w) && first <= i < |entries| && Ascending(Paths(entries))
    requires Concat(batches) == AddedItems(entries, w, first, |entries|)
    requires upserts == PathsWith(entries, w, first, |entries|, RequeuedUpsert)
    requires removals == PathsWith(entries, w, first, |entries|, RequeuedRemoval)
    requires unreadable == PathsWith(entries, w, first, |entries|, MarkedUnreadable)
    ensures
      var p, candidate, read, untouched := entries[i].path, entries[i].inspection.Candidate?, w.settles[i], !w.touched[i];
      && (p in upserts <==> candidate && read == Stale && untouched)
      && (p in removals <==> candidate && read == Missing && untouched)
      && (p in unreadable <==> candidate && read == Unreadable)
      && ((exists b :: 0 <= b < |batches| && HoldsPath(batches[b], p)) <==> untouched && YieldsSource(entries[i], read))
      && (untouched && YieldsSource(entries[i], read) ==>
            exists b :: 0 <= b < |batches| && Item(i, p, if candidate && read.Source? then read.bytes else 0) in batches[b])
  {
    BatchedIffAdded(entries, w, first, batches, i);
    PathWithFate(entries, w, first, RequeuedUpsert, i);
    PathWithFate(entries, w, first, RequeuedRemoval, i);
    PathWithFate(entries, w, first, MarkedUnreadable, i);
    if EntryFate(entries, w, i).Added? {
      AddedIsBatched(entries, w, first, batches, i);
    }
  }

  lemma AddedIsBatched(entries: seq<Entry>, w: World, first: nat, batches: seq<seq<Item>>, i: nat)
    requires Fits(entries, w) && first <= i < |entries| && EntryFate(entries, w, i).Added?
    requires Concat(batches) == AddedItems(entries, w, first, |entries|)
    ensures exists b :: 0 <= b < |batches| && Item(i, entries[i].path, EntryFate(entries, w, i).bytes) in batches[b]
  {
    AddedItemsExact(entries, w, first, |entries|);
    BatchesPartition(batches, Item(i, entries[i].path, EntryFate(entries, w, i).bytes));
  }

  lemma PathWithFate(entries: seq<Entry>, w: World, first: nat, fate: Fate, i: nat)
    requires Fits(entries, w) && first <= i < |entries| && Ascending(Paths(entries))
    ensures entries[i].path in PathsWith(entries, w, first, |entries|, fate) <==> EntryFate(entries, w, i) == fate
  {
    var p := entries[i].path;
    PathsWithExact(entries, w, first, |entries|, fate, p);
    if j :| first <= j < |entries| && entries[j].path == p && EntryFate(entries, w, j) == fate {
      SamePathSameEntry(entries, i, j);
    }
  }

  lemma InPathOrder(entries: seq<Entry>, w: World, first: nat, batches: seq<seq<Item>>)
    requires Fits(entries, w) && first <= |entries| && Ascending(Paths(entries))
    requires Concat(batches) == AddedItems(entries, w, first, |entries|)
    ensures forall a, b, x, y :: 0 <= a < b < |batches| && x in batches[a] && y in batches[b] ==> Less(x.path, y.path)
  {
    AddedItemsExact(entries, w, first, |entries|);
    forall a, b, x, y | 0 <= a < b < |batches| && x in batches[a] && y in batches[b] ensures Less(x.path, y.path) {
      OrdinalInOneBatch(batches, a, b, x, y);
      BatchesPartition(batches, x);
      BatchesPartition(batches, y);
      assert x.path == Paths(entries)[x.ordinal] && y.path == Paths(entries)[y.ordinal];
    }
  }

  /** When every read yields a source and nothing was touched, every entry is added, in order. */
  lemma {:induction false} AllAdded(entries: seq<Entry>, w: World, lo: nat, hi: nat)
    requires Fits(entries, w) && lo <= hi <= |entries|
    requires forall i :: lo <= i < hi ==> EntryFate(entries, w, i).Added?
    ensures var items := AddedItems(entries, w, lo, hi);
            |items| == hi - lo && forall k :: 0 <= k < |items| ==> items[k].ordinal == lo + k && items[k].path == entries[lo + k].path
    decreases hi
  {
    if lo < hi {
      AllAdded(entries, w, lo, hi - 1);
    }
  }

  /// ---- the protocol's batch bounds ------------------------------------------------------------------------

  /** isSourceBatch's bounds: the count, each source, and the running total. */
  predicate IsSourceBatch(batch: seq<Item>) {
    && 1 <= |batch| <= MAX_BATCH_SOURCES
    && forall k :: 0 <= k < |batch| ==> batch[k].bytes <= MAX_SOURCE_BYTES && BytesOf(batch[..k + 1]) <= MAX_BATCH_BYTES
  }

  lemma {:induction false} BytesOfPrefix(batch: seq<Item>, k: nat)
    requires k <= |batch|
    ensures BytesOf(batch[..k]) <= BytesOf(batch)
  {
    if k < |batch| {
      BytesOfPrefix(batch[..|batch| - 1], k);
      assert batch[..|batch| - 1][..k] == batch[..k];
    } else {
      assert batch[..k] == batch;
    }
  }

  /** A batched source is no larger than readSource lets it be. */
  lemma SourceBounded(entries: seq<Entry>, w: World, first: nat, n: nat, batches: seq<seq<Item>>, b: nat, k: nat)
    requires Fits(entries, w) && first <= n <= |entries| && b < |batches| && k < |batches[b]|
    requires forall i :: 0 <= i < |entries| && w.settles[i].Source? ==> w.settles[i].bytes <= MAX_INDEXABLE_SOURCE_BYTES
    requires Concat(batches) <= AddedItems(entries, w, first, n)
    ensures batches[b][k].bytes <= MAX_SOURCE_BYTES
  {
    AddedItemsExact(entries, w, first, n);
    var item := batches[b][k];
    assert item in batches[b];
    BatchesPartition(batches, item);
    var j :| 0 <= j < |Concat(batches)| && Concat(batches)[j] == item;
    assert AddedItems(entries, w, first, n)[j] == item;
  }

  /** With the default limits the Worker's protocol accepts every batch, given readSource's own bound. */
  lemma DefaultBatchesAccepted(entries: seq<Entry>, w: World, first: nat, batches: seq<seq<Item>>, b: nat)
    requires Fits(entries, w) && first <= |entries| && b < |batches|
    requires forall i :: 0 <= i < |entries| && w.settles[i].Source? ==> w.settles[i].bytes <= MAX_INDEXABLE_SOURCE_BYTES
    requires exists n :: first <= n <= |entries| && Concat(batches) <= AddedItems(entries, w, first, n)
    requires BoundedBatch(batches[b], DEFAULT_LIMITS)
    ensures IsSourceBatch(batches[b])
  {
    var batch := batches[b];
    var n :| first <= n <= |entries| && Concat(batches) <= AddedItems(entries, w, first, n);
    forall k | 0 <= k < |batch|
      ensures batch[k].bytes <= MAX_SOURCE_BYTES && BytesOf(batch[..k + 1]) <= MAX_BATCH_BYTES
    {
      BytesOfPrefix(batch, k + 1);
      SourceBounded(entries, w, first, n, batches, b, k);
    }
  }
}
