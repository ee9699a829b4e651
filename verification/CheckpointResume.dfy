/**
 A build resumed from a checkpoint. Between two awaits the vault may change in any way, and every change raises
 the mutation epoch in the same turn.
 */
module CheckpointResume {
  import opened Vault
  import opened BuildProgress
  import Batching = SnapshotBatching
  import opened Reconciliation

  /// ---- the goal -----------------------------------------------------------------------------------------

  predicate UpTo(p: Path, last: Option<Path>) {
    last.Some? && AtMost(p, last.value)
  }

  /** What reconcileCheckpointPrefix owes: rows up to the cursor are current, and no row is of a missing path. */
  ghost predicate PrefixReconciled(staged: Rows, vault: Sources, last: Option<Path>) {
    && (forall p :: UpTo(p, last) ==> RowAt(staged, p) == RowAt(IndexOf(vault), p))
    && staged.Keys <= vault.Keys
  }

  /** addSourceBatch stores the row of each source, whether or not there was one. */
  function Upserted(staged: Rows, items: seq<Batching.Item>, vault: Sources): Rows
    requires forall k :: 0 <= k < |items| ==> items[k].path in vault
  {
    if items == [] then staged
    else
      var p := items[|items| - 1].path;
      Upserted(staged, items[..|items| - 1], vault)[p := RowOf(vault[p])]
  }

  lemma {:induction false} UpsertedAt(staged: Rows, items: seq<Batching.Item>, vault: Sources, p: Path)
    requires forall k :: 0 <= k < |items| ==> items[k].path in vault
    ensures RowAt(Upserted(staged, items, vault), p)
            == if Batching.HoldsPath(items, p) then Some(RowOf(vault[p])) else RowAt(staged, p)
  {
    if items != [] {
      var n := |items| - 1;
      UpsertedAt(staged, items[..n], vault, p);
      if k :| 0 <= k < |items| && items[k].path == p {
        if k < n {
          assert items[..n][k].path == p;
        }
      }
    }
  }

  lemma SameRows(a: Rows, b: Rows)
    requires forall p :: RowAt(a, p) == RowAt(b, p)
    ensures a == b
  {
    forall p ensures p in a <==> p in b {
      assert RowAt(a, p) == RowAt(b, p);
    }
    forall p | p in a ensures a[p] == b[p] {
      assert RowAt(a, p) == RowAt(b, p);
    }
  }

  /** The entries of a snapshot of the vault, in comparePaths order. */
  ghost predicate IsSnapshot(entries: seq<Inspection>, vault: Sources) {
    && Ascending(PathsOf(entries))
    && (forall p :: p in vault <==> p in PathsOf(entries))
    && (forall i :: 0 <= i < |entries| ==> entries[i].path in vault && entries[i] == Inspect(entries[i].path, vault[entries[i].path]))
  }

  /**
   Replaying the suffix after a reconciled prefix completes the index: `items` are the suffix's sources, that
   is the entries not yet represented, in order.
   */
  lemma SuffixCompletes(staged: Rows, vault: Sources, entries: seq<Inspection>, last: Path, items: seq<Batching.Item>)
    requires IsSnapshot(entries, vault) && PrefixReconciled(staged, vault, Some(last))
    requires forall k :: 0 <= k < |items| ==> items[k].path in vault
    requires forall i :: PrefixLength(PathsOf(entries), Some(last)) <= i < |entries|
                         ==> Batching.HoldsPath(items, entries[i].path)
    ensures Upserted(staged, items, vault) == IndexOf(vault)
  {
    var paths := PathsOf(entries);
    forall p ensures RowAt(Upserted(staged, items, vault), p) == RowAt(IndexOf(vault), p) {
      UpsertedAt(staged, items, vault, p);
      if p in vault {
        assert p in paths;
        var i :| 0 <= i < |paths| && paths[i] == p;
        PrefixIsUpToCursor(paths, last, i);
        assert entries[i].path == p;
      }
    }
    SameRows(Upserted(staged, items, vault), IndexOf(vault));
  }

  /** The entries a resumed build still has to read. */
  ghost function Suffix(entries: seq<Inspection>, last: Path): set<Path> {
    set i | PrefixLength(PathsOf(entries), Some(last)) <= i < |entries| :: entries[i].path
  }

  /**
   A reconciled prefix leaves only the suffix in doubt: elsewhere the staging is the index. This is what the
   controller's machine asks of the state in which it resumes a build.
   */
  lemma ReconciledExceptSuffix(staged: Rows, vault: Sources, entries: seq<Inspection>, last: Path)
    requires IsSnapshot(entries, vault) && PrefixReconciled(staged, vault, Some(last))
    ensures Suffix(entries, last) <= vault.Keys
    ensures forall p :: p in staged.Keys + vault.Keys && p !in Suffix(entries, last) ==> RowAt(staged, p) == RowAt(IndexOf(vault), p)
  {
    var paths := PathsOf(entries);
    forall p | p in vault && p !in Suffix(entries, last) ensures UpTo(p, Some(last)) {
      assert p in paths;
      var i :| 0 <= i < |paths| && paths[i] == p;
      PrefixIsUpToCursor(paths, last, i);
      assert entries[i].path == p;
    }
  }

  /** A build from scratch adds every entry to an empty staging. */
  lemma FreshBuildCompletes(vault: Sources, entries: seq<Inspection>, items: seq<Batching.Item>)
    requires IsSnapshot(entries, vault)
    requires forall k :: 0 <= k < |items| ==> items[k].path in vault
    requires forall i :: 0 <= i < |entries| ==> Batching.HoldsPath(items, entries[i].path)
    ensures Upserted(map[], items, vault) == IndexOf(vault)
  {
    var paths := PathsOf(entries);
    forall p ensures RowAt(Upserted(map[], items, vault), p) == RowAt(IndexOf(vault), p) {
      UpsertedAt(map[], items, vault, p);
      if p in vault {
        assert p in paths;
        var i :| 0 <= i < |paths| && paths[i] == p;
        assert entries[i].path == p;
      }
    }
    SameRows(Upserted(map[], items, vault), IndexOf(vault));
  }

  /**
   A cursor without a path takes the whole snapshot as represented, so nothing is replayed. What is committed is
   then the index exactly if every file already had its current row.
   */
  lemma NullCursorCommits(staged: Rows, vault: Sources, entries: seq<Inspection>)
    requires IsSnapshot(entries, vault) && PrefixReconciled(staged, vault, None)
    ensures PrefixLength(PathsOf(entries), None) == |entries|
    ensures Upserted(staged, [], vault) == IndexOf(vault) <==> forall p :: p in vault ==> RowAt(staged, p) == Some(RowOf(vault[p]))
  {
    if staged == IndexOf(vault) {
      forall p | p in vault ensures RowAt(staged, p) == Some(RowOf(vault[p])) {
        assert RowAt(staged, p) == RowAt(IndexOf(vault), p);
      }
    }
    if forall p :: p in vault ==> RowAt(staged, p) == Some(RowOf(vault[p])) {
      forall p ensures RowAt(staged, p) == RowAt(IndexOf(vault), p) {
        assert p in staged ==> p in vault;
      }
      SameRows(staged, IndexOf(vault));
    }
  }

  /** Reconciling the prefix and replaying the suffix completes every index. */
  ghost predicate CursorCompletes(last: Option<Path>) {
    forall staged: Rows, vault: Sources, entries: seq<Inspection>, items: seq<Batching.Item> ::
      Resumes(staged, vault, entries, last, items) ==> Upserted(staged, items, vault) == IndexOf(vault)
  }

  /** What the resume has in hand when it commits: a reconciled prefix, and a source for every entry after it. */
  ghost predicate Resumes(staged: Rows, vault: Sources, entries: seq<Inspection>, last: Option<Path>, items: seq<Batching.Item>) {
    && IsSnapshot(entries, vault) && PrefixReconciled(staged, vault, last)
    && (forall k :: 0 <= k < |items| ==> items[k].path in vault)
    && (forall i :: PrefixLength(PathsOf(entries), last) <= i < |entries| ==> Batching.HoldsPath(items, entries[i].path))
  }

  /** So a cursor is a starting point exactly when it names a path. */
  lemma CursorCompletesIff(last: Option<Path>)
    ensures CursorCompletes(last) <==> last.Some?
  {
    if last.Some? {
      forall staged: Rows, vault: Sources, entries: seq<Inspection>, items: seq<Batching.Item>
        | Resumes(staged, vault, entries, last, items)
        ensures Upserted(staged, items, vault) == IndexOf(vault)
      {
        SuffixCompletes(staged, vault, entries, last.value, items);
      }
    } else {
      var p, f := Path([]), SourceFile(Content([]), 0);
      var vault: Sources, entries := map[p := f], [Inspect(p, f)];
      assert PathsOf(entries) == [p];
      NullCursorCommits(map[], vault, entries);
      assert Resumes(map[], vault, entries, None, []);
      assert p in vault && RowAt(map[], p) != Some(RowOf(vault[p]));
    }
  }

  /// ---- one pass, on values ------------------------------------------------------------------------------

  /** An entry the pass had to verify was found current or has a fresh row. */
  predicate Verified(e: Inspection, vault: Sources, refresh: set<Path>, audit: map<Path, Digest>, upserts: Rows) {
    e.path in refresh || e.path in audit ==>
      || e.path in upserts
      || (e.path in audit && e.path in vault && e.indexable && Digest(vault[e.path].content) == audit[e.path])
  }

  predicate FreshRows(upserts: Rows, vault: Sources) {
    forall p :: p in upserts ==> p in vault && upserts[p] == RowOf(vault[p])
  }

  /** A row is due for a planned refresh, or for an audited file that no longer has the stored digest. */
  predicate NeedsRow(p: Path, vault: Sources, refresh: set<Path>, audit: map<Path, Digest>) {
    p in refresh || (p in audit && p in vault && RowOf(vault[p]).body != Digested(audit[p].content))
  }

  predicate OnlyNeeded(upserts: Rows, vault: Sources, refresh: set<Path>, audit: map<Path, Digest>) {
    forall p :: p in upserts ==> NeedsRow(p, vault, refresh, audit)
  }

  /** The plan's audits and refreshes up to the cursor. */
  ghost predicate PrefixOfPlan(plan: Plan, last: Option<Path>, refresh: set<Path>, audit: map<Path, Digest>) {
    && (forall p :: p in refresh <==> p in plan.refresh && UpTo(p, last))
    && (forall p :: p in audit ==> Audit(p, audit[p]) in plan.audit)
    && (forall a :: a in plan.audit && UpTo(a.path, last) ==> a.path in audit)
  }

  predicate Applied(before: Rows, after: Rows, upserts: Rows, removals: set<Path>, p: Path) {
    RowAt(after, p)
    == if p in upserts then Some(upserts[p]) else if p in removals then None else RowAt(before, p)
  }

  /** All a pass has established about the vault before it applies anything. */
  ghost predicate Evidence(vault: Sources, entries: seq<Inspection>, last: Option<Path>, plan: Plan,
                           refresh: set<Path>, audit: map<Path, Digest>, upserts: Rows, removals: set<Path>)
  {
    && PrefixOfPlan(plan, last, refresh, audit) && FreshRows(upserts, vault) && removals !! vault.Keys
    && (forall e :: e in entries && UpTo(e.path, last) ==> Verified(e, vault, refresh, audit, upserts))
    && (forall p :: p in plan.remove && p !in vault ==> p in removals)
    && (forall p :: p in upserts ==> p in plan.remove || NeedsRow(p, vault, refresh, audit))
    && (forall p :: p in removals ==> p in plan.remove)
  }

  /** A pass applies nothing to a row that is current already. */
  lemma OnlyStaleRowsApplied(staged: Rows, vault: Sources, entries: seq<Inspection>, last: Option<Path>, plan: Plan,
                             refresh: set<Path>, audit: map<Path, Digest>, upserts: Rows, removals: set<Path>, p: Path)
    requires IsSnapshot(entries, vault) && PlanFor(plan, staged, entries)
    requires Evidence(vault, entries, last, plan, refresh, audit, upserts, removals)
    requires p in upserts || p in removals
    ensures RowAt(staged, p) != RowAt(IndexOf(vault), p)
  {
    AscendingIsDistinct(PathsOf(entries));
    assert p in plan.remove ==> p in ToSet(plan.remove);
    if p in vault {
      assert p in PathsOf(entries);
      var i :| 0 <= i < |entries| && PathsOf(entries)[i] == p;
      PlannedExactly(plan, staged, entries, entries[i]);
      if p !in refresh {
        assert Audit(p, audit[p]) in plan.audit;
      }
    }
  }

  lemma PassReconciles(staged: Rows, vault: Sources, entries: seq<Inspection>, last: Option<Path>, plan: Plan,
                       refresh: set<Path>, audit: map<Path, Digest>, upserts: Rows, removals: set<Path>, after: Rows)
    requires IsSnapshot(entries, vault) && PlanFor(plan, staged, entries)
    requires Evidence(vault, entries, last, plan, refresh, audit, upserts, removals)
    requires forall p :: Applied(staged, after, upserts, removals, p)
    ensures PrefixReconciled(after, vault, last)
  {
    forall p
      ensures UpTo(p, last) ==> RowAt(after, p) == RowAt(IndexOf(vault), p)
      ensures p in after ==> p in vault
    {
      assert Applied(staged, after, upserts, removals, p);
      if p in vault {
        if UpTo(p, last) && p !in upserts {
          VerifiedRowIsCurrent(staged, vault, entries, last, plan, refresh, audit, upserts, p);
        }
      } else if p in staged {
        assert p !in PathsOf(entries);
        assert p in ToSet(plan.remove);
      }
    }
  }

  lemma VerifiedRowIsCurrent(staged: Rows, vault: Sources, entries: seq<Inspection>, last: Option<Path>, plan: Plan,
                             refresh: set<Path>, audit: map<Path, Digest>, upserts: Rows, p: Path)
    requires IsSnapshot(entries, vault) && PlanFor(plan, staged, entries)
    requires PrefixOfPlan(plan, last, refresh, audit)
    requires forall e :: e in entries && UpTo(e.path, last) ==> Verified(e, vault, refresh, audit, upserts)
    requires p in vault && UpTo(p, last) && p !in upserts
    ensures RowAt(staged, p) == Some(RowOf(vault[p]))
  {
    AscendingIsDistinct(PathsOf(entries));
    assert p in PathsOf(entries);
    var i :| 0 <= i < |entries| && PathsOf(entries)[i] == p;
    var e := entries[i];
    assert e in entries && Verified(e, vault, refresh, audit, upserts);
    var c := Classify(RowAt(staged, p), e);
    assert ClassifiedAs(staged, entries, p, c);
    assert c.Audited? ==> Audit(p, c.contentHash) in plan.audit;
    ClassMeans(staged, p, vault[p]);
    if p in audit {
      assert ClassifiedAs(staged, entries, p, Audited(audit[p]));
      OneClass(staged, entries, p, c, Audited(audit[p]));
    }
  }

  /// ---- the resumed build --------------------------------------------------------------------------------

  datatype Fault = NoFault | ReadFails | ReadStale

  /** What happens during one await: the vault may become another, and the read in flight may fail. */
  datatype Moment = Moment(change: Option<Sources>, fault: Fault)

  predicate Calm(moments: seq<Moment>) {
    forall k :: 0 <= k < |moments| ==> moments[k].fault.NoFault?
  }

  /** How many reads are still to fail. */
  function Failures(moments: seq<Moment>): nat {
    if moments == [] then 0 else Failures(moments[1..]) + if moments[0].fault.ReadFails? then 1 else 0
  }

  /** What a read settles with; an oversized source is not read. */
  datatype Probe = ReadSource(file: SourceFile) | ReadOversized(inspection: Inspection) | ReadAsStale | ReadAsMissing | Unreadable

  /** sourceUpsert: the row a read stores, if it can store one. */
  function UpsertOf(probe: Probe): Option<Row> {
    match probe
    case ReadSource(file) => Some(RowOf(file))
    case ReadOversized(i) => Some(Row(i.size, CanonicalMtimeNanos(i.mtime), Skipped))
    case _ => None
  }

  datatype Verdict = Continue | FallBack

  datatype Outcome = Reconciled(entries: seq<Inspection>) | FellBack | VaultUnavailable | Superseded

  /** The controller's and the Worker's state during the resume, and the schedule of what is still to happen. */
  class InitialBuildResume {
    var vault: Sources
    var mutationEpoch: nat
    var staged: Rows
    var moments: seq<Moment>
    /** The paths of the Worker transactions that changed the staging. */
    var applied: seq<Path>

    constructor (vault: Sources, staged: Rows, moments: seq<Moment>)
      ensures this.vault == vault && this.staged == staged && this.moments == moments && applied == []
    {
      this.vault, this.staged, this.moments, mutationEpoch, applied := vault, staged, moments, 0, [];
    }

    /** Time passed: the epoch tells of every change. */
    twostate predicate Elapsed()
      reads this
    {
      && old(mutationEpoch) <= mutationEpoch
      && (mutationEpoch == old(mutationEpoch) ==> vault == old(vault))
      && |moments| <= |old(moments)|
      && (old(mutationEpoch) < mutationEpoch ==> |moments| < |old(moments)|)
      && (Calm(old(moments)) ==> Calm(moments))
      && Failures(moments) <= Failures(old(moments))
    }

    method Await() returns (fault: Fault)
      modifies this`vault, this`mutationEpoch, this`moments
      ensures Elapsed()
      ensures Calm(old(moments)) ==> fault == NoFault
      ensures fault == ReadFails ==> Failures(moments) < Failures(old(moments))
    {
      if moments == [] {
        return NoFault;
      }
      var now := moments[0];
      moments := moments[1..];
      if now.change.Some? {
        vault := now.change.value;
        mutationEpoch := mutationEpoch + 1;
      }
      fault := now.fault;
    }

    method CaptureSnapshot() returns (entries: seq<Inspection>)
      ensures IsSnapshot(entries, vault)
    {
      var paths := SortedPaths(vault.Keys);
      assert forall p :: p in paths <==> p in ToSet(paths);
      entries := [];
      for i := 0 to |paths|
        invariant |entries| == i
        invariant forall j :: 0 <= j < i ==> paths[j] in vault && entries[j] == Inspect(paths[j], vault[paths[j]])
      {
        assert paths[i] in ToSet(paths);
        entries := entries + [Inspect(paths[i], vault[paths[i]])];
      }
      assert PathsOf(entries) == paths;
    }

    /** probeSnapshotRefresh. A read of a file that no longer matches its inspection is stale. */
    method ProbeSnapshotRefresh(e: Inspection) returns (probe: Probe)
      modifies this`vault, this`mutationEpoch, this`moments
      ensures Elapsed()
      ensures probe.Unreadable? ==> Failures(moments) < Failures(old(moments))
      ensures mutationEpoch == old(mutationEpoch) && e.path in vault && e == Inspect(e.path, vault[e.path]) ==>
                && (UpsertOf(probe).Some? ==> UpsertOf(probe).value == RowOf(vault[e.path]))
                && (probe.ReadSource? ==> e.indexable && probe.file == vault[e.path])
                && (Calm(old(moments)) ==> UpsertOf(probe).Some?)
    {
      var fault := Await();
      if !e.indexable {
        return ReadOversized(e);
      }
      match fault {
        case ReadFails => return Unreadable;
        case ReadStale => return ReadAsStale;
        case NoFault =>
      }
      if e.path !in vault {
        return ReadAsMissing;
      }
      var file := vault[e.path];
      if |file.content.bytes| != e.size || file.mtime != e.mtime {
        return ReadAsStale;
      }
      probe := ReadSource(file);
    }

    /** A read of a prefix entry, given the rows so far: it has the audited digest, gives a row, or ends the resume. */
    method SettleProbe(e: Inspection, probe: Probe, refresh: set<Path>, audit: map<Path, Digest>, known: Rows)
      returns (verdict: Verdict, upserts: Rows)
      requires FreshRows(known, vault) && OnlyNeeded(known, vault, refresh, audit)
      requires e.path in vault && (e.path in refresh || e.path in audit)
      requires UpsertOf(probe).Some? ==> UpsertOf(probe).value == RowOf(vault[e.path])
      requires probe.ReadSource? ==> e.indexable && probe.file == vault[e.path]
      modifies this`vault, this`mutationEpoch, this`moments
      ensures Elapsed()
      ensures verdict.FallBack? ==> UpsertOf(probe).None?
      ensures mutationEpoch == old(mutationEpoch) ==>
                && FreshRows(upserts, vault) && OnlyNeeded(upserts, vault, refresh, audit) && known.Keys <= upserts.Keys
                && (verdict.Continue? ==> Verified(e, vault, refresh, audit, upserts))
    {
      upserts := known;
      var current := e.path in audit && probe.ReadSource? && Digest(probe.file.content) == audit[e.path];
      if e.path in audit && probe.ReadSource? {
        var _ := Await();
      }
      if !current {
        var upsert := UpsertOf(probe);
        if upsert.None? { return FallBack, upserts; }
        upserts := upserts[e.path := upsert.value];
      }
      verdict := Continue;
    }

    /** The first loop of a pass: verify the prefix's refreshed and audited entries. */
    method ProbePrefix(prefix: seq<Inspection>, refresh: set<Path>, audit: map<Path, Digest>)
      returns (verdict: Verdict, upserts: Rows, attempted: nat, unreadable: nat)
      requires forall e :: e in prefix ==> e.path in vault && e == Inspect(e.path, vault[e.path])
      modifies this`vault, this`mutationEpoch, this`moments
      ensures Elapsed() && unreadable + Failures(moments) <= Failures(old(moments))
      ensures mutationEpoch == old(mutationEpoch) ==>
                FreshRows(upserts, vault) && OnlyNeeded(upserts, vault, refresh, audit)
      ensures mutationEpoch == old(mutationEpoch) && verdict.Continue? && unreadable == 0 ==>
                forall e :: e in prefix ==> Verified(e, vault, refresh, audit, upserts)
      ensures Calm(old(moments)) ==> verdict.Continue? && (mutationEpoch == old(mutationEpoch) ==> unreadable == 0)
    {
      var expectedEpoch := mutationEpoch;
      upserts, attempted, unreadable := map[], 0, 0;
      var i := 0;
      while i < |prefix|
        invariant i <= |prefix| && Elapsed() && unreadable + Failures(moments) <= Failures(old(moments))
        invariant mutationEpoch == expectedEpoch ==>
                    FreshRows(upserts, vault) && OnlyNeeded(upserts, vault, refresh, audit)
        invariant mutationEpoch == expectedEpoch && unreadable == 0 ==>
                    forall j :: 0 <= j < i ==> Verified(prefix[j], vault, refresh, audit, upserts)
        invariant Calm(old(moments)) && mutationEpoch == expectedEpoch ==> unreadable == 0
      {
        var e := prefix[i];
        i := i + 1;
        if e.path !in refresh && e.path !in audit { continue; }
        assert e in prefix;
        if e.indexable { attempted := attempted + 1; }
        var probe := ProbeSnapshotRefresh(e);
        if mutationEpoch != expectedEpoch { break; }
        if probe.Unreadable? {
          unreadable := unreadable + 1;
        } else {
          verdict, upserts := SettleProbe(e, probe, refresh, audit, upserts);
          if verdict.FallBack? { return; }
        }
        var _ := Await();
      }
      verdict := Continue;
    }

    /** probePotentialRemoval: the path is inspected again before its row may go. */
    method ProbePotentialRemoval(p: Path) returns (gone: bool, probe: Probe)
      modifies this`vault, this`mutationEpoch, this`moments
      ensures Elapsed()
      ensures probe.Unreadable? ==> Failures(moments) < Failures(old(moments))
      ensures mutationEpoch == old(mutationEpoch) ==>
                && (gone <==> p !in vault) && (gone ==> probe == ReadAsMissing)
                && (!gone && UpsertOf(probe).Some? ==> UpsertOf(probe).value == RowOf(vault[p]))
                && (!gone && Calm(old(moments)) ==> UpsertOf(probe).Some?)
    {
      gone := p !in vault;
      if gone {
        probe := ReadAsMissing;
        var _ := Await();
      } else {
        probe := ProbeSnapshotRefresh(Inspect(p, vault[p]));
      }
    }

    /** The second loop of a pass: confirm the planned removals. */
    method ProbeRemovals(remove: seq<Path>, probed: Rows)
      returns (verdict: Verdict, upserts: Rows, removals: set<Path>, unreadable: nat)
      requires FreshRows(probed, vault)
      modifies this`vault, this`mutationEpoch, this`moments
      ensures Elapsed() && unreadable + Failures(moments) <= Failures(old(moments))
      ensures mutationEpoch == old(mutationEpoch) ==>
                FreshRows(upserts, vault) && probed.Keys <= upserts.Keys && removals !! vault.Keys
      ensures (forall p :: p in upserts ==> p in probed || p in remove) && forall p :: p in removals ==> p in remove
      ensures mutationEpoch == old(mutationEpoch) && verdict.Continue? && unreadable == 0 ==>
                forall p :: p in remove && p !in vault ==> p in removals
      ensures Calm(old(moments)) ==> verdict.Continue? && (mutationEpoch == old(mutationEpoch) ==> unreadable == 0)
    {
      var expectedEpoch := mutationEpoch;
      upserts, removals, unreadable := probed, {}, 0;
      var i := 0;
      while i < |remove|
        invariant i <= |remove| && Elapsed() && unreadable + Failures(moments) <= Failures(old(moments))
        invariant mutationEpoch == expectedEpoch ==>
                    FreshRows(upserts, vault) && probed.Keys <= upserts.Keys && removals !! vault.Keys
        invariant (forall p :: p in upserts ==> p in probed || p in remove) && forall p :: p in removals ==> p in remove
        invariant mutationEpoch == expectedEpoch && unreadable == 0 ==>
                    forall j :: 0 <= j < i && remove[j] !in vault ==> remove[j] in removals
        invariant Calm(old(moments)) && mutationEpoch == expectedEpoch ==> unreadable == 0
      {
        var gone, probe := ProbePotentialRemoval(remove[i]);
        if mutationEpoch != expectedEpoch { break; }
        if probe.Unreadable? {
          unreadable := unreadable + 1;
        } else if gone {
          removals := removals + {remove[i]};
        } else {
          var upsert := UpsertOf(probe);
          if upsert.None? { return FallBack, upserts, removals, unreadable; }
          upserts := upserts[remove[i] := upsert.value];
        }
        i := i + 1;
        var _ := Await();
      }
      verdict := Continue;
    }

    /** The last loop of a pass: one Worker transaction for each path, in path order, until an event supersedes it. */
    method ApplyAll(upserts: Rows, removals: set<Path>)
      requires upserts.Keys !! removals
      modifies this
      ensures Elapsed()
      ensures mutationEpoch == old(mutationEpoch) ==>
                forall p :: Applied(old(staged), staged, upserts, removals, p)
      ensures old(applied) <= applied && Ascending(applied[|old(applied)|..])
      ensures forall p :: p in applied[|old(applied)|..] ==> p in upserts || p in removals
      ensures mutationEpoch == old(mutationEpoch) ==>
                forall p :: p in upserts || p in removals ==> p in applied[|old(applied)|..]
    {
      var expectedEpoch := mutationEpoch;
      var paths := SortedPaths(upserts.Keys + removals);
      assert forall p :: p in paths <==> p in ToSet(paths);
      var i := 0;
      while i < |paths|
        invariant i <= |paths| && Elapsed()
        invariant mutationEpoch == expectedEpoch ==>
                    forall p :: if p in paths[..i] then Applied(old(staged), staged, upserts, removals, p)
                                else RowAt(staged, p) == RowAt(old(staged), p)
        invariant applied == old(applied) + paths[..i]
      {
        if mutationEpoch != expectedEpoch { break; }
        var p := paths[i];
        assert p in ToSet(paths);
        assert paths[..i + 1] == paths[..i] + [p];
        staged := if p in upserts then staged[p := upserts[p]] else staged - {p};
        applied := applied + [p];
        var _ := Await();
        i := i + 1;
      }
      assert paths[..|paths|] == paths;
    }

    /** The plan's part the pass applies before the suffix: its refreshes and audits up to the cursor. */
    method SelectPrefix(plan: Plan, entries: seq<Inspection>, last: Option<Path>)
      returns (prefix: seq<Inspection>, refresh: set<Path>, audit: map<Path, Digest>)
      ensures forall e :: e in prefix <==> e in entries && UpTo(e.path, last)
      ensures PrefixOfPlan(plan, last, refresh, audit)
    {
      prefix := [];
      for i := 0 to |entries|
        invariant forall e :: e in prefix <==> e in entries[..i] && UpTo(e.path, last)
      {
        assert entries[..i + 1] == entries[..i] + [entries[i]];
        if UpTo(entries[i].path, last) { prefix := prefix + [entries[i]]; }
      }
      assert entries[..|entries|] == entries;
      refresh := set p | p in plan.refresh && UpTo(p, last);
      audit := map[];
      for i := 0 to |plan.audit|
        invariant forall p :: p in audit ==> Audit(p, audit[p]) in plan.audit
        invariant forall a :: a in plan.audit[..i] && UpTo(a.path, last) ==> a.path in audit
      {
        var a := plan.audit[i];
        assert plan.audit[..i + 1] == plan.audit[..i] + [a];
        assert a in plan.audit && a == Audit(a.path, a.contentHash);
        if UpTo(a.path, last) { audit := audit[a.path := a.contentHash]; }
      }
      assert plan.audit[..|plan.audit|] == plan.audit;
    }

    /** The probing half of a pass; it changes nothing in the staging. */
    method Verify(entries: seq<Inspection>, plan: Plan, last: Option<Path>)
      returns (outcome: Outcome, upserts: Rows, removals: set<Path>, ghost refresh: set<Path>, ghost audit: map<Path, Digest>)
      requires IsSnapshot(entries, vault)
      modifies this`vault, this`mutationEpoch, this`moments
      ensures Elapsed()
      ensures outcome.Superseded? ==> old(mutationEpoch) < mutationEpoch
      ensures outcome.Reconciled? ==>
                && mutationEpoch == old(mutationEpoch)
                && Evidence(vault, entries, last, plan, refresh, audit, upserts, removals)
      ensures Calm(old(moments)) ==> outcome.Reconciled? || outcome.Superseded?
      ensures outcome.VaultUnavailable? ==> Failures(old(moments)) >= 2
    {
      var expectedEpoch := mutationEpoch;
      var prefix, refreshed, audited := SelectPrefix(plan, entries, last);
      refresh, audit, upserts, removals := refreshed, audited, map[], {};
      var verdict, probed, attempted, unreadable := ProbePrefix(prefix, refreshed, audited);
      if verdict.FallBack? { return FellBack, upserts, removals, refresh, audit; }
      if mutationEpoch != expectedEpoch { return Superseded, upserts, removals, refresh, audit; }
      var unreadableRemovals;
      verdict, upserts, removals, unreadableRemovals := ProbeRemovals(plan.remove, probed);
      if verdict.FallBack? { return FellBack, upserts, removals, refresh, audit; }
      if mutationEpoch != expectedEpoch { return Superseded, upserts, removals, refresh, audit; }
      unreadable, attempted := unreadable + unreadableRemovals, attempted + |plan.remove|;
      if Batching.SystemicOutage(unreadable, attempted) { return VaultUnavailable, upserts, removals, refresh, audit; }
      if unreadable > 0 { return FellBack, upserts, removals, refresh, audit; }
      outcome := Reconciled(entries);
    }

    /** A fresh snapshot and the Worker's plan for it. The completeness check never rejects the planner's plan. */
    method PlanSnapshot() returns (entries: seq<Inspection>, plan: Plan)
      ensures IsSnapshot(entries, vault) && PlanFor(plan, staged, entries)
      ensures AssertComplete(plan, PathsOf(entries))
    {
      entries := CaptureSnapshot();
      AscendingIsDistinct(PathsOf(entries));
      plan := PlanRows(staged, entries);
      PlannedIsAccepted(plan, staged, entries);
    }

    method ApplyVerified(entries: seq<Inspection>, plan: Plan, last: Option<Path>, upserts: Rows, removals: set<Path>,
                         ghost refresh: set<Path>, ghost audit: map<Path, Digest>)
      requires IsSnapshot(entries, vault) && PlanFor(plan, staged, entries)
      requires Evidence(vault, entries, last, plan, refresh, audit, upserts, removals)
      modifies this
      ensures Elapsed()
      ensures mutationEpoch == old(mutationEpoch) ==> PrefixReconciled(staged, vault, last)
      ensures AppliedOnlyStale(old(staged), old(vault), old(applied), applied)
    {
      forall p | p in upserts || p in removals ensures RowAt(staged, p) != RowAt(IndexOf(vault), p) {
        OnlyStaleRowsApplied(staged, vault, entries, last, plan, refresh, audit, upserts, removals, p);
      }
      ApplyAll(upserts, removals);
      if mutationEpoch == old(mutationEpoch) {
        PassReconciles(old(staged), vault, entries, last, plan, refresh, audit, upserts, removals, staged);
      }
    }

    /** The pass once its plan has arrived. */
    method CarryOut(entries: seq<Inspection>, plan: Plan, last: Option<Path>) returns (outcome: Outcome)
      requires IsSnapshot(entries, vault) && PlanFor(plan, staged, entries)
      modifies this
      ensures Elapsed()
      ensures outcome.Superseded? ==> old(mutationEpoch) < mutationEpoch
      ensures outcome.Reconciled? ==>
                outcome.entries == entries && mutationEpoch == old(mutationEpoch) && PrefixReconciled(staged, vault, last)
      ensures AppliedOnlyStale(old(staged), old(vault), old(applied), applied)
      ensures Calm(old(moments)) ==> outcome.Reconciled? || outcome.Superseded?
      ensures outcome.VaultUnavailable? ==> Failures(old(moments)) >= 2
    {
      var expectedEpoch := mutationEpoch;
      var upserts, removals;
      ghost var refresh, audit;
      outcome, upserts, removals, refresh, audit := Verify(entries, plan, last);
      if !outcome.Reconciled? { return; }
      ApplyVerified(entries, plan, last, upserts, removals, refresh, audit);
      outcome := if mutationEpoch != expectedEpoch then Superseded else Reconciled(entries);
    }

    /** The transactions since `before`, each for another path, were for rows that differed from the vault. */
    static ghost predicate AppliedOnlyStale(staged: Rows, vault: Sources, before: seq<Path>, after: seq<Path>) {
      && before <= after && Ascending(after[|before|..])
      && forall p :: p in after[|before|..] ==> RowAt(staged, p) != RowAt(IndexOf(vault), p)
    }

    /** One pass: snapshot, plan, verify, apply. Any event during it supersedes it. */
    method TryPass(last: Option<Path>) returns (outcome: Outcome)
      modifies this
      ensures Elapsed()
      ensures outcome.Superseded? ==> old(mutationEpoch) < mutationEpoch
      ensures outcome.Reconciled? ==> IsSnapshot(outcome.entries, vault) && PrefixReconciled(staged, vault, last)
      ensures outcome.Reconciled? ==> AppliedOnlyStale(old(staged), vault, old(applied), applied)
      ensures Calm(old(moments)) ==> outcome.Reconciled? || outcome.Superseded?
      ensures outcome.VaultUnavailable? ==> Failures(old(moments)) >= 2
    {
      var expectedEpoch := mutationEpoch;
      var entries, plan := PlanSnapshot();
      var _ := Await();
      if mutationEpoch != expectedEpoch { return Superseded; }
      outcome := CarryOut(entries, plan, last);
    }

    /** reconcileCheckpointPrefix: passes until one is not superseded. */
    method ReconcileCheckpointPrefix(last: Option<Path>) returns (outcome: Outcome)
      modifies this
      ensures !outcome.Superseded? && Elapsed()
      ensures outcome.Reconciled? ==> IsSnapshot(outcome.entries, vault) && PrefixReconciled(staged, vault, last)
      ensures Calm(old(moments)) ==> outcome.Reconciled?
      ensures outcome.VaultUnavailable? ==> Failures(old(moments)) >= 2
    {
      while true
        invariant Elapsed()
        decreases |moments|
      {
        outcome := TryPass(last);
        if !outcome.Superseded? { return; }
      }
    }

    /**
     resumeInitialBuildFromCheckpoint with the default limits, when no event follows the final snapshot and its
     sources stay readable. `around` is what the Worker, a shutdown or disposal and earlier reads do meanwhile.
     */
    method ResumeInitialBuild(cursor: Cursor, around: Batching.Surroundings)
      returns (result: Result)
      requires IsCheckpointCursor(cursor) && cursor.lastAcknowledgedPath.Some?
      modifies this
      ensures result.Committed? ==> result.rows == IndexOf(vault)
      ensures Calm(old(moments)) ==> !result.NotReconciled?
      ensures result.BuildStopped? ==> exists k :: Disturbed(around, k)
    {
      var reconciled := ReconcileCheckpointPrefix(cursor.lastAcknowledgedPath);
      if !reconciled.Reconciled? { return NotReconciled; }
      var done, items := AddSuffix(reconciled.entries, cursor, around, vault);
      if !done { return BuildStopped; }
      SuffixCompletes(staged, vault, reconciled.entries, cursor.lastAcknowledgedPath.value, items);
      staged := Upserted(staged, items, vault);
      result := Committed(staged);
    }

    /** buildGeneration, in the same setting: a fresh staging, and every entry through the batching. */
    method BuildGeneration(rebuilding: bool, around: Batching.Surroundings) returns (result: Result)
      modifies this
      ensures result.Committed? ==> result.rows == IndexOf(vault)
      ensures !result.NotReconciled?
      ensures result.BuildStopped? ==> exists k :: Disturbed(around, k)
    {
      staged := map[];
      var _ := Await();
      var entries := CaptureSnapshot();
      var done, items := AddAll(entries, rebuilding, around, vault);
      if !done { return BuildStopped; }
      FreshBuildCompletes(vault, entries, items);
      staged := Upserted(staged, items, vault);
      result := Committed(staged);
    }
  }

  /** The suffix of the snapshot goes through the ordinary batching, resuming the saved progress. */
  method AddSuffix(snapshot: seq<Inspection>, cursor: Cursor, around: Batching.Surroundings,
                   ghost vault: Sources)
    returns (done: bool, items: seq<Batching.Item>)
    requires IsCheckpointCursor(cursor) && cursor.lastAcknowledgedPath.Some? && IsSnapshot(snapshot, vault)
    ensures done ==>
              && (forall k :: 0 <= k < |items| ==> items[k].path in vault)
              && (forall i :: PrefixLength(PathsOf(snapshot), cursor.lastAcknowledgedPath) <= i < |snapshot|
                              ==> Batching.HoldsPath(items, snapshot[i].path))
    ensures done ==> AddsExactly(items, snapshot, PrefixLength(PathsOf(snapshot), cursor.lastAcknowledgedPath))
    ensures !done ==> exists k :: Disturbed(around, k)
  {
    var progress := new InitialBuildProgress.Resumed(PathsOf(snapshot), cursor);
    var first := PrefixLength(PathsOf(snapshot), cursor.lastAcknowledgedPath);
    done, items := AddEntries(snapshot, first, progress, around, vault);
  }

  /** A whole snapshot, with progress to save only when there is no active index yet. */
  method AddAll(snapshot: seq<Inspection>, rebuilding: bool, around: Batching.Surroundings,
                ghost vault: Sources)
    returns (done: bool, items: seq<Batching.Item>)
    requires IsSnapshot(snapshot, vault)
    ensures done ==>
              && (forall k :: 0 <= k < |items| ==> items[k].path in vault)
              && (forall i :: 0 <= i < |snapshot| ==> Batching.HoldsPath(items, snapshot[i].path))
    ensures done ==> AddsExactly(items, snapshot, 0)
    ensures !done ==> exists k :: Disturbed(around, k)
  {
    var progress: InitialBuildProgress? := null;
    if !rebuilding {
      progress := new InitialBuildProgress(PathsOf(snapshot));
      assert progress.represented == seq(|snapshot|, i => i < 0);
    }
    done, items := AddEntries(snapshot, 0, progress, around, vault);
  }

  /** The sources sent are those of the entries from `first` on, each once, in order. */
  predicate AddsExactly(items: seq<Batching.Item>, snapshot: seq<Inspection>, first: nat) {
    && first <= |snapshot| && |items| == |snapshot| - first
    && forall k :: 0 <= k < |items| ==> items[k].path == snapshot[first + k].path && items[k].ordinal == first + k
  }

  method AddEntries(snapshot: seq<Inspection>, first: nat, progress: InitialBuildProgress?,
                    around: Batching.Surroundings, ghost vault: Sources)
    returns (done: bool, items: seq<Batching.Item>)
    requires IsSnapshot(snapshot, vault) && first <= |snapshot|
    requires progress != null ==>
               progress.Valid() && progress.paths == PathsOf(snapshot) && progress.represented == seq(|snapshot|, i => i < first)
    modifies progress
    ensures done ==>
              && (forall k :: 0 <= k < |items| ==> items[k].path in vault)
              && (forall i :: first <= i < |snapshot| ==> Batching.HoldsPath(items, snapshot[i].path))
    ensures done ==> AddsExactly(items, snapshot, first)
    ensures !done ==> exists k :: Disturbed(around, k)
  {
    var entries := ToRead(snapshot);
    var world := QuietWorld(snapshot, around);
    assert Batching.Paths(entries) == PathsOf(snapshot);
    assert progress != null ==> progress.represented == seq(|entries|, i => i < first);
    var batcher := new Batching.SnapshotBatcher(Batching.DEFAULT_LIMITS, entries, world, first, progress);
    QuietReadsAdd(snapshot, world);
    var outcome, _ := batcher.AddSnapshotSources();
    items := Batching.Concat(batcher.acknowledged);
    if outcome.Failed? {
      QuietCause(snapshot, world, first, outcome.error);
      return false, items;
    }
    assert items + [] == items;
    SuffixItems(snapshot, world, first, items, vault);
    done := true;
  }

  predicate Disturbed(around: Batching.Surroundings, k: nat) {
    || !around.accepts(k) || around.stops(k) || around.activity(k) != Batching.Running
    || around.outstanding(k) >= Batching.DEFAULT_LIMITS.maxConcurrentReads
  }

  datatype Result = Committed(rows: Rows) | NotReconciled | BuildStopped

  function EntryOf(i: Inspection): Batching.Entry {
    Batching.Entry(i.path, if i.indexable then Batching.Candidate(i.size) else Batching.Oversized)
  }

  /** The snapshot entries as the batching loop sees them. */
  function ToRead(snapshot: seq<Inspection>): (entries: seq<Batching.Entry>)
    ensures |entries| == |snapshot|
    ensures forall i :: 0 <= i < |snapshot| ==> entries[i] == EntryOf(snapshot[i])
  {
    seq(|snapshot|, i requires 0 <= i < |snapshot| => EntryOf(snapshot[i]))
  }

  /** Every read returns the inspected bytes, and nothing is touched after the cut. */
  function QuietWorld(snapshot: seq<Inspection>, around: Batching.Surroundings): (w: Batching.World)
    ensures w.around == around
    ensures |w.settles| == |w.touched| == |snapshot|
    ensures forall i :: 0 <= i < |snapshot| ==> w.settles[i] == Batching.Source(snapshot[i].size) && !w.touched[i]
  {
    Batching.World(seq(|snapshot|, i requires 0 <= i < |snapshot| => Batching.Source(snapshot[i].size)),
                   seq(|snapshot|, i => false), around)
  }

  ghost predicate IsQuiet(snapshot: seq<Inspection>, w: Batching.World) {
    && |w.settles| == |w.touched| == |snapshot|
    && forall i :: 0 <= i < |snapshot| ==> w.settles[i] == Batching.Source(snapshot[i].size) && !w.touched[i]
  }

  lemma QuietReadsAdd(snapshot: seq<Inspection>, w: Batching.World)
    requires IsQuiet(snapshot, w)
    ensures Batching.SizesHold(ToRead(snapshot), w)
    ensures forall i :: 0 <= i < |snapshot| ==>
              Batching.EntryFate(ToRead(snapshot), w, i) == Batching.Added(if snapshot[i].indexable then snapshot[i].size else 0)
  {
  }

  lemma {:induction false} NoneUnreadable(snapshot: seq<Inspection>, w: Batching.World, lo: nat, hi: nat)
    requires IsQuiet(snapshot, w) && lo <= hi <= |snapshot|
    ensures Batching.PathsWith(ToRead(snapshot), w, lo, hi, Batching.MarkedUnreadable) == []
    decreases hi
  {
    if lo < hi {
      QuietReadsAdd(snapshot, w);
      NoneUnreadable(snapshot, w, lo, hi - 1);
    }
  }

  /** Under quiet reads and the default limits only the Worker, a shutdown or disposal, or stuck reads stop the batching. */
  lemma QuietCause(snapshot: seq<Inspection>, w: Batching.World, first: nat, error: Batching.Error)
    requires IsQuiet(snapshot, w) && first <= |snapshot|
    requires forall i :: 0 <= i < |snapshot| && snapshot[i].indexable ==> snapshot[i].size <= MAX_INDEXABLE_SOURCE_BYTES
    requires Batching.Cause(ToRead(snapshot), w, Batching.DEFAULT_LIMITS, first, error)
    ensures exists k :: Disturbed(w.around, k)
  {
    QuietReadsAdd(snapshot, w);
    match error
    case VaultUnavailable =>
      forall n | first <= n <= |snapshot| ensures Batching.PathsWith(ToRead(snapshot), w, first, n, Batching.MarkedUnreadable) == [] {
        NoneUnreadable(snapshot, w, first, n);
      }
    case ReadCapacity =>
      var k :| w.around.outstanding(k) >= Batching.DEFAULT_LIMITS.maxConcurrentReads;
      assert Disturbed(w.around, k);
    case SourceExceedsBatchLimit =>
    case ReadInterrupted =>
    case ControllerDisposed =>
      var k :| w.around.activity(k) == Batching.Gone;
      assert Disturbed(w.around, k);
    case _ =>
      var k :| Batching.FlushFails(w, k, error) || (error == Batching.ShutdownRequested && w.around.activity(k) == Batching.Stopping);
      assert Disturbed(w.around, k);
  }

  lemma SuffixItems(snapshot: seq<Inspection>, w: Batching.World, first: nat, items: seq<Batching.Item>, vault: Sources)
    requires IsQuiet(snapshot, w) && IsSnapshot(snapshot, vault) && first <= |snapshot|
    requires items == Batching.AddedItems(ToRead(snapshot), w, first, |snapshot|)
    ensures forall k :: 0 <= k < |items| ==> items[k].path in vault
    ensures forall i :: first <= i < |snapshot| ==> Batching.HoldsPath(items, snapshot[i].path)
    ensures AddsExactly(items, snapshot, first)
  {
    QuietReadsAdd(snapshot, w);
    Batching.AllAdded(ToRead(snapshot), w, first, |snapshot|);
    forall i | first <= i < |snapshot| ensures Batching.HoldsPath(items, snapshot[i].path) {
      assert items[i - first].path == snapshot[i].path;
    }
  }
}
