/**
 The disks of a store one after another, as all windows on the vault leave them, and what an unlocked removal
 of the pointer can take from them.
 */
module StoreTrace {
  import opened Vault
  import opened CacheDisk
  import opened PublishProtocol
  import opened PutSequence

  /** The commit point of a put: a temporary pointer file that parses is renamed into place. */
  ghost predicate Commits(d: Disk, d': Disk) {
    exists suffix, p ::
      Get(d.root.now, PointerTemp(suffix)) == Some(Parsed(p)) && d'.root == Rename(d.root, PointerTemp(suffix), PointerFile)
  }

  ghost predicate Removes(d: Disk, d': Disk) {
    d'.root == Unlink(d.root, PointerFile)
  }

  /** What one call of any operation does in the pointer's directory. */
  ghost predicate StoreStep(d: Disk, d': Disk) {
    || d'.root == d.root
    || d'.root == Sync(d.root)
    || (exists n, f :: d'.root == Set(d.root, n, f) && n != PointerFile)
    || (exists n :: d'.root == Unlink(d.root, n))
    || Commits(d, d')
  }

  /** Call `k` of a trace leads from disk `k - 1` to disk `k`; `locked[k]` says whether it ran under the writer lock. */
  ghost predicate StepAt(trace: seq<Disk>, locked: seq<bool>, k: nat)
    requires 0 < k < |trace| == |locked|
  {
    StoreStep(trace[k - 1], trace[k]) && (Commits(trace[k - 1], trace[k]) ==> locked[k])
  }

  ghost predicate Traced(trace: seq<Disk>, locked: seq<bool>) {
    |locked| == |trace| && forall k :: 0 < k < |trace| ==> StepAt(trace, locked, k)
  }

  lemma TracedGrows(trace: seq<Disk>, locked: seq<bool>, next: Disk, underLock: bool)
    requires Traced(trace, locked) && trace != []
    requires StoreStep(trace[|trace| - 1], next) && (Commits(trace[|trace| - 1], next) ==> underLock)
    ensures Traced(trace + [next], locked + [underLock])
  {
    var trace', locked' := trace + [next], locked + [underLock];
    forall k | 0 < k < |trace'| ensures StepAt(trace', locked', k) {
      if k < |trace| {
        assert StepAt(trace, locked, k);
        assert trace'[k - 1] == trace[k - 1] && trace'[k] == trace[k] && locked'[k] == locked[k];
      }
    }
  }

  /** The calls on the pointer's directory, as steps of a trace. */
  lemma PointerCallsAreSteps(d: Disk, pointer: Pointer, suffix: string, directorySyncs: bool)
    ensures
      var calls := PointerCalls(d, pointer, suffix, directorySyncs);
      && StoreStep(d, calls[0])
      && (forall i :: 0 < i < |calls| ==> StoreStep(calls[i - 1], calls[i]))
      && Commits(calls[1], calls[2])
  {
    var calls := PointerCalls(d, pointer, suffix, directorySyncs);
    assert calls[0].root == Set(d.root, PointerTemp(suffix), Unparsed(""));
    assert calls[1].root == Set(calls[0].root, PointerTemp(suffix), Parsed(pointer));
    assert calls[2].root == Rename(calls[1].root, PointerTemp(suffix), PointerFile);
  }

  ghost predicate CommitsAt(trace: seq<Disk>, k: nat)
    requires 0 < k < |trace|
  {
    Commits(trace[k - 1], trace[k])
  }

  ghost predicate RemovesAt(trace: seq<Disk>, k: nat)
    requires 0 < k < |trace|
  {
    Removes(trace[k - 1], trace[k])
  }

  /** Call `k` commits a pointer that no later call up to `j` removes. */
  ghost predicate StandsUntil(trace: seq<Disk>, k: nat, j: nat)
    requires 0 < k <= j < |trace|
  {
    CommitsAt(trace, k) && forall m :: k < m <= j ==> !RemovesAt(trace, m)
  }

  /** After disk `i` and up to disk `j`, a put commits a pointer that is not removed again. */
  ghost predicate CommitStands(trace: seq<Disk>, i: nat, j: nat)
    requires i <= j < |trace|
  {
    exists k: nat :: i < k <= j && StandsUntil(trace, k, j)
  }

  lemma StepPointer(d: Disk, d': Disk)
    requires StoreStep(d, d')
    ensures Commits(d, d') ==> PointerNow(d').Some?
    ensures Removes(d, d') ==> PointerNow(d').None?
    ensures !Commits(d, d') && !Removes(d, d') ==> PointerText(d'.root.now) == PointerText(d.root.now)
  {
  }

  lemma StandsStep(trace: seq<Disk>, k: nat, j: nat)
    requires 0 < k < j < |trace|
    ensures StandsUntil(trace, k, j) <==> StandsUntil(trace, k, j - 1) && !RemovesAt(trace, j)
  {
  }

  /** Disk `j` in terms of disk `j - 1`. */
  lemma CommitStandsStep(trace: seq<Disk>, i: nat, j: nat)
    requires i < j < |trace| && !CommitsAt(trace, j)
    ensures CommitStands(trace, i, j) <==> CommitStands(trace, i, j - 1) && !RemovesAt(trace, j)
  {
    if CommitStands(trace, i, j) {
      var k: nat :| i < k <= j && StandsUntil(trace, k, j);
      StandsStep(trace, k, j);
    }
    if CommitStands(trace, i, j - 1) && !RemovesAt(trace, j) {
      var last := j - 1;
      var k: nat :| i < k <= last && StandsUntil(trace, k, last);
      StandsStep(trace, k, j);
    }
  }

  /**
   A load of complete generations sees no valid pointer on disk `i` and removes the pointer file after call `j`,
   without the lock. It takes a valid pointer exactly when a put committed one after `i` that was not removed again.
   */
  lemma {:induction false} UnlockedRemovalTakesIff(trace: seq<Disk>, locked: seq<bool>, i: nat, j: nat)
    requires Traced(trace, locked) && i <= j < |trace| && PointerNow(trace[i]).None?
    ensures PointerNow(trace[j]).Some? <==> CommitStands(trace, i, j)
    decreases j
  {
    if i < j {
      UnlockedRemovalTakesIff(trace, locked, i, j - 1);
      assert StepAt(trace, locked, j);
      StepPointer(trace[j - 1], trace[j]);
      if CommitsAt(trace, j) {
        assert StandsUntil(trace, j, j);
      } else {
        CommitStandsStep(trace, i, j);
      }
    }
  }

  /** So the removal is harmless as long as no window holds the writer lock between the two. */
  lemma UnlockedRemovalHarmless(trace: seq<Disk>, locked: seq<bool>, i: nat, j: nat)
    requires Traced(trace, locked) && i <= j < |trace| && PointerNow(trace[i]).None?
    requires forall k :: i < k <= j ==> !locked[k]
    ensures PointerNow(trace[j]).None?
  {
    UnlockedRemovalTakesIff(trace, locked, i, j);
    forall k: nat | i < k <= j ensures !StandsUntil(trace, k, j) {
      assert StepAt(trace, locked, k);
    }
  }

  /**
   A put over a pointer that does not parse, with the removal after call `i` of the put: from the pointer rename on,
   and only from there, the removal turns a hit on the new record into a miss.
   */
  lemma RemovalDuringPutIff(u: Publish, run: PutRun, i: nat)
    requires PointerText(u.start.root.now).Some? && PointerText(u.start.root.now).value.Unparsed?
    requires u.pointer.vault == u.vault && u.pointer.record.byteLength == |u.bytes| && i < |PutCalls(u, run)|
    ensures
      var d := PutCalls(u, run)[i];
      var removed := d.(root := Unlink(d.root, PointerFile));
      && LoadFrom(u.ns, u.vault, u.start.root.now, u.start.images.now) == PointerCorrupt
      && LoadFrom(u.ns, u.vault, d.root.now, d.images.now) ==
         (if i < RenameIndex(run) then PointerCorrupt else Hit(u.pointer.record, u.bytes))
      && LoadFrom(u.ns, u.vault, removed.root.now, removed.images.now) == NoPointer
  {
    PutCommits(u, run, i);
    if i >= RenameIndex(run) {
      PutLoads(u, run, i);
    }
  }
}
