/**
 One namespace of the cache store: its operations as sequences of file-system calls, every disk in between
 recorded in `trace`. Complete generations and initial-build checkpoints run the same calls on their own
 files; they differ in image names, retention and cleanup. Operations that change files hold the writer
 lock, so the traces of several windows follow one another; the one exception is the removal of a complete
 generation's unparsable pointer, and `locked` says of every call whether it held the lock.
 */
module LocalCacheStore {
  import opened Vault
  import opened CacheDisk
  import opened PublishProtocol
  import opened PutSequence
  import opened StoreTrace

  datatype Error = Disposed | InvalidBlob | InvalidIdentity | Locked | WriteFailed

  /**
   What one put meets: whether it obtains the writer lock, its random temporary suffix, whether the syncs of the
   image directory and of the pointer's directory take effect, whether a failed one is ignored as on win32, and
   whether the encoded pointer is within its bound.
   */
  datatype PutEnvironment = PutEnvironment(locks: bool, suffix: string, imageSyncs: bool, directorySyncs: bool,
                                           win32: bool, pointerFits: bool)

  datatype Result<T> = Success(value: T) | Failure(error: Error)

  class LocalCacheStore {
    const ns: Namespace
    const vault: string
    const maxBlobBytes: nat
    var disk: Disk
    var disposed: bool
    ghost var trace: seq<Disk>
    ghost var locked: seq<bool>
    ghost var history: set<Write>

    /** At every disk so far a valid pointer names an existing image, everything stored was put, and commits hold the lock. */
    ghost predicate Valid()
      reads this
    {
      && trace != [] && trace[|trace| - 1] == disk
      && Traced(trace, locked)
      && ValidWrites(history)
      && forall d :: d in trace ==> Sound(ns, history, d)
    }

    constructor (ns: Namespace, vault: string, maxBlobBytes: nat, disk: Disk, ghost history: set<Write>)
      requires Sound(ns, history, disk) && ValidWrites(history)
      ensures Valid() && this.disk == disk && this.history == history && !disposed
      ensures this.ns == ns && this.vault == vault && this.maxBlobBytes == maxBlobBytes
    {
      this.ns, this.vault, this.maxBlobBytes, this.disk, this.disposed := ns, vault, maxBlobBytes, disk, false;
      trace, locked, this.history := [disk], [true], history;
    }

    /** Every call since then held the writer lock. */
    ghost predicate LockedSince(before: seq<bool>)
      reads this`locked
    {
      before <= locked && forall k :: |before| <= k < |locked| ==> locked[k]
    }

    /** One file-system call. */
    method Call(next: Disk, ghost underLock: bool)
      requires Valid() && Sound(ns, history, next)
      requires StoreStep(disk, next) && (Commits(disk, next) ==> underLock)
      modifies this`disk, this`trace, this`locked
      ensures Valid() && disk == next && trace == old(trace) + [next] && locked == old(locked) + [underLock]
    {
      TracedGrows(trace, locked, next, underLock);
      disk := next;
      trace, locked := trace + [next], locked + [underLock];
    }

    predicate Acceptable(write: Write) {
      write.bytes != [] && |write.bytes| <= maxBlobBytes && write.record.byteLength == |write.bytes|
    }

    /** Why a put is refused before it touches a file. */
    function PutRefusal(write: Write, locks: bool): (e: Option<Error>)
      reads this`disposed
      ensures e.None? <==> !disposed && Acceptable(write) && locks
      ensures e == Some(Disposed) <==> disposed
      ensures e == Some(Locked) <==> !disposed && Acceptable(write) && !locks
      ensures e.Some? ==> e.value in {Disposed, InvalidBlob, Locked}
    {
      if disposed then Some(Disposed) else if !Acceptable(write) then Some(InvalidBlob)
      else if !locks then Some(Locked) else None
    }

    /** Why a put stops between its image and its pointer: the required sync failed, or the pointer is too long. */
    function Stop(env: PutEnvironment): (e: Option<Error>)
      ensures e.None? <==> (env.imageSyncs || env.win32) && env.pointerFits
      ensures e == Some(WriteFailed) <==> !env.imageSyncs && !env.win32
      ensures e.Some? && e.value != WriteFailed ==> e.value == if ns == Complete then InvalidIdentity else InvalidBlob
    {
      if !env.imageSyncs && !env.win32 then Some(WriteFailed)
      else if !env.pointerFits then Some(if ns.Complete? then InvalidIdentity else InvalidBlob)
      else None
    }

    /** The image has its name; its temporary file is gone, and no other file is touched. */
    static ghost predicate ImageAdded(before: Disk, key: Key, bytes: seq<int>, suffix: string, after: Disk) {
      && after.root == before.root
      && forall n :: Get(after.images.now, n) ==
                     if n == Image(key) then Some(Whole(bytes))
                     else if n == ImageTemp(key, suffix) then None
                     else Get(before.images.now, n)
    }

    /**
     put: a refused write touches nothing, one that stops leaves its image under its own name and no pointer to it,
     and a successful one goes through exactly the disks of PutCalls.
     */
    method Put(write: Write, env: PutEnvironment) returns (r: Result<Record>, run: PutRun)
      requires Valid()
      modifies this
      ensures Valid()
      ensures disposed == old(disposed) && LockedSince(old(locked))
      ensures r.Success? <==> old(PutRefusal(write, env.locks)).None? && Stop(env).None?
      ensures old(PutRefusal(write, env.locks)).Some? ==>
                && Some(r.error) == old(PutRefusal(write, env.locks))
                && trace == old(trace) && history == old(history) && disk == old(disk)
      ensures old(PutRefusal(write, env.locks)).None? ==> history == old(history) + {write}
      ensures old(PutRefusal(write, env.locks)).None? && Stop(env).Some? ==>
                && Some(r.error) == Stop(env)
                && trace == old(trace)
                            + ImageCalls(old(disk), KeyOf(ns, write.record), write.bytes, env.suffix, env.imageSyncs)
                && ImageAdded(old(disk), KeyOf(ns, write.record), write.bytes, env.suffix, disk)
      ensures r.Success? ==>
                var u := PublishOf(ns, vault, old(disk), write);
                && r.value == write.record
                && run.suffix == env.suffix && run.imageSyncs == env.imageSyncs && run.directorySyncs == env.directorySyncs
                && trace == old(trace) + PutCalls(u, run)
                && Lists(PutSequence.After(old(disk), PublishCalls(u, run)), run)
      ensures r.Success? ==> PutLeaves(ns, vault, old(disk), write, disk)
    {
      run := PutRun(env.suffix, env.imageSyncs, env.directorySyncs, [], []);
      if PutRefusal(write, env.locks).Some? { return Failure(PutRefusal(write, env.locks).value), run; }
      ghost var u := PublishOf(ns, vault, disk, write);
      Admit(write);
      var pointer := NewPointer(vault, write.record, PointerNow(disk));
      PublishBoth(u, pointer, write.bytes, env, run);
      if Stop(env).Some? { return Failure(Stop(env).value), run; }
      run := Finish(u, write, pointer, run);
      assert trace == old(trace) + PutCalls(u, run);
      r := Success(write.record);
    }

    /** Validation has passed: the write is now one the store may hold. */
    ghost method Admit(write: Write)
      requires Valid() && Acceptable(write)
      modifies this`history
      ensures Valid() && history == old(history) + {write}
    {
      history := history + {write};
      forall d | d in trace ensures Sound(ns, history, d) {
        assert Sound(ns, old(history), d);
        SoundGrows(ns, old(history), history, d);
      }
    }

    /** The image, then, unless the put stops there, the pointer. */
    method PublishBoth(ghost u: Publish, pointer: Pointer, bytes: seq<int>, env: PutEnvironment, run: PutRun)
      requires Valid() && u.ns == ns && u.start == disk && pointer == u.pointer && bytes == u.bytes
      requires Write(pointer.record, bytes) in history
      requires run.suffix == env.suffix && run.imageSyncs == env.imageSyncs
      modifies this`disk, this`trace, this`locked
      ensures Valid() && LockedSince(old(locked))
      ensures Stop(env).Some? ==>
                && trace == old(trace) + ImageCalls(old(disk), NewKey(u), bytes, env.suffix, env.imageSyncs)
                && ImageAdded(old(disk), NewKey(u), bytes, env.suffix, disk)
      ensures Stop(env).None? ==>
                && trace == old(trace) + PublishCalls(u, run)
                && disk == PutSequence.After(u.start, PublishCalls(u, run))
                && PointerNow(disk) == Some(pointer)
    {
      CurrentIsSound();
      PublishSound(u, history, run);
      PublishImage(u, KeyOf(ns, pointer.record), bytes, env.suffix, env.imageSyncs);
      if Stop(env).Some? { return; }
      PublishPointer(u, pointer, run.suffix, run.directorySyncs);
      assert trace == old(trace) + PublishCalls(u, run);
    }

    /** Retention after the commit. */
    method Finish(ghost u: Publish, write: Write, pointer: Pointer, started: PutRun) returns (run: PutRun)
      requires Valid() && u == PublishOf(ns, vault, u.start, write) && pointer == u.pointer
      requires disk == PutSequence.After(u.start, PublishCalls(u, started)) && PointerNow(disk) == Some(pointer)
      modifies this`disk, this`trace, this`locked
      ensures Valid() && LockedSince(old(locked))
      ensures run == started.(images := run.images, temps := run.temps) && Lists(old(disk), run)
      ensures PublishCalls(u, run) == PublishCalls(u, started)
      ensures trace == old(trace) + PruneCalls(old(disk), Retained(ns, pointer), run)
      ensures PutLeaves(ns, vault, u.start, write, disk)
    {
      ghost var before := trace;
      run := Prune(pointer, started.suffix, started.imageSyncs, started.directorySyncs);
      FinishedPutLeaves(ns, vault, u.start, write, run);
      assert disk == PutSequence.After(u.start, PutCalls(u, run));
    }

    /** pruneQuietly: keep the lineage of the pointer just committed. */
    method Prune(pointer: Pointer, suffix: string, imageSyncs: bool, directorySyncs: bool) returns (run: PutRun)
      requires Valid() && PointerNow(disk) == Some(pointer)
      modifies this`disk, this`trace, this`locked
      ensures Valid() && LockedSince(old(locked))
      ensures run.suffix == suffix && run.imageSyncs == imageSyncs && run.directorySyncs == directorySyncs
      ensures Lists(old(disk), run) && ListsTemps(old(disk), run)
      ensures trace == old(trace) + PruneCalls(old(disk), Retained(ns, pointer), run)
    {
      ghost var start := disk;
      var images := ReadImages();
      RemoveImages(images, Retained(ns, pointer));
      ghost var pruned := disk;
      PruneImagesKeepRoot(start, images, Retained(ns, pointer));
      var temps := ReadTemps();
      RemoveTemps(temps);
      run := PutRun(suffix, imageSyncs, directorySyncs, images, temps);
      assert trace == old(trace) + (PruneImages(start, images, Retained(ns, pointer)) + PruneTemps(pruned, temps));
    }

    lemma CurrentIsSound()
      requires Valid()
      ensures Sound(ns, history, disk)
    {
      assert trace[|trace| - 1] in trace;
    }

    method PublishImage(ghost u: Publish, key: Key, bytes: seq<int>, suffix: string, imageSyncs: bool)
      requires Valid() && u.ns == ns && u.start == disk && key == NewKey(u) && bytes == u.bytes
      requires Write(u.pointer.record, u.bytes) in history
      modifies this`disk, this`trace, this`locked
      ensures Valid() && LockedSince(old(locked))
      ensures trace == old(trace) + ImageCalls(old(disk), key, bytes, suffix, imageSyncs)
    {
      ImageCallsSound(u, history, suffix, imageSyncs);
      ghost var calls := ImageCalls(disk, key, bytes, suffix, imageSyncs);
      WriteImageDurably(ImageTemp(key, suffix), bytes);
      Call(disk.(images := Rename(disk.images, ImageTemp(key, suffix), Image(key))), true);
      assert trace == old(trace) + calls[..3];
      if imageSyncs {
        Call(disk.(images := Sync(disk.images)), true);
      }
    }

    /** writeFileDurably in the image directory: the file exists, then it is whole. */
    method WriteImageDurably(temp: ImageName, bytes: seq<int>)
      requires Valid()
      requires
        var d := disk.(images := Set(disk.images, temp, Torn));
        Sound(ns, history, d) && Sound(ns, history, d.(images := Set(d.images, temp, Whole(bytes))))
      modifies this`disk, this`trace, this`locked
      ensures Valid() && LockedSince(old(locked))
      ensures
        var d := old(disk).(images := Set(old(disk).images, temp, Torn));
        && disk == d.(images := Set(d.images, temp, Whole(bytes)))
        && trace == old(trace) + [d, disk]
    {
      Call(disk.(images := Set(disk.images, temp, Torn)), true);
      Call(disk.(images := Set(disk.images, temp, Whole(bytes))), true);
    }

    method PublishPointer(ghost u: Publish, pointer: Pointer, suffix: string, directorySyncs: bool)
      requires Valid() && u.ns == ns && pointer == u.pointer
      requires Write(pointer.record, u.bytes) in history && Image(NewKey(u)) in disk.images.now
      modifies this`disk, this`trace, this`locked
      ensures Valid() && LockedSince(old(locked))
      ensures trace == old(trace) + PointerCalls(old(disk), pointer, suffix, directorySyncs)
    {
      PointerCallsSound(u, history, disk, suffix, directorySyncs);
      ghost var calls := PointerCalls(disk, pointer, suffix, directorySyncs);
      PointerCallsAreSteps(disk, pointer, suffix, directorySyncs);
      WritePointerDurably(PointerTemp(suffix), pointer);
      Call(disk.(root := Rename(disk.root, PointerTemp(suffix), PointerFile)), true);
      assert trace == old(trace) + calls[..3];
      if directorySyncs {
        Call(disk.(root := Sync(disk.root)), true);
      }
    }

    /** writeFileDurably in the pointer's directory. */
    method WritePointerDurably(temp: RootName, pointer: Pointer)
      requires Valid() && temp.PointerTemp?
      requires
        var d := disk.(root := Set(disk.root, temp, Unparsed("")));
        Sound(ns, history, d) && Sound(ns, history, d.(root := Set(d.root, temp, Parsed(pointer))))
      modifies this`disk, this`trace, this`locked
      ensures Valid() && LockedSince(old(locked))
      ensures
        var d := old(disk).(root := Set(old(disk).root, temp, Unparsed("")));
        && disk == d.(root := Set(d.root, temp, Parsed(pointer)))
        && trace == old(trace) + [d, disk]
    {
      Call(disk.(root := Set(disk.root, temp, Unparsed(""))), true);
      Call(disk.(root := Set(disk.root, temp, Parsed(pointer))), true);
    }

    /** The retention loop over the image directory. */
    method RemoveImages(entries: seq<ImageName>, retained: set<ImageName>)
      requires Valid()
      requires PointerNow(disk).Some? ==> Image(KeyOf(ns, PointerNow(disk).value.record)) in retained
      modifies this`disk, this`trace, this`locked
      ensures Valid() && LockedSince(old(locked)) && trace == old(trace) + PruneImages(old(disk), entries, retained)
    {
      ghost var start := disk;
      PruneImagesSound(ns, history, disk, entries, retained);
      var i := 0;
      while i < |entries|
        invariant 0 <= i <= |entries|
        invariant Valid() && history == old(history) && LockedSince(old(locked))
        invariant forall d :: d in PruneImages(disk, entries[i..], retained) ==> Sound(ns, history, d)
        invariant trace + PruneImages(disk, entries[i..], retained) == old(trace) + PruneImages(start, entries, retained)
      {
        ghost var rest := entries[i..];
        assert rest[0] == entries[i] && rest[1..] == entries[i + 1..];
        if entries[i] !in retained {
          ghost var d' := disk.(images := Unlink(disk.images, entries[i]));
          assert d' in PruneImages(disk, rest, retained);
          Call(disk.(images := Unlink(disk.images, entries[i])), true);
        }
        i := i + 1;
      }
    }

    /** The loop over leftover temporary pointer files. */
    method RemoveTemps(entries: seq<RootName>)
      requires Valid()
      modifies this`disk, this`trace, this`locked
      ensures Valid() && LockedSince(old(locked)) && trace == old(trace) + PruneTemps(old(disk), entries)
    {
      ghost var start := disk;
      PruneTempsSound(ns, history, disk, entries);
      var i := 0;
      while i < |entries|
        invariant 0 <= i <= |entries|
        invariant Valid() && history == old(history) && LockedSince(old(locked))
        invariant forall d :: d in PruneTemps(disk, entries[i..]) ==> Sound(ns, history, d)
        invariant trace + PruneTemps(disk, entries[i..]) == old(trace) + PruneTemps(start, entries)
      {
        ghost var rest := entries[i..];
        assert rest[0] == entries[i] && rest[1..] == entries[i + 1..];
        if !entries[i].PointerFile? {
          Call(disk.(root := Unlink(disk.root, entries[i])), true);
        }
        i := i + 1;
      }
    }

    /** readdir of the image directory. */
    method ReadImages() returns (entries: seq<ImageName>)
      ensures forall n :: n in disk.images.now <==> n in entries
    {
      entries := [];
      var rest := disk.images.now.Keys;
      while rest != {}
        invariant forall n :: n in disk.images.now <==> n in entries || n in rest
        decreases rest
      {
        var n :| n in rest;
        entries := entries + [n];
        rest := rest - {n};
      }
    }

    /** readdir of the pointer's directory. */
    method ReadTemps() returns (entries: seq<RootName>)
      ensures forall n :: n in disk.root.now <==> n in entries
    {
      entries := [];
      var rest := disk.root.now.Keys;
      while rest != {}
        invariant forall n :: n in disk.root.now <==> n in entries || n in rest
        decreases rest
      {
        var n :| n in rest;
        entries := entries + [n];
        rest := rest - {n};
      }
    }

    /** What a load makes of the disk; a pointer file that cannot be read is a miss of its own. */
    function Outcome(d: Disk, readable: bool): Load {
      if PointerText(d.root.now).Some? && !readable then PointerUnreadable
      else LoadFrom(ns, vault, d.root.now, d.images.now)
    }

    /** What a load leaves when no other window works meanwhile: only a pointer or an image that cannot serve goes. */
    ghost predicate LoadLeaves(before: Disk, l: Load, locks: bool, after: Disk) {
      match l
      case PointerCorrupt =>
        if ns == Complete then after.images == before.images && after.root.now == before.root.now - {PointerFile}
        else if locks then Emptied(before, after) else after == before
      case ImageAbsent => if ns == Checkpoint && locks then Emptied(before, after) else after == before
      case ImageUnreadable => if locks then DamagedGone(before, after) else after == before
      case ImageLengthMismatch => if locks then DamagedGone(before, after) else after == before
      case _ => after == before
    }

    /** The pointer and the image it named are gone, and nothing else is. */
    ghost predicate DamagedGone(before: Disk, after: Disk) {
      && PointerNow(before).Some?
      && after.root.now == before.root.now - {PointerFile}
      && after.images.now == before.images.now - {Image(KeyOf(ns, PointerNow(before).value.record))}
    }

    /**
     load when no other window writes meanwhile, with the cleanup each miss sets off; `readable` says whether the
     pointer file can be read, `locks` whether that cleanup obtains the writer lock. UnlockedLoad is the same load
     among other windows' calls.
     */
    method Load(readable: bool, locks: bool) returns (r: Result<Load>, entries: seq<ImageName>)
      requires Valid()
      modifies this`disk, this`trace, this`locked
      ensures Valid()
      ensures disposed ==> r == Failure(Disposed) && trace == old(trace)
      ensures !disposed ==>
                && r == Success(Outcome(old(disk), readable))
                && trace == old(trace) + CleanupCalls(ns, old(disk), r.value, old(disk), locks, entries)
                && (!(r.value.PointerCorrupt? && ns.Complete?) ==> LockedSince(old(locked)))
      ensures r.Success? ==> LoadLeaves(old(disk), r.value, locks, disk)
      ensures r.Failure? || r.value.PointerUnreadable? ==> trace == old(trace) && disk == old(disk)
    {
      entries := [];
      if disposed { return Failure(Disposed), entries; }
      var l := Outcome(disk, readable);
      r := Success(l);
      if l.PointerCorrupt? && ns.Complete? {
        RemoveUnparsed(|trace| - 1);
      } else if locks {
        entries := Cleanup(disk, l);
      }
    }

    /** The cleanup that takes the writer lock, for what a load made of the pointer it read on disk `seen`. */
    method Cleanup(seen: Disk, l: Load) returns (entries: seq<ImageName>)
      requires Valid() && !(l.PointerCorrupt? && ns.Complete?) && (LosesImage(l) ==> PointerNow(seen).Some?)
      modifies this`disk, this`trace, this`locked
      ensures Valid() && LockedSince(old(locked))
      ensures trace == old(trace) + CleanupCalls(ns, seen, l, old(disk), true, entries)
      ensures seen == old(disk) && l == LoadFrom(ns, vault, seen.root.now, seen.images.now) ==> LoadLeaves(seen, l, true, disk)
    {
      entries := [];
      CurrentIsSound();
      CleanupSound(ns, history, seen, l, disk, true, []);
      match l {
        case ImageUnreadable => Quarantine(KeyOf(ns, PointerNow(seen).value.record));
        case ImageLengthMismatch => Quarantine(KeyOf(ns, PointerNow(seen).value.record));
        case PointerCorrupt => entries := DiscardInvalid(PointerText(seen.root.now));
        case ImageAbsent =>
          if ns.Checkpoint? { entries := DiscardIfCurrent(KeyOf(ns, PointerNow(seen).value.record)); }
        case _ =>
      }
    }

    /**
     The removal by a load of complete generations that saw no valid pointer on disk `seen` of the trace; other
     windows may have worked since. It takes a valid pointer exactly when one of them committed one that still
     stands, and never if none of them held the writer lock.
     */
    method RemoveUnparsed(ghost seen: nat)
      requires Valid() && ns.Complete? && seen < |trace| && PointerNow(trace[seen]).None?
      modifies this`disk, this`trace, this`locked
      ensures Valid() && trace == old(trace) + RemovalCalls(old(disk)) && locked == old(locked) + [false]
      ensures PointerNow(disk).None? && disk == old(disk).(root := Unlink(old(disk).root, PointerFile))
      ensures PointerNow(old(disk)).Some? <==> CommitStands(old(trace), seen, |old(trace)| - 1)
      ensures (forall k :: seen < k < |old(trace)| ==> !old(locked)[k]) ==> PointerNow(old(disk)).None?
    {
      UnlockedRemovalTakesIff(trace, locked, seen, |trace| - 1);
      if forall k :: seen < k < |trace| ==> !locked[k] {
        UnlockedRemovalHarmless(trace, locked, seen, |trace| - 1);
      }
      CurrentIsSound();
      CleanupSound(ns, history, trace[seen], PointerCorrupt, disk, false, []);
      assert RemovalCalls(disk)[0] in RemovalCalls(disk);
      RemovePointer(false);
    }

    method RemovePointer(ghost underLock: bool)
      requires Valid() && Sound(ns, history, disk.(root := Unlink(disk.root, PointerFile)))
      modifies this`disk, this`trace, this`locked
      ensures Valid() && disk == old(disk).(root := Unlink(old(disk).root, PointerFile))
      ensures trace == old(trace) + [disk] && locked == old(locked) + [underLock]
    {
      Call(disk.(root := Unlink(disk.root, PointerFile)), underLock);
    }

    /** quarantine, for the image an earlier unlocked read found damaged. */
    method Quarantine(key: Key)
      requires Valid() && forall x :: x in QuarantineCalls(ns, disk, key) ==> Sound(ns, history, x)
      modifies this`disk, this`trace, this`locked
      ensures Valid() && LockedSince(old(locked)) && trace == old(trace) + QuarantineCalls(ns, old(disk), key)
      ensures PointerNow(old(disk)).Some? && KeyOf(ns, PointerNow(old(disk)).value.record) != key ==> disk == old(disk)
      ensures PointerNow(old(disk)).None? || KeyOf(ns, PointerNow(old(disk)).value.record) == key ==>
                disk.root.now == old(disk).root.now - {PointerFile} && disk.images.now == old(disk).images.now - {Image(key)}
    {
      ghost var calls := QuarantineCalls(ns, disk, key);
      if PointerNow(disk).Some? && KeyOf(ns, PointerNow(disk).value.record) != key { return; }
      assert calls[0] in calls && calls[1] in calls;
      Call(disk.(root := Unlink(disk.root, PointerFile)), true);
      Call(disk.(images := Unlink(disk.images, Image(key))), true);
      assert trace == old(trace) + calls;
    }

    /** Pointer first, then the images. */
    method DiscardAll() returns (entries: seq<ImageName>)
      requires Valid()
      modifies this`disk, this`trace, this`locked
      ensures Valid() && LockedSince(old(locked)) && PointerNow(disk).None?
      ensures trace == old(trace) + DiscardCalls(old(disk), entries) && Emptied(old(disk), disk)
    {
      ghost var start := disk;
      CurrentIsSound();
      DiscardSound(ns, history, disk, []);
      assert DiscardCalls(disk, [])[0] in DiscardCalls(disk, []);
      RemovePointer(true);
      entries := ReadImages();
      ghost var d' := disk;
      PruneImagesKeepRoot(d', entries, {});
      RemoveImages(entries, {});
      assert trace == old(trace) + DiscardCalls(start, entries);
      DiscardLeaves(start, entries);
    }

    /** Why an operation that needs the writer lock does not start. */
    function Refusal(locks: bool): (e: Option<Error>)
      reads this`disposed
      ensures e.None? <==> !disposed && locks
      ensures e == Some(Disposed) <==> disposed
      ensures e.Some? ==> e.value in {Disposed, Locked}
    {
      if disposed then Some(Disposed) else if !locks then Some(Locked) else None
    }

    /** discard: the pointer goes whatever it names. */
    method Discard(locks: bool) returns (r: Result<seq<ImageName>>)
      requires Valid() && ns.Complete?
      modifies this`disk, this`trace, this`locked
      ensures Valid() && LockedSince(old(locked))
      ensures r.Success? <==> !disposed && locks
      ensures r.Failure? ==> Some(r.error) == Refusal(locks) && trace == old(trace)
      ensures r.Success? ==> PointerNow(disk).None? && trace == old(trace) + DiscardCalls(old(disk), r.value)
      ensures if r.Success? then Emptied(old(disk), disk) else disk == old(disk)
    {
      if Refusal(locks).Some? { return Failure(Refusal(locks).value); }
      var entries := DiscardAll();
      r := Success(entries);
    }

    /** The checkpoint pointer parses and names this generation and digest. */
    static predicate Names(d: Disk, token: Key) {
      match PointerText(d.root.now)
      case Some(Parsed(p)) => token == Key(p.record.generation, Some(p.record.sha256))
      case _ => false
    }

    /** discardInitialBuildCheckpoint: only the record the token names. */
    method DiscardCheckpoint(expected: Key, locks: bool) returns (r: Result<seq<ImageName>>)
      requires Valid() && ns.Checkpoint?
      modifies this`disk, this`trace, this`locked
      ensures Valid() && LockedSince(old(locked))
      ensures r.Success? <==> !disposed && locks
      ensures r.Failure? ==> Some(r.error) == Refusal(locks) && trace == old(trace)
      ensures r.Success? ==> trace == old(trace) + DiscardCheckpointCalls(old(disk), expected, r.value)
      ensures if r.Success? && Names(old(disk), expected) then Emptied(old(disk), disk) else disk == old(disk)
    {
      if Refusal(locks).Some? { return Failure(Refusal(locks).value); }
      var entries := DiscardIfCurrent(expected);
      r := Success(entries);
    }

    /** Under the lock: the pointer is read again, and a later record is left alone. */
    method DiscardIfCurrent(expected: Key) returns (entries: seq<ImageName>)
      requires Valid() && ns.Checkpoint?
      modifies this`disk, this`trace, this`locked
      ensures Valid() && LockedSince(old(locked))
      ensures trace == old(trace) + DiscardCheckpointCalls(old(disk), expected, entries)
      ensures if Names(old(disk), expected) then Emptied(old(disk), disk) else disk == old(disk)
    {
      var pointer := PointerNow(disk);
      if pointer.None? || KeyOf(Checkpoint, pointer.value.record) != expected {
        return [];
      }
      entries := DiscardAll();
    }

    /** The pointer file does not parse and, if its text was observed, still has that text. */
    static predicate StillUnparsed(d: Disk, observed: Option<RootFile>) {
      match PointerText(d.root.now)
      case Some(Unparsed(text)) => observed == None || observed == Some(Unparsed(text))
      case _ => false
    }

    /** discardInvalidInitialBuildCheckpointQuietly: only a pointer that is still the one seen and still does not parse. */
    method DiscardInvalid(observed: Option<RootFile>) returns (entries: seq<ImageName>)
      requires Valid() && ns.Checkpoint?
      modifies this`disk, this`trace, this`locked
      ensures Valid() && LockedSince(old(locked))
      ensures trace == old(trace) + DiscardInvalidCalls(old(disk), observed, entries)
      ensures if StillUnparsed(old(disk), observed) then Emptied(old(disk), disk) else disk == old(disk)
    {
      var current := PointerText(disk.root.now);
      if current.None? || (observed.Some? && current != observed) || current.value.Parsed? {
        return [];
      }
      entries := DiscardAll();
    }

    method Dispose()
      requires Valid()
      modifies this`disposed
      ensures Valid() && disposed
    {
      disposed := true;
    }

    /** A load that reads the pointer, the length and the bytes at three points of the trace never mixes two puts. */
    lemma UnlockedLoad(i: nat, j: nat, k: nat)
      requires Valid() && NamesDetermineBytes(ns, history)
      requires i <= j <= k < |trace|
      ensures
        var l := LoadAcross(ns, vault, trace[i].root.now, trace[j].images.now, trace[k].images.now);
        l.Hit? ==> Write(l.record, l.bytes) in history
    {
      assert Sound(ns, history, trace[i]) && Sound(ns, history, trace[j]) && Sound(ns, history, trace[k]);
      LoadNeverMixes(ns, vault, history, trace[i], trace[j], trace[k]);
    }
  }

  lemma SoundGrows(ns: Namespace, history: set<Write>, larger: set<Write>, d: Disk)
    requires Sound(ns, history, d) && history <= larger
    ensures Sound(ns, larger, d)
  {
    forall k, b | Get(d.images.now, Image(k)) == Some(Whole(b))
      ensures exists w :: w in larger && KeyOf(ns, w.record) == k && w.bytes == b
    {
      var w :| w in history && KeyOf(ns, w.record) == k && w.bytes == b;
      assert w in larger;
    }
    if PointerNow(d).Some? {
      var w :| w in history && w.record == PointerNow(d).value.record;
      assert w in larger;
    }
  }
}
