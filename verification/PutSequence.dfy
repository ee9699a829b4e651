/** The disks a put goes through, one per file-system call, and what holds at every one of them. */
module PutSequence {
  import opened Vault
  import opened CacheDisk
  import opened PublishProtocol

  /** The disk after a sequence of calls. */
  function After(d: Disk, calls: seq<Disk>): Disk {
    if calls == [] then d else calls[|calls| - 1]
  }

  /**
   Image to a temporary file, made durable, renamed, and the rename made durable where directories sync: on
   win32 a directory cannot be opened and the put goes on without the sync.
   */
  function ImageCalls(d: Disk, key: Key, bytes: seq<int>, suffix: string, imageSyncs: bool): seq<Disk> {
    var d1 := d.(images := Set(d.images, ImageTemp(key, suffix), Torn));
    var d2 := d1.(images := Set(d1.images, ImageTemp(key, suffix), Whole(bytes)));
    var d3 := d2.(images := Rename(d2.images, ImageTemp(key, suffix), Image(key)));
    [d1, d2, d3] + if imageSyncs then [d3.(images := Sync(d3.images))] else []
  }

  /** Pointer to a temporary file, made durable, renamed, and the rename made durable where directories sync. */
  function PointerCalls(d: Disk, pointer: Pointer, suffix: string, directorySyncs: bool): seq<Disk> {
    var d1 := d.(root := Set(d.root, PointerTemp(suffix), Unparsed("")));
    var d2 := d1.(root := Set(d1.root, PointerTemp(suffix), Parsed(pointer)));
    var d3 := d2.(root := Rename(d2.root, PointerTemp(suffix), PointerFile));
    [d1, d2, d3] + if directorySyncs then [d3.(root := Sync(d3.root))] else []
  }

  /** Unlinks, in readdir order, of the entries that are not retained. */
  function PruneImages(d: Disk, entries: seq<ImageName>, retained: set<ImageName>): seq<Disk>
    decreases |entries|
  {
    if entries == [] then []
    else if entries[0] in retained then PruneImages(d, entries[1..], retained)
    else
      var d' := d.(images := Unlink(d.images, entries[0]));
      [d'] + PruneImages(d', entries[1..], retained)
  }

  function PruneTemps(d: Disk, entries: seq<RootName>): seq<Disk>
    decreases |entries|
  {
    if entries == [] then []
    else if entries[0].PointerFile? then PruneTemps(d, entries[1..])
    else
      var d' := d.(root := Unlink(d.root, entries[0]));
      [d'] + PruneTemps(d', entries[1..])
  }

  /** The images a prune keeps: for complete generations the current and the previous, else the current one. */
  function Retained(ns: Namespace, pointer: Pointer): set<ImageName> {
    var current := Image(KeyOf(ns, pointer.record));
    if ns.Complete? && pointer.previous.Some? then {current, Image(Key(pointer.previous.value, None))} else {current}
  }

  /** The pointer a put writes over the one it finds. */
  function NewPointer(vault: string, record: Record, found: Option<Pointer>): Pointer {
    Pointer(record,
            if found.Some? && found.value.record.generation != record.generation
            then Some(found.value.record.generation) else None,
            vault)
  }

  function PublishOf(ns: Namespace, vault: string, d: Disk, w: Write): Publish {
    Publish(ns, vault, d, NewPointer(vault, w.record, PointerNow(d)), w.bytes)
  }

  /**
   What one put meets: its random suffix, whether the image directory's sync and the optional sync of the
   pointer's directory take effect, and the two listings its retention reads.
   */
  datatype PutRun = PutRun(suffix: string, imageSyncs: bool, directorySyncs: bool, images: seq<ImageName>, temps: seq<RootName>)

  function PublishCalls(u: Publish, run: PutRun): seq<Disk> {
    var image := ImageCalls(u.start, NewKey(u), u.bytes, run.suffix, run.imageSyncs);
    image + PointerCalls(After(u.start, image), u.pointer, run.suffix, run.directorySyncs)
  }

  function PruneCalls(d: Disk, retained: set<ImageName>, run: PutRun): seq<Disk> {
    var images := PruneImages(d, run.images, retained);
    images + PruneTemps(After(d, images), run.temps)
  }

  function PutCalls(u: Publish, run: PutRun): seq<Disk> {
    var publish := PublishCalls(u, run);
    publish + PruneCalls(After(u.start, publish), Retained(u.ns, u.pointer), run)
  }

  /** The call that renames the pointer into place: the commit point of the put. */
  function RenameIndex(run: PutRun): nat {
    if run.imageSyncs then 6 else 5
  }

  /** The disk on which the pointer is written: every call on the image is done. */
  function Imaged(u: Publish, run: PutRun): Disk {
    After(u.start, ImageCalls(u.start, NewKey(u), u.bytes, run.suffix, run.imageSyncs))
  }

  lemma PublishedIsAfterPointer(u: Publish, run: PutRun)
    ensures
      var calls := PointerCalls(Imaged(u, run), u.pointer, run.suffix, run.directorySyncs);
      && After(u.start, PublishCalls(u, run)) == After(Imaged(u, run), calls)
      && (forall i :: 0 <= i < |calls| ==> PublishCalls(u, run)[RenameIndex(run) - 2 + i] == calls[i])
      && |PublishCalls(u, run)| == RenameIndex(run) - 2 + |calls|
  {
  }

  /// ---- the commit point --------------------------------------------------------------------------

  lemma {:induction false} PruneImagesKeepRoot(d: Disk, entries: seq<ImageName>, retained: set<ImageName>)
    ensures forall x :: x in PruneImages(d, entries, retained) ==> x.root == d.root
    ensures After(d, PruneImages(d, entries, retained)).root == d.root
    decreases |entries|
  {
    if entries != [] {
      PruneImagesKeepRoot(if entries[0] in retained then d else d.(images := Unlink(d.images, entries[0])), entries[1..], retained);
    }
  }

  lemma AfterFirst(d: Disk, first: Disk, rest: seq<Disk>)
    ensures After(d, [first] + rest) == After(first, rest)
  {
  }

  /** Pruning removes every listed image that is not retained, and nothing else. */
  lemma {:induction false} PruneImagesLeave(d: Disk, entries: seq<ImageName>, retained: set<ImageName>)
    ensures forall n :: Get(After(d, PruneImages(d, entries, retained)).images.now, n) ==
                        if n in entries && n !in retained then None else Get(d.images.now, n)
    decreases |entries|
  {
    if entries != [] {
      var e, rest := entries[0], entries[1..];
      assert entries == [e] + rest;
      var d' := d.(images := Unlink(d.images, e));
      AfterFirst(d, d', PruneImages(d', rest, retained));
      PruneImagesLeave(if e in retained then d else d', rest, retained);
    }
  }

  /** Pruning removes every listed temporary pointer file, and nothing else. */
  lemma {:induction false} PruneTempsLeave(d: Disk, entries: seq<RootName>)
    ensures forall n :: Get(After(d, PruneTemps(d, entries)).root.now, n) ==
                        if n in entries && n != PointerFile then None else Get(d.root.now, n)
    decreases |entries|
  {
    if entries != [] {
      var e, rest := entries[0], entries[1..];
      assert entries == [e] + rest;
      var d' := d.(root := Unlink(d.root, e));
      AfterFirst(d, d', PruneTemps(d', rest));
      PruneTempsLeave(if e.PointerFile? then d else d', rest);
    }
  }

  lemma {:induction false} PruneTempsKeep(d: Disk, entries: seq<RootName>)
    ensures forall x :: x in PruneTemps(d, entries) ==> PointerText(x.root.now) == PointerText(d.root.now) && x.images == d.images
    ensures
      var x := After(d, PruneTemps(d, entries));
      PointerText(x.root.now) == PointerText(d.root.now) && x.images == d.images
    decreases |entries|
  {
    if entries != [] {
      PruneTempsKeep(if entries[0].PointerFile? then d else d.(root := Unlink(d.root, entries[0])), entries[1..]);
    }
  }

  lemma PublishCommits(u: Publish, run: PutRun, i: nat)
    requires i < |PublishCalls(u, run)|
    ensures PointerText(PublishCalls(u, run)[i].root.now) ==
            if i < RenameIndex(run) then PointerText(u.start.root.now) else Some(Parsed(u.pointer))
  {
    PublishedIsAfterPointer(u, run);
  }

  /** One call of a put replaces the pointer: before it the old pointer stands, from it on the new one does. */
  lemma PutCommits(u: Publish, run: PutRun, i: nat)
    requires i < |PutCalls(u, run)|
    ensures PointerText(PutCalls(u, run)[i].root.now) ==
            if i < RenameIndex(run) then PointerText(u.start.root.now) else Some(Parsed(u.pointer))
  {
    var publish := PublishCalls(u, run);
    if i < |publish| {
      PublishCommits(u, run, i);
    } else {
      PublishCommits(u, run, |publish| - 1);
      var d := After(u.start, publish);
      var retained := Retained(u.ns, u.pointer);
      PruneImagesKeepRoot(d, run.images, retained);
      PruneTempsKeep(After(d, PruneImages(d, run.images, retained)), run.temps);
      assert PutCalls(u, run)[i] in PruneCalls(d, retained, run);
    }
  }

  /// ---- a crash anywhere loads the old or the new record ------------------------------------------

  lemma ImageCallsBefore(u: Publish, suffix: string, imageSyncs: bool)
    requires Settled(u)
    ensures forall d :: d in ImageCalls(u.start, NewKey(u), u.bytes, suffix, imageSyncs) ==> Before(u, d)
  {
    SettledStartsBefore(u);
    var calls := ImageCalls(u.start, NewKey(u), u.bytes, suffix, imageSyncs);
    ImageCallKeeps(u, u.start, calls[0].images.now);
    ImageCallKeeps(u, calls[0], calls[1].images.now);
    ImageCallKeeps(u, calls[1], calls[2].images.now);
    SyncImagesKeeps(u, calls[2]);
  }

  /** At the new image's name a crash leaves an earlier value or the whole new image; after the sync, only that. */
  lemma NewNameMayHold(u: Publish, run: PutRun, v: Option<ImageFile>)
    ensures MayHold(Imaged(u, run).images, Image(NewKey(u)), v) <==>
            v == Some(Whole(u.bytes)) || (!run.imageSyncs && MayHold(u.start.images, Image(NewKey(u)), v))
  {
    var calls := ImageCalls(u.start, NewKey(u), u.bytes, run.suffix, run.imageSyncs);
    var name := Image(NewKey(u));
    MayHoldAfter(u.start.images, calls[0].images.now, name, v);
    MayHoldAfter(calls[0].images, calls[1].images.now, name, v);
    MayHoldAfter(calls[1].images, calls[2].images.now, name, v);
  }

  lemma ImagedHarmlessIff(u: Publish, run: PutRun)
    requires u.pointer.vault == u.vault && u.pointer.record.byteLength == |u.bytes|
    ensures NewImageHarmless(u, Imaged(u, run)) <==> run.imageSyncs || NewImageHarmless(u, u.start)
  {
    NewBytesServe(u);
    forall v ensures MayHold(Imaged(u, run).images, Image(NewKey(u)), v) <==>
                     v == Some(Whole(u.bytes)) || (!run.imageSyncs && MayHold(u.start.images, Image(NewKey(u)), v)) {
      NewNameMayHold(u, run, v);
    }
  }

  lemma ImagedBefore(u: Publish, run: PutRun)
    requires Settled(u)
    ensures Before(u, Imaged(u, run))
  {
    var calls := ImageCalls(u.start, NewKey(u), u.bytes, run.suffix, run.imageSyncs);
    ImageCallsBefore(u, run.suffix, run.imageSyncs);
    assert calls[|calls| - 1] in calls;
  }

  /** The calls on the pointer: its temporary file, the rename, and the sync if it takes effect. */
  lemma PointerStages(u: Publish, d: Disk, suffix: string, directorySyncs: bool)
    requires Before(u, d)
    ensures
      var calls := PointerCalls(d, u.pointer, suffix, directorySyncs);
      && Before(u, calls[0]) && Before(u, calls[1]) && Past(u, d, calls[2], false, false)
      && (directorySyncs ==> Past(u, d, calls[3], true, false))
  {
    var calls := PointerCalls(d, u.pointer, suffix, directorySyncs);
    RootCallKeeps(u, d, d, calls[0].root.now, false, false);
    RootCallKeeps(u, d, calls[0], calls[1].root.now, false, false);
    RenameExposes(u, calls[1], calls[2].root.now);
    assert Past(u, d, calls[2], false, false);
    if directorySyncs {
      SyncRootSettles(u, d, calls[2]);
    }
  }

  /** The entries a prune unlinks, in the order of the listing. */
  function Unlinks(entries: seq<ImageName>, retained: set<ImageName>): seq<ImageName> {
    if entries == [] then []
    else if entries[0] in retained then Unlinks(entries[1..], retained)
    else [entries[0]] + Unlinks(entries[1..], retained)
  }

  /** The image of the pointer being replaced is among these. */
  predicate TakesOld(u: Publish, names: seq<ImageName>) {
    StartKey(u).Some? && Image(StartKey(u).value) in names
  }

  lemma {:induction false} PruneImagesStages(u: Publish, image: Disk, d: Disk, entries: seq<ImageName>,
                                             retained: set<ImageName>, synced: bool, lost: bool, n: nat)
    requires Past(u, image, d, synced, lost) && Image(NewKey(u)) in retained
    requires n <= |Unlinks(entries, retained)|
    ensures |PruneImages(d, entries, retained)| == |Unlinks(entries, retained)|
    ensures Past(u, image, After(d, PruneImages(d, entries, retained)[..n]), synced, lost || TakesOld(u, Unlinks(entries, retained)[..n]))
    decreases |entries|
  {
    if entries == [] {
    } else if entries[0] in retained {
      PruneImagesStages(u, image, d, entries[1..], retained, synced, lost, n);
    } else {
      var e, d' := entries[0], d.(images := Unlink(d.images, entries[0]));
      UnlinkPast(u, image, d, e, synced, lost);
      var lost' := lost || TakesOld(u, [e]);
      var k := if n == 0 then 0 else n - 1;
      PruneImagesStages(u, image, d', entries[1..], retained, synced, lost', k);
      if n > 0 {
        var calls, rest := PruneImages(d, entries, retained), PruneImages(d', entries[1..], retained);
        assert calls[..n] == [d'] + rest[..k];
        assert Unlinks(entries, retained)[..n] == [e] + Unlinks(entries[1..], retained)[..k];
      }
    }
  }

  lemma {:induction false} PruneTempsStages(u: Publish, image: Disk, d: Disk, entries: seq<RootName>, synced: bool, lost: bool)
    requires Past(u, image, d, synced, lost)
    ensures forall x :: x in PruneTemps(d, entries) ==> Past(u, image, x, synced, lost)
    decreases |entries|
  {
    if entries != [] {
      if entries[0].PointerFile? {
        PruneTempsStages(u, image, d, entries[1..], synced, lost);
      } else {
        var d' := d.(root := Unlink(d.root, entries[0]));
        RootCallKeeps(u, image, d, d'.root.now, synced, lost);
        PruneTempsStages(u, image, d', entries[1..], synced, lost);
      }
    }
  }

  /** The image of the pointer being replaced is unlinked by call `i` of the put or an earlier one. */
  predicate OldTaken(u: Publish, run: PutRun, i: nat) {
    var first, unlinks := |PublishCalls(u, run)|, Unlinks(run.images, Retained(u.ns, u.pointer));
    i >= first && TakesOld(u, unlinks[..if i - first < |unlinks| then i - first + 1 else |unlinks|])
  }

  lemma PublishStages(u: Publish, run: PutRun, i: nat)
    requires Settled(u) && i < |PublishCalls(u, run)|
    ensures i < RenameIndex(run) ==> Before(u, PublishCalls(u, run)[i])
    ensures i >= RenameIndex(run) ==> Past(u, Imaged(u, run), PublishCalls(u, run)[i], i > RenameIndex(run), false)
    ensures i > RenameIndex(run) ==> run.directorySyncs
  {
    PublishedIsAfterPointer(u, run);
    ImagedBefore(u, run);
    if i < RenameIndex(run) - 2 {
      ImageCallsBefore(u, run.suffix, run.imageSyncs);
      assert PublishCalls(u, run)[i] in ImageCalls(u.start, NewKey(u), u.bytes, run.suffix, run.imageSyncs);
    } else {
      PointerStages(u, Imaged(u, run), run.suffix, run.directorySyncs);
    }
  }

  /** Every call of a put in either namespace, before and past its commit point. */
  lemma PutStages(u: Publish, run: PutRun, i: nat)
    requires Settled(u) && i < |PutCalls(u, run)|
    ensures i < RenameIndex(run) ==> Before(u, PutCalls(u, run)[i])
    ensures i >= RenameIndex(run) ==>
              Past(u, Imaged(u, run), PutCalls(u, run)[i], run.directorySyncs && i > RenameIndex(run), OldTaken(u, run, i))
  {
    var publish := PublishCalls(u, run);
    if i < |publish| {
      PublishStages(u, run, i);
    } else {
      PublishedIsAfterPointer(u, run);
      PublishStages(u, run, |publish| - 1);
      var d, image := After(u.start, publish), Imaged(u, run);
      var retained := Retained(u.ns, u.pointer);
      var unlinks, calls := Unlinks(run.images, retained), PruneImages(d, run.images, retained);
      var n := if i - |publish| < |unlinks| then i - |publish| + 1 else |unlinks|;
      PruneImagesStages(u, image, d, run.images, retained, run.directorySyncs, false, n);
      if i - |publish| >= |unlinks| {
        assert calls[..n] == calls;
        PruneTempsStages(u, image, After(d, calls), run.temps, run.directorySyncs, TakesOld(u, unlinks[..n]));
        assert PutCalls(u, run)[i] == PruneTemps(After(d, calls), run.temps)[i - |publish| - |calls|];
      }
    }
  }

  /** A put that has not renamed its pointer yet, or that stops there, crashes to what was loaded before it. */
  lemma UncommittedPutKeepsLoad(u: Publish, run: PutRun, i: nat)
    requires Settled(u) && i < |PutCalls(u, run)| && i < RenameIndex(run)
    ensures CrashesTo(u.ns, u.vault, PutCalls(u, run)[i], OldLoad(u), OldLoad(u))
  {
    PutStages(u, run, i);
    BeforeCrashes(u, PutCalls(u, run)[i]);
  }

  /**
   Stop a put after any call and crash, losing any change not yet synced. The next load is what it was before the
   put, or the new record with its bytes, exactly when the pointer was not yet renamed, or both pointers are
   served: the new one because the image directory was synced or everything its image's name could hold before the
   put loads so; the old one because it is gone for good, or its image is not unlinked yet or never was there.
   */
  lemma PutCrashSafeIff(u: Publish, run: PutRun, i: nat)
    requires Settled(u) && i < |PutCalls(u, run)|
    ensures
      CrashesTo(u.ns, u.vault, PutCalls(u, run)[i], OldLoad(u), NewLoad(u)) <==>
      || i < RenameIndex(run)
      || (&& (run.imageSyncs || NewImageHarmless(u, u.start))
          && (run.directorySyncs || !OldTaken(u, run, i) || !FoundImage(OldLoad(u))))
  {
    PutStages(u, run, i);
    if i < RenameIndex(run) {
      BeforeCrashes(u, PutCalls(u, run)[i]);
    } else {
      ImagedHarmlessIff(u, run);
      PublishedIsAfterPointer(u, run);
      PastCrashesIff(u, Imaged(u, run), PutCalls(u, run)[i], run.directorySyncs && i > RenameIndex(run), OldTaken(u, run, i));
    }
  }

  lemma {:induction false} UnlinksExactly(entries: seq<ImageName>, retained: set<ImageName>)
    ensures forall n :: n in Unlinks(entries, retained) <==> n in entries && n !in retained
  {
    if entries != [] {
      UnlinksExactly(entries[1..], retained);
      assert entries == [entries[0]] + entries[1..];
    }
  }

  lemma {:induction false} PruneCount(d: Disk, entries: seq<ImageName>, retained: set<ImageName>)
    ensures |PruneImages(d, entries, retained)| == |Unlinks(entries, retained)|
    decreases |entries|
  {
    if entries != [] {
      PruneCount(if entries[0] in retained then d else d.(images := Unlink(d.images, entries[0])), entries[1..], retained);
    }
  }

  /** The complete-generation put keeps the image of the pointer it replaces, as long as the generation is new. */
  lemma OldImageRetained(u: Publish)
    requires u.ns.Complete? && u.pointer == NewPointer(u.vault, u.pointer.record, PointerNow(u.start))
    requires StartKey(u).Some? ==> StartKey(u).value != NewKey(u)
    ensures StartKey(u).Some? ==> Image(StartKey(u).value) in Retained(u.ns, u.pointer)
  {
  }

  /** A put of complete generations keeps the image of the pointer it replaces, so only the new one is at stake. */
  lemma CompletePutCrashSafeIff(vault: string, start: Disk, w: Write, run: PutRun, i: nat)
    requires Settled(PublishOf(Complete, vault, start, w))
    requires i < |PutCalls(PublishOf(Complete, vault, start, w), run)|
    ensures
      var u := PublishOf(Complete, vault, start, w);
      CrashesTo(Complete, vault, PutCalls(u, run)[i],
                LoadFrom(Complete, vault, start.root.now, start.images.now), Hit(w.record, w.bytes)) <==>
      i < RenameIndex(run) || run.imageSyncs || NewImageHarmless(u, start)
  {
    var u := PublishOf(Complete, vault, start, w);
    PutCrashSafeIff(u, run, i);
    OldImageRetained(u);
    UnlinksExactly(run.images, Retained(u.ns, u.pointer));
    assert !OldTaken(u, run, i);
  }

  /**
   A checkpoint put retains its own image alone. Over a checkpoint that loads, and with its image directory synced,
   it is safe at call `i` exactly before the old image is unlinked, unless the pointer's directory was synced.
   */
  lemma CheckpointPutCrashSafeIff(vault: string, start: Disk, w: Write, run: PutRun, i: nat)
    requires Settled(PublishOf(Checkpoint, vault, start, w))
    requires i < |PutCalls(PublishOf(Checkpoint, vault, start, w), run)|
    requires run.imageSyncs && LoadFrom(Checkpoint, vault, start.root.now, start.images.now).Hit?
    ensures
      var u := PublishOf(Checkpoint, vault, start, w);
      var before := LoadFrom(Checkpoint, vault, start.root.now, start.images.now);
      && (CrashesTo(Checkpoint, vault, PutCalls(u, run)[i], before, Hit(w.record, w.bytes)) <==>
          run.directorySyncs || !OldTaken(u, run, i))
      && (Lists(After(start, PublishCalls(u, run)), run) ==> OldTaken(u, run, |PutCalls(u, run)| - 1))
  {
    var u := PublishOf(Checkpoint, vault, start, w);
    PutCrashSafeIff(u, run, i);
    PublishedIsAfterPointer(u, run);
    if Lists(After(start, PublishCalls(u, run)), run) {
      var published, replaced := After(start, PublishCalls(u, run)), Image(StartKey(u).value);
      assert replaced in published.images.now;
      UnlinksExactly(run.images, Retained(u.ns, u.pointer));
      PruneCount(published, run.images, Retained(u.ns, u.pointer));
    }
  }

  /** A new image name: without the image directory's sync, past the commit point, a crash can lose both records. */
  lemma NewNameCrashSafeIff(vault: string, start: Disk, w: Write, run: PutRun, i: nat)
    requires Settled(PublishOf(Complete, vault, start, w))
    requires Only(start.images, Image(KeyOf(Complete, w.record)), None)
    requires i < |PutCalls(PublishOf(Complete, vault, start, w), run)|
    ensures
      var before := LoadFrom(Complete, vault, start.root.now, start.images.now);
      CrashesTo(Complete, vault, PutCalls(PublishOf(Complete, vault, start, w), run)[i], before, Hit(w.record, w.bytes)) <==>
      i < RenameIndex(run) || run.imageSyncs || before.ImageAbsent?
  {
    var u := PublishOf(Complete, vault, start, w);
    CompletePutCrashSafeIff(vault, start, w, run, i);
    assert MayHold(start.images, Image(NewKey(u)), None) && ServeNew(u, None) == ImageAbsent;
  }

  /// ---- what survives when the pointer rename may be lost -----------------------------------------

  lemma PointersAfterCall(vault: string, d: Disk, now: map<RootName, RootFile>)
    ensures forall p :: MayPoint(vault, d.(root := Dir(d.root.past + [d.root.now], now)), p)
                        <==> MayPoint(vault, d, p) || (Get(now, PointerFile) == Some(Parsed(p)) && p.vault == vault)
  {
    forall p ensures MayHold(Dir(d.root.past + [d.root.now], now), PointerFile, Some(Parsed(p)))
                     <==> MayHold(d.root, PointerFile, Some(Parsed(p))) || Get(now, PointerFile) == Some(Parsed(p)) {
      MayHoldAfter(d.root, now, PointerFile, Some(Parsed(p)));
    }
  }

  /** After the publish the pointers that may survive are the new one and, without a directory sync, the earlier ones. */
  lemma PublishedPointers(u: Publish, d: Disk, suffix: string, directorySyncs: bool)
    requires u.pointer.vault == u.vault
    ensures
      var d' := After(d, PointerCalls(d, u.pointer, suffix, directorySyncs));
      && d'.images == d.images
      && forall p :: MayPoint(u.vault, d', p) <==> p == u.pointer || (!directorySyncs && MayPoint(u.vault, d, p))
  {
    var calls := PointerCalls(d, u.pointer, suffix, directorySyncs);
    PointersAfterCall(u.vault, d, calls[0].root.now);
    PointersAfterCall(u.vault, calls[0], calls[1].root.now);
    PointersAfterCall(u.vault, calls[1], calls[2].root.now);
    assert forall p :: MayPoint(u.vault, d, p) ==> MayPoint(u.vault, calls[1], p) by {
      assert MayHold(d.root, PointerFile, Get(d.root.now, PointerFile));
    }
  }

  /** Whatever a crash leaves at the new image's name is an image the new pointer accepts. */
  ghost predicate NewNameServes(u: Publish, d: Disk) {
    forall v :: MayHold(d.images, Image(NewKey(u)), v) ==> Serves(u.pointer, v)
  }

  lemma ImagedRecoverable(u: Publish, run: PutRun)
    requires Recoverable(u.ns, u.vault, u.start) && !MayNeed(u.ns, u.vault, u.start, NewKey(u))
    ensures forall x :: x in ImageCalls(u.start, NewKey(u), u.bytes, run.suffix, run.imageSyncs) ==> Recoverable(u.ns, u.vault, x)
    ensures Recoverable(u.ns, u.vault, Imaged(u, run))
  {
    var calls := ImageCalls(u.start, NewKey(u), u.bytes, run.suffix, run.imageSyncs);
    assert forall p :: MayPoint(u.vault, u.start, p) ==> KeyOf(u.ns, p.record) != NewKey(u);
    ImageCallRecoverable(u.ns, u.vault, u.start, calls[0].images.now);
    ImageCallRecoverable(u.ns, u.vault, calls[0], calls[1].images.now);
    ImageCallRecoverable(u.ns, u.vault, calls[1], calls[2].images.now);
    SyncRecoverable(u.ns, u.vault, calls[2]);
  }

  lemma ImagedServesIff(u: Publish, run: PutRun)
    requires u.pointer.record.byteLength == |u.bytes|
    ensures NewNameServes(u, Imaged(u, run)) <==> run.imageSyncs || NewNameServes(u, u.start)
  {
    forall v ensures MayHold(Imaged(u, run).images, Image(NewKey(u)), v) <==>
                     v == Some(Whole(u.bytes)) || (!run.imageSyncs && MayHold(u.start.images, Image(NewKey(u)), v)) {
      NewNameMayHold(u, run, v);
    }
  }

  lemma PointerCallsRecoverable(u: Publish, d: Disk, suffix: string, directorySyncs: bool)
    requires Recoverable(u.ns, u.vault, d) && u.pointer.vault == u.vault
    ensures
      var calls := PointerCalls(d, u.pointer, suffix, directorySyncs);
      && (forall i :: 0 <= i < 2 ==> Recoverable(u.ns, u.vault, calls[i]))
      && (forall i :: 2 <= i < |calls| ==> (Recoverable(u.ns, u.vault, calls[i]) <==> NewNameServes(u, d)))
  {
    var calls := PointerCalls(d, u.pointer, suffix, directorySyncs);
    RootCallRecoverable(u.ns, u.vault, d, calls[0].root.now);
    RootCallRecoverable(u.ns, u.vault, calls[0], calls[1].root.now);
    if NewNameServes(u, d) {
      RootCallRecoverable(u.ns, u.vault, calls[1], calls[2].root.now);
      SyncRecoverable(u.ns, u.vault, calls[2]);
    }
    forall i | 2 <= i < |calls| && Recoverable(u.ns, u.vault, calls[i]) ensures NewNameServes(u, d) {
      assert MayHold(calls[i].root, PointerFile, Some(Parsed(u.pointer)));
    }
  }

  /**
   A put whose image name no surviving pointer uses keeps every disk recoverable up to its pointer rename. From
   then on until it prunes, exactly when the image directory was synced or the name already served the new pointer.
   */
  lemma PublishRecoverable(u: Publish, run: PutRun, i: nat)
    requires Recoverable(u.ns, u.vault, u.start) && !MayNeed(u.ns, u.vault, u.start, NewKey(u))
    requires u.pointer.vault == u.vault && u.pointer.record.byteLength == |u.bytes|
    requires i < |PublishCalls(u, run)|
    ensures Recoverable(u.ns, u.vault, PublishCalls(u, run)[i]) <==>
            i < RenameIndex(run) || run.imageSyncs || NewNameServes(u, u.start)
  {
    PublishedIsAfterPointer(u, run);
    ImagedRecoverable(u, run);
    if i < RenameIndex(run) - 2 {
      assert PublishCalls(u, run)[i] in ImageCalls(u.start, NewKey(u), u.bytes, run.suffix, run.imageSyncs);
    } else {
      ImagedServesIff(u, run);
      PointerCallsRecoverable(u, Imaged(u, run), run.suffix, run.directorySyncs);
    }
  }

  /** Unlinking entries stays harmless exactly while none of them is an image that a surviving pointer names. */
  lemma {:induction false} PruneImagesRecoverable(ns: Namespace, vault: string, d: Disk, entries: seq<ImageName>, retained: set<ImageName>)
    ensures
      var d' := After(d, PruneImages(d, entries, retained));
      && d'.root == d.root
      && (Recoverable(ns, vault, d') <==>
          Recoverable(ns, vault, d) && forall key :: Image(key) in entries && Image(key) !in retained ==> !MayNeed(ns, vault, d, key))
    decreases |entries|
  {
    if entries != [] {
      var e, rest := entries[0], entries[1..];
      assert entries == [e] + rest;
      if e in retained {
        PruneImagesRecoverable(ns, vault, d, rest, retained);
      } else {
        var d' := d.(images := Unlink(d.images, e));
        PruneImagesRecoverable(ns, vault, d', rest, retained);
        assert forall p :: MayPoint(vault, d', p) <==> MayPoint(vault, d, p);
        assert forall key :: MayNeed(ns, vault, d', key) <==> MayNeed(ns, vault, d, key);
        if e.Image? {
          UnlinkRecoverable(ns, vault, d, e.key);
        } else {
          UnlinkTempRecoverable(ns, vault, d, e);
        }
      }
    }
  }

  lemma UnlinkTempRecoverable(ns: Namespace, vault: string, d: Disk, e: ImageName)
    requires e.ImageTemp?
    ensures Recoverable(ns, vault, d.(images := Unlink(d.images, e))) <==> Recoverable(ns, vault, d)
  {
    var now := d.images.now - {e};
    var d' := d.(images := Unlink(d.images, e));
    if Recoverable(ns, vault, d) {
      ImageCallRecoverable(ns, vault, d, now);
    }
    forall n, v | MayHold(d.images, n, v) ensures MayHold(d'.images, n, v) {
      MayHoldAfter(d.images, now, n, v);
    }
  }

  lemma {:induction false} PruneTempsRecoverable(ns: Namespace, vault: string, d: Disk, entries: seq<RootName>)
    ensures
      var d' := After(d, PruneTemps(d, entries));
      && d'.images == d.images
      && (Recoverable(ns, vault, d') <==> Recoverable(ns, vault, d))
    decreases |entries|
  {
    if entries != [] {
      if entries[0].PointerFile? {
        PruneTempsRecoverable(ns, vault, d, entries[1..]);
      } else {
        var d' := d.(root := Unlink(d.root, entries[0]));
        PointersAfterCall(vault, d, d'.root.now);
        assert forall p :: MayPoint(vault, d', p) <==> MayPoint(vault, d, p) by {
          assert MayHold(d.root, PointerFile, Get(d.root.now, PointerFile));
        }
        assert Recoverable(ns, vault, d') <==> Recoverable(ns, vault, d) by {
          SamePointersRecoverable(ns, vault, d, d');
        }
        PruneTempsRecoverable(ns, vault, d', entries[1..]);
      }
    }
  }

  lemma SamePointersRecoverable(ns: Namespace, vault: string, d: Disk, d': Disk)
    requires d'.images == d.images && forall p :: MayPoint(vault, d', p) <==> MayPoint(vault, d, p)
    ensures Recoverable(ns, vault, d') <==> Recoverable(ns, vault, d)
  {
    forall p: Pointer | p.vault == vault
      ensures MayHold(d.root, PointerFile, Some(Parsed(p))) <==> MayHold(d'.root, PointerFile, Some(Parsed(p)))
    {
      assert MayPoint(vault, d', p) <==> MayPoint(vault, d, p);
    }
  }

  /** readdir lists every entry. */
  ghost predicate Lists(d: Disk, run: PutRun) {
    forall n :: n in d.images.now ==> n in run.images
  }

  /**
   After a whole put, every crash still finds an image exactly when the new image is sure to be found and every
   pointer that may survive is one retention keeps: always if the pointer's directory was synced; otherwise iff
   the pointers that were not yet durable before the put name retained images.
   */
  lemma PutRecoverableIff(u: Publish, run: PutRun)
    requires Recoverable(u.ns, u.vault, u.start) && !MayNeed(u.ns, u.vault, u.start, NewKey(u))
    requires u.pointer.vault == u.vault && u.pointer.record.byteLength == |u.bytes|
    requires Lists(After(u.start, PublishCalls(u, run)), run)
    ensures
      Recoverable(u.ns, u.vault, After(u.start, PutCalls(u, run))) <==>
      && (run.imageSyncs || NewNameServes(u, u.start))
      && (run.directorySyncs
          || forall p :: MayPoint(u.vault, u.start, p) ==> Image(KeyOf(u.ns, p.record)) in Retained(u.ns, u.pointer))
  {
    var published := After(u.start, PublishCalls(u, run));
    PublishRecoverable(u, run, |PublishCalls(u, run)| - 1);
    PublishedPointers(u, Imaged(u, run), run.suffix, run.directorySyncs);
    PublishedIsAfterPointer(u, run);
    PrunedRecoverable(u.ns, u.vault, published, Retained(u.ns, u.pointer), run);
    ImagedPointers(u, run);
    assert After(u.start, PutCalls(u, run)) == After(published, PruneCalls(published, Retained(u.ns, u.pointer), run));
  }

  /** Retention keeps recovery iff it keeps the images that surviving pointers name. */
  lemma PrunedRecoverable(ns: Namespace, vault: string, d: Disk, retained: set<ImageName>, run: PutRun)
    requires Lists(d, run)
    ensures Recoverable(ns, vault, After(d, PruneCalls(d, retained, run))) <==>
            Recoverable(ns, vault, d) && forall p :: MayPoint(vault, d, p) ==> Image(KeyOf(ns, p.record)) in retained
  {
    var pruned := After(d, PruneImages(d, run.images, retained));
    PruneImagesRecoverable(ns, vault, d, run.images, retained);
    PruneTempsRecoverable(ns, vault, pruned, run.temps);
    assert After(d, PruneCalls(d, retained, run)) == After(pruned, PruneTemps(pruned, run.temps));
    if Recoverable(ns, vault, d) {
      NeededAreListed(ns, vault, d, run);
    }
  }

  lemma NeededAreListed(ns: Namespace, vault: string, d: Disk, run: PutRun)
    requires Recoverable(ns, vault, d) && Lists(d, run)
    ensures forall p :: MayPoint(vault, d, p) ==> Image(KeyOf(ns, p.record)) in run.images && MayNeed(ns, vault, d, KeyOf(ns, p.record))
  {
    forall p | MayPoint(vault, d, p) ensures Image(KeyOf(ns, p.record)) in run.images {
      var name := Image(KeyOf(ns, p.record));
      assert MayHold(d.images, name, Get(d.images.now, name));
    }
  }

  lemma ImagedPointers(u: Publish, run: PutRun)
    ensures forall p :: MayPoint(u.vault, u.start, p) <==> MayPoint(u.vault, Imaged(u, run), p)
  {
    assert Imaged(u, run).root == u.start.root;
  }

  /**
   Over a durable pointer, a complete put stays recoverable, even when its own pointer rename may be lost, exactly
   when the image directory was synced or its name already served; over a new name, exactly when it was synced.
   */
  lemma CompletePutRecoverableIff(vault: string, start: Disk, w: Write, run: PutRun)
    requires Recoverable(Complete, vault, start)
    requires Settled(PublishOf(Complete, vault, start, w))
    requires Lists(After(start, PublishCalls(PublishOf(Complete, vault, start, w), run)), run)
    ensures
      var u := PublishOf(Complete, vault, start, w);
      && (Recoverable(Complete, vault, After(start, PutCalls(u, run))) <==> run.imageSyncs || NewNameServes(u, start))
      && (Only(start.images, Image(NewKey(u)), None) ==>
            (Recoverable(Complete, vault, After(start, PutCalls(u, run))) <==> run.imageSyncs))
  {
    var u := PublishOf(Complete, vault, start, w);
    SettledPointers(u);
    OldImageRetained(u);
    PutRecoverableIff(u, run);
    if Only(start.images, Image(NewKey(u)), None) {
      assert MayHold(start.images, Image(NewKey(u)), None) && !Serves(u.pointer, None);
    }
  }

  /** A checkpoint put retains only its own image, so it also needs its pointer's sync or no checkpoint before it. */
  lemma CheckpointPutRecoverableIff(vault: string, start: Disk, w: Write, run: PutRun)
    requires Recoverable(Checkpoint, vault, start)
    requires Settled(PublishOf(Checkpoint, vault, start, w))
    requires Lists(After(start, PublishCalls(PublishOf(Checkpoint, vault, start, w), run)), run)
    ensures
      var u := PublishOf(Checkpoint, vault, start, w);
      Recoverable(Checkpoint, vault, After(start, PutCalls(u, run))) <==>
      && (run.imageSyncs || NewNameServes(u, start))
      && (run.directorySyncs || !(PointerNow(start).Some? && PointerNow(start).value.vault == vault))
  {
    var u := PublishOf(Checkpoint, vault, start, w);
    SettledPointers(u);
    PutRecoverableIff(u, run);
    if PointerNow(start).Some? {
      assert StartPointer(u) == Some(Parsed(PointerNow(start).value));
    }
  }

  lemma SettledPointers(u: Publish)
    requires Settled(u)
    ensures forall p :: MayPoint(u.vault, u.start, p) <==> PointerNow(u.start) == Some(p) && p.vault == u.vault
    ensures !MayNeed(u.ns, u.vault, u.start, NewKey(u))
  {
    forall p ensures MayHold(u.start.root, PointerFile, Some(Parsed(p))) <==> PointerNow(u.start) == Some(p) {
    }
  }

  /// ---- every disk of every operation is sound ------------------------------------------------------

  /** A valid pointer file has its image, and what is stored was put. */
  ghost predicate Sound(ns: Namespace, history: set<Write>, d: Disk) {
    PointerNamesImage(ns, d) && Truthful(ns, history, d)
  }

  lemma ImageCallsSound(u: Publish, history: set<Write>, suffix: string, imageSyncs: bool)
    requires Sound(u.ns, history, u.start) && Write(u.pointer.record, u.bytes) in history
    ensures
      var calls := ImageCalls(u.start, NewKey(u), u.bytes, suffix, imageSyncs);
      forall i :: 0 <= i < |calls| ==> Sound(u.ns, history, calls[i])
  {
    var calls := ImageCalls(u.start, NewKey(u), u.bytes, suffix, imageSyncs);
    assert Sound(u.ns, history, calls[0]);
    assert Sound(u.ns, history, calls[1]);
    assert Sound(u.ns, history, calls[2]);
  }

  lemma PointerCallsSound(u: Publish, history: set<Write>, d: Disk, suffix: string, directorySyncs: bool)
    requires Sound(u.ns, history, d) && Write(u.pointer.record, u.bytes) in history && Image(NewKey(u)) in d.images.now
    ensures
      var calls := PointerCalls(d, u.pointer, suffix, directorySyncs);
      forall i :: 0 <= i < |calls| ==> Sound(u.ns, history, calls[i])
  {
    var calls := PointerCalls(d, u.pointer, suffix, directorySyncs);
    assert Sound(u.ns, history, calls[0]);
    assert Sound(u.ns, history, calls[1]);
    assert Sound(u.ns, history, calls[2]);
  }

  lemma {:induction false} PruneImagesSound(ns: Namespace, history: set<Write>, d: Disk, entries: seq<ImageName>, retained: set<ImageName>)
    requires Sound(ns, history, d)
    requires PointerNow(d).Some? ==> Image(KeyOf(ns, PointerNow(d).value.record)) in retained
    ensures forall x :: x in PruneImages(d, entries, retained) ==> Sound(ns, history, x)
    ensures Sound(ns, history, After(d, PruneImages(d, entries, retained)))
    decreases |entries|
  {
    if entries != [] {
      if entries[0] in retained {
        PruneImagesSound(ns, history, d, entries[1..], retained);
      } else {
        var d' := d.(images := Unlink(d.images, entries[0]));
        assert Sound(ns, history, d');
        PruneImagesSound(ns, history, d', entries[1..], retained);
      }
    }
  }

  lemma {:induction false} PruneTempsSound(ns: Namespace, history: set<Write>, d: Disk, entries: seq<RootName>)
    requires Sound(ns, history, d)
    ensures forall x :: x in PruneTemps(d, entries) ==> Sound(ns, history, x)
    decreases |entries|
  {
    if entries != [] {
      if entries[0].PointerFile? {
        PruneTempsSound(ns, history, d, entries[1..]);
      } else {
        var d' := d.(root := Unlink(d.root, entries[0]));
        assert Sound(ns, history, d');
        PruneTempsSound(ns, history, d', entries[1..]);
      }
    }
  }

  lemma PublishSound(u: Publish, history: set<Write>, run: PutRun)
    requires Sound(u.ns, history, u.start) && Write(u.pointer.record, u.bytes) in history
    ensures forall d :: d in PublishCalls(u, run) ==> Sound(u.ns, history, d)
    ensures PointerNow(After(u.start, PublishCalls(u, run))) == Some(u.pointer)
    ensures Get(After(u.start, PublishCalls(u, run)).images.now, Image(NewKey(u))) == Some(Whole(u.bytes))
  {
    ImageCallsSound(u, history, run.suffix, run.imageSyncs);
    var d := Imaged(u, run);
    PointerCallsSound(u, history, d, run.suffix, run.directorySyncs);
    var calls := PointerCalls(d, u.pointer, run.suffix, run.directorySyncs);
    assert After(u.start, PublishCalls(u, run)) == After(d, calls);
  }

  /** At every call of a put a valid pointer names an existing image and everything stored was put. */
  lemma PutSound(u: Publish, history: set<Write>, run: PutRun)
    requires Sound(u.ns, history, u.start) && Write(u.pointer.record, u.bytes) in history
    ensures forall d :: d in PutCalls(u, run) ==> Sound(u.ns, history, d)
  {
    PublishSound(u, history, run);
    var d := After(u.start, PublishCalls(u, run));
    var retained := Retained(u.ns, u.pointer);
    PruneImagesSound(u.ns, history, d, run.images, retained);
    PruneTempsSound(u.ns, history, After(d, PruneImages(d, run.images, retained)), run.temps);
  }

  lemma {:induction false} PruneImagesKeeps(d: Disk, entries: seq<ImageName>, retained: set<ImageName>, n: ImageName)
    requires n in retained
    ensures forall x :: x in PruneImages(d, entries, retained) ==> Get(x.images.now, n) == Get(d.images.now, n)
    ensures Get(After(d, PruneImages(d, entries, retained)).images.now, n) == Get(d.images.now, n)
    decreases |entries|
  {
    if entries != [] {
      PruneImagesKeeps(if entries[0] in retained then d else d.(images := Unlink(d.images, entries[0])), entries[1..], retained, n);
    }
  }

  /** From its commit point on, every disk of a put holds the whole new image. */
  lemma PutKeepsImage(u: Publish, run: PutRun, i: nat)
    requires RenameIndex(run) <= i < |PutCalls(u, run)|
    ensures ImageAt(PutCalls(u, run)[i].images.now, NewKey(u)) == Some(Whole(u.bytes))
  {
    var publish := PublishCalls(u, run);
    PublishedIsAfterPointer(u, run);
    if i >= |publish| {
      var d := After(u.start, publish);
      var retained := Retained(u.ns, u.pointer);
      PruneImagesKeeps(d, run.images, retained, Image(NewKey(u)));
      PruneTempsKeep(After(d, PruneImages(d, run.images, retained)), run.temps);
      assert PutCalls(u, run)[i] in PruneCalls(d, retained, run);
    }
  }

  /** From its commit point on, every disk of a put loads the record and the bytes it wrote. */
  lemma PutLoads(u: Publish, run: PutRun, i: nat)
    requires u.pointer.vault == u.vault && u.pointer.record.byteLength == |u.bytes|
    requires RenameIndex(run) <= i < |PutCalls(u, run)|
    ensures LoadFrom(u.ns, u.vault, PutCalls(u, run)[i].root.now, PutCalls(u, run)[i].images.now) == Hit(u.pointer.record, u.bytes)
  {
    PutCommits(u, run, i);
    PutKeepsImage(u, run, i);
    assert u.bytes[..|u.bytes|] == u.bytes;
  }

  /** A put is followed by a hit on what it wrote. */
  lemma PutThenLoad(u: Publish, run: PutRun)
    requires u.pointer.vault == u.vault && u.pointer.record.byteLength == |u.bytes|
    ensures
      var d := After(u.start, PutCalls(u, run));
      && LoadFrom(u.ns, u.vault, d.root.now, d.images.now) == Hit(u.pointer.record, u.bytes)
      && PointerNow(d) == Some(u.pointer)
  {
    var last := |PutCalls(u, run)| - 1;
    PublishedIsAfterPointer(u, run);
    PutLoads(u, run, last);
    PutCommits(u, run, last);
  }

  /// ---- what an operation leaves ---------------------------------------------------------------------

  /** The listing of the pointer's directory is complete. */
  ghost predicate ListsTemps(d: Disk, run: PutRun) {
    forall n :: n in d.root.now ==> n in run.temps
  }

  /** The generation that a pointer found before the put names, if the put is of another one. */
  function Replaced(found: Option<RootFile>, generation: string): Option<string> {
    match found
    case Some(Parsed(p)) => if p.record.generation == generation then None else Some(p.record.generation)
    case _ => None
  }

  /**
   Of the pointer's directory a put leaves the new pointer, and of the images its own and, for complete
   generations, the one of the generation it replaces.
   */
  ghost predicate PutLeaves(ns: Namespace, vault: string, before: Disk, w: Write, after: Disk) {
    var previous := Replaced(Get(before.root.now, PointerFile), w.record.generation);
    var name := Image(KeyOf(ns, w.record));
    && (forall n :: Get(after.root.now, n) == if n == PointerFile then Some(Parsed(Pointer(w.record, previous, vault))) else None)
    && (forall n :: Get(after.images.now, n) ==
                    if n == name then Some(Whole(w.bytes))
                    else if ns == Complete && previous.Some? && n == Image(Key(previous.value, None)) then Get(before.images.now, n)
                    else None)
  }

  lemma PublishedNow(u: Publish, run: PutRun)
    ensures
      var d := After(u.start, PublishCalls(u, run));
      && Get(d.root.now, PointerFile) == Some(Parsed(u.pointer))
      && forall n: ImageName :: !n.ImageTemp? ==> Get(d.images.now, n) == if n == Image(NewKey(u)) then Some(Whole(u.bytes)) else Get(u.start.images.now, n)
  {
    PublishedIsAfterPointer(u, run);
    var image := ImageCalls(u.start, NewKey(u), u.bytes, run.suffix, run.imageSyncs);
    assert Imaged(u, run) == image[|image| - 1];
  }

  lemma FinishedPutLeaves(ns: Namespace, vault: string, start: Disk, w: Write, run: PutRun)
    requires
      var d := After(start, PublishCalls(PublishOf(ns, vault, start, w), run));
      Lists(d, run) && ListsTemps(d, run)
    ensures PutLeaves(ns, vault, start, w, After(start, PutCalls(PublishOf(ns, vault, start, w), run)))
  {
    var u := PublishOf(ns, vault, start, w);
    var d := After(start, PublishCalls(u, run));
    PublishedNow(u, run);
    PublishedIsAfterPointer(u, run);
    PrunedLeaves(d, Retained(ns, u.pointer), run);
    assert After(start, PutCalls(u, run)) == After(d, PruneCalls(d, Retained(ns, u.pointer), run));
  }

  /** Retention leaves the retained images and the pointer file, as they were. */
  lemma PrunedLeaves(d: Disk, retained: set<ImageName>, run: PutRun)
    requires Lists(d, run) && ListsTemps(d, run)
    ensures forall n :: Get(After(d, PruneCalls(d, retained, run)).images.now, n) == if n in retained then Get(d.images.now, n) else None
    ensures forall n :: Get(After(d, PruneCalls(d, retained, run)).root.now, n) == if n == PointerFile then Get(d.root.now, n) else None
  {
    var pruned := After(d, PruneImages(d, run.images, retained));
    PruneImagesKeepRoot(d, run.images, retained);
    PruneImagesLeave(d, run.images, retained);
    PruneTempsKeep(pruned, run.temps);
    PruneTempsLeave(pruned, run.temps);
    assert After(d, PruneCalls(d, retained, run)) == After(pruned, PruneTemps(pruned, run.temps));
  }

  /** Nothing is left that a load could find. */
  ghost predicate Emptied(before: Disk, after: Disk) {
    && after.images.now == map[] && PointerFile !in after.root.now
    && forall n :: n != PointerFile ==> Get(after.root.now, n) == Get(before.root.now, n)
  }

  lemma DiscardLeaves(d: Disk, entries: seq<ImageName>)
    requires forall n :: n in d.images.now ==> n in entries
    ensures Emptied(d, After(d, DiscardCalls(d, entries)))
  {
    var d' := d.(root := Unlink(d.root, PointerFile));
    PruneImagesLeave(d', entries, {});
    PruneImagesKeepRoot(d', entries, {});
    var after := After(d', PruneImages(d', entries, {}));
    assert After(d, DiscardCalls(d, entries)) == after;
    forall n ensures n !in after.images.now {
      assert Get(after.images.now, n) == None;
    }
  }

  /// ---- cleanup -------------------------------------------------------------------------------------

  /** Pointer first, then the image. A cleanup decided earlier does nothing if the pointer now names another record. */
  function QuarantineCalls(ns: Namespace, d: Disk, key: Key): seq<Disk> {
    if PointerNow(d).Some? && KeyOf(ns, PointerNow(d).value.record) != key then []
    else
      var d' := d.(root := Unlink(d.root, PointerFile));
      [d', d'.(images := Unlink(d'.images, Image(key)))]
  }

  /** discard of complete generations: unconditional, pointer first. */
  function DiscardCalls(d: Disk, entries: seq<ImageName>): seq<Disk> {
    var d' := d.(root := Unlink(d.root, PointerFile));
    [d'] + PruneImages(d', entries, {})
  }

  /** discard of a checkpoint, given the token of the record it is about. */
  function DiscardCheckpointCalls(d: Disk, expected: Key, entries: seq<ImageName>): seq<Disk> {
    if PointerNow(d).None? || KeyOf(Checkpoint, PointerNow(d).value.record) != expected then []
    else DiscardCalls(d, entries)
  }

  /** Cleanup of a checkpoint pointer that was observed not to parse. */
  function DiscardInvalidCalls(d: Disk, observed: Option<RootFile>, entries: seq<ImageName>): seq<Disk> {
    var current := PointerText(d.root.now);
    if current.None? || (observed.Some? && current != observed) || current.value.Parsed? then []
    else DiscardCalls(d, entries)
  }

  lemma QuarantineSound(ns: Namespace, history: set<Write>, d: Disk, key: Key)
    requires Sound(ns, history, d)
    ensures forall x :: x in QuarantineCalls(ns, d, key) ==> Sound(ns, history, x)
    ensures forall p :: PointerNow(d) == Some(p) && KeyOf(ns, p.record) != key ==> After(d, QuarantineCalls(ns, d, key)) == d
  {
    var d' := d.(root := Unlink(d.root, PointerFile));
    assert Sound(ns, history, d');
    assert Sound(ns, history, d'.(images := Unlink(d'.images, Image(key))));
  }

  lemma DiscardSound(ns: Namespace, history: set<Write>, d: Disk, entries: seq<ImageName>)
    requires Sound(ns, history, d)
    ensures forall x :: x in DiscardCalls(d, entries) ==> Sound(ns, history, x) && PointerNow(x).None?
  {
    var d' := d.(root := Unlink(d.root, PointerFile));
    assert Sound(ns, history, d');
    PruneImagesSound(ns, history, d', entries, {});
    PruneImagesKeepRoot(d', entries, {});
  }

  /** A checkpoint cleanup leaves every valid pointer that names another record, and its image, alone. */
  lemma CheckpointCleanupSpares(history: set<Write>, d: Disk, expected: Key, observed: Option<RootFile>,
                                entries: seq<ImageName>, p: Pointer)
    requires Sound(Checkpoint, history, d) && PointerNow(d) == Some(p)
    ensures KeyOf(Checkpoint, p.record) != expected ==> After(d, DiscardCheckpointCalls(d, expected, entries)) == d
    ensures After(d, DiscardInvalidCalls(d, observed, entries)) == d
    ensures forall x :: x in DiscardCheckpointCalls(d, expected, entries) ==> Sound(Checkpoint, history, x)
  {
    DiscardSound(Checkpoint, history, d, entries);
  }

  /** The removal by a load of complete generations that saw a pointer not parse: no lock, no second look. */
  function RemovalCalls(d: Disk): seq<Disk> {
    [d.(root := Unlink(d.root, PointerFile))]
  }

  /**
   What a load sets off once it has seen `l` on disk `seen`, when its cleanup begins on disk `d`. Apart from the
   removal of a complete generation's unparsable pointer, cleanup needs the writer lock and is skipped without it.
   */
  function CleanupCalls(ns: Namespace, seen: Disk, l: Load, d: Disk, locks: bool, entries: seq<ImageName>): seq<Disk> {
    if l.PointerCorrupt? && ns.Complete? then RemovalCalls(d)
    else if !locks then []
    else if l.PointerCorrupt? then DiscardInvalidCalls(d, PointerText(seen.root.now), entries)
    else if PointerNow(seen).None? then []
    else if l.ImageUnreadable? || l.ImageLengthMismatch? then QuarantineCalls(ns, d, KeyOf(ns, PointerNow(seen).value.record))
    else if l.ImageAbsent? && ns.Checkpoint? then DiscardCheckpointCalls(d, KeyOf(ns, PointerNow(seen).value.record), entries)
    else []
  }

  /**
   Cleanup decided on one disk and run on a later one leaves a valid pointer to another record alone, with the one
   exception of the unlocked removal.
   */
  lemma LateCleanupSpares(ns: Namespace, seen: Disk, l: Load, d: Disk, locks: bool, entries: seq<ImageName>, p: Pointer)
    requires PointerNow(d) == Some(p)
    requires PointerNow(seen).Some? ==> KeyOf(ns, PointerNow(seen).value.record) != KeyOf(ns, p.record)
    ensures After(d, CleanupCalls(ns, seen, l, d, locks, entries)) == d <==> !(l.PointerCorrupt? && ns.Complete?)
  {
    var d' := d.(root := Unlink(d.root, PointerFile));
    assert d'.root.now != d.root.now;
  }

  /** Every disk of a load's cleanup, decided on one disk and begun on a later one, is sound in either namespace. */
  lemma CleanupSound(ns: Namespace, history: set<Write>, seen: Disk, l: Load, d: Disk, locks: bool, entries: seq<ImageName>)
    requires Sound(ns, history, d)
    ensures forall x :: x in CleanupCalls(ns, seen, l, d, locks, entries) ==> Sound(ns, history, x)
  {
    DiscardSound(ns, history, d, entries);
    DiscardSound(ns, history, d, []);
    if PointerNow(seen).Some? {
      QuarantineSound(ns, history, d, KeyOf(ns, PointerNow(seen).value.record));
    }
    assert RemovalCalls(d)[0] in DiscardCalls(d, []);
  }
}
