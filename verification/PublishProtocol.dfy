/** What each file-system call of a publish keeps, stated on disks. */
module PublishProtocol {
  import opened Vault
  import opened CacheDisk

  datatype Write = Write(record: Record, bytes: seq<int>)

  /** Every value a name may hold after a call is one it might hold before, or the one the call gave it. */
  lemma MayHoldAfter<N(!new), F>(d: Dir<N, F>, now: map<N, F>, n: N, v: Option<F>)
    ensures MayHold(Dir(d.past + [d.now], now), n, v) <==> MayHold(d, n, v) || v == Get(now, n)
  {
    var d' := Dir(d.past + [d.now], now);
    if MayHold(d, n, v) && v != Get(d.now, n) {
      var i :| 0 <= i < |d.past| && v == Get(d.past[i], n);
      assert d'.past[i] == d.past[i];
    }
    if v == Get(d.now, n) {
      assert d'.past[|d.past|] == d.now;
    }
  }

  /// ---- old or new ------------------------------------------------------------------------------

  /** The disk a publish starts from and what it publishes. */
  datatype Publish = Publish(ns: Namespace, vault: string, start: Disk, pointer: Pointer, bytes: seq<int>)

  function StartPointer(u: Publish): Option<RootFile> { Get(u.start.root.now, PointerFile) }

  function StartKey(u: Publish): Option<Key> {
    match PointerNow(u.start)
    case Some(p) => Some(KeyOf(u.ns, p.record))
    case None => None
  }

  function NewKey(u: Publish): Key { KeyOf(u.ns, u.pointer.record) }

  /** The starting pointer and the image it names are durable, and the new image has another name. */
  ghost predicate Settled(u: Publish) {
    && u.pointer.vault == u.vault
    && u.pointer.record.byteLength == |u.bytes|
    && Only(u.start.root, PointerFile, StartPointer(u))
    && (StartKey(u).Some? ==>
          StartKey(u).value != NewKey(u)
          && Only(u.start.images, Image(StartKey(u).value), Get(u.start.images.now, Image(StartKey(u).value))))
  }

  /** What the new pointer loads while its image name holds `v`. */
  function ServeNew(u: Publish, v: Option<ImageFile>): Load {
    LoadFrom(u.ns, u.vault, map[PointerFile := Parsed(u.pointer)],
             if v.Some? then map[Image(NewKey(u)) := v.value] else map[])
  }

  function OldLoad(u: Publish): Load {
    LoadFrom(u.ns, u.vault, u.start.root.now, u.start.images.now)
  }

  function NewLoad(u: Publish): Load {
    Hit(u.pointer.record, u.bytes)
  }

  /** Whatever a crash leaves at the new image's name, the new pointer loads the old result or the new one. */
  ghost predicate NewImageHarmless(u: Publish, d: Disk) {
    forall v :: MayHold(d.images, Image(NewKey(u)), v) ==> ServeNew(u, v) == OldLoad(u) || ServeNew(u, v) == NewLoad(u)
  }

  /** The load found an image at the name its pointer gives. */
  predicate FoundImage(l: Load) {
    l.ImageUnreadable? || l.ImageLengthMismatch? || l.Hit?
  }

  /** The new pointer's load depends on its image name alone. */
  lemma NewPointerServes(u: Publish, root: map<RootName, RootFile>, images: map<ImageName, ImageFile>)
    requires PointerText(root) == Some(Parsed(u.pointer))
    ensures LoadFrom(u.ns, u.vault, root, images) == ServeNew(u, ImageAt(images, NewKey(u)))
  {
  }

  lemma NewBytesServe(u: Publish)
    requires u.pointer.vault == u.vault && u.pointer.record.byteLength == |u.bytes|
    ensures ServeNew(u, Some(Whole(u.bytes))) == NewLoad(u)
  {
    assert u.bytes[..|u.bytes|] == u.bytes;
  }

  /** A crash leaves the old pointer and the value its image had, whatever became of other names. */
  ghost predicate Before(u: Publish, d: Disk) {
    && (forall v :: MayHold(d.root, PointerFile, v) ==> v == StartPointer(u))
    && (StartKey(u).Some? ==>
          forall v :: MayHold(d.images, Image(StartKey(u).value), v) ==> v == ImageAt(u.start.images.now, StartKey(u).value))
  }

  lemma SettledStartsBefore(u: Publish)
    requires Settled(u)
    ensures Before(u, u.start)
  {
  }

  /** With the old pointer and the old value of its image, a load is what it was. */
  lemma OldPointerServes(u: Publish, root: map<RootName, RootFile>, images: map<ImageName, ImageFile>)
    requires PointerText(root) == StartPointer(u)
    requires StartKey(u).Some? ==> ImageAt(images, StartKey(u).value) == ImageAt(u.start.images.now, StartKey(u).value)
    ensures LoadFrom(u.ns, u.vault, root, images) == OldLoad(u)
  {
  }

  lemma BeforeCrashes(u: Publish, d: Disk)
    requires Before(u, d)
    ensures CrashesTo(u.ns, u.vault, d, OldLoad(u), OldLoad(u))
  {
    forall root, images | Survives(d.root, root) && Survives(d.images, images)
      ensures LoadFrom(u.ns, u.vault, root, images) == OldLoad(u)
    {
      assert MayHold(d.root, PointerFile, Get(root, PointerFile));
      if StartKey(u).Some? {
        var name := Image(StartKey(u).value);
        assert MayHold(d.images, name, Get(images, name));
      }
      OldPointerServes(u, root, images);
    }
  }

  /**
   Past the pointer rename. The new pointer may survive, and its image's name may hold what it may on disk `image`.
   The old pointer may survive unless `synced`; its image keeps its value and, once unlinked, may also be `lost`.
   */
  ghost predicate Past(u: Publish, image: Disk, d: Disk, synced: bool, lost: bool) {
    && MayHold(d.root, PointerFile, Some(Parsed(u.pointer)))
    && (forall v :: MayHold(d.root, PointerFile, v) ==> v == Some(Parsed(u.pointer)) || (!synced && v == StartPointer(u)))
    && (!synced ==> MayHold(d.root, PointerFile, StartPointer(u)))
    && (forall v :: MayHold(d.images, Image(NewKey(u)), v) <==> MayHold(image.images, Image(NewKey(u)), v))
    && (lost ==> StartKey(u).Some? && MayHold(d.images, Image(StartKey(u).value), None))
    && (StartKey(u).Some? ==>
          forall v :: MayHold(d.images, Image(StartKey(u).value), v)
                      ==> v == ImageAt(u.start.images.now, StartKey(u).value) || (lost && v == None))
  }

  /** Such a disk crashes to the old or the new load exactly when both pointers are served. */
  lemma PastCrashesIff(u: Publish, image: Disk, d: Disk, synced: bool, lost: bool)
    requires Past(u, image, d, synced, lost)
    ensures CrashesTo(u.ns, u.vault, d, OldLoad(u), NewLoad(u)) <==>
            NewImageHarmless(u, image) && (synced || !lost || !FoundImage(OldLoad(u)))
  {
    if NewImageHarmless(u, image) && (synced || !lost || !FoundImage(OldLoad(u))) {
      forall root, images | Survives(d.root, root) && Survives(d.images, images)
        ensures LoadFrom(u.ns, u.vault, root, images) == OldLoad(u) || LoadFrom(u.ns, u.vault, root, images) == NewLoad(u)
      {
        PastServes(u, image, d, synced, lost, root, images);
      }
    }
    if CrashesTo(u.ns, u.vault, d, OldLoad(u), NewLoad(u)) {
      forall v | MayHold(image.images, Image(NewKey(u)), v) ensures ServeNew(u, v) == OldLoad(u) || ServeNew(u, v) == NewLoad(u) {
        var root := SurvivorWith(d.root, PointerFile, Some(Parsed(u.pointer)));
        var images := SurvivorWith(d.images, Image(NewKey(u)), v);
        NewPointerServes(u, root, images);
      }
      if !synced && lost {
        var root := SurvivorWith(d.root, PointerFile, StartPointer(u));
        var images := SurvivorWith(d.images, Image(StartKey(u).value), None);
        assert FoundImage(OldLoad(u)) ==> LoadFrom(u.ns, u.vault, root, images) == ImageAbsent;
      }
    }
  }

  lemma PastServes(u: Publish, image: Disk, d: Disk, synced: bool, lost: bool,
                   root: map<RootName, RootFile>, images: map<ImageName, ImageFile>)
    requires Past(u, image, d, synced, lost) && NewImageHarmless(u, image)
    requires synced || !lost || !FoundImage(OldLoad(u))
    requires Survives(d.root, root) && Survives(d.images, images)
    ensures LoadFrom(u.ns, u.vault, root, images) == OldLoad(u) || LoadFrom(u.ns, u.vault, root, images) == NewLoad(u)
  {
    assert MayHold(d.root, PointerFile, Get(root, PointerFile));
    if PointerText(root) == Some(Parsed(u.pointer)) {
      assert MayHold(d.images, Image(NewKey(u)), Get(images, Image(NewKey(u))));
      NewPointerServes(u, root, images);
    } else if StartKey(u).Some? {
      var name := Image(StartKey(u).value);
      assert MayHold(d.images, name, Get(images, name));
    }
  }

  /// ---- what each call keeps ---------------------------------------------------------------------

  /** A call in the image directory that leaves the old image alone. */
  lemma ImageCallKeeps(u: Publish, d: Disk, now: map<ImageName, ImageFile>)
    requires Before(u, d)
    requires StartKey(u).Some? ==> ImageAt(now, StartKey(u).value) == ImageAt(d.images.now, StartKey(u).value)
    ensures Before(u, d.(images := Dir(d.images.past + [d.images.now], now)))
  {
    if StartKey(u).Some? {
      var name := Image(StartKey(u).value);
      assert MayHold(d.images, name, Get(d.images.now, name));
      forall v ensures MayHold(Dir(d.images.past + [d.images.now], now), name, v) <==> MayHold(d.images, name, v) || v == Get(now, name) {
        MayHoldAfter(d.images, now, name, v);
      }
    }
  }

  /** What the pointer file may hold after a call in its directory. */
  lemma RootCallHolds(d: Disk, now: map<RootName, RootFile>)
    ensures forall v :: MayHold(Dir(d.root.past + [d.root.now], now), PointerFile, v)
                        <==> MayHold(d.root, PointerFile, v) || v == Get(now, PointerFile)
    ensures MayHold(d.root, PointerFile, Get(d.root.now, PointerFile))
  {
    forall v ensures MayHold(Dir(d.root.past + [d.root.now], now), PointerFile, v)
                     <==> MayHold(d.root, PointerFile, v) || v == Get(now, PointerFile) {
      MayHoldAfter(d.root, now, PointerFile, v);
    }
  }

  /** A call in the pointer's directory that leaves the pointer alone, before or past the rename. */
  lemma RootCallKeeps(u: Publish, image: Disk, d: Disk, now: map<RootName, RootFile>, synced: bool, lost: bool)
    requires Get(now, PointerFile) == Get(d.root.now, PointerFile)
    ensures
      var d' := d.(root := Dir(d.root.past + [d.root.now], now));
      && (Before(u, d) ==> Before(u, d'))
      && (Past(u, image, d, synced, lost) ==> Past(u, image, d', synced, lost))
  {
    RootCallHolds(d, now);
  }

  lemma SyncImagesKeeps(u: Publish, d: Disk)
    requires Before(u, d)
    ensures Before(u, d.(images := Sync(d.images)))
  {
    forall n, v ensures MayHold(Sync(d.images), n, v) ==> MayHold(d.images, n, v) {
    }
  }

  /** The rename of the new pointer over the old one. */
  lemma RenameExposes(u: Publish, d: Disk, now: map<RootName, RootFile>)
    requires Before(u, d) && Get(now, PointerFile) == Some(Parsed(u.pointer))
    ensures Past(u, d, d.(root := Dir(d.root.past + [d.root.now], now)), false, false)
  {
    RootCallHolds(d, now);
  }

  /** Syncing the pointer's directory after the rename. */
  lemma SyncRootSettles(u: Publish, image: Disk, d: Disk)
    requires Past(u, image, d, false, false) && Get(d.root.now, PointerFile) == Some(Parsed(u.pointer))
    ensures Past(u, image, d.(root := Sync(d.root)), true, false)
  {
  }

  /** Unlinking any image but the new one; unlinking the old one is what may lose it. */
  lemma UnlinkPast(u: Publish, image: Disk, d: Disk, name: ImageName, synced: bool, lost: bool)
    requires Past(u, image, d, synced, lost) && name != Image(NewKey(u))
    ensures Past(u, image, d.(images := Unlink(d.images, name)), synced,
                 lost || (StartKey(u).Some? && name == Image(StartKey(u).value)))
  {
    var now := d.images.now - {name};
    forall n, v ensures MayHold(Dir(d.images.past + [d.images.now], now), n, v) <==> MayHold(d.images, n, v) || v == Get(now, n) {
      MayHoldAfter(d.images, now, n, v);
    }
    assert MayHold(d.images, Image(NewKey(u)), Get(d.images.now, Image(NewKey(u))));
    if StartKey(u).Some? {
      assert MayHold(d.images, Image(StartKey(u).value), ImageAt(d.images.now, StartKey(u).value));
    }
  }

  /// ---- pointers that may survive, and their images ---------------------------------------------

  /** A pointer of this vault that a crash may leave. */
  ghost predicate MayPoint(vault: string, d: Disk, p: Pointer) {
    MayHold(d.root, PointerFile, Some(Parsed(p))) && p.vault == vault
  }

  ghost predicate MayNeed(ns: Namespace, vault: string, d: Disk, key: Key) {
    exists p :: MayPoint(vault, d, p) && KeyOf(ns, p.record) == key
  }

  lemma ImageCallRecoverable(ns: Namespace, vault: string, d: Disk, now: map<ImageName, ImageFile>)
    requires Recoverable(ns, vault, d)
    requires forall p :: MayPoint(vault, d, p)
                         ==> Get(now, Image(KeyOf(ns, p.record))) == Get(d.images.now, Image(KeyOf(ns, p.record)))
    ensures Recoverable(ns, vault, d.(images := Dir(d.images.past + [d.images.now], now)))
  {
    var d' := d.(images := Dir(d.images.past + [d.images.now], now));
    forall p, v | MayHold(d'.root, PointerFile, Some(Parsed(p))) && p.vault == vault
                  && MayHold(d'.images, Image(KeyOf(ns, p.record)), v)
      ensures Serves(p, v)
    {
      var name := Image(KeyOf(ns, p.record));
      assert MayPoint(vault, d, p);
      MayHoldAfter(d.images, now, name, v);
      assert MayHold(d.images, name, Get(d.images.now, name));
    }
  }

  lemma RootCallRecoverable(ns: Namespace, vault: string, d: Disk, now: map<RootName, RootFile>)
    requires Recoverable(ns, vault, d)
    requires Get(now, PointerFile) == Get(d.root.now, PointerFile)
             || Get(now, PointerFile) == None
             || (Get(now, PointerFile).value.Parsed?
                 && var p := Get(now, PointerFile).value.pointer;
                 forall v :: MayHold(d.images, Image(KeyOf(ns, p.record)), v) ==> Serves(p, v))
    ensures Recoverable(ns, vault, d.(root := Dir(d.root.past + [d.root.now], now)))
  {
    var d' := d.(root := Dir(d.root.past + [d.root.now], now));
    forall p, v | MayHold(d'.root, PointerFile, Some(Parsed(p))) && p.vault == vault
                  && MayHold(d'.images, Image(KeyOf(ns, p.record)), v)
      ensures Serves(p, v)
    {
      MayHoldAfter(d.root, now, PointerFile, Some(Parsed(p)));
      assert MayHold(d.root, PointerFile, Get(d.root.now, PointerFile));
    }
  }

  lemma SyncRecoverable(ns: Namespace, vault: string, d: Disk)
    requires Recoverable(ns, vault, d)
    ensures Recoverable(ns, vault, d.(images := Sync(d.images)))
    ensures Recoverable(ns, vault, d.(root := Sync(d.root)))
  {
    forall n, v ensures MayHold(Sync(d.images), n, v) ==> MayHold(d.images, n, v) {
    }
    forall v ensures MayHold(Sync(d.root), PointerFile, v) ==> MayHold(d.root, PointerFile, v) {
    }
  }

  /** Removing an image is harmless exactly when no pointer that may survive names it. */
  lemma UnlinkRecoverable(ns: Namespace, vault: string, d: Disk, key: Key)
    ensures Recoverable(ns, vault, d.(images := Unlink(d.images, Image(key)))) <==>
            Recoverable(ns, vault, d) && !MayNeed(ns, vault, d, key)
  {
    var now := d.images.now - {Image(key)};
    var d' := d.(images := Unlink(d.images, Image(key)));
    forall n, v ensures MayHold(d'.images, n, v) <==> MayHold(d.images, n, v) || v == Get(now, n) {
      MayHoldAfter(d.images, now, n, v);
    }
    if Recoverable(ns, vault, d) && !MayNeed(ns, vault, d, key) {
      ImageCallRecoverable(ns, vault, d, now);
    }
    if MayNeed(ns, vault, d, key) {
      var p :| MayPoint(vault, d, p) && KeyOf(ns, p.record) == key;
      assert MayHold(d'.images, Image(key), None) && !Serves(p, None);
    }
  }

  /// ---- records and bytes -------------------------------------------------------------------------

  /** Writes that share an image name share their bytes: generation ids are never reused, or the digest is in the name. */
  ghost predicate NamesDetermineBytes(ns: Namespace, history: set<Write>) {
    forall w, x :: w in history && x in history && KeyOf(ns, w.record) == KeyOf(ns, x.record) ==> w.bytes == x.bytes
  }

  /** Whatever the store holds was put there: images with their bytes, pointers with their records. */
  ghost predicate Truthful(ns: Namespace, history: set<Write>, d: Disk) {
    && (forall k, b :: Get(d.images.now, Image(k)) == Some(Whole(b))
                       ==> exists w :: w in history && KeyOf(ns, w.record) == k && w.bytes == b)
    && (PointerNow(d).Some? ==> exists w :: w in history && w.record == PointerNow(d).value.record)
  }

  /** Lengths are validated before a write is accepted. */
  ghost predicate ValidWrites(history: set<Write>) {
    forall w :: w in history ==> w.record.byteLength == |w.bytes|
  }

  /**
   An unlocked load reads the pointer, the length and the bytes at three moments while writers work:
   it misses, or returns one put's record with exactly that put's bytes.
   */
  lemma LoadNeverMixes(ns: Namespace, vault: string, history: set<Write>, atPointer: Disk, atStat: Disk, atRead: Disk)
    requires NamesDetermineBytes(ns, history) && ValidWrites(history)
    requires Truthful(ns, history, atPointer) && Truthful(ns, history, atStat) && Truthful(ns, history, atRead)
    ensures
      var l := LoadAcross(ns, vault, atPointer.root.now, atStat.images.now, atRead.images.now);
      l.Hit? ==> Write(l.record, l.bytes) in history
  {
    var l := LoadAcross(ns, vault, atPointer.root.now, atStat.images.now, atRead.images.now);
    if l.Hit? {
      var p := PointerNow(atPointer).value;
      var w :| w in history && w.record == p.record;
      var k := KeyOf(ns, p.record);
      var bytes := Get(atRead.images.now, Image(k)).value.bytes;
      var x :| x in history && KeyOf(ns, x.record) == k && x.bytes == bytes;
      assert w.bytes == bytes && l.bytes == bytes;
    }
  }
}
