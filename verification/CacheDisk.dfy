/**
 The part of the file system the cache store uses, with what a crash may leave of it: a directory entry
 changed since the last directory sync may come back as any value it has had since then.
 */
module CacheDisk {
  import opened Vault

  datatype Namespace = Complete | Checkpoint

  /** What a pointer says about its image; `details` stands for the identity envelope and the cursor. */
  datatype Record = Record(generation: string, byteLength: nat, sha256: string, details: string)

  datatype Pointer = Pointer(record: Record, previous: Option<string>, vault: string)

  datatype Key = Key(generation: string, digest: Option<string>)

  datatype RootName = PointerFile | PointerTemp(suffix: string)

  datatype ImageName = Image(key: Key) | ImageTemp(key: Key, suffix: string)

  /** A pointer file either parses or it does not. */
  datatype RootFile = Unparsed(text: string) | Parsed(pointer: Pointer)

  datatype ImageFile = Torn | Whole(bytes: seq<int>)

  /** A directory: its listing now, and its listings since the last sync, oldest first. */
  datatype Dir<N, F> = Dir(past: seq<map<N, F>>, now: map<N, F>)

  type Root = Dir<RootName, RootFile>
  type Images = Dir<ImageName, ImageFile>

  datatype Disk = Disk(root: Root, images: Images)

  /** Complete images are named by generation, checkpoint images by generation and digest. */
  function KeyOf(ns: Namespace, r: Record): Key {
    Key(r.generation, if ns.Complete? then None else Some(r.sha256))
  }

  function Get<N, F>(listing: map<N, F>, n: N): Option<F> {
    if n in listing then Some(listing[n]) else None
  }

  /// ---- calls ---------------------------------------------------------------------------------

  function Set<N, F>(d: Dir<N, F>, n: N, f: F): Dir<N, F> {
    Dir(d.past + [d.now], d.now[n := f])
  }

  function Unlink<N, F>(d: Dir<N, F>, n: N): Dir<N, F> {
    Dir(d.past + [d.now], d.now - {n})
  }

  function Rename<N, F>(d: Dir<N, F>, from: N, to: N): Dir<N, F>
    requires from in d.now
  {
    Dir(d.past + [d.now], (d.now - {from})[to := d.now[from]])
  }

  function Sync<N, F>(d: Dir<N, F>): Dir<N, F> {
    Dir([], d.now)
  }

  /// ---- crashes -------------------------------------------------------------------------------

  /** The values a crash may leave at a name. */
  ghost predicate MayHold<N, F>(d: Dir<N, F>, n: N, v: Option<F>) {
    v == Get(d.now, n) || exists i :: 0 <= i < |d.past| && v == Get(d.past[i], n)
  }

  ghost predicate Survives<N(!new), F>(d: Dir<N, F>, left: map<N, F>) {
    forall n :: MayHold(d, n, Get(left, n))
  }

  /** A crash can leave any chosen surviving value at one name. */
  lemma SurvivorWith<N(!new), F>(d: Dir<N, F>, n: N, v: Option<F>) returns (left: map<N, F>)
    requires MayHold(d, n, v)
    ensures Survives(d, left) && Get(left, n) == v
  {
    left := if v.Some? then d.now[n := v.value] else d.now - {n};
    forall m ensures MayHold(d, m, Get(left, m)) {
      if m != n {
        assert Get(left, m) == Get(d.now, m);
      }
    }
  }

  /// ---- loading -------------------------------------------------------------------------------

  datatype Load =
    | NoPointer
    | PointerUnreadable
    | PointerCorrupt
    | IdentityMismatch
    | ImageAbsent
    | ImageUnreadable
    | ImageLengthMismatch
    | Hit(record: Record, bytes: seq<int>)

  function PointerText(root: map<RootName, RootFile>): Option<RootFile> {
    Get(root, PointerFile)
  }

  function ImageAt(images: map<ImageName, ImageFile>, key: Key): Option<ImageFile> {
    Get(images, Image(key))
  }

  /** load, with the pointer, the image's length and the image's bytes read from three listings. */
  function LoadAcross(ns: Namespace, vault: string, root: map<RootName, RootFile>,
                      atStat: map<ImageName, ImageFile>, atRead: map<ImageName, ImageFile>): Load {
    match PointerText(root)
    case None => NoPointer
    case Some(Unparsed(_)) => PointerCorrupt
    case Some(Parsed(p)) =>
      if p.vault != vault then IdentityMismatch
      else match ImageAt(atStat, KeyOf(ns, p.record))
        case None => ImageAbsent
        case Some(Torn) => ImageUnreadable
        case Some(Whole(b)) =>
          if |b| != p.record.byteLength then ImageLengthMismatch
          else match ImageAt(atRead, KeyOf(ns, p.record))
            case Some(Whole(bytes)) => if |bytes| >= |b| then Hit(p.record, bytes[..|b|]) else ImageUnreadable
            case _ => ImageUnreadable
  }

  function LoadFrom(ns: Namespace, vault: string, root: map<RootName, RootFile>, images: map<ImageName, ImageFile>): Load {
    LoadAcross(ns, vault, root, images, images)
  }

  /** What each result says of the pointer file and of the image file that a pointer of this vault names. */
  lemma LoadExactly(ns: Namespace, vault: string, root: map<RootName, RootFile>, images: map<ImageName, ImageFile>)
    ensures
      var l := LoadFrom(ns, vault, root, images);
      && (l == NoPointer <==> PointerFile !in root)
      && (l == PointerCorrupt <==> PointerFile in root && root[PointerFile].Unparsed?)
      && (l == IdentityMismatch <==> PointerFile in root && root[PointerFile].Parsed? && root[PointerFile].pointer.vault != vault)
      && l != PointerUnreadable
    ensures
      PointerFile in root && root[PointerFile].Parsed? && root[PointerFile].pointer.vault == vault ==>
        var l, r := LoadFrom(ns, vault, root, images), root[PointerFile].pointer.record;
        var n := Image(Key(r.generation, if ns == Checkpoint then Some(r.sha256) else None));
        && (l == ImageAbsent <==> n !in images)
        && (l == ImageUnreadable <==> n in images && images[n] == Torn)
        && (l == ImageLengthMismatch <==> n in images && images[n].Whole? && |images[n].bytes| != r.byteLength)
        && (forall b :: l == Hit(r, b) <==> n in images && images[n] == Whole(b) && |b| == r.byteLength)
  {
    forall b: seq<int> ensures b[..|b|] == b {
    }
  }

  /** The store held a pointer of this vault but could not return its image. */
  predicate LosesImage(l: Load) {
    l.ImageAbsent? || l.ImageUnreadable? || l.ImageLengthMismatch?
  }

  /** The image a pointer needs. */
  predicate Serves(p: Pointer, v: Option<ImageFile>) {
    v.Some? && v.value.Whole? && |v.value.bytes| == p.record.byteLength
  }

  /** Every pointer that may survive a crash names an image that is sure to survive it. */
  ghost predicate Recoverable(ns: Namespace, vault: string, d: Disk) {
    forall p, v | MayHold(d.root, PointerFile, Some(Parsed(p))) && p.vault == vault
                  && MayHold(d.images, Image(KeyOf(ns, p.record)), v) :: Serves(p, v)
  }

  ghost predicate CrashKeepsImages(ns: Namespace, vault: string, d: Disk) {
    forall root, images | Survives(d.root, root) && Survives(d.images, images) ::
      !LosesImage(LoadFrom(ns, vault, root, images))
  }

  /** Recoverable is exactly what makes every crash harmless. */
  lemma RecoverableIff(ns: Namespace, vault: string, d: Disk)
    ensures Recoverable(ns, vault, d) <==> CrashKeepsImages(ns, vault, d)
  {
    if Recoverable(ns, vault, d) {
      forall root, images | Survives(d.root, root) && Survives(d.images, images)
        ensures !LosesImage(LoadFrom(ns, vault, root, images))
      {
        assert MayHold(d.root, PointerFile, Get(root, PointerFile));
        match PointerText(root) {
          case Some(Parsed(p)) =>
            assert MayHold(d.images, Image(KeyOf(ns, p.record)), Get(images, Image(KeyOf(ns, p.record))));
          case _ =>
        }
      }
    }
    if CrashKeepsImages(ns, vault, d) {
      forall p, v | MayHold(d.root, PointerFile, Some(Parsed(p))) && p.vault == vault
                    && MayHold(d.images, Image(KeyOf(ns, p.record)), v)
        ensures Serves(p, v)
      {
        var root := SurvivorWith(d.root, PointerFile, Some(Parsed(p)));
        var images := SurvivorWith(d.images, Image(KeyOf(ns, p.record)), v);
        assert !LosesImage(LoadFrom(ns, vault, root, images));
      }
    }
  }

  /** Every crash of this disk loads as one of two results. */
  ghost predicate CrashesTo(ns: Namespace, vault: string, d: Disk, a: Load, b: Load) {
    forall root, images | Survives(d.root, root) && Survives(d.images, images) ::
      LoadFrom(ns, vault, root, images) == a || LoadFrom(ns, vault, root, images) == b
  }

  ghost predicate Only<N, F>(d: Dir<N, F>, n: N, v: Option<F>) {
    Get(d.now, n) == v && forall i :: 0 <= i < |d.past| ==> Get(d.past[i], n) == v
  }

  /** The pointer that the store's own code would follow now. */
  function PointerNow(d: Disk): Option<Pointer> {
    match PointerText(d.root.now)
    case Some(Parsed(p)) => Some(p)
    case _ => None
  }

  /** A valid pointer names an existing image. */
  predicate PointerNamesImage(ns: Namespace, d: Disk) {
    PointerNow(d).Some? ==> Image(KeyOf(ns, PointerNow(d).value.record)) in d.images.now
  }
}
