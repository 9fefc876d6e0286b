/** Sessions: any calls, one after the other, on a mounted volume, seen as a run of
    changes. What holds of runs holds of them. */
module MinixRuns {
  import opened Bytes
  import opened MinixFormat
  import opened MinixImage
  import opened MinixZones
  import opened MinixTree
  import opened MinixState
  import opened MinixSteps
  import opened MinixLaws
  import opened MinixFs

  /** A name is a string, so it holds no NUL. */
  type Name = s: seq<byte> | 0 !in s

  type Data = s: seq<byte> | |s| < 0x1_0000_0000

  /** A call, with the inode pointer as the number of a slot. */
  datatype Call =
    | Create(s: nat, name: Name, kind: Kind)
    | Write(s: nat, off: u32, src: Data)
    | Lookup(s: nat, name: Name)
    | Root
    | Mount

  /** A create is the event foretold, and loses the zone foretold. */
  method CreateChanges(v: Volume, s: nat, name: Name, kind: Kind) returns (out: Option<nat>)
    requires v.Valid() && s < MAX_INODES && v.cache[s].ino != 0
    modifies v`disk, v`img, v.cache
    ensures v.Valid()
    ensures Changed(old(v.img), v.img,
      Change(Outcome(old(v.img), old(v.cache[..]), s, name, kind), CreateSpills(old(v.img), old(v.cache[..]), s, name, kind)))
  {
    hide Represents, Owned, Tidy, TreeOf, Lost, Apply, Enabled, Outcome, CreateSpills, ZonesFor, Loses, Coherent;
    out := v.Create(s, name, kind);
  }

  /** A write to a file is a splice of what was written, and loses the zone foretold. */
  method WriteChanges(v: Volume, s: nat, off: u32, src: Data) returns (r: int)
    requires v.Valid() && s < MAX_INODES && v.cache[s].ino != 0 && v.cache[s].kind == FileKind
    modifies v`disk, v`img, v.cache
    ensures v.Valid() && -1 <= r <= |src|
    ensures Changed(old(v.img), v.img,
      Change(Wrote(old(v.cache[s]).ino, off, src[..Max(r, 0)]), WriteSpills(old(v.img), old(v.cache[s]).ino, off, |src|)))
  {
    hide Represents, Owned, DirsSound, Lost, WriteSpills, Loses, Contents, Splice, KindOfMode, CleanTail;
    assert v.Tree()[v.cache[s].ino] == NodeOf(v.img, v.cache[s].ino);
    r := v.Write(s, off, src);
  }

  lemma NothingChanges(img: Img)
    requires Shaped(img)
    ensures Changed(img, img, Change(Nothing, false))
  {
  }

  /** No number is ever given back. */
  lemma ChangedKeepsLive(a: Img, b: Img, c: Change)
    requires Changed(a, b, c)
    ensures a.live <= b.live
  {
    hide NodeOf, Entries, AddEntry, Splice, Lost;
    forall i | i in a.live
      ensures i in b.live
    {
      assert i in TreeOf(a);
      assert i in Apply(TreeOf(a), c.ev, a.sb.ninodes);
    }
  }

  /** What a call may do: a create what was foretold, a write a prefix of its data, the
      others nothing. A pointer that is no inode's is refused; directories and device nodes
      are not written to as files. */
  ghost predicate Foretold(img: Img, cache: seq<Slot>, call: Call, c: Change)
    requires Shaped(img) && Coherent(img, cache)
  {
    match call
    case Create(s, name, kind) =>
      c == if s < MAX_INODES && cache[s].ino != 0
           then Change(Outcome(img, cache, s, name, kind), CreateSpills(img, cache, s, name, kind)) else Change(Nothing, false)
    case Write(s, off, src) =>
      if s < MAX_INODES && cache[s].ino != 0 && cache[s].kind == FileKind then
        && c.spills == WriteSpills(img, cache[s].ino, off, |src|)
        && exists k :: 0 <= k <= |src| && c.ev == Wrote(cache[s].ino, off, src[..k])
      else c == Change(Nothing, false)
    case _ => c == Change(Nothing, false)
  }

  /** One call, of whatever kind. */
  method Perform(v: Volume, call: Call) returns (ghost c: Change)
    requires v.Valid() && ROOT_INO in v.img.live
    modifies v`attached, v`sb, v`mounted, v`disk, v`img, v.cache
    ensures v.Valid() && ROOT_INO in v.img.live && Changed(old(v.img), v.img, c)
    ensures Foretold(old(v.img), old(v.cache[..]), call, c)
  {
    hide Represents, Owned, Tidy, TreeOf, Changed, WriteSpills, CreateSpills;
    NothingChanges(v.img);
    c := Change(Nothing, false);
    match call {
    case Create(s, name, kind) =>
      if s < MAX_INODES && v.cache[s].ino != 0 {
        c := Change(Outcome(v.img, v.cache[..], s, name, kind), CreateSpills(v.img, v.cache[..], s, name, kind));
        var out := CreateChanges(v, s, name, kind);
      }
    case Write(s, off, src) =>
      if s < MAX_INODES && v.cache[s].ino != 0 && v.cache[s].kind == FileKind {
        ghost var i, spills := v.cache[s].ino, WriteSpills(v.img, v.cache[s].ino, off, |src|);
        var r := WriteChanges(v, s, off, src);
        c := Change(Wrote(i, off, src[..Max(r, 0)]), spills);
      }
    case Lookup(s, name) =>
      if s < MAX_INODES && v.cache[s].ino != 0 {
        var found := v.Lookup(s, name);
      }
    case Root =>
      var found := v.Root();
    case Mount =>
      var r := v.Remount();
    }
    ChangedKeepsLive(old(v.img), v.img, c);
  }

  /** Whatever is called in whatever order: the images on the way are a run of changes, and
      a volume that passed fsck passes it at the end exactly if every change was benign. */
  method Session(v: Volume, calls: seq<Call>) returns (ghost imgs: seq<Img>, ghost cs: seq<Change>)
    requires v.Valid() && ROOT_INO in v.img.live
    modifies v`attached, v`sb, v`mounted, v`disk, v`img, v.cache
    ensures v.Valid() && |cs| == |calls| && Changes(imgs, cs) && imgs[0] == old(v.img) && imgs[|cs|] == v.img
    ensures old(Fsck(v.img)) ==>
      (Fsck(v.img) <==> forall k {:trigger cs[k]} :: 0 <= k < |cs| ==> Benign(imgs[k], imgs[k + 1], cs[k]))
  {
    hide Represents, Owned, Tidy, Coherent, TreeOf, Changed, Fsck, Benign;
    imgs, cs := [v.img], [];
    for k := 0 to |calls|
      invariant v.Valid() && ROOT_INO in v.img.live && |cs| == k && Changes(imgs, cs) && imgs[0] == old(v.img) && imgs[k] == v.img
    {
      ghost var c := Perform(v, calls[k]);
      imgs, cs := imgs + [v.img], cs + [c];
    }
    if old(Fsck(v.img)) {
      RunKeepsFsck(imgs, cs);
    }
  }
}
