/** What a user of the mounted file system can rely on, put together from the
    contracts of its operations. */
module MinixLaws {
  import opened Bytes
  import opened MinixFormat
  import opened MinixImage
  import opened MinixZones
  import opened MinixTree
  import opened MinixFsck
  import opened MinixState
  import opened MinixSteps

  /** A read gives the bytes from `off` on, up to `n` of them and to the end of the file. */
  lemma ReadIs(c: seq<byte>, off: nat, n: nat)
    ensures ReadCount(c, off, n) == if off >= |c| then 0 else if n <= |c| - off then n else |c| - off
    ensures |ReadBytes(c, off, n)| == ReadCount(c, off, n)
    ensures forall k :: 0 <= k < ReadCount(c, off, n) ==> ReadBytes(c, off, n)[k] == c[off + k]
  {
  }

  /** Reading back what was written gives the data. */
  lemma ReadBack(c: seq<byte>, off: nat, data: seq<byte>)
    ensures ReadBytes(Splice(c, off, data), off, |data|) == data
  {
    var s := Splice(c, off, data);
    if data != [] {
      assert s[off..off + |data|] == data;
    }
  }

  /** Bytes outside the written range read as before; a gap between the old end
      and the write reads as zeros. */
  lemma ReadElsewhere(c: seq<byte>, off: nat, data: seq<byte>, p: nat)
    requires p < |Splice(c, off, data)| && !(off <= p < off + |data|)
    ensures ReadBytes(Splice(c, off, data), p, 1) == [if p < |c| then c[p] else 0]
  {
  }

  /** Two reads, the second where the first stopped, give what one read gives:
      how a read is chopped up does not matter. */
  lemma ReadsJoin(c: seq<byte>, off: nat, n: nat, m: nat)
    ensures var k := ReadCount(c, off, n);
      ReadBytes(c, off, n) + ReadBytes(c, off + n, m) == ReadBytes(c, off, n + m)
      && (k < n ==> ReadBytes(c, off + n, m) == [] == ReadBytes(c, off + k, m))
  {
  }

  /** Two writes behind each other are one write. */
  lemma WritesJoin(c: seq<byte>, off: nat, a: seq<byte>, b: seq<byte>)
    ensures Splice(Splice(c, off, a), off + |a|, b) == Splice(c, off, a + b)
  {
    if a == [] {
      assert a + b == b;
    } else if b == [] {
      assert a + b == a;
    }
  }

  // ---- what fsck says ------------------------------------------------------------

  /** fsck passes: the tree is sound, and the zones marked are the zones in use. */
  ghost predicate Fsck(img: Img)
    requires Shaped(img)
  {
    TreeSound(TreeOf(img), img.sb.ninodes) && Lost(img) == {}
  }

  /** What a write to a file or a create does to a volume: one event of its tree, and
      whether a zone is lost on the way. */
  datatype Change = Change(ev: Event, spills: bool)

  ghost predicate Changed(a: Img, b: Img, c: Change) {
    && Shaped(a) && Shaped(b) && b.sb == a.sb
    && Enabled(TreeOf(a), c.ev, a.sb.ninodes)
    && TreeOf(b) == Apply(TreeOf(a), c.ev, a.sb.ninodes)
    && Loses(a, b, c.spills)
  }

  /** A change keeps what fsck checks exactly if it is harmless and loses no zone. */
  lemma ChangeKeepsFsck(a: Img, b: Img, c: Change)
    requires Changed(a, b, c) && Fsck(a)
    ensures Fsck(b) <==> Harmless(TreeOf(a), c.ev) && !c.spills
  {
    hide TreeSound, TreeOf, Apply, Lost;
    EventKeepsTreeSound(TreeOf(a), c.ev, a.sb.ninodes);
  }

  /** A write of `len` bytes to a file, of which `data` reached it, keeps what fsck
      checks exactly if it does not lose a zone; the state before tells. */
  lemma FileWriteKeepsFsck(a: Img, b: Img, i: nat, off: nat, len: nat, data: seq<byte>)
    requires Shaped(a) && Shaped(b) && b.sb == a.sb && i in a.live && KindOfMode(a.itab[i].mode) != DirKind
    requires TreeOf(b) == TreeWrite(TreeOf(a), i, off, data) && Loses(a, b, WriteSpills(a, i, off, len))
    requires Fsck(a)
    ensures Fsck(b) <==> !WriteSpills(a, i, off, len)
  {
    hide TreeSound, Lost, WriteSpills, Splice, Contents;
    var ev := Wrote(i, off, data);
    assert Apply(TreeOf(a), ev, a.sb.ninodes) == TreeWrite(TreeOf(a), i, off, data);
    ChangeKeepsFsck(a, b, Change(ev, WriteSpills(a, i, off, len)));
  }

  /** The name is there, and its inode has no known type. */
  predicate NameOfUnknown(img: Img, d: nat, name: seq<byte>)
    requires d in img.itab
  {
    LookupIno(img, d, name) != 0 && Unknown(img, LookupIno(img, d, name))
  }

  lemma DoublesMeans(a: Img, cache: seq<Slot>, s: nat, name: seq<byte>, kind: Kind)
    requires Tidy(a) && Coherent(a, cache) && s < MAX_INODES && cache[s].ino != 0 && cache[s].ino in a.itab
    ensures Doubles(TreeOf(a), Outcome(a, cache, s, name, kind)) <==>
      CanBegin(a, cache, s, name, kind) && CanPlace(a, cache[s].ino, InsertBlock(a, cache[s].ino))
      && NameOfUnknown(a, cache[s].ino, name)
  {
    hide CanPlace, Cost, InsertBlock, Entries, FreeZones;
    if CanBegin(a, cache, s, name, kind) {
      var d, i := cache[s].ino, LookupIno(a, cache[s].ino, name);
      DirIsEntries(a, d);
      if i != 0 && Cached(cache, i) {
        CachedIsKnown(a, cache, i);
      }
      assert EntriesSound(TreeOf(a), EntriesOf(a, d));
      assert i != 0 ==> TreeOf(a)[i] == NodeOf(a, i);
    }
  }

  /** After a create names are unique exactly if they were before, and it is not so that
      the name was there for an inode of no known type and the create went through. */
  lemma CreateKeepsNames(a: Img, b: Img, cache: seq<Slot>, s: nat, name: seq<byte>, kind: Kind)
    requires Tidy(a) && Coherent(a, cache) && s < MAX_INODES && cache[s].ino != 0
    requires cache[s].ino in a.itab && Enabled(TreeOf(a), Outcome(a, cache, s, name, kind), a.sb.ninodes)
    requires Shaped(b) && TreeOf(b) == Apply(TreeOf(a), Outcome(a, cache, s, name, kind), a.sb.ninodes)
    ensures UniqueNames(TreeOf(b)) <==>
      && UniqueNames(TreeOf(a))
      && !(NameOfUnknown(a, cache[s].ino, name) && CanBegin(a, cache, s, name, kind)
           && CanPlace(a, cache[s].ino, InsertBlock(a, cache[s].ino)))
  {
    hide TreeOf, Apply, Outcome, CanBegin, CanPlace, NameOfUnknown, InsertBlock, Doubles, UniqueNames, Enabled, Effect;
    DoublesMeans(a, cache, s, name, kind);
    EventEffect(TreeOf(a), Outcome(a, cache, s, name, kind), a.sb.ninodes);
    EffectKeepsUniqueNames(TreeOf(a), Outcome(a, cache, s, name, kind), TreeOf(b), a.sb.ninodes);
  }

  /** After a create the volume passes fsck exactly when, before it, none of four things
      was so: a free zone could be taken but not placed for the parent's entry; the free
      zones were just enough for the parent's entry alone, making a directory; the
      parent's link count had no room, making a directory; the name was there for an
      inode of no known type, and the create went through. */
  lemma CreateKeepsFsck(a: Img, b: Img, cache: seq<Slot>, s: nat, name: seq<byte>, kind: Kind)
    requires Tidy(a) && Coherent(a, cache) && s < MAX_INODES && cache[s].ino != 0
    requires cache[s].ino in a.itab && Enabled(TreeOf(a), Outcome(a, cache, s, name, kind), a.sb.ninodes)
    requires Shaped(b) && b.sb == a.sb && Loses(a, b, CreateSpills(a, cache, s, name, kind))
    requires TreeOf(b) == Apply(TreeOf(a), Outcome(a, cache, s, name, kind), a.sb.ninodes)
    requires Fsck(a)
    ensures var n := InsertBlock(a, cache[s].ino);
      Fsck(b) <==>
        && !(CanBegin(a, cache, s, name, kind) && !CanPlace(a, cache[s].ino, n) && FreeZones(a) > 0)
        && !(kind == DirKind && CanBegin(a, cache, s, name, kind) && CanPlace(a, cache[s].ino, n)
             && (FreeZones(a) <= Cost(a, cache[s].ino, n) || a.itab[cache[s].ino].nlinks == 255))
        && !(NameOfUnknown(a, cache[s].ino, name) && CanBegin(a, cache, s, name, kind) && CanPlace(a, cache[s].ino, n))
  {
    hide TreeSound, Apply, CanPlace, Cost, InsertBlock, LookupIno, NameFits, Entries, Lost, Doubles, NameOfUnknown;
    DoublesMeans(a, cache, s, name, kind);
    var ev := Outcome(a, cache, s, name, kind);
    ChangeKeepsFsck(a, b, Change(ev, CreateSpills(a, cache, s, name, kind)));
    assert TreeOf(a)[cache[s].ino].links == a.itab[cache[s].ino].nlinks;
  }

  /** A run of changes. */
  ghost predicate Changes(imgs: seq<Img>, cs: seq<Change>) {
    |imgs| == |cs| + 1 && forall k {:trigger cs[k]} :: 0 <= k < |cs| ==> Changed(imgs[k], imgs[k + 1], cs[k])
  }

  ghost predicate Benign(a: Img, b: Img, c: Change) {
    Changed(a, b, c) && Harmless(TreeOf(a), c.ev) && !c.spills
  }

  /** What is lost stays lost. */
  lemma {:induction false} LossStays(imgs: seq<Img>, cs: seq<Change>)
    requires Changes(imgs, cs)
    ensures Lost(imgs[0]) <= Lost(imgs[|cs|])
    ensures Lost(imgs[|cs|]) == Lost(imgs[0]) <==> forall k {:trigger cs[k]} :: 0 <= k < |cs| ==> !cs[k].spills
    decreases |cs|
  {
    hide Lost, Apply, TreeOf, Enabled, Shaped;
    if cs != [] {
      var last := |cs| - 1;
      LossStays(imgs[..|cs|], cs[..last]);
      assert Changed(imgs[last], imgs[last + 1], cs[last]);
      assert forall k {:trigger cs[k]} :: 0 <= k < last ==> cs[..last][k] == cs[k];
    }
  }

  lemma TreesRun(imgs: seq<Img>, cs: seq<Change>) returns (ts: seq<Tree>, evs: seq<Event>)
    requires Changes(imgs, cs) && Shaped(imgs[0])
    ensures |ts| == |imgs| && |evs| == |cs| && Run(ts, evs, imgs[0].sb.ninodes)
    ensures forall k :: 0 <= k < |cs| ==> evs[k] == cs[k].ev
    ensures forall k :: 0 <= k < |imgs| ==> Shaped(imgs[k]) && imgs[k].sb == imgs[0].sb && ts[k] == TreeOf(imgs[k])
  {
    hide Lost, Apply, TreeOf, Enabled;
    AllShaped(imgs, cs);
    ts := seq(|imgs|, k requires 0 <= k < |imgs| && Shaped(imgs[k]) => TreeOf(imgs[k]));
    evs := seq(|cs|, k requires 0 <= k < |cs| => cs[k].ev);
    forall k | 0 <= k < |evs|
      ensures Enabled(ts[k], evs[k], imgs[0].sb.ninodes) && ts[k + 1] == Apply(ts[k], evs[k], imgs[0].sb.ninodes)
    {
      assert Changed(imgs[k], imgs[k + 1], cs[k]);
    }
  }

  lemma {:induction false} AllShaped(imgs: seq<Img>, cs: seq<Change>)
    requires Changes(imgs, cs) && Shaped(imgs[0])
    ensures forall k :: 0 <= k < |imgs| ==> Shaped(imgs[k]) && imgs[k].sb == imgs[0].sb
    decreases |cs|
  {
    hide Lost, Apply, TreeOf, Enabled, Shaped;
    if cs != [] {
      var last := |cs| - 1;
      assert forall k {:trigger cs[k]} :: 0 <= k < last ==> cs[..last][k] == cs[k];
      AllShaped(imgs[..|cs|], cs[..last]);
      ChangedShape(imgs[last], imgs[last + 1], cs[last]);
      assert forall k :: 0 <= k < |cs| ==> imgs[..|cs|][k] == imgs[k];
    }
  }

  lemma ChangedShape(a: Img, b: Img, c: Change)
    requires Changed(a, b, c)
    ensures Shaped(a) && Shaped(b) && b.sb == a.sb
  {
  }

  /** On every run of file writes and creates from a volume that passes fsck: it passes
      at the end exactly if every change on the way was harmless and lost no zone. No
      later change makes up for an earlier one. */
  lemma RunKeepsFsck(imgs: seq<Img>, cs: seq<Change>)
    requires Changes(imgs, cs) && Shaped(imgs[0]) && Fsck(imgs[0])
    ensures Shaped(imgs[|cs|])
    ensures Fsck(imgs[|cs|]) <==> forall k {:trigger cs[k]} :: 0 <= k < |cs| ==> Benign(imgs[k], imgs[k + 1], cs[k])
  {
    hide Lost, Apply, TreeOf, Enabled, TreeSound, Shaped;
    var ts, evs := TreesRun(imgs, cs);
    LossStays(imgs, cs);
    RunKeepsTreeSound(ts, evs, imgs[0].sb.ninodes);
    forall k | 0 <= k < |cs|
      ensures Benign(imgs[k], imgs[k + 1], cs[k]) <==> Harmless(ts[k], evs[k]) && !cs[k].spills
    {
      assert Changed(imgs[k], imgs[k + 1], cs[k]);
    }
  }

  // ---- names and zones -------------------------------------------------------------

  /** A name that is there is created again exactly if the inode it leads to has no known
      type and a slot, a number and room for the entry are free. With a full cache it
      never is. */
  lemma ExistingNameBlocksCreate(img: Img, cache: seq<Slot>, s: nat, name: seq<byte>, kind: Kind, k: nat)
    requires Shaped(img) && Coherent(img, cache) && s < MAX_INODES && cache[s].ino != 0 && cache[s].ino in img.itab
    requires k < |EntriesOf(img, cache[s].ino)|
    requires var e := EntriesOf(img, cache[s].ino)[k]; e.ino != 0 && e.name == name
    ensures LookupIno(img, cache[s].ino, name) != 0
    ensures !Outcome(img, cache, s, name, kind).Nothing? <==>
      && cache[s].kind == DirKind && (kind == FileKind || kind == DirKind) && NameFits(name)
      && Unknown(img, LookupIno(img, cache[s].ino, name))
      && Cached(cache, 0) && FirstUnused(img.live, 1, img.sb.ninodes) != 0
      && CanPlace(img, cache[s].ino, InsertBlock(img, cache[s].ino))
  {
    hide Entries, CanPlace, Cost, InsertBlock, FreeZones;
    var i := LookupIno(img, cache[s].ino, name);
    if Cached(cache, i) {
      CachedIsKnown(img, cache, i);
    }
  }

  /** Lookup and readdir describe the same names: with unique names, what lookup
      gives for a name is the number of the one live entry that carries it. */
  lemma LookupIsReaddir(img: Img, d: nat, name: seq<byte>, i: nat)
    requires d in img.itab && UniqueIn(EntriesOf(img, d)) && i != 0
    ensures LookupIno(img, d, name) == i <==> Names(EntriesOf(img, d), name, i)
  {
    hide EntriesOf, UniqueIn, Names;
    FindsTheName(EntriesOf(img, d), name, i);
  }

  lemma FindsTheName(es: seq<Dirent>, name: seq<byte>, i: nat)
    requires UniqueIn(es) && i != 0
    ensures (FindName(es, name) < |es| && es[FindName(es, name)].ino == i) <==> Names(es, name, i)
  {
    var k := FindName(es, name);
    if Names(es, name, i) {
      var j :| 0 <= j < |es| && es[j].ino == i && es[j].name == name;
      assert k <= j;
      assert es[k].ino != 0 && es[k].name == es[j].name;
    }
  }

  /** A zone of a live file is neither free nor shared, so handing out the least
      free zone never takes one that is in use. */
  lemma AllocatedZoneWasUnused(img: Img, z: nat, i: nat, r: Role)
    requires Sane(img) && z in img.data && z !in img.taken && i in img.live
    ensures Zone(img, i, r) != z
  {
    assert img.sb.firstDataZone > 0;
  }
}
