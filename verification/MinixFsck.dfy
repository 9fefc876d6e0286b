/** What fsck checks of the tree, which events keep it, and what that means for whole
    runs: a volume passes at the end exactly if no event on the way did harm. */
module MinixFsck {
  import opened Bytes
  import opened MinixFormat
  import opened MinixTree

  // ---- the shape of the tree ---------------------------------------------------

  /** Directory `p` has an entry for node `d`. */
  ghost predicate Linked(t: Tree, p: nat, d: nat) {
    p in t && t[p].IsDir() && exists name :: Names(Entries(t[p].bytes), name, d)
  }

  /** Directory `p` holds node `d`, under a name that is not one of its dots. */
  ghost predicate Holds(t: Tree, p: nat, d: nat) {
    p in t && t[p].IsDir() && exists name :: name != DOT && name != DOT_DOT && Names(Entries(t[p].bytes), name, d)
  }

  /** A directory's ".." names the directory that holds it. */
  ghost predicate ParentsRight(t: Tree) {
    forall p, d {:trigger Holds(t, p, d)} :: Holds(t, p, d) && d in t && t[d].IsDir() ==>
      Names(Entries(t[d].bytes), DOT_DOT, p)
  }

  /** The root is a directory and its own parent. */
  ghost predicate Rooted(t: Tree) {
    ROOT_INO in t && t[ROOT_INO].IsDir() && Names(Entries(t[ROOT_INO].bytes), DOT_DOT, ROOT_INO)
  }

  ghost predicate Path(t: Tree, path: seq<nat>) {
    && path != [] && path[0] == ROOT_INO
    && forall k :: 0 <= k < |path| - 1 ==> Linked(t, path[k], path[k + 1])
  }

  ghost predicate Reachable(t: Tree, i: nat) {
    exists path :: Path(t, path) && path[|path| - 1] == i
  }

  /** Every node can be found from the root. */
  ghost predicate AllReachable(t: Tree) {
    forall i {:trigger Reachable(t, i)} :: i in t ==> Reachable(t, i)
  }

  /** What fsck checks of the tree. Inode numbers run from 1 to `n`. */
  ghost predicate TreeSound(t: Tree, n: nat) {
    && (forall i :: i in t ==> 1 <= i <= n < 0x1_0000)
    && DirsSound(t)
    && UniqueNames(t)
    && LinksExact(t, n)
    && AllDotted(t)
    && ParentsRight(t)
    && Rooted(t)
    && AllReachable(t)
  }

  // ---- trees that are alike ---------------------------------------------------------

  /** The same nodes with the same links and contents, the directories the same. */
  ghost predicate Alike(t: Tree, t': Tree) {
    && t'.Keys == t.Keys
    && forall i {:trigger t'[i]} :: i in t ==>
         t'[i].IsDir() == t[i].IsDir() && t'[i].bytes == t[i].bytes && t'[i].links == t[i].links
  }

  lemma AlikeLinks(t: Tree, t': Tree, n: nat, i: nat)
    requires Alike(t, t')
    ensures LinkCount(t', n, i) == LinkCount(t, n, i)
  {
    hide Node.IsDir, Entries, Mentions, LinkCount;
    forall j
      ensures MentionsIn(t', j, i) == MentionsIn(t, j, i)
    {
      assert j in t ==> t'[j].bytes == t[j].bytes;
    }
    LinkCountSame(t, t', n, i);
  }

  lemma AlikeReachable(t: Tree, t': Tree, i: nat)
    requires Alike(t, t') && Reachable(t, i)
    ensures Reachable(t', i)
  {
    hide Node.IsDir, Entries, Names;
    var path :| Path(t, path) && path[|path| - 1] == i;
    forall k | 0 <= k < |path| - 1
      ensures Linked(t', path[k], path[k + 1])
    {
      assert Linked(t, path[k], path[k + 1]) && t'[path[k]].bytes == t[path[k]].bytes;
    }
    assert Path(t', path);
  }

  lemma AlikeDirs(t: Tree, t': Tree)
    requires Alike(t, t') && DirsSound(t) && UniqueNames(t) && AllDotted(t)
    ensures DirsSound(t') && UniqueNames(t') && AllDotted(t')
  {
    hide Node.IsDir, Entries, Names, UniqueIn;
    forall d | d in t' && t'[d].IsDir()
      ensures |t'[d].bytes| % DIRENT_SIZE == 0 && EntriesSound(t', Entries(t'[d].bytes))
      ensures UniqueIn(Entries(t'[d].bytes)) && Dotted(t', d)
    {
      assert t'[d].bytes == t[d].bytes && EntriesSound(t, Entries(t[d].bytes)) && Dotted(t, d);
      var p :| p in t && t[p].IsDir() && Names(Entries(t[d].bytes), DOT_DOT, p);
      assert t'[p].IsDir();
    }
  }

  lemma AlikeParents(t: Tree, t': Tree)
    requires Alike(t, t') && ParentsRight(t) && Rooted(t)
    ensures ParentsRight(t') && Rooted(t')
  {
    hide Node.IsDir, Entries, Names;
    forall p, d | Holds(t', p, d) && d in t' && t'[d].IsDir()
      ensures Names(Entries(t'[d].bytes), DOT_DOT, p)
    {
      assert t'[p].bytes == t[p].bytes && t'[d].bytes == t[d].bytes && Holds(t, p, d);
    }
    assert t'[ROOT_INO].bytes == t[ROOT_INO].bytes;
  }

  /** Which types nodes have, directories apart, is all the same to fsck. */
  lemma AlikeIsSound(t: Tree, t': Tree, n: nat)
    requires Alike(t, t') && TreeSound(t, n)
    ensures TreeSound(t', n)
  {
    hide Node.IsDir, DirsSound, UniqueNames, AllDotted, ParentsRight, Rooted, Reachable, LinkCount;
    AlikeDirs(t, t');
    AlikeParents(t, t');
    forall i | i in t'
      ensures 0 < t'[i].links == LinkCount(t', n, i) && Reachable(t', i)
    {
      AlikeLinks(t, t', n, i);
      assert t'[i].links == t[i].links && Reachable(t, i);
      AlikeReachable(t, t', i);
    }
  }

  // ---- what events keep ----------------------------------------------------------

  lemma EffectKeepsLinked(t: Tree, ev: Event, t': Tree, n: nat, p: nat, d: nat)
    requires Effect(t, ev, t', n) && Linked(t, p, d) && d != 0
    ensures Linked(t', p, d)
  {
    var name :| Names(Entries(t[p].bytes), name, d);
    EffectKeepsNames(t, ev, t', n, p, name, d);
  }

  lemma EffectKeepsPath(t: Tree, ev: Event, t': Tree, n: nat, path: seq<nat>)
    requires Effect(t, ev, t', n) && Path(t, path) && forall k :: 0 <= k < |path| ==> path[k] != 0
    ensures Path(t', path)
  {
    forall k | 0 <= k < |path| - 1
      ensures Linked(t', path[k], path[k + 1])
    {
      EffectKeepsLinked(t, ev, t', n, path[k], path[k + 1]);
    }
  }

  /** On a path to a node that exists there are only nodes that exist. */
  lemma PathInTree(t: Tree, path: seq<nat>)
    requires Path(t, path) && path[|path| - 1] in t
    ensures forall k :: 0 <= k < |path| ==> path[k] in t
  {
    forall k | 0 <= k < |path|
      ensures path[k] in t
    {
      if k < |path| - 1 {
        assert Linked(t, path[k], path[k + 1]);
      }
    }
  }

  /** Nobody is cut off, and a new node is found where it was made. */
  lemma EventKeepsReachable(t: Tree, ev: Event, n: nat)
    requires DirsSound(t) && 0 !in t && AllReachable(t) && Enabled(t, ev, n)
    ensures AllReachable(Apply(t, ev, n))
  {
    hide Apply, Entries, FindName, KindOfMode, AddEntry, NewbornEntries, EntriesAfter, EntriesSound, Names;
    var t' := Apply(t, ev, n);
    EventEffect(t, ev, n);
    forall i | i in t
      ensures Reachable(t', i)
    {
      assert Reachable(t, i);
      var path :| Path(t, path) && path[|path| - 1] == i;
      PathInTree(t, path);
      EffectKeepsPath(t, ev, t', n, path);
    }
    if Creates(ev) {
      CreatedIsNamed(t, ev, n);
      assert ev.dir in t && Reachable(t', ev.dir);
      var path :| Path(t', path) && path[|path| - 1] == ev.dir;
      var longer := path + [ev.ino];
      assert Linked(t', ev.dir, ev.ino);
      forall k | 0 <= k < |longer| - 1
        ensures Linked(t', longer[k], longer[k + 1])
      {
        if k < |path| - 1 {
          assert Linked(t', path[k], path[k + 1]);
        }
      }
      assert Path(t', longer);
      assert Reachable(t', ev.ino);
    }
  }

  /** A directory made properly has the parent that holds it; the others keep theirs. */
  lemma EventKeepsParents(t: Tree, ev: Event, n: nat)
    requires DirsSound(t) && 0 !in t && ParentsRight(t) && Enabled(t, ev, n) && !ev.Stranded?
    ensures ParentsRight(Apply(t, ev, n))
  {
    hide Apply, Enabled, FindName, KindOfMode, AddEntry, Entries;
    var t' := Apply(t, ev, n);
    EventEffect(t, ev, n);
    forall p, d | Holds(t', p, d) && d in t' && t'[d].IsDir()
      ensures Names(Entries(t'[d].bytes), DOT_DOT, p)
    {
      ParentAfter(t, ev, t', n, p, d);
    }
  }

  lemma ParentAfter(t: Tree, ev: Event, t': Tree, n: nat, p: nat, d: nat)
    requires DirsSound(t) && 0 !in t && ParentsRight(t) && Effect(t, ev, t', n) && !ev.Stranded?
    requires Holds(t', p, d) && d in t' && t'[d].IsDir()
    ensures Names(Entries(t'[d].bytes), DOT_DOT, p)
  {
    hide FindName, KindOfMode, Entries;
    var name :| name != DOT && name != DOT_DOT && Names(Entries(t'[p].bytes), name, d);
    assert p in t ==> t'[p].mode == t[p].mode;
    assert d in t ==> t'[d].mode == t[d].mode;
    if p in t {
      if Names(Entries(t[p].bytes), name, d) {
        assert Holds(t, p, d) && EntriesSound(t, Entries(t[p].bytes));
        EffectKeepsNames(t, ev, t', n, d, DOT_DOT, p);
      } else {
        InsertNamesNew(Entries(t[p].bytes), Dirent(ev.ino, ev.name), name, d);
        DotsName(ev, Entries(t'[d].bytes));
      }
    }
  }

  lemma DotsName(ev: Event, es: seq<Dirent>)
    requires ev.MadeDir? && 0 < ev.ino < 0x1_0000 && ev.dir < 0x1_0000 && es == NewbornEntries(ev)
    ensures Names(es, DOT_DOT, ev.dir)
  {
    assert es[1] == Dirent(ev.dir, DOT_DOT);
  }

  lemma InsertNamesNew(es: seq<Dirent>, e: Dirent, name: seq<byte>, d: nat)
    requires Names(InsertEntry(es, e), name, d) && !Names(es, name, d)
    ensures e.ino == d
  {
    var es' := InsertEntry(es, e);
    forall j | 0 <= j < |es'| && j != FreeSlot(es)
      ensures es'[j] == es[j]
    {
    }
  }

  /** The events fsck will not object to. It does to a stranded directory, to one whose
      parent's 8-bit link count has no room, and to a name given twice. */
  ghost predicate Harmless(t: Tree, ev: Event) {
    !ev.Stranded? && (ev.MadeDir? && ev.dir in t ==> t[ev.dir].links < 255) && !Doubles(t, ev)
  }

  /** An event keeps the tree sound exactly if it is harmless. */
  lemma EventKeepsTreeSound(t: Tree, ev: Event, n: nat)
    requires TreeSound(t, n) && Enabled(t, ev, n)
    ensures TreeSound(Apply(t, ev, n), n) <==> Harmless(t, ev)
  {
    hide Apply, FindName, KindOfMode, AddEntry, Entries, Doubles;
    EventKeepsLinks(t, ev, n);
    var t' := Apply(t, ev, n);
    EventEffect(t, ev, n);
    EffectKeepsUniqueNames(t, ev, t', n);
    if Harmless(t, ev) {
      EffectKeepsDirsSound(t, ev, t', n);
      EffectKeepsDots(t, ev, t', n);
      EventKeepsParents(t, ev, n);
      EventKeepsReachable(t, ev, n);
      assert t'[ROOT_INO].mode == t[ROOT_INO].mode;
      EffectKeepsNames(t, ev, t', n, ROOT_INO, DOT_DOT, ROOT_INO);
    }
  }

  // ---- harm is for ever ------------------------------------------------------------

  /** Some link count is wrong. */
  ghost predicate Miscounted(t: Tree, n: nat) {
    exists i :: i in t && i != 0 && t[i].links != LinkCount(t, n, i)
  }

  /** Counts rise by what is added: a wrong one stays wrong, whatever happens. */
  lemma MiscountStays(t: Tree, ev: Event, n: nat)
    requires DirsSound(t) && Enabled(t, ev, n) && Miscounted(t, n)
    ensures Miscounted(Apply(t, ev, n), n)
  {
    hide Apply, FindName, KindOfMode, AddEntry, Entries, LinkCount;
    var i :| i in t && i != 0 && t[i].links != LinkCount(t, n, i);
    EventEffect(t, ev, n);
    EffectLinkCount(t, ev, Apply(t, ev, n), n, i);
    EventLinks(t, ev, n, i);
  }

  /** Harm that stays: a wrong link count, or a name given twice. */
  ghost predicate Damaged(t: Tree, n: nat) { Miscounted(t, n) || !UniqueNames(t) }

  lemma DamageStays(t: Tree, ev: Event, n: nat)
    requires DirsSound(t) && Enabled(t, ev, n) && Damaged(t, n)
    ensures Damaged(Apply(t, ev, n), n)
  {
    hide Apply, Enabled, DirsSound, Doubles, UniqueNames, Effect, Miscounted;
    EventEffect(t, ev, n);
    EffectKeepsUniqueNames(t, ev, Apply(t, ev, n), n);
    if Miscounted(t, n) {
      MiscountStays(t, ev, n);
    }
  }

  /** Harm shows in the link counts, or in the names. */
  lemma HarmDamages(t: Tree, ev: Event, n: nat)
    requires DirsSound(t) && LinksExact(t, n) && UniqueNames(t) && 0 !in t && Enabled(t, ev, n) && !Harmless(t, ev)
    ensures Damaged(Apply(t, ev, n), n)
  {
    hide Apply, FindName, KindOfMode, AddEntry, Entries, LinkCount, Doubles;
    EventEffect(t, ev, n);
    EffectKeepsUniqueNames(t, ev, Apply(t, ev, n), n);
    if !Doubles(t, ev) {
      var i := if ev.Stranded? then ev.ino else ev.dir;
      EffectLinkCount(t, ev, Apply(t, ev, n), n, i);
      EventLinks(t, ev, n, i);
      if ev.Stranded? {
        UnusedIsUnnamed(t, n, i);
      } else {
        assert t[i].links == LinkCount(t, n, i);
      }
    }
  }

  /** On every run from a sound tree: the tree is sound at the end exactly if every
      event on the way was harmless. Otherwise a link count is wrong, or a name there
      twice, for good. */
  lemma {:induction false} RunKeepsTreeSound(ts: seq<Tree>, evs: seq<Event>, n: nat)
    requires Run(ts, evs, n) && TreeSound(ts[0], n)
    ensures DirsSound(ts[|evs|])
    ensures TreeSound(ts[|evs|], n) <==> forall k {:trigger evs[k]} :: 0 <= k < |evs| ==> Harmless(ts[k], evs[k])
    ensures !TreeSound(ts[|evs|], n) ==> Damaged(ts[|evs|], n)
  {
    hide TreeSound, Damaged, Apply, DirsSound, Harmless;
    SoundMeans(ts[0], n);
    if evs != [] {
      var last := |evs| - 1;
      var ts0, evs0 := ts[..|evs|], evs[..last];
      RunKeepsTreeSound(ts0, evs0, n);
      forall k | 0 <= k < last
        ensures Harmless(ts0[k], evs0[k]) == Harmless(ts[k], evs[k])
      {
        assert evs0[k] == evs[k] && ts0[k] == ts[k];
      }
      var t, ev := ts[last], evs[last];
      EventKeepsDirsSound(t, ev, n);
      SoundMeans(Apply(t, ev, n), n);
      if TreeSound(t, n) {
        SoundMeans(t, n);
        EventKeepsTreeSound(t, ev, n);
        if !Harmless(t, ev) {
          HarmDamages(t, ev, n);
        }
      } else {
        DamageStays(t, ev, n);
      }
    }
  }

  lemma SoundMeans(t: Tree, n: nat)
    ensures TreeSound(t, n) ==> DirsSound(t) && UniqueNames(t) && LinksExact(t, n) && 0 !in t && !Damaged(t, n)
  {
    if TreeSound(t, n) {
      forall i | i in t && i != 0
        ensures t[i].links == LinkCount(t, n, i)
      {
      }
    }
  }

  lemma EventKeepsDirsSound(t: Tree, ev: Event, n: nat)
    requires DirsSound(t) && Enabled(t, ev, n)
    ensures DirsSound(Apply(t, ev, n))
  {
    EventEffect(t, ev, n);
    EffectKeepsDirsSound(t, ev, Apply(t, ev, n), n);
  }

  /** On every run, stranded directories included, every node stays reachable. */
  lemma {:induction false} RunKeepsReachable(ts: seq<Tree>, evs: seq<Event>, n: nat)
    requires Run(ts, evs, n) && DirsSound(ts[0]) && 0 !in ts[0] && AllReachable(ts[0])
    ensures DirsSound(ts[|evs|]) && 0 !in ts[|evs|] && AllReachable(ts[|evs|])
  {
    hide Apply, DirsSound, AllReachable;
    if evs != [] {
      var last := |evs| - 1;
      RunKeepsReachable(ts[..|evs|], evs[..last], n);
      EventKeepsDirsSound(ts[last], evs[last], n);
      EventKeepsReachable(ts[last], evs[last], n);
      EventKeepsNumbers(ts[last], evs[last], n);
    }
  }

  lemma EventKeepsNumbers(t: Tree, ev: Event, n: nat)
    requires 0 !in t && Enabled(t, ev, n)
    ensures 0 !in Apply(t, ev, n)
  {
  }
}
