/** The file system as its users see it: numbered nodes with a type, a link count
    and contents, where the contents of a directory are 16-byte entries. This
    module says what fsck calls consistent and proves which operations keep it,
    over whole runs. */
module MinixTree {
  import opened Bytes
  import opened MinixFormat

  datatype Node = Node(mode: u16, uid: u16, gid: byte, time: u32, links: byte, bytes: seq<byte>)
  {
    predicate IsDir() { KindOfMode(mode) == DirKind }
  }

  type Tree = map<nat, Node>

  // ---- directories -----------------------------------------------------------

  function Entry(bytes: seq<byte>, k: nat): Dirent
    requires (k + 1) * DIRENT_SIZE <= |bytes|
  {
    DirentOf(bytes[k * DIRENT_SIZE..(k + 1) * DIRENT_SIZE])
  }

  function Entries(bytes: seq<byte>): (r: seq<Dirent>)
    ensures |r| == |bytes| / DIRENT_SIZE
  {
    seq(|bytes| / DIRENT_SIZE, k requires 0 <= k < |bytes| / DIRENT_SIZE => Entry(bytes, k))
  }

  /** The first deleted entry, or the end. */
  function FreeSlot(es: seq<Dirent>): (k: nat)
    ensures k <= |es| && (k < |es| ==> es[k].ino == 0)
    ensures forall j :: 0 <= j < k ==> es[j].ino != 0
  {
    if es == [] || es[0].ino == 0 then 0 else 1 + FreeSlot(es[1..])
  }

  /** The first live entry called `name`, or the end. */
  function FindName(es: seq<Dirent>, name: seq<byte>): (k: nat)
    ensures k <= |es| && (k < |es| ==> es[k].ino != 0 && es[k].name == name)
    ensures forall j :: 0 <= j < k ==> es[j].ino == 0 || es[j].name != name
  {
    if es == [] || (es[0].ino != 0 && es[0].name == name) then 0 else 1 + FindName(es[1..], name)
  }

  function InsertEntry(es: seq<Dirent>, e: Dirent): seq<Dirent> {
    var k := FreeSlot(es);
    if k < |es| then es[k := e] else es + [e]
  }

  /** The bytes of a directory after an entry was put in its first free place. */
  function AddEntry(bytes: seq<byte>, e: Dirent): (r: seq<byte>)
    ensures |r| >= |bytes|
  {
    Splice(bytes, FreeSlot(Entries(bytes)) * DIRENT_SIZE, DirentBytes(e))
  }

  /** The entries of a directory after 16 bytes were written in place `k`. */
  lemma SplicedEntries(bytes: seq<byte>, k: nat, w: seq<byte>)
    requires |bytes| % DIRENT_SIZE == 0 && k <= |bytes| / DIRENT_SIZE && |w| == DIRENT_SIZE
    ensures var r := Splice(bytes, k * DIRENT_SIZE, w);
      && |r| == (if k < |bytes| / DIRENT_SIZE then |bytes| else |bytes| + DIRENT_SIZE)
      && r[k * DIRENT_SIZE..(k + 1) * DIRENT_SIZE] == w
  {
    hide DirentOf;
  }

  lemma OtherEntry(bytes: seq<byte>, k: nat, w: seq<byte>, j: nat)
    requires |bytes| % DIRENT_SIZE == 0 && k <= |bytes| / DIRENT_SIZE && |w| == DIRENT_SIZE
    requires j < |bytes| / DIRENT_SIZE && j != k
    ensures (j + 1) * DIRENT_SIZE <= |Splice(bytes, k * DIRENT_SIZE, w)|
    ensures Entry(Splice(bytes, k * DIRENT_SIZE, w), j) == Entry(bytes, j)
  {
    hide DirentOf;
    var r := Splice(bytes, k * DIRENT_SIZE, w);
    assert r[j * DIRENT_SIZE..(j + 1) * DIRENT_SIZE] == bytes[j * DIRENT_SIZE..(j + 1) * DIRENT_SIZE];
  }

  /** Writing the 16 bytes of an entry is inserting it in the list of entries. */
  lemma AddEntryInserts(bytes: seq<byte>, e: Dirent)
    requires |bytes| % DIRENT_SIZE == 0 && NameFits(e.name)
    ensures |AddEntry(bytes, e)| % DIRENT_SIZE == 0
    ensures Entries(AddEntry(bytes, e)) == InsertEntry(Entries(bytes), e)
  {
    hide Splice, DirentBytes, DirentOf;
    var es := Entries(bytes);
    var k := FreeSlot(es);
    var r := AddEntry(bytes, e);
    DirentRoundTrip(e);
    SplicedEntries(bytes, k, DirentBytes(e));
    forall j | 0 <= j < |r| / DIRENT_SIZE
      ensures Entry(r, j) == if j == k then e else es[j]
    {
      if j != k {
        OtherEntry(bytes, k, DirentBytes(e), j);
      }
    }
  }

  ghost predicate UniqueIn(es: seq<Dirent>) {
    forall j, k :: 0 <= j < k < |es| && es[j].ino != 0 && es[k].ino != 0 ==> es[j].name != es[k].name
  }

  predicate Names(es: seq<Dirent>, name: seq<byte>, ino: nat) {
    exists k :: 0 <= k < |es| && es[k].ino == ino && es[k].name == name
  }

  /** Inserting keeps names unique exactly if the name was not there. */
  lemma InsertKeepsUnique(es: seq<Dirent>, e: Dirent)
    requires UniqueIn(es) && e.ino != 0
    ensures UniqueIn(InsertEntry(es, e)) <==> FindName(es, e.name) == |es|
  {
    var es', k, o := InsertEntry(es, e), FreeSlot(es), FindName(es, e.name);
    if o < |es| {
      assert es'[o] == es[o] && es'[k] == e && o != k;
    } else {
      forall i, j | 0 <= i < j < |es'| && es'[i].ino != 0 && es'[j].ino != 0
        ensures es'[i].name != es'[j].name
      {
        if i == k || j == k {
          var o := if i == k then j else i;
          assert es'[o] == es[o];
        }
      }
    }
  }

  /** A name that is there twice stays there twice. */
  lemma InsertKeepsDoubles(es: seq<Dirent>, e: Dirent)
    requires !UniqueIn(es)
    ensures !UniqueIn(InsertEntry(es, e))
  {
    var i, j :| 0 <= i < j < |es| && es[i].ino != 0 && es[j].ino != 0 && es[i].name == es[j].name;
    assert InsertEntry(es, e)[i] == es[i] && InsertEntry(es, e)[j] == es[j];
  }

  /** Who looks for the name afterwards finds the new entry if it came before the old one,
      in a place that was deleted; otherwise the old one. */
  lemma InsertedIsFound(es: seq<Dirent>, e: Dirent)
    requires e.ino != 0
    ensures FindName(InsertEntry(es, e), e.name) == if FreeSlot(es) <= FindName(es, e.name) then FreeSlot(es) else FindName(es, e.name)
  {
    var es', k, o := InsertEntry(es, e), FreeSlot(es), FindName(es, e.name);
    var f := FindName(es', e.name);
    assert es'[k] == e && (o < |es| ==> es'[o] == es[o]);
    assert f <= k && (o < |es| ==> f <= o);
    assert f < k ==> es'[f] == es[f];
  }

  lemma InsertKeepsNames(es: seq<Dirent>, e: Dirent, name: seq<byte>, ino: nat)
    requires ino != 0 && Names(es, name, ino)
    ensures Names(InsertEntry(es, e), name, ino)
  {
    var k :| 0 <= k < |es| && es[k].ino == ino && es[k].name == name;
    assert InsertEntry(es, e)[k] == es[k];
  }

  lemma InsertedIsNamed(es: seq<Dirent>, e: Dirent)
    ensures Names(InsertEntry(es, e), e.name, e.ino)
  {
    assert InsertEntry(es, e)[FreeSlot(es)] == e;
  }

  // ---- link counts -----------------------------------------------------------

  /** How many entries of one directory name inode `i`. */
  function Mentions(es: seq<Dirent>, i: nat): nat {
    if es == [] then 0 else (if es[|es| - 1].ino == i then 1 else 0) + Mentions(es[..|es| - 1], i)
  }

  function MentionsIn(t: Tree, d: nat, i: nat): nat {
    if d in t && t[d].IsDir() then Mentions(Entries(t[d].bytes), i) else 0
  }

  /** How many entries of all directories up to inode number `n` name inode `i`. */
  function LinkCount(t: Tree, n: nat, i: nat): nat {
    if n == 0 then 0 else LinkCount(t, n - 1, i) + MentionsIn(t, n, i)
  }

  lemma {:induction false} MentionsUpdate(es: seq<Dirent>, k: nat, e: Dirent, i: nat)
    requires k < |es| && es[k].ino == 0 && i != 0
    ensures Mentions(es[k := e], i) == Mentions(es, i) + if e.ino == i then 1 else 0
  {
    var n := |es| - 1;
    if k == n {
      assert es[k := e][..n] == es[..n];
    } else {
      assert es[k := e][..n] == es[..n][k := e];
      MentionsUpdate(es[..n], k, e, i);
    }
  }

  lemma InsertMentions(es: seq<Dirent>, e: Dirent, i: nat)
    requires i != 0
    ensures Mentions(InsertEntry(es, e), i) == Mentions(es, i) + if e.ino == i then 1 else 0
  {
    var k := FreeSlot(es);
    if k < |es| {
      MentionsUpdate(es, k, e, i);
    } else {
      assert (es + [e])[..|es|] == es;
    }
  }

  /** Two trees that agree on all directories but `d` differ in their link counts
      by what `d` contributes. */
  lemma {:induction false} LinkCountChange(a: Tree, b: Tree, n: nat, d: nat, i: nat)
    requires forall j :: j != d ==> MentionsIn(a, j, i) == MentionsIn(b, j, i)
    requires d > 0
    ensures LinkCount(b, n, i) - LinkCount(a, n, i) == if d <= n then MentionsIn(b, d, i) - MentionsIn(a, d, i) else 0
  {
    if n > 0 {
      LinkCountChange(a, b, n - 1, d, i);
    }
  }

  // ---- consistency -----------------------------------------------------------

  /** Every directory is a whole number of entries, and every live entry names a
      node that exists, of whatever type. */
  ghost predicate DirsSound(t: Tree) {
    forall d :: d in t && t[d].IsDir() ==>
      && |t[d].bytes| % DIRENT_SIZE == 0
      && EntriesSound(t, Entries(t[d].bytes))
  }

  ghost predicate EntriesSound(t: Tree, es: seq<Dirent>) {
    forall k :: 0 <= k < |es| && es[k].ino != 0 ==> es[k].ino in t
  }

  /** The name is there, and the node it names has a type the kernel does not know: it is
      never loaded, so whoever looks for the name does not find it. */
  predicate Hidden(t: Tree, es: seq<Dirent>, name: seq<byte>) {
    var k := FindName(es, name);
    k < |es| && es[k].ino in t && KindOfMode(t[es[k].ino].mode) == NoKind
  }

  ghost predicate UniqueNames(t: Tree) {
    forall d :: d in t && t[d].IsDir() ==> UniqueIn(Entries(t[d].bytes))
  }

  /** The link count of a node is the number of entries naming it, and it is
      named at least once. */
  ghost predicate LinksExact(t: Tree, n: nat) {
    forall i {:trigger t[i].links} :: i in t ==> 0 < t[i].links == LinkCount(t, n, i)
  }

  const DOT: seq<byte> := [0x2E]
  const DOT_DOT: seq<byte> := [0x2E, 0x2E]

  /** Every directory names itself "." and some directory "..". */
  ghost predicate Dotted(t: Tree, d: nat)
    requires d in t
  {
    var es := Entries(t[d].bytes);
    && Names(es, DOT, d)
    && exists p :: p in t && t[p].IsDir() && Names(es, DOT_DOT, p)
  }

  ghost predicate AllDotted(t: Tree) {
    forall d {:trigger Dotted(t, d)} :: d in t && t[d].IsDir() ==> Dotted(t, d)
  }

  // ---- what the operations do to the tree -------------------------------------

  function Newborn(kind: Kind): Node {
    Node(BirthMode(kind), 0, 0, 0, if kind == DirKind then 2 else 1, [])
  }

  /** Node `i` gets the name `name` in directory `d`. */
  function Link(t: Tree, d: nat, name: seq<byte>, i: u16): Tree
    requires d in t
  {
    t[d := t[d].(bytes := AddEntry(t[d].bytes, Dirent(i, name)))]
  }

  datatype Event =
    | Nothing
    | Wrote(file: nat, off: nat, data: seq<byte>)
    | MadeFile(dir: nat, name: seq<byte>, ino: nat)
    | MadeDir(dir: nat, name: seq<byte>, ino: nat)
    | Stranded(dir: nat, name: seq<byte>, ino: nat)

  /** The events that bring a node into being. */
  predicate Creates(ev: Event) { ev.MadeFile? || ev.MadeDir? || ev.Stranded? }

  function Dots(self: u16, parent: u16): seq<byte> {
    DirentBytes(Dirent(self, DOT)) + DirentBytes(Dirent(parent, DOT_DOT))
  }

  ghost predicate Enabled(t: Tree, ev: Event, n: nat) {
    match ev
    case Nothing => true
    case Wrote(i, _, _) => i in t && !t[i].IsDir()
    case MadeFile(d, name, i) => CanCreate(t, d, name, i, n)
    case MadeDir(d, name, i) => CanCreate(t, d, name, i, n)
    case Stranded(d, name, i) => CanCreate(t, d, name, i, n)
  }

  /** A name nobody finds in an existing directory, for a number nobody uses. */
  ghost predicate CanCreate(t: Tree, d: nat, name: seq<byte>, i: nat, n: nat) {
    && d in t && t[d].IsDir() && NameFits(name)
    && (FindName(Entries(t[d].bytes), name) == |Entries(t[d].bytes)| || Hidden(t, Entries(t[d].bytes), name))
    && 1 <= i <= n < 0x1_0000 && i !in t
    && 1 <= d <= n
  }

  /** The event gives a name a second time: it was there, hidden. */
  predicate Doubles(t: Tree, ev: Event) {
    Creates(ev) && ev.dir in t && Hidden(t, Entries(t[ev.dir].bytes), ev.name)
  }

  /** The tree after an event. A directory is stranded when its name is in the
      parent and its "." could not be written: that is not undone. */
  ghost function Apply(t: Tree, ev: Event, n: nat): Tree
    requires Enabled(t, ev, n)
  {
    match ev
    case Nothing => t
    case Wrote(i, off, data) => t[i := t[i].(bytes := Splice(t[i].bytes, off, data))]
    case MadeFile(d, name, i) => Link(t[i := Newborn(FileKind)], d, name, i)
    case Stranded(d, name, i) => Link(t[i := Newborn(DirKind)], d, name, i)
    case MadeDir(d, name, i) =>
      var t' := Link(t[i := Newborn(DirKind).(bytes := Dots(i, d))], d, name, i);
      t'[d := t'[d].(links := (t'[d].links + 1) % 0x100)]
  }

  lemma DotsFit()
    ensures NameFits(DOT) && NameFits(DOT_DOT) && DOT != DOT_DOT
  {
  }

  /** Adding to a directory without deleted entries appends. */
  lemma AddEntryAppends(bytes: seq<byte>, e: Dirent)
    requires |bytes| % DIRENT_SIZE == 0 && FreeSlot(Entries(bytes)) == |Entries(bytes)|
    ensures AddEntry(bytes, e) == bytes + DirentBytes(e)
  {
    assert |Entries(bytes)| * DIRENT_SIZE == |bytes|;
  }

  /** A newborn directory's contents are its two entries, in this order. */
  lemma DotsEntries(self: u16, parent: u16)
    requires self != 0
    ensures AddEntry([], Dirent(self, DOT)) == DirentBytes(Dirent(self, DOT))
    ensures AddEntry(DirentBytes(Dirent(self, DOT)), Dirent(parent, DOT_DOT)) == Dots(self, parent)
    ensures |Dots(self, parent)| == 2 * DIRENT_SIZE
    ensures Entries(Dots(self, parent)) == [Dirent(self, DOT), Dirent(parent, DOT_DOT)]
  {
    DotsFit();
    var first, second := Dirent(self, DOT), Dirent(parent, DOT_DOT);
    var one := DirentBytes(first);
    var none: seq<byte> := [];
    assert Entries(none) == [] && InsertEntry([], first) == [first];
    AddEntryAppends(none, first);
    assert none + one == one;
    AddEntryInserts(none, first);
    assert Entries(one) == [first];
    assert FreeSlot([first]) == 1 by { assert [first][1..] == []; }
    AddEntryAppends(one, second);
    AddEntryInserts(one, second);
    assert InsertEntry([first], second) == [first, second];
  }

  // ---- which operations keep the file system consistent ------------------------

  /** The list of entries of directory `d` once a creating event has run. */
  function EntriesAfter(es: seq<Dirent>, ev: Event, d: nat): seq<Dirent> {
    if Creates(ev) && ev.dir == d && 0 <= ev.ino < 0x1_0000
    then InsertEntry(es, Dirent(ev.ino, ev.name)) else es
  }

  function NewbornEntries(ev: Event): seq<Dirent>
    requires Creates(ev) && 0 < ev.ino < 0x1_0000 && ev.dir < 0x1_0000
  {
    if ev.MadeDir? then [Dirent(ev.ino, DOT), Dirent(ev.dir, DOT_DOT)] else []
  }

  /** An event seen through the entries of the directories: nodes stay, keep
      their types, and lists of entries grow by the names made. */
  ghost predicate Effect(t: Tree, ev: Event, t': Tree, n: nat) {
    && Enabled(t, ev, n)
    && (forall i :: i in t' <==> i in t || (Creates(ev) && i == ev.ino))
    && (forall i {:trigger t'[i]} :: i in t ==> t'[i].mode == t[i].mode)
    && (forall i {:trigger t'[i]} :: i in t && t[i].IsDir() ==>
          && |t'[i].bytes| % DIRENT_SIZE == 0
          && Entries(t'[i].bytes) == EntriesAfter(Entries(t[i].bytes), ev, i))
    && (Creates(ev) ==>
          && t'[ev.ino].IsDir() == !ev.MadeFile?
          && KindOfMode(t'[ev.ino].mode) != NoKind
          && |t'[ev.ino].bytes| % DIRENT_SIZE == 0
          && Entries(t'[ev.ino].bytes) == NewbornEntries(ev))
  }

  lemma AfterEntries(t: Tree, ev: Event, n: nat, d: nat)
    requires Enabled(t, ev, n) && d in t && t[d].IsDir() && |t[d].bytes| % DIRENT_SIZE == 0
    ensures d in Apply(t, ev, n) && |Apply(t, ev, n)[d].bytes| % DIRENT_SIZE == 0
    ensures Entries(Apply(t, ev, n)[d].bytes) == EntriesAfter(Entries(t[d].bytes), ev, d)
  {
    if Creates(ev) && ev.dir == d {
      AddEntryInserts(t[d].bytes, Dirent(ev.ino, ev.name));
    }
  }

  lemma AfterNewborn(t: Tree, ev: Event, n: nat)
    requires Enabled(t, ev, n) && Creates(ev)
    ensures ev.ino in Apply(t, ev, n)
    ensures var node := Apply(t, ev, n)[ev.ino];
      && node.IsDir() == !ev.MadeFile?
      && KindOfMode(node.mode) != NoKind
      && |node.bytes| % DIRENT_SIZE == 0
      && Entries(node.bytes) == NewbornEntries(ev)
  {
    BirthModeKind(if ev.MadeFile? then FileKind else DirKind);
    if ev.MadeDir? {
      DotsEntries(ev.ino, ev.dir);
    }
  }

  lemma AfterNodes(t: Tree, ev: Event, n: nat)
    requires Enabled(t, ev, n)
    ensures forall i :: i in Apply(t, ev, n) <==> i in t || (Creates(ev) && i == ev.ino)
    ensures forall i {:trigger Apply(t, ev, n)[i]} :: i in t ==> i in Apply(t, ev, n) && Apply(t, ev, n)[i].mode == t[i].mode
  {
    hide Entries, FindName, AddEntry, Splice, Dots, KindOfMode;
  }

  lemma EventEffect(t: Tree, ev: Event, n: nat)
    requires DirsSound(t) && Enabled(t, ev, n)
    ensures Effect(t, ev, Apply(t, ev, n), n)
  {
    hide Apply, Entries, FindName, EntriesAfter, NewbornEntries, KindOfMode, EntriesSound;
    AfterNodes(t, ev, n);
    var t' := Apply(t, ev, n);
    forall d | d in t && t[d].IsDir()
      ensures |t'[d].bytes| % DIRENT_SIZE == 0
      ensures Entries(t'[d].bytes) == EntriesAfter(Entries(t[d].bytes), ev, d)
    {
      AfterEntries(t, ev, n, d);
    }
    if Creates(ev) {
      AfterNewborn(t, ev, n);
    }
  }

  lemma EntriesStaySound(t: Tree, ev: Event, t': Tree, n: nat, es: seq<Dirent>, d: nat)
    requires Effect(t, ev, t', n) && EntriesSound(t, es)
    ensures EntriesSound(t', EntriesAfter(es, ev, d))
  {
    hide Entries, FindName, KindOfMode, UniqueIn;
    forall i | i in t
      ensures i in t' && t'[i].mode == t[i].mode
    {
    }
  }

  lemma NewbornIsSound(t: Tree, ev: Event, t': Tree, n: nat)
    requires Effect(t, ev, t', n) && Creates(ev)
    ensures EntriesSound(t', NewbornEntries(ev))
  {
    hide Entries, FindName, KindOfMode, UniqueIn;
    assert t'[ev.dir].mode == t[ev.dir].mode;
  }

  /** Directories stay readable and name only what exists, whatever happens. */
  lemma EffectKeepsDirsSound(t: Tree, ev: Event, t': Tree, n: nat)
    requires DirsSound(t) && Effect(t, ev, t', n)
    ensures DirsSound(t')
  {
    hide Entries, EntriesSound, EntriesAfter, NewbornEntries, FindName, KindOfMode, UniqueIn, Enabled;
    forall d | d in t' && t'[d].IsDir()
      ensures |t'[d].bytes| % DIRENT_SIZE == 0 && EntriesSound(t', Entries(t'[d].bytes))
    {
      if d in t {
        assert t'[d].mode == t[d].mode;
        EntriesStaySound(t, ev, t', n, Entries(t[d].bytes), d);
      } else {
        NewbornIsSound(t, ev, t', n);
      }
    }
  }

  lemma NewbornIsUnique(ev: Event)
    requires Creates(ev) && 0 < ev.ino < 0x1_0000 && ev.dir < 0x1_0000
    ensures UniqueIn(NewbornEntries(ev))
  {
    DotsFit();
  }

  /** Names stay unique exactly if the event does not double one; and doubled ones stay
      doubled. */
  lemma EffectKeepsUniqueNames(t: Tree, ev: Event, t': Tree, n: nat)
    requires Effect(t, ev, t', n)
    ensures UniqueNames(t') <==> UniqueNames(t) && !Doubles(t, ev)
  {
    hide Entries, KindOfMode, NewbornEntries, UniqueIn, NameFits;
    if UniqueNames(t) {
      if Creates(ev) {
        NewbornIsUnique(ev);
        assert t'[ev.dir].mode == t[ev.dir].mode;
        InsertKeepsUnique(Entries(t[ev.dir].bytes), Dirent(ev.ino, ev.name));
      }
      if !Doubles(t, ev) {
        forall d | d in t' && t'[d].IsDir()
          ensures UniqueIn(Entries(t'[d].bytes))
        {
          if d in t {
            assert UniqueIn(Entries(t[d].bytes));
          }
        }
      }
    } else {
      var d :| d in t && t[d].IsDir() && !UniqueIn(Entries(t[d].bytes));
      assert t'[d].mode == t[d].mode;
      if Creates(ev) && ev.dir == d {
        InsertKeepsDoubles(Entries(t[d].bytes), Dirent(ev.ino, ev.name));
      }
    }
  }

  /** A name, once given, keeps naming the same node. */
  lemma EffectKeepsNames(t: Tree, ev: Event, t': Tree, n: nat, d: nat, name: seq<byte>, i: nat)
    requires Effect(t, ev, t', n) && i != 0
    requires d in t && t[d].IsDir() && Names(Entries(t[d].bytes), name, i)
    ensures d in t' && t'[d].IsDir() && Names(Entries(t'[d].bytes), name, i)
  {
    assert t'[d].mode == t[d].mode;
    if Creates(ev) && ev.dir == d {
      InsertKeepsNames(Entries(t[d].bytes), Dirent(ev.ino, ev.name), name, i);
    }
  }

  /** After a create the parent's directory gives the new number for the new name. */
  lemma CreatedIsNamed(t: Tree, ev: Event, n: nat)
    requires DirsSound(t) && Enabled(t, ev, n) && Creates(ev)
    ensures var t' := Apply(t, ev, n);
      ev.dir in t' && t'[ev.dir].IsDir() && Names(Entries(t'[ev.dir].bytes), ev.name, ev.ino)
  {
    hide Entries, FindName, KindOfMode, Apply, AddEntry;
    var t' := Apply(t, ev, n);
    EventEffect(t, ev, n);
    assert t'[ev.dir].mode == t[ev.dir].mode;
    InsertedIsNamed(Entries(t[ev.dir].bytes), Dirent(ev.ino, ev.name));
  }

  lemma EffectKeepsDots(t: Tree, ev: Event, t': Tree, n: nat)
    requires AllDotted(t) && 0 !in t && Effect(t, ev, t', n) && !ev.Stranded?
    ensures AllDotted(t')
  {
    forall d | d in t' && t'[d].IsDir()
      ensures Dotted(t', d)
    {
      if d in t {
        OldDirKeepsDots(t, ev, t', n, d);
      } else {
        var es := Entries(t'[d].bytes);
        assert es[0] == Dirent(d, DOT) && es[1] == Dirent(ev.dir, DOT_DOT);
        assert t'[ev.dir].mode == t[ev.dir].mode;
      }
    }
  }

  lemma OldDirKeepsDots(t: Tree, ev: Event, t': Tree, n: nat, d: nat)
    requires AllDotted(t) && 0 !in t && Effect(t, ev, t', n)
    requires d in t && t[d].IsDir()
    ensures d in t' && Dotted(t', d)
  {
    assert Dotted(t, d);
    EffectKeepsNames(t, ev, t', n, d, DOT, d);
    var p :| p in t && t[p].IsDir() && Names(Entries(t[d].bytes), DOT_DOT, p);
    EffectKeepsNames(t, ev, t', n, d, DOT_DOT, p);
    assert t'[p].mode == t[p].mode;
  }

  /** How an event changes the number of entries that name `i`: a new name counts
      one for its node, and a new directory names itself and its parent. */
  function NewMentions(ev: Event, i: nat): nat {
    match ev
    case Nothing => 0
    case Wrote(_, _, _) => 0
    case MadeFile(_, _, j) => if i == j then 1 else 0
    case Stranded(_, _, j) => if i == j then 1 else 0
    case MadeDir(d, _, j) => (if i == j then 2 else 0) + (if i == d then 1 else 0)
  }

  lemma TwoMentions(a: Dirent, b: Dirent, i: nat)
    ensures Mentions([a, b], i) == (if i == a.ino then 1 else 0) + (if i == b.ino then 1 else 0)
  {
    assert [a, b][..1] == [a] && [a][..0] == [];
    assert Mentions([a], i) == if i == a.ino then 1 else 0;
  }

  lemma EffectLinkCount(t: Tree, ev: Event, t': Tree, n: nat, i: nat)
    requires Effect(t, ev, t', n) && i != 0
    ensures LinkCount(t', n, i) == LinkCount(t, n, i) + NewMentions(ev, i)
  {
    hide Entries, FindName, KindOfMode, LinkCount, UniqueIn, InsertEntry;
    forall j | j in t && !(Creates(ev) && j == ev.dir)
      ensures MentionsIn(t', j, i) == MentionsIn(t, j, i)
    {
      assert t'[j].mode == t[j].mode;
    }
    if Creates(ev) {
      var e := Dirent(ev.ino, ev.name);
      InsertMentions(Entries(t[ev.dir].bytes), e, i);
      assert t'[ev.dir].mode == t[ev.dir].mode;
      assert MentionsIn(t', ev.dir, i) == MentionsIn(t, ev.dir, i) + if i == ev.ino then 1 else 0;
      if ev.MadeDir? {
        TwoMentions(Dirent(ev.ino, DOT), Dirent(ev.dir, DOT_DOT), i);
      }
      var mid := t[ev.ino := t'[ev.ino]];
      LinkCountChange(t, mid, n, ev.ino, i);
      LinkCountChange(mid, t', n, ev.dir, i);
    } else {
      LinkCountSame(t, t', n, i);
    }
  }

  lemma {:induction false} LinkCountSame(a: Tree, b: Tree, n: nat, i: nat)
    requires forall j :: MentionsIn(a, j, i) == MentionsIn(b, j, i)
    ensures LinkCount(b, n, i) == LinkCount(a, n, i)
  {
    if n > 0 {
      LinkCountSame(a, b, n - 1, i);
    }
  }

  /** An unused number is named by nobody. */
  lemma {:induction false} UnusedIsUnnamed(t: Tree, n: nat, i: nat)
    requires DirsSound(t) && i !in t && i != 0
    ensures LinkCount(t, n, i) == 0
  {
    if n > 0 {
      UnusedIsUnnamed(t, n - 1, i);
      if n in t && t[n].IsDir() {
        UnmentionedIn(t, Entries(t[n].bytes), i);
      }
    }
  }

  lemma {:induction false} UnmentionedIn(t: Tree, es: seq<Dirent>, i: nat)
    requires EntriesSound(t, es) && i !in t && i != 0
    ensures Mentions(es, i) == 0
  {
    if es != [] {
      UnmentionedIn(t, es[..|es| - 1], i);
    }
  }

  /** What an event does to the link counts kept in the nodes. */
  lemma EventLinks(t: Tree, ev: Event, n: nat, i: nat)
    requires Enabled(t, ev, n) && i in Apply(t, ev, n)
    ensures i in t ==>
      Apply(t, ev, n)[i].links == (t[i].links + if ev.MadeDir? && i == ev.dir then 1 else 0) % 0x100
    ensures i !in t ==> Creates(ev) && i == ev.ino && Apply(t, ev, n)[i].links == if ev.MadeFile? then 1 else 2
  {
    hide Entries, FindName, AddEntry, DirentBytes, KindOfMode, Splice;
  }

  /** The count kept in a node after an event agrees with the entries naming it,
      in all cases but two: a stranded directory, and a parent whose 8-bit count
      wraps. */
  lemma NodeKeepsLinks(t: Tree, ev: Event, n: nat, i: nat)
    requires DirsSound(t) && LinksExact(t, n) && Enabled(t, ev, n) && i in Apply(t, ev, n) && i != 0
    ensures 0 < Apply(t, ev, n)[i].links == LinkCount(Apply(t, ev, n), n, i)
       <==> !(ev.Stranded? && i == ev.ino) && !(ev.MadeDir? && i == ev.dir && t[i].links == 255)
  {
    hide Apply, Entries, FindName, KindOfMode;
    EventEffect(t, ev, n);
    EffectLinkCount(t, ev, Apply(t, ev, n), n, i);
    EventLinks(t, ev, n, i);
    if i !in t {
      UnusedIsUnnamed(t, n, i);
    }
  }

  lemma EventKeepsLinks(t: Tree, ev: Event, n: nat)
    requires DirsSound(t) && LinksExact(t, n) && 0 !in t && Enabled(t, ev, n)
    ensures LinksExact(Apply(t, ev, n), n) <==> !ev.Stranded? && (ev.MadeDir? ==> t[ev.dir].links < 255)
  {
    hide Apply, Entries, FindName, KindOfMode;
    var t' := Apply(t, ev, n);
    EventEffect(t, ev, n);
    if Creates(ev) {
      NodeKeepsLinks(t, ev, n, ev.ino);
      NodeKeepsLinks(t, ev, n, ev.dir);
    }
    if !ev.Stranded? && (ev.MadeDir? ==> t[ev.dir].links < 255) {
      forall i | i in t'
        ensures 0 < t'[i].links == LinkCount(t', n, i)
      {
        NodeKeepsLinks(t, ev, n, i);
      }
    }
  }

  // ---- runs --------------------------------------------------------------------

  /** A run: each tree comes from the one before by an event that could happen. */
  ghost predicate Run(ts: seq<Tree>, evs: seq<Event>, n: nat) {
    && |ts| == |evs| + 1
    && forall k :: 0 <= k < |evs| ==> Enabled(ts[k], evs[k], n) && ts[k + 1] == Apply(ts[k], evs[k], n)
  }

  /** On every run, stranded directories included, names are unique at the end exactly if
      they were at the start and no event doubled one, and every name given along the way
      still names the same node. */
  lemma {:induction false} RunKeepsNames(ts: seq<Tree>, evs: seq<Event>, n: nat, d: nat, name: seq<byte>, i: nat)
    requires Run(ts, evs, n) && DirsSound(ts[0])
    ensures DirsSound(ts[|evs|])
    ensures UniqueNames(ts[|evs|]) <==>
      UniqueNames(ts[0]) && forall k {:trigger evs[k]} :: 0 <= k < |evs| ==> !Doubles(ts[k], evs[k])
    ensures i != 0 && d in ts[0] && ts[0][d].IsDir() && Names(Entries(ts[0][d].bytes), name, i) ==>
      d in ts[|evs|] && ts[|evs|][d].IsDir() && Names(Entries(ts[|evs|][d].bytes), name, i)
  {
    hide Apply, Enabled, DirsSound, Doubles, Names, UniqueNames, Effect;
    if evs != [] {
      var last := |evs| - 1;
      var ts0, evs0 := ts[..|evs|], evs[..last];
      RunKeepsNames(ts0, evs0, n, d, name, i);
      forall k | 0 <= k < last
        ensures Doubles(ts0[k], evs0[k]) == Doubles(ts[k], evs[k])
      {
        assert evs0[k] == evs[k] && ts0[k] == ts[k];
      }
      var t, t' := ts[last], ts[last + 1];
      EventEffect(t, evs[last], n);
      EffectKeepsDirsSound(t, evs[last], t', n);
      EffectKeepsUniqueNames(t, evs[last], t', n);
      if i != 0 && d in t && t[d].IsDir() && Names(Entries(t[d].bytes), name, i) {
        EffectKeepsNames(t, evs[last], t', n, d, name, i);
      }
    }
  }
}
