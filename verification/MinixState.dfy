/** The mounted file system as values: the inode cache beside the image, what it
    means for the two to agree, and the tree the image stands for. */
module MinixState {
  import opened Bytes
  import opened MinixFormat
  import opened MinixImage
  import opened MinixZones
  import opened MinixTree

  const MAX_INODES: nat := 64

  /** A cache slot; `ino` 0 marks it free. A slot number is what the kernel calls
      an inode pointer. */
  datatype Slot = Slot(ino: nat, kind: Kind, size: u32, zone: Zones, mode: u16, nlinks: byte)

  const FREE_SLOT: Slot := Slot(0, NoKind, 0, NO_ZONES, 0, 0)

  /** A slot says what the inode on the drive says. */
  predicate Mirrors(s: Slot, d: Inode) {
    && s.mode == d.mode && s.size == d.size && s.nlinks == d.nlinks && s.zone == d.zone
    && s.kind == KindOfMode(d.mode)
  }

  /** Each occupied slot holds a live inode, and no two hold the same. */
  ghost predicate Distinct(img: Img, cache: seq<Slot>) {
    && |cache| == MAX_INODES
    && (forall s :: 0 <= s < MAX_INODES && cache[s].ino != 0 ==>
          cache[s].ino in img.live && cache[s].kind != NoKind)
    && (forall s, t :: 0 <= s < MAX_INODES && 0 <= t < MAX_INODES && cache[s].ino == cache[t].ino != 0 ==> s == t)
  }

  /** The cache agrees with the drive: forgetting it would lose nothing. */
  ghost predicate Coherent(img: Img, cache: seq<Slot>) {
    && Distinct(img, cache)
    && forall s :: 0 <= s < MAX_INODES && cache[s].ino != 0 && cache[s].ino in img.itab ==>
         Mirrors(cache[s], img.itab[cache[s].ino])
  }

  predicate Cached(cache: seq<Slot>, ino: nat) {
    exists s :: 0 <= s < |cache| && cache[s].ino == ino
  }

  /** The same inodes in the same slots. */
  ghost predicate SameSlots(a: seq<Slot>, b: seq<Slot>) {
    |a| == |b| && forall s :: 0 <= s < |a| ==> b[s].ino == a[s].ino
  }

  /** Nothing happened to the cache except that `ino` may have been loaded into a
      slot that was free. */
  ghost predicate AtMostLoaded(a: seq<Slot>, b: seq<Slot>, ino: nat) {
    |a| == |b| && forall s :: 0 <= s < |a| ==> b[s].ino != a[s].ino ==> a[s].ino == 0 && b[s].ino == ino
  }

  /** No slot but the first free one was touched. */
  ghost predicate FirstTouched(a: seq<Slot>, b: seq<Slot>) {
    |a| == |b| && forall s :: 0 <= s < |a| && b[s] != a[s] ==> a[s].ino == 0 && forall t :: 0 <= t < s ==> a[t].ino != 0
  }

  // ---- the tree of an image ----------------------------------------------------

  function NodeOf(img: Img, i: nat): Node
    requires i in img.itab
  {
    var d := img.itab[i];
    Node(d.mode, d.uid, d.gid, d.time, d.nlinks, Contents(img, i))
  }

  function TreeOf(img: Img): (t: Tree)
    requires Shaped(img)
  {
    map i | i in img.live :: NodeOf(img, i)
  }

  /** All files end in clean zeros. */
  ghost predicate Trim(img: Img) {
    Shaped(img) && forall i :: i in img.live ==> CleanTail(img, i)
  }

  ghost predicate Tidy(img: Img) {
    Trim(img) && DirsSound(TreeOf(img))
  }

  /** `b` differs from `a` at most in zones that belong to nobody, or to the file
      `i` alone: all other inodes and all their bytes are the same. */
  ghost predicate OthersSame(a: Img, b: Img, i: nat) {
    && b.live == a.live && b.sb == a.sb
    && b.itab.Keys == a.itab.Keys
    && (forall j {:trigger b.itab[j]} :: j in a.live && j != i ==> j in a.itab && b.itab[j] == a.itab[j])
    && (forall j :: j in a.live && j != i ==> SameBytes(a, b, j))
  }

  /** Only the zone list of inode `i` may differ. */
  ghost predicate SameButZones(a: Img, b: Img, i: nat) {
    i in a.itab && i in b.itab && b.itab[i] == a.itab[i].(zone := b.itab[i].zone)
  }

  lemma SameContents(a: Img, b: Img, i: nat)
    requires i in a.itab && i in b.itab && a.itab[i].size == b.itab[i].size && SameBytes(a, b, i)
    ensures Contents(b, i) == Contents(a, i)
    ensures CleanTail(a, i) ==> CleanTail(b, i)
  {
    forall p | 0 <= p < a.itab[i].size
      ensures Contents(b, i)[p] == Contents(a, i)[p]
    {
      assert ByteAt(b, i, p) == ByteAt(a, i, p);
    }
    if CleanTail(a, i) {
      forall p: nat | p >= b.itab[i].size
        ensures ByteAt(b, i, p) == 0
      {
        assert ByteAt(a, i, p) == 0;
      }
    }
  }

  /** What is the same node by node is the same tree, file `i` apart. */
  lemma TreeOfOthers(a: Img, b: Img, i: nat)
    requires Shaped(a) && Shaped(b) && OthersSame(a, b, i) && i in a.live
    ensures TreeOf(b) == TreeOf(a)[i := NodeOf(b, i)]
    ensures forall j :: j in a.live && j != i && CleanTail(a, j) ==> CleanTail(b, j)
  {
    forall j | j in a.live && j != i
      ensures NodeOf(b, j) == NodeOf(a, j) && (CleanTail(a, j) ==> CleanTail(b, j))
    {
      assert b.itab[j] == a.itab[j];
      SameContents(a, b, j);
    }
  }

  lemma TreeUnchanged(a: Img, b: Img, i: nat)
    requires Shaped(a) && Shaped(b) && OthersSame(a, b, i) && i in a.live
    requires SameButZones(a, b, i) && SameBytes(a, b, i)
    ensures TreeOf(b) == TreeOf(a)
    ensures Tidy(a) ==> Tidy(b)
  {
    TreeOfOthers(a, b, i);
    SameContents(a, b, i);
  }

  /** Bytes written behind each other, and a size that follows: that is a splice. */
  lemma WrittenIsSpliced(a: Img, b: Img, i: nat, off: nat, data: seq<byte>)
    requires Shaped(a) && Shaped(b) && i in a.itab && i in b.itab && CleanTail(a, i)
    requires data != [] && b.itab[i].size == Max(a.itab[i].size, off + |data|)
    requires forall p: nat {:trigger ByteAt(b, i, p)} ::
      ByteAt(b, i, p) == if off <= p < off + |data| then data[p - off] else ByteAt(a, i, p)
    ensures Contents(b, i) == Splice(Contents(a, i), off, data)
    ensures CleanTail(b, i)
  {
    var c, s := Contents(b, i), Splice(Contents(a, i), off, data);
    forall p | 0 <= p < |c|
      ensures c[p] == s[p]
    {
      assert c[p] == ByteAt(b, i, p);
    }
    assert c == s;
  }

  // ---- room for one more block ---------------------------------------------------

  /** How many zones must be taken before logical zone `n` of inode `i` can be
      written. */
  function Cost(img: Img, i: nat, n: nat): nat {
    if Zone(img, i, Leaf(n)) != 0 then 0
    else if DIRECT_ZONES <= n && Zone(img, i, Single) == 0 then 2
    else 1
  }

  /** Writing to logical zone `n` can succeed: it is there already, or there are
      free zones for it and it is not behind the double indirect block. */
  predicate CanPlace(img: Img, i: nat, n: nat) {
    Zone(img, i, Leaf(n)) != 0 || (n < SINGLE_LIMIT && Cost(img, i, n) <= FreeZones(img))
  }
}
