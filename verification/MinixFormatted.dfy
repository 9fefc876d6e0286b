/** Volumes that exist: a freshly formatted drive, and the same with one empty file one
    FIFO or one device node, byte by byte. They satisfy every invariant, and they are the concrete cases in
    which a create or a write does harm. */
module MinixFormatted {
  import opened Bytes
  import opened MinixFormat
  import opened MinixImage
  import opened MinixZones
  import opened MinixTree
  import opened MinixFsck
  import opened MinixState
  import opened MinixSteps
  import opened MinixLaws
  import opened MinixFs

  const ROOT_MODE: u16 := 0x41ED
  const FILE_INO: nat := 2
  const FILE_NAME: seq<byte> := [0x61]
  const FIFO_MODE: u16 := 0x11A4
  const DEVICE_MODE: u16 := 0x21A4

  /** What lies in the root beside its dots. */
  datatype Item = NoItem | AFile | AFifo | ADevice

  function ItemMode(item: Item): u16 {
    if item == AFifo then FIFO_MODE else if item == ADevice then DEVICE_MODE else BirthMode(FileKind)
  }

  /** Room for a root directory and a second inode. */
  predicate Fits(sb: Super) {
    0 < sb.firstDataZone < sb.nzones && sb.ninodes >= 2
  }

  /** The geometry of a drive with 16 blocks of inodes and `zones` blocks in all. */
  function Geometry(zones: u16): Super { Super(512, zones, 1, 1, 20, 0, MINIX_MAGIC) }

  /** There are geometries for all that follows: with one data zone, and with room for
      many directories. */
  lemma GeometriesExist()
    ensures Geometry(21).Sound(21) && Fits(Geometry(21))
    ensures Geometry(600).Sound(600) && Fits(Geometry(600)) && Geometry(600).ninodes >= 255
    ensures Geometry(600).nzones >= Geometry(600).firstDataZone + 509
  {
  }

  // ---- the image -----------------------------------------------------------------

  /** The entries of the root: its two dots and the item, if there is one. */
  function RootBytes(item: Item): seq<byte> {
    if item != NoItem then AddEntry(Dots(1, 1), Dirent(FILE_INO, FILE_NAME)) else Dots(1, 1)
  }

  function RootSize(item: Item): u32 { if item != NoItem then 48 else 32 }

  function RootInode(sb: Super, item: Item): Inode {
    Inode(ROOT_MODE, 0, RootSize(item), 0, 0, 2, NO_ZONES[0 := sb.firstDataZone])
  }

  /** The device node has the number of the root's block. */
  function ItemInode(sb: Super, item: Item): Inode {
    Inode(ItemMode(item), 0, 0, 0, 0, 1, if item == ADevice then NO_ZONES[0 := sb.firstDataZone] else NO_ZONES)
  }

  function FormattedInode(sb: Super, item: Item, i: nat): Inode {
    if i == ROOT_INO then RootInode(sb, item) else if item != NoItem && i == FILE_INO then ItemInode(sb, item) else ZERO_INODE
  }

  function RootBlock(item: Item): Block {
    var b := RootBytes(item);
    if |b| <= BLOCK_SIZE then Patch(ZeroBlock(), 0, b) else ZeroBlock()
  }

  function FormattedZone(sb: Super, item: Item, z: nat): Block {
    if z == sb.firstDataZone then RootBlock(item) else ZeroBlock()
  }

  function FormattedLive(item: Item): set<nat> { if item != NoItem then {ROOT_INO, FILE_INO} else {ROOT_INO} }

  /** A formatted volume: a root directory in the first data zone. */
  function Formatted(sb: Super, item: Item): Img {
    Img(sb, FormattedLive(item), {sb.firstDataZone as nat},
        map i: nat | 1 <= i <= sb.ninodes :: FormattedInode(sb, item, i),
        map z: nat | sb.firstDataZone <= z < sb.nzones :: FormattedZone(sb, item, z))
  }

  lemma FormattedParts(sb: Super, item: Item)
    requires Fits(sb)
    ensures var img := Formatted(sb, item);
      && img.sb == sb && img.live == FormattedLive(item) && img.taken == {sb.firstDataZone as nat}
      && (forall i :: i in img.itab <==> 1 <= i <= sb.ninodes)
      && (forall z :: z in img.data <==> sb.firstDataZone <= z < sb.nzones)
      && (forall i :: i in img.itab ==> img.itab[i] == FormattedInode(sb, item, i))
      && (forall z :: z in img.data ==> img.data[z] == FormattedZone(sb, item, z))
  {
  }

  lemma RootBytesAre(item: Item)
    ensures |RootBytes(item)| == RootSize(item)
    ensures Entries(RootBytes(item)) == [Dirent(1, DOT), Dirent(1, DOT_DOT)] + if item != NoItem then [Dirent(FILE_INO, FILE_NAME)] else []
  {
    hide Dots, DirentBytes, Splice, Entries;
    DotsEntries(1, 1);
    if item != NoItem {
      NoFreeDot();
      AddEntryInserts(Dots(1, 1), Dirent(FILE_INO, FILE_NAME));
      AddEntryAppends(Dots(1, 1), Dirent(FILE_INO, FILE_NAME));
      EntryLength(Dirent(FILE_INO, FILE_NAME));
    }
  }

  lemma EntryLength(e: Dirent)
    requires NameFits(e.name)
    ensures |DirentBytes(e)| == DIRENT_SIZE
  {
  }

  lemma NoFreeDot()
    ensures FreeSlot([Dirent(1, DOT), Dirent(1, DOT_DOT)]) == 2
  {
    var es := [Dirent(1, DOT), Dirent(1, DOT_DOT)];
    assert es[1..] == [Dirent(1, DOT_DOT)] && es[1..][1..] == [];
  }

  lemma FormattedZones(sb: Super, item: Item, i: nat, r: Role)
    requires Fits(sb)
    ensures Zone(Formatted(sb, item), i, r) == if i == ROOT_INO && r == Leaf(0) then sb.firstDataZone else 0
  {
    hide Formatted, RootBlock;
    FormattedParts(sb, item);
    var img := Formatted(sb, item);
    assert i in img.itab ==> img.itab[i] == FormattedInode(sb, item, i);
    assert 0 !in img.data;
  }

  lemma FormattedByte(sb: Super, item: Item, i: nat, p: nat)
    requires Fits(sb)
    ensures |RootBytes(item)| == RootSize(item)
    ensures ByteAt(Formatted(sb, item), i, p) == if i == ROOT_INO && p < RootSize(item) then RootBytes(item)[p] else 0
  {
    hide Formatted, Zone, RootBytes, Entries;
    FormattedParts(sb, item);
    RootBytesAre(item);
    FormattedZones(sb, item, i, Leaf(p / BLOCK_SIZE));
    assert p / BLOCK_SIZE == 0 <==> p < BLOCK_SIZE;
    assert p < BLOCK_SIZE ==> p % BLOCK_SIZE == p;
  }

  lemma FormattedContents(sb: Super, item: Item, i: nat)
    requires Fits(sb) && i in FormattedLive(item)
    ensures i in Formatted(sb, item).itab && CleanTail(Formatted(sb, item), i)
    ensures Contents(Formatted(sb, item), i) == if i == ROOT_INO then RootBytes(item) else []
  {
    hide Formatted, ByteAt, RootBytes, Entries;
    FormattedParts(sb, item);
    RootBytesAre(item);
    var img := Formatted(sb, item);
    assert img.itab[i] == FormattedInode(sb, item, i);
    forall p: nat
      ensures ByteAt(img, i, p) == if i == ROOT_INO && p < RootSize(item) then RootBytes(item)[p] else 0
    {
      FormattedByte(sb, item, i, p);
    }
  }

  /** Nothing is shared, nothing is lost. */
  lemma FormattedSane(sb: Super, item: Item)
    requires Fits(sb)
    ensures Sane(Formatted(sb, item)) && Lost(Formatted(sb, item)) == {}
  {
    hide Formatted, Zone;
    FormattedParts(sb, item);
    var img := Formatted(sb, item);
    forall i, r
      ensures Zone(img, i, r) == if i == ROOT_INO && r == Leaf(0) then sb.firstDataZone else 0
    {
      FormattedZones(sb, item, i, r);
    }
    assert Zone(img, ROOT_INO, Leaf(0)) == sb.firstDataZone;
  }

  lemma FormattedFree(sb: Super, item: Item)
    requires Fits(sb)
    ensures FreeZones(Formatted(sb, item)) == sb.nzones - sb.firstDataZone - 1
  {
    hide Formatted;
    FormattedParts(sb, item);
    var img := Formatted(sb, item);
    assert img.data.Keys - img.taken == Span(sb.firstDataZone + 1, sb.nzones);
  }

  function Span(lo: nat, hi: nat): (s: set<nat>)
    requires lo <= hi
    ensures |s| == hi - lo && forall z {:trigger z in s} :: z in s <==> lo <= z < hi
    decreases hi - lo
  {
    if lo == hi then {} else Span(lo, hi - 1) + {hi - 1}
  }

  // ---- the tree --------------------------------------------------------------------

  function RootNode(): Node { Node(ROOT_MODE, 0, 0, 0, 2, Dots(1, 1)) }

  /** The tree of the volume without an item. */
  function RootTree(): Tree { map[ROOT_INO := RootNode()] }

  function MakeFile(): Event { MadeFile(ROOT_INO, FILE_NAME, FILE_INO) }

  lemma RootIsDir()
    ensures RootNode().IsDir() && Entries(RootNode().bytes) == [Dirent(1, DOT), Dirent(1, DOT_DOT)]
    ensures |RootNode().bytes| == 2 * DIRENT_SIZE
  {
    DotsEntries(1, 1);
  }

  lemma RootTreeSound(n: nat)
    requires 1 <= n < 0x1_0000
    ensures TreeSound(RootTree(), n)
  {
    hide Dots, Entries;
    var t := RootTree();
    RootIsDir();
    DotsFit();
    var es := Entries(t[ROOT_INO].bytes);
    assert es[0] == Dirent(1, DOT) && es[1] == Dirent(1, DOT_DOT);
    assert Names(es, DOT, ROOT_INO) && Names(es, DOT_DOT, ROOT_INO);
    assert UniqueIn(es) && EntriesSound(t, es);
    RootLinks(n);
    forall d
      ensures !Holds(t, ROOT_INO, d)
    {
    }
    assert Path(t, [ROOT_INO]) && [ROOT_INO][0] == ROOT_INO;
    assert Reachable(t, ROOT_INO);
  }

  lemma {:induction false} RootLinks(n: nat)
    ensures LinkCount(RootTree(), n, ROOT_INO) == if n == 0 then 0 else 2
  {
    if n > 0 {
      RootLinks(n - 1);
      if n == 1 {
        RootIsDir();
        TwoMentions(Dirent(1, DOT), Dirent(1, DOT_DOT), ROOT_INO);
      }
    }
  }

  lemma MakeFileEnabled(n: nat)
    requires 2 <= n < 0x1_0000
    ensures Enabled(RootTree(), MakeFile(), n)
  {
    hide Dots, Entries;
    RootIsDir();
    var es := [Dirent(1, DOT), Dirent(1, DOT_DOT)];
    assert es[1..] == [Dirent(1, DOT_DOT)] && es[1..][1..] == [];
    assert FindName(es, FILE_NAME) == 2;
  }

  /** The tree with the item: made as a file is, but for its type. */
  ghost function ItemTree(item: Item, n: nat): Tree
    requires Enabled(RootTree(), MakeFile(), n)
  {
    var t := Apply(RootTree(), MakeFile(), n);
    match item
    case NoItem => RootTree()
    case _ => t[FILE_INO := t[FILE_INO].(mode := ItemMode(item))]
  }

  lemma ItemTreeSound(item: Item, n: nat)
    requires 2 <= n < 0x1_0000
    ensures Enabled(RootTree(), MakeFile(), n) && TreeSound(ItemTree(item, n), n)
  {
    hide TreeSound, Entries, AddEntry;
    MakeFileEnabled(n);
    RootTreeSound(n);
    var t := Apply(RootTree(), MakeFile(), n);
    FileNameIsNew();
    EventKeepsTreeSound(RootTree(), MakeFile(), n);
    if item != NoItem {
      BirthModeKind(FileKind);
      AlikeIsSound(t, ItemTree(item, n), n);
    }
  }

  lemma FileNameIsNew()
    ensures !Doubles(RootTree(), MakeFile())
  {
    hide Dots, Entries;
    RootIsDir();
    var es := [Dirent(1, DOT), Dirent(1, DOT_DOT)];
    assert es[1..] == [Dirent(1, DOT_DOT)] && es[1..][1..] == [];
    assert FindName(es, FILE_NAME) == 2;
  }

  lemma FormattedTree(sb: Super, item: Item)
    requires Fits(sb)
    ensures Shaped(Formatted(sb, item)) && Trim(Formatted(sb, item))
    ensures Enabled(RootTree(), MakeFile(), sb.ninodes)
    ensures TreeOf(Formatted(sb, item)) == ItemTree(item, sb.ninodes)
  {
    hide Dots, Formatted, Contents, Entries, AddEntry, Enabled, CleanTail;
    FormattedParts(sb, item);
    MakeFileEnabled(sb.ninodes);
    var img := Formatted(sb, item);
    forall i | i in img.live
      ensures CleanTail(img, i) && img.itab[i] == FormattedInode(sb, item, i)
      ensures Contents(img, i) == if i == ROOT_INO then RootBytes(item) else []
    {
      FormattedContents(sb, item, i);
    }
  }

  /** A volume that passes fsck, with nothing in the cache or with anything that is on
      it: all the invariants hold. */
  lemma FormattedIsSound(sb: Super, item: Item)
    requires Fits(sb)
    ensures var img := Formatted(sb, item);
      && Sane(img) && Tidy(img) && Fsck(img)
      && Coherent(img, seq(MAX_INODES, _ => FREE_SLOT))
  {
    hide Formatted, Zone, TreeSound, Apply, Enabled, TreeOf, Lost;
    FormattedParts(sb, item);
    FormattedSane(sb, item);
    FormattedTree(sb, item);
    ItemTreeSound(item, sb.ninodes);
    SoundMeans(TreeOf(Formatted(sb, item)), sb.ninodes);
  }

  lemma FormattedRootIsDir(sb: Super, item: Item)
    requires Fits(sb)
    ensures var img := Formatted(sb, item);
      Shaped(img) && img.sb == sb && ROOT_INO in img.live && ROOT_INO in img.itab && KindOfMode(img.itab[ROOT_INO].mode) == DirKind
  {
    hide Formatted;
    FormattedParts(sb, item);
    FormattedTree(sb, item);
    assert Formatted(sb, item).itab[ROOT_INO] == FormattedInode(sb, item, ROOT_INO);
  }

  // ---- the drive ------------------------------------------------------------------

  function Words(ws: seq<u16>): (r: seq<byte>)
    ensures |r| == 2 * |ws|
    ensures forall k :: 0 <= k < |ws| ==> r[2 * k] == Lo(ws[k]) && r[2 * k + 1] == Hi(ws[k])
  {
    if ws == [] then [] else Words(ws[..|ws| - 1]) + [Lo(ws[|ws| - 1]), Hi(ws[|ws| - 1])]
  }

  /** The superblock: six words, the maximal size, the magic, and zeros. */
  function SuperWords(sb: Super): seq<u16> {
    [sb.ninodes, sb.nzones, sb.imapBlocks, sb.zmapBlocks, sb.firstDataZone, sb.logZoneSize, 0, 0, sb.magic]
  }

  function SuperBlock(sb: Super): Block { Patch(ZeroBlock(), 0, Words(SuperWords(sb))) }

  lemma SuperRoundTrip(sb: Super)
    ensures SuperOf(SuperBlock(sb)) == sb
  {
    var ws, b := SuperWords(sb), SuperBlock(sb);
    forall k | 0 <= k < 9
      ensures U16At(b, 2 * k) == ws[k]
    {
      assert b[2 * k] == Words(ws)[2 * k] && b[2 * k + 1] == Words(ws)[2 * k + 1];
    }
    assert U16At(b, 2 * 0) == ws[0] && U16At(b, 2 * 1) == ws[1] && U16At(b, 2 * 2) == ws[2];
    assert U16At(b, 2 * 3) == ws[3] && U16At(b, 2 * 4) == ws[4] && U16At(b, 2 * 5) == ws[5];
    assert U16At(b, 2 * 8) == ws[8];
  }

  function Zeroed(i: nat): Inode { ZERO_INODE }

  function Cleared(z: nat): Block { ZeroBlock() }

  /** A drive with a superblock and nothing else. */
  function BlankDrive(sb: Super, blocks: nat): (d: Disk)
    ensures |d| == blocks
    ensures forall b :: 0 <= b < blocks ==> d[b] == if b == 1 then SuperBlock(sb) else ZeroBlock()
  {
    if blocks == 0 then []
    else BlankDrive(sb, blocks - 1) + [if blocks == 2 then SuperBlock(sb) else ZeroBlock()]
  }

  function Blank(sb: Super): Img {
    Img(sb, {}, {}, map i: nat | 1 <= i <= sb.ninodes :: Zeroed(i),
        map z: nat | sb.firstDataZone <= z < sb.nzones :: Cleared(z))
  }

  lemma {:induction false} ZeroBits(k: nat)
    ensures !BitOf(0, k)
    decreases k
  {
    if k > 0 {
      ZeroBits(k - 1);
    }
  }

  lemma ZeroInode(off: nat)
    requires off + INODE_SIZE <= BLOCK_SIZE
    ensures InodeOf(ZeroBlock(), off) == ZERO_INODE
  {
  }

  lemma BlankRepresented(sb: Super, blocks: nat)
    requires sb.Sound(blocks)
    ensures Represents(BlankDrive(sb, blocks), Blank(sb))
  {
    var d, img := BlankDrive(sb, blocks), Blank(sb);
    SuperRoundTrip(sb);
    forall first: nat, k: nat | first > 1
      ensures !DiskBit(d, first, k)
    {
      ZeroBits(k % BITS_PER_BLOCK % 8);
    }
    forall i | 1 <= i <= sb.ninodes
      ensures InodeOnDisk(sb, d, i) == ZERO_INODE
    {
      ZeroInode(InodeOffset(i));
    }
  }

  /** The formatted drive: the blank one with the bits set, the inodes and the root
      directory written. */
  lemma FormattedDrive(sb: Super, blocks: nat, item: Item) returns (disk: Disk)
    requires Fits(sb) && sb.Sound(blocks)
    ensures |disk| == blocks && Represents(disk, Formatted(sb, item))
  {
    hide Represents, Patch, WithBit, Formatted, Blank, RootInode, RootBlock, BlankDrive;
    BlankRepresented(sb, blocks);
    var img := Blank(sb);
    BlankParts(sb);
    disk, img := InodeIn(BlankDrive(sb, blocks), img, ROOT_INO, RootInode(sb, item));
    if item != NoItem {
      disk, img := InodeIn(disk, img, FILE_INO, ItemInode(sb, item));
    }
    disk, img := RootIn(disk, img, RootBlock(item));
    FormattedIs(sb, item, img);
  }

  lemma BlankParts(sb: Super)
    ensures Blank(sb).sb == sb && Blank(sb).live == {} && Blank(sb).taken == {}
  {
  }

  lemma FormattedIs(sb: Super, item: Item, img: Img)
    requires Fits(sb) && img.sb == sb && img.live == FormattedLive(item) && img.taken == {sb.firstDataZone as nat}
    requires var itab := Blank(sb).itab[ROOT_INO := RootInode(sb, item)];
      img.itab == if item != NoItem then itab[FILE_INO := ItemInode(sb, item)] else itab
    requires img.data == Blank(sb).data[sb.firstDataZone as nat := RootBlock(item)]
    ensures img == Formatted(sb, item)
  {
    hide RootInode, RootBlock;
    assert img.itab == Formatted(sb, item).itab;
    assert img.data == Formatted(sb, item).data;
  }

  /** An inode becomes live and gets its bytes. */
  lemma InodeIn(disk: Disk, img: Img, i: nat, d: Inode) returns (disk': Disk, img': Img)
    requires Represents(disk, img) && 1 <= i <= img.sb.ninodes
    ensures |disk'| == |disk| && Represents(disk', img')
    ensures img' == img.(live := img.live + {i}, itab := img.itab[i := d])
  {
    hide Represents, Patch, WithBit;
    MarkInode(disk, img, i, true);
    disk', img' := PutInodeIn(WithBit(disk, IMAP_BLOCK, i, true), img.(live := img.live + {i}), i, d);
    assert |WithBit(disk, IMAP_BLOCK, i, true)| == |disk| by {
      WithBitLength(disk, IMAP_BLOCK, i);
    }
  }

  lemma WithBitLength(disk: Disk, first: nat, k: nat)
    requires first + k / BITS_PER_BLOCK < |disk|
    ensures |WithBit(disk, first, k, true)| == |disk|
  {
  }

  /** The first data zone is taken and written. */
  lemma RootIn(disk: Disk, img: Img, b: Block) returns (disk': Disk, img': Img)
    requires Represents(disk, img) && img.sb.firstDataZone < img.sb.nzones && 0 < img.sb.firstDataZone
    ensures |disk'| == |disk| && Represents(disk', img')
    ensures img' == img.(taken := img.taken + {img.sb.firstDataZone as nat},
                         data := img.data[img.sb.firstDataZone as nat := b])
  {
    hide Represents, WithBit;
    MarkZone(disk, img, 1);
    var z := img.sb.firstDataZone as nat;
    WithBitLength(disk, img.sb.ZmapBlock(), 1);
    var mid := img.(taken := img.taken + {z});
    PutZone(WithBit(disk, img.sb.ZmapBlock(), 1, true), mid, z, b);
    disk' := WithBit(disk, img.sb.ZmapBlock(), 1, true)[z := b];
    img' := mid.(data := mid.data[z := b]);
  }

  lemma PutInodeIn(disk: Disk, img: Img, i: nat, d: Inode) returns (disk': Disk, img': Img)
    requires Represents(disk, img) && 1 <= i <= img.sb.ninodes
    ensures |disk'| == |disk| && img' == img.(itab := img.itab[i := d]) && Represents(disk', img')
  {
    hide Represents, Patch;
    PutInode(disk, img, i, d);
    disk' := disk[InodeHome(img.sb, i) := Patch(disk[InodeHome(img.sb, i)], InodeOffset(i), InodeBytes(d))];
    img' := img.(itab := img.itab[i := d]);
  }

  /** Mounting the formatted drive gives a volume on which every operation may be
      called. */
  method MountFormatted(disk: Disk, ghost sb: Super, ghost item: Item) returns (v: Volume)
    requires Fits(sb) && Represents(disk, Formatted(sb, item))
    ensures fresh(v) && fresh(v.cache) && v.Valid() && v.img == Formatted(sb, item) && Fsck(v.img)
    ensures forall s :: 0 <= s < MAX_INODES ==> v.cache[s] == FREE_SLOT
  {
    hide Represents, Formatted, Sane, Tidy, Fsck;
    FormattedIsSound(sb, item);
    SaneMeans(Formatted(sb, item));
    v := new Volume(disk);
    var r := v.Mount(true, Formatted(sb, item));
  }

  lemma SaneMeans(img: Img)
    requires Sane(img)
    ensures Shaped(img) && Owned(img)
  {
  }

  // ---- harm, at concrete inputs -----------------------------------------------------

  /** With no zone left but the root's, making a directory strands it: the name is in
      the root, and fsck fails. */
  lemma StrandedExample(sb: Super, cache: seq<Slot>)
    requires Fits(sb) && sb.nzones == sb.firstDataZone + 1
    requires Coherent(Formatted(sb, NoItem), cache) && cache[0].ino == ROOT_INO && Cached(cache, 0)
    ensures var img := Formatted(sb, NoItem);
      && ROOT_INO in img.itab && Fsck(img)
      && Outcome(img, cache, 0, FILE_NAME, DirKind) == Stranded(ROOT_INO, FILE_NAME, 2)
      && Enabled(TreeOf(img), Stranded(ROOT_INO, FILE_NAME, 2), sb.ninodes)
      && !TreeSound(Apply(TreeOf(img), Stranded(ROOT_INO, FILE_NAME, 2), sb.ninodes), sb.ninodes)
  {
    hide Formatted, TreeSound, Apply, Zone, Lost, Entries;
    var img := Formatted(sb, NoItem);
    FormattedIsSound(sb, NoItem);
    FormattedParts(sb, NoItem);
    assert img.itab[ROOT_INO] == FormattedInode(sb, NoItem, ROOT_INO);
    FormattedFree(sb, NoItem);
    FormattedZones(sb, NoItem, ROOT_INO, Leaf(0));
    FormattedContents(sb, NoItem, ROOT_INO);
    RootBytesAre(NoItem);
    NoFreeDot();
    MakeFileEnabled(sb.ninodes);
    RootIsDir();
    assert FirstUnused(img.live, 1, sb.ninodes) == 2;
    OutcomeEnabled(img, cache, 0, FILE_NAME, DirKind);
    EventKeepsTreeSound(TreeOf(img), Stranded(ROOT_INO, FILE_NAME, 2), sb.ninodes);
  }

  /** One byte behind the indirect range of the empty file: a zone is taken, cannot be
      entered and is lost. */
  lemma FarWriteSpills(sb: Super)
    requires Fits(sb) && sb.nzones >= sb.firstDataZone + 2
    ensures var img := Formatted(sb, AFile);
      && WriteSpills(img, FILE_INO, SINGLE_LIMIT * BLOCK_SIZE, 1)
      && !CanPlace(img, FILE_INO, SINGLE_LIMIT)
  {
    hide Formatted;
    FormattedFree(sb, AFile);
    FormattedZones(sb, AFile, FILE_INO, Leaf(SINGLE_LIMIT));
    OneBlockSpills(Formatted(sb, AFile), FILE_INO, SINGLE_LIMIT * BLOCK_SIZE, 1);
  }

  lemma RootFinds(sb: Super, item: Item)
    requires Fits(sb) && item != NoItem
    ensures var img := Formatted(sb, item);
      && ROOT_INO in img.itab && FILE_INO in img.itab && FILE_INO in img.live && ROOT_INO in img.live
      && KindOfMode(img.itab[ROOT_INO].mode) == DirKind && KindOfMode(img.itab[FILE_INO].mode) == KindOfMode(ItemMode(item))
      && LookupIno(img, ROOT_INO, FILE_NAME) == FILE_INO
  {
    hide Formatted, Entries, RootBytes;
    FormattedParts(sb, item);
    var img := Formatted(sb, item);
    assert img.itab[ROOT_INO] == FormattedInode(sb, item, ROOT_INO);
    assert img.itab[FILE_INO] == FormattedInode(sb, item, FILE_INO);
    FormattedContents(sb, item, ROOT_INO);
    RootBytesAre(item);
    var es := [Dirent(1, DOT), Dirent(1, DOT_DOT), Dirent(FILE_INO, FILE_NAME)];
    assert EntriesOf(img, ROOT_INO) == es;
    ThirdIsFound(Dirent(1, DOT), Dirent(1, DOT_DOT), Dirent(FILE_INO, FILE_NAME));
  }

  lemma ThirdIsFound(a: Dirent, b: Dirent, c: Dirent)
    requires a.name != c.name && b.name != c.name && c.ino != 0
    ensures FindName([a, b, c], c.name) == 2
  {
    assert [a, b, c][1..] == [b, c] && [b, c][1..] == [c];
    assert FindName([c], c.name) == 0 && FindName([b, c], c.name) == 1;
  }

  /** The file is found on a volume just mounted. */
  method FindFile(v: Volume, ghost sb: Super, ghost item: Item) returns (f: nat)
    requires Fits(sb) && (item == AFile || item == ADevice) && v.Valid() && v.img == Formatted(sb, item)
    requires forall s :: 0 <= s < MAX_INODES ==> v.cache[s] == FREE_SLOT
    modifies v.cache
    ensures v.Valid() && f < MAX_INODES && v.cache[f].ino == FILE_INO && v.cache[f].kind == KindOfMode(ItemMode(item))
    ensures v.img == old(v.img) && v.disk == old(v.disk)
  {
    hide Represents, Formatted, Fsck, Tidy, Owned, LookupIno, TreeOf, Contents;
    RootFinds(sb, item);
    assert v.cache[..][0].ino == 0;
    var s := v.Root();
    assert v.cache[..][0].ino == 0 || v.cache[..][1].ino == 0;
    var found := v.Lookup(s.value, FILE_NAME);
    f := found.value;
  }

  /** The same through the operations: mount the drive, find the file, write the byte.
      The write fails, and the volume that passed fsck no longer does. */
  method FarWrite(disk: Disk, ghost sb: Super) returns (v: Volume, r: int)
    requires Fits(sb) && sb.nzones >= sb.firstDataZone + 2 && Represents(disk, Formatted(sb, AFile))
    ensures r == -1 && v.Valid() && !Fsck(v.img)
  {
    hide Represents, Formatted, Fsck, Owned, WriteSpills, LookupIno, TreeOf, Contents, Loses, Splice, CleanTail;
    hide Coherent, Kept, DirsSound, CanPlace, OneSlotMoved;
    v := MountFormatted(disk, sb, AFile);
    FarWriteSpills(sb);
    RootFinds(sb, AFile);
    var f := FindFile(v, sb, AFile);
    r := v.Write(f, SINGLE_LIMIT * BLOCK_SIZE, [1]);
    FileWriteKeepsFsck(Formatted(sb, AFile), v.img, FILE_INO, SINGLE_LIMIT * BLOCK_SIZE, 1, []);
  }

  // ---- a device node ------------------------------------------------------------------

  /** The first entry of the root erased, as two zero bytes at the start of its block do. */
  function Erased(sb: Super): Img {
    var img, z := Formatted(sb, ADevice), sb.firstDataZone as nat;
    if z in img.data then img.(data := img.data[z := Patch(img.data[z], 0, [0, 0])]) else img
  }

  lemma ErasedBytes(sb: Super)
    requires Fits(sb)
    ensures var img, g, z := Formatted(sb, ADevice), Erased(sb), sb.firstDataZone as nat;
      && z in img.data && g == img.(data := img.data[z := Patch(img.data[z], 0, [0, 0])])
      && Sane(g) && ROOT_INO in g.live && ROOT_INO in g.itab && KindOfMode(g.itab[ROOT_INO].mode) == DirKind
      && |Contents(g, ROOT_INO)| == |RootBytes(ADevice)| == 48
      && forall p :: 0 <= p < 48 ==> Contents(g, ROOT_INO)[p] == if p < 2 then 0 else RootBytes(ADevice)[p]
  {
    hide Formatted, Entries, RootBytes;
    var img, z := Formatted(sb, ADevice), sb.firstDataZone as nat;
    FormattedParts(sb, ADevice);
    FormattedSane(sb, ADevice);
    FormattedRootIsDir(sb, ADevice);
    FormattedZones(sb, ADevice, ROOT_INO, Leaf(0));
    RootBytesAre(ADevice);
    var b := Patch(img.data[z], 0, [0, 0]);
    DataWrite(img, ROOT_INO, 0, b);
    assert img.itab[ROOT_INO] == FormattedInode(sb, ADevice, ROOT_INO);
    forall p | 0 <= p < 48
      ensures ByteAt(Erased(sb), ROOT_INO, p) == if p < 2 then 0 else RootBytes(ADevice)[p]
    {
      FormattedByte(sb, ADevice, ROOT_INO, p);
      assert p / BLOCK_SIZE == 0 && p % BLOCK_SIZE == p;
    }
  }

  /** The root has lost its ".", and fsck says so. */
  lemma ErasedFails(sb: Super)
    requires Fits(sb)
    ensures Sane(Erased(sb)) && !Fsck(Erased(sb))
  {
    hide Formatted, Erased, Zone, ByteAt, RootBytes;
    ErasedBytes(sb);
    RootBytesAre(ADevice);
    var g := Erased(sb);
    var c, was := Contents(g, ROOT_INO), RootBytes(ADevice);
    var es := Entries(c);
    assert es[0].ino == 0;
    assert c[16..32] == was[16..32] && c[32..48] == was[32..48];
    assert es[1] == Entries(was)[1] && es[2] == Entries(was)[2];
    assert !Names(es, DOT, ROOT_INO);
    assert TreeOf(g)[ROOT_INO] == NodeOf(g, ROOT_INO);
    assert !Dotted(TreeOf(g), ROOT_INO);
  }

  /** Two bytes written to the device node, and the volume that passed fsck no longer
      does: the next mount shows a root without its ".". */
  method DeviceWrite(disk: Disk, ghost sb: Super) returns (v: Volume, ok: bool)
    requires Fits(sb) && Represents(disk, Formatted(sb, ADevice))
    ensures ok && v.Steady() && !Fsck(v.img)
  {
    hide Represents, Formatted, Erased, Fsck, Tidy, Owned, Patch, TreeOf;
    v := MountFormatted(disk, sb, ADevice);
    FormattedRootIsDir(sb, ADevice);
    RootFinds(sb, ADevice);
    var f := FindFile(v, sb, ADevice);
    DeviceNumber(sb);
    ErasedBytes(sb);
    ErasedFails(sb);
    ok := v.DeviceChunk(f, 0, [0, 0]);
    var r := v.Mount(true, Erased(sb));
  }

  lemma DeviceNumber(sb: Super)
    requires Fits(sb)
    ensures FILE_INO in Formatted(sb, ADevice).itab && Formatted(sb, ADevice).itab[FILE_INO].zone[0] == sb.firstDataZone
  {
    hide Formatted;
    FormattedParts(sb, ADevice);
    assert Formatted(sb, ADevice).itab[FILE_INO] == FormattedInode(sb, ADevice, FILE_INO);
  }

  // ---- a name given twice ------------------------------------------------------------

  lemma FourthEntry(a: Dirent, b: Dirent, c: Dirent, e: Dirent)
    requires a.ino != 0 && b.ino != 0 && c.ino != 0 && a.name != c.name && b.name != c.name && e.name == c.name
    ensures FreeSlot([a, b, c]) == 3 && InsertEntry([a, b, c], e) == [a, b, c, e]
    ensures FindName([a, b, c], c.name) == 2 && FindName([a, b, c, e], c.name) == 2
  {
    assert [a, b, c][1..] == [b, c] && [b, c][1..] == [c] && [c][1..] == [];
    assert [a, b, c, e][1..] == [b, c, e] && [b, c, e][1..] == [c, e];
    assert FindName([c], c.name) == 0 && FindName([b, c], c.name) == 1;
    assert FindName([c, e], c.name) == 0 && FindName([b, c, e], c.name) == 1;
    assert FreeSlot([c]) == 1 && FreeSlot([b, c]) == 2;
  }

  function MakeSecond(): Event { MadeFile(ROOT_INO, FILE_NAME, 3) }

  /** The root holds the FIFO's name twice, and who looks for it finds the FIFO. */
  ghost predicate NamedTwice(t: Tree) {
    && ROOT_INO in t && t[ROOT_INO].IsDir()
    && Names(Entries(t[ROOT_INO].bytes), FILE_NAME, FILE_INO) && Names(Entries(t[ROOT_INO].bytes), FILE_NAME, 3)
    && Hidden(t, Entries(t[ROOT_INO].bytes), FILE_NAME) && !UniqueNames(t)
  }

  lemma FifoIsUnknown(sb: Super, cache: seq<Slot>, s: nat)
    requires Fits(sb) && Coherent(Formatted(sb, AFifo), cache)
    requires s < MAX_INODES && cache[s].ino == ROOT_INO
    ensures var img := Formatted(sb, AFifo);
      && cache[s].kind == DirKind && ROOT_INO in img.itab && KindOfMode(img.itab[ROOT_INO].mode) == DirKind
      && Unknown(img, FILE_INO) && !Cached(cache, FILE_INO)
  {
    hide Formatted;
    FormattedParts(sb, AFifo);
    var img := Formatted(sb, AFifo);
    assert img.itab[ROOT_INO] == FormattedInode(sb, AFifo, ROOT_INO);
    assert img.itab[FILE_INO] == FormattedInode(sb, AFifo, FILE_INO);
  }

  lemma SecondIsThere(t: Tree, n: nat)
    requires DirsSound(t) && Enabled(t, MakeSecond(), n) && ROOT_INO in t && t[ROOT_INO].IsDir()
    requires Entries(t[ROOT_INO].bytes) == [Dirent(1, DOT), Dirent(1, DOT_DOT), Dirent(FILE_INO, FILE_NAME)]
    requires FILE_INO in t && KindOfMode(t[FILE_INO].mode) == NoKind
    ensures NamedTwice(Apply(t, MakeSecond(), n))
  {
    hide Apply, Entries, KindOfMode, Enabled;
    var a, b, c, e := Dirent(1, DOT), Dirent(1, DOT_DOT), Dirent(FILE_INO, FILE_NAME), Dirent(3, FILE_NAME);
    EventEffect(t, MakeSecond(), n);
    FourthEntry(a, b, c, e);
    var t' := Apply(t, MakeSecond(), n);
    assert t'[ROOT_INO].mode == t[ROOT_INO].mode && t'[FILE_INO].mode == t[FILE_INO].mode;
    var es := Entries(t'[ROOT_INO].bytes);
    assert es == [a, b, c, e] && es[2] == c && es[3] == e;
    assert !UniqueIn(es);
  }

  /** With a FIFO in the root its name is created a second time, although the volume passes
      fsck: afterwards it does not, and the name still leads to the FIFO. */
  lemma SecondEntryExample(sb: Super, cache: seq<Slot>, s: nat)
    requires Fits(sb) && sb.ninodes >= 3
    requires var img := Formatted(sb, AFifo);
      Coherent(img, cache) && s < MAX_INODES && cache[s].ino == ROOT_INO && Cached(cache, 0)
    ensures var img := Formatted(sb, AFifo);
      && Shaped(img) && ROOT_INO in img.itab && Fsck(img) && Outcome(img, cache, s, FILE_NAME, FileKind) == MakeSecond()
      && Enabled(TreeOf(img), MakeSecond(), sb.ninodes)
      && NamedTwice(Apply(TreeOf(img), MakeSecond(), sb.ninodes))
  {
    hide Formatted, TreeSound, Zone, Lost, Entries, Dots, DirentBytes, Splice, Contents, Coherent, Enabled, Apply;
    var img := Formatted(sb, AFifo);
    FormattedIsSound(sb, AFifo);
    FormattedParts(sb, AFifo);
    FormattedContents(sb, AFifo, ROOT_INO);
    FormattedZones(sb, AFifo, ROOT_INO, Leaf(0));
    RootBytesAre(AFifo);
    FifoIsUnknown(sb, cache, s);
    FourthEntry(Dirent(1, DOT), Dirent(1, DOT_DOT), Dirent(FILE_INO, FILE_NAME), Dirent(3, FILE_NAME));
    assert EntriesOf(img, ROOT_INO) == [Dirent(1, DOT), Dirent(1, DOT_DOT), Dirent(FILE_INO, FILE_NAME)];
    assert 1 in img.live && 2 in img.live && 3 !in img.live;
    assert FirstUnused(img.live, 1, sb.ninodes) == 3;
    OutcomeEnabled(img, cache, s, FILE_NAME, FileKind);
    DirIsEntries(img, ROOT_INO);
    SecondIsThere(TreeOf(img), sb.ninodes);
  }

  lemma TwiceIsNotFound(img: Img, cache: seq<Slot>)
    requires Shaped(img) && Coherent(img, cache) && NamedTwice(TreeOf(img))
    ensures ROOT_INO in img.itab && KindOfMode(img.itab[ROOT_INO].mode) == DirKind
    ensures !CanLookup(img, cache, ROOT_INO, FILE_NAME)
    ensures forall s :: 0 <= s < MAX_INODES && cache[s].ino == ROOT_INO ==> cache[s].kind == DirKind
  {
    hide Entries, KindOfMode, UniqueNames, Names;
    var t := TreeOf(img);
    assert t[ROOT_INO] == NodeOf(img, ROOT_INO);
    var i := LookupIno(img, ROOT_INO, FILE_NAME);
    assert t[i] == NodeOf(img, i);
    if Cached(cache, i) {
      CachedIsKnown(img, cache, i);
    }
  }

  /** The same through the operations: the file is made, its name is there twice, it is
      not found, and the volume that passed fsck no longer does. */
  method SecondEntry(disk: Disk, ghost sb: Super) returns (v: Volume, made: Option<nat>, found: Option<nat>)
    requires Fits(sb) && sb.ninodes >= 3 && Represents(disk, Formatted(sb, AFifo))
    ensures made.Some? && found.None?
    ensures v.Valid() && NamedTwice(v.Tree()) && !Fsck(v.img)
  {
    hide Represents, Formatted, Tidy, Owned, TreeOf, Lost, TreeSound, Apply, Enabled, NamedTwice, Coherent, KindOfMode;
    hide CanLookup, Outcome, CreateSpills, ZonesFor;
    v := MountFormatted(disk, sb, AFifo);
    FormattedRootIsDir(sb, AFifo);
    assert v.cache[..][0].ino == 0;
    var root := v.Root();
    assert v.cache[..][0].ino == 0 || v.cache[..][1].ino == 0;
    var s := root.value;
    SecondEntryExample(sb, v.cache[..], s);
    made := v.Create(s, FILE_NAME, FileKind);
    TwiceIsNotFound(v.img, v.cache[..]);
    NamedTwiceFails(v.img);
    found := v.Lookup(s, FILE_NAME);
  }

  lemma NamedTwiceFails(img: Img)
    requires Shaped(img) && NamedTwice(TreeOf(img))
    ensures !Fsck(img)
  {
  }

  /** A name of its own for each directory, without a slash: "dAA", "dAB" and so on. */
  function DirName(j: nat): seq<byte>
    requires 0 < j < 0x100
  {
    [0x64, 0x41 + j / 16, 0x41 + j % 16]
  }

  function MakeDir(j: nat): Event
    requires 0 < j < 0x100
  {
    MadeDir(ROOT_INO, DirName(j), j + 1)
  }

  /** Directory `j` can still be made in the root. */
  ghost predicate IsNew(t: Tree, j: nat)
    requires ROOT_INO in t && 0 < j < 0x100
  {
    FindName(Entries(t[ROOT_INO].bytes), DirName(j)) == |Entries(t[ROOT_INO].bytes)|
  }

  lemma NamesDiffer(j: nat, k: nat)
    requires 0 < j < k < 0x100
    ensures DirName(j) != DirName(k) && NameFits(DirName(j)) && 0 !in DirName(j) && 0x2F !in DirName(j)
  {
  }

  lemma StillNew(es: seq<Dirent>, e: Dirent, name: seq<byte>)
    requires FindName(es, name) == |es| && e.name != name
    ensures FindName(InsertEntry(es, e), name) == |InsertEntry(es, e)|
  {
    var es' := InsertEntry(es, e);
    forall j | 0 <= j < |es'|
      ensures es'[j].ino == 0 || es'[j].name != name
    {
      if j != FreeSlot(es) {
        assert es'[j] == es[j];
      }
    }
  }

  /** After `k` directories: the root has `k` more links and at most `k` more entries,
      the numbers up to `k + 1` are used, the names behind are free. */
  ghost predicate Furnished(t: Tree, k: nat, n: nat) {
    && TreeSound(t, n) && n < 0x1_0000
    && ROOT_INO in t && t[ROOT_INO].IsDir() && t[ROOT_INO].links == 2 + k
    && (forall i :: i in t <==> 1 <= i <= k + 1)
    && |Entries(t[ROOT_INO].bytes)| <= k + 2
    && forall j {:trigger IsNew(t, j)} :: k < j < 0x100 ==> IsNew(t, j)
  }

  lemma RootFurnished(n: nat)
    requires 1 <= n < 0x1_0000
    ensures Furnished(RootTree(), 0, n)
  {
    hide TreeSound, Dots, Entries;
    RootTreeSound(n);
    RootIsDir();
    var es := [Dirent(1, DOT), Dirent(1, DOT_DOT)];
    assert es[1..] == [Dirent(1, DOT_DOT)] && es[1..][1..] == [];
    forall j | 0 < j < 0x100
      ensures IsNew(RootTree(), j)
    {
      assert FindName(es, DirName(j)) == 2;
    }
  }

  lemma OneMoreDir(t: Tree, k: nat, n: nat)
    requires Furnished(t, k, n) && k < 253 && k + 2 <= n
    ensures Enabled(t, MakeDir(k + 1), n) && Furnished(Apply(t, MakeDir(k + 1), n), k + 1, n)
  {
    hide Apply, Entries, KindOfMode, FindName, DirName;
    var ev := MakeDir(k + 1);
    assert IsNew(t, k + 1);
    NamesDiffer(k + 1, k + 2);
    var t' := Apply(t, ev, n);
    EventKeepsTreeSound(t, ev, n);
    EventEffect(t, ev, n);
    EventLinks(t, ev, n, ROOT_INO);
    assert t'[ROOT_INO].mode == t[ROOT_INO].mode;
    forall j | k + 1 < j < 0x100
      ensures IsNew(t', j)
    {
      assert IsNew(t, j);
      NamesDiffer(k + 1, j);
      StillNew(Entries(t[ROOT_INO].bytes), Dirent(k + 2, DirName(k + 1)), DirName(j));
    }
  }

  /** The 254th directory wraps the root's link count to 0, and fsck fails. */
  lemma LastDir(t: Tree, n: nat)
    requires Furnished(t, 253, n) && 255 <= n
    ensures Enabled(t, MakeDir(254), n) && t[ROOT_INO].links == 255
    ensures var t' := Apply(t, MakeDir(254), n);
      ROOT_INO in t' && t'[ROOT_INO].links == 0 && !TreeSound(t', n)
  {
    hide TreeSound, Apply, Entries, KindOfMode, FindName, DirName;
    var ev := MakeDir(254);
    assert IsNew(t, 254);
    NamesDiffer(254, 255);
    EventKeepsTreeSound(t, ev, n);
    SoundMeans(t, n);
    EventEffect(t, ev, n);
    EventLinks(t, ev, n, ROOT_INO);
  }

  /** On a volume with that tree, the root and an empty slot in the cache and two zones
      free, a create of directory `k + 1` is just that event. */
  lemma MkdirIsEvent(img: Img, cache: seq<Slot>, s: nat, k: nat)
    requires Shaped(img) && Furnished(TreeOf(img), k, img.sb.ninodes) && k < 254 && k + 2 <= img.sb.ninodes
    requires Coherent(img, cache) && s < MAX_INODES && cache[s].ino == ROOT_INO && Cached(cache, 0)
    requires FreeZones(img) >= 2
    ensures ROOT_INO in img.itab && ZonesFor(img, cache, s, DirName(k + 1), DirKind) <= 2
    ensures Outcome(img, cache, s, DirName(k + 1), DirKind) == MakeDir(k + 1)
  {
    hide TreeSound, Entries, FindName, Contents, DirName, KindOfMode;
    var t := TreeOf(img);
    assert IsNew(t, k + 1);
    NamesDiffer(k + 1, k + 2);
    assert t[ROOT_INO] == NodeOf(img, ROOT_INO);
    assert cache[s].kind == DirKind;
    var i := FirstUnused(img.live, 1, img.sb.ninodes);
    assert k + 2 !in t && (i in t <==> i in img.live);
    assert 1 <= i < k + 2 ==> i in t;
    assert i == k + 2;
  }

  /** The root's slot with another one free beside it: if the cache is full, which never
      gives a slot back, the volume is mounted again. */
  method RootAndRoom(v: Volume, s0: nat) returns (s: nat)
    requires v.Valid() && s0 < MAX_INODES && v.cache[s0].ino == ROOT_INO
    modifies v`attached, v`sb, v`mounted, v`img, v.cache
    ensures v.Valid() && v.img == old(v.img) && v.sb == old(v.sb)
    ensures s < MAX_INODES && v.cache[s].ino == ROOT_INO && Cached(v.cache[..], 0)
  {
    hide Represents, Tidy, Owned;
    s := s0;
    var free := v.FindSlot(0);
    if free.None? {
      var r := v.Remount();
      assert v.cache[..][0].ino == 0;
      var found := v.Root();
      s := found.value;
      assert v.cache[..][0].ino == 0 || v.cache[..][1].ino == 0;
    }
  }

  /** One mkdir in the root. */
  method NextDir(v: Volume, s0: nat, k: nat) returns (s: nat)
    requires v.Valid() && s0 < MAX_INODES && v.cache[s0].ino == ROOT_INO
    requires k < 254 && 255 <= v.sb.ninodes && Furnished(v.Tree(), k, v.sb.ninodes) && FreeZones(v.img) >= 2
    modifies v`attached, v`sb, v`mounted, v`disk, v`img, v.cache
    ensures v.Valid() && v.sb == old(v.sb)
    ensures s < MAX_INODES && v.cache[s].ino == ROOT_INO && FreeZones(v.img) >= old(FreeZones(v.img)) - 2
    ensures Enabled(old(v.Tree()), MakeDir(k + 1), v.sb.ninodes)
    ensures v.Tree() == Apply(old(v.Tree()), MakeDir(k + 1), v.sb.ninodes)
  {
    hide Represents, Tidy, Owned, Furnished, Apply, TreeOf, Outcome, ZonesFor, Loses, Reported, FreeZones;
    s := RootAndRoom(v, s0);
    FurnishedHasRoom(v.Tree(), k, v.sb.ninodes);
    MkdirIsEvent(v.img, v.cache[..], s, k);
    var out := v.Create(s, DirName(k + 1), DirKind);
  }

  lemma FurnishedHasRoom(t: Tree, k: nat, n: nat)
    requires Furnished(t, k, n) && k < 254 && 255 <= n
    ensures 0 !in DirName(k + 1) && k + 2 <= n
  {
  }

  /** The formatted volume mounted, its root in a slot. */
  method MountRoot(disk: Disk, ghost sb: Super) returns (v: Volume, s: nat)
    requires Fits(sb) && Represents(disk, Formatted(sb, NoItem))
    ensures fresh(v) && fresh(v.cache) && v.Valid() && v.sb == sb && Fsck(v.img)
    ensures s < MAX_INODES && v.cache[s].ino == ROOT_INO
    ensures Furnished(v.Tree(), 0, sb.ninodes) && FreeZones(v.img) == sb.nzones - sb.firstDataZone - 1
  {
    hide Represents, Formatted, Furnished, Tidy, Owned, TreeOf, TreeSound, Lost, FreeZones;
    FormattedTree(sb, NoItem);
    FormattedFree(sb, NoItem);
    FormattedRootIsDir(sb, NoItem);
    RootFurnished(sb.ninodes);
    v := MountFormatted(disk, sb, NoItem);
    assert v.cache[..][0].ino == 0;
    var root := v.Root();
    s := root.value;
  }

  /** 254 directories in the root of a formatted volume, mounted again whenever the
      cache is full: the root's link count ends up 0, and the volume that passed fsck
      no longer does. */
  method LinkOverflow(disk: Disk, ghost sb: Super) returns (v: Volume)
    requires Fits(sb) && Represents(disk, Formatted(sb, NoItem))
    requires sb.ninodes >= 255 && sb.nzones >= sb.firstDataZone + 509
    ensures v.Valid() && ROOT_INO in v.Tree() && v.Tree()[ROOT_INO].links == 0 && !Fsck(v.img)
  {
    hide Represents, Furnished, Tidy, Owned, TreeOf, Apply, TreeSound, Lost, FreeZones, Coherent, Distinct, Formatted;
    var s: nat;
    v, s := MountRoot(disk, sb);
    var k: nat := 0;
    while k < 253
      invariant k <= 253 && v.Valid() && fresh(v) && fresh(v.cache) && v.sb == sb
      invariant s < MAX_INODES && v.cache[s].ino == ROOT_INO
      invariant Furnished(v.Tree(), k, sb.ninodes) && FreeZones(v.img) >= 2 * (254 - k)
    {
      OneMoreDir(v.Tree(), k, sb.ninodes);
      s := NextDir(v, s, k);
      k := k + 1;
    }
    LastDir(v.Tree(), sb.ninodes);
    s := NextDir(v, s, k);
  }
}
