/** The format in plain numbers: where on the drive each thing lies, byte by byte, said
    without the functions and constants the model reads it with. */
module MinixLayout {
  import opened Bytes
  import opened MinixFormat
  import opened MinixImage
  import opened MinixZones
  import opened MinixTree
  import opened MinixState
  import opened MinixSteps

  /** Two bytes, the low one first. */
  function Le16(s: seq<byte>, at: nat): nat
    requires at + 1 < |s|
  {
    (s[at] as int) + 256 * (s[at + 1] as int)
  }

  // ---- numbers, bits and types -----------------------------------------------------

  function Weight(k: nat): nat
    requires k < 8
  {
    [1, 2, 4, 8, 16, 32, 64, 128][k]
  }

  lemma HalfAndDivide(v: nat, k: nat)
    requires 0 < k < 8
    ensures v / 2 / Weight(k - 1) == v / Weight(k)
  {
    if k == 1 {
    } else if k == 2 {
    } else if k == 3 {
    } else if k == 4 {
    } else if k == 5 {
    } else if k == 6 {
    } else {
    }
  }

  /** Bit `k` of a byte is the one of weight 2 to the `k`. */
  lemma {:induction false} BitInPlainNumbers(v: nat, k: nat)
    requires k < 8
    ensures BitOf(v, k) <==> v / Weight(k) % 2 == 1
    decreases k
  {
    if k > 0 {
      BitInPlainNumbers(v / 2, k - 1);
      HalfAndDivide(v, k);
    }
  }

  /** The type is in the top four bits: directories, files and character devices are
      known; links keep zones too. */
  lemma TypeInPlainNumbers(mode: u16)
    ensures KindOfMode(mode) == DirKind <==> 0x4000 <= mode <= 0x4FFF
    ensures KindOfMode(mode) == FileKind <==> 0x8000 <= mode <= 0x8FFF
    ensures KindOfMode(mode) == CharKind <==> 0x2000 <= mode <= 0x2FFF
    ensures KindOfMode(mode) != BlockKind
    ensures HasZones(mode) <==> 0x4000 <= mode <= 0x4FFF || 0x8000 <= mode <= 0x8FFF || 0xA000 <= mode <= 0xAFFF
  {
  }

  // ---- the regions of the drive ------------------------------------------------------

  /** The superblock is block 1: six words, and the magic in its bytes 16 and 17. */
  lemma SuperInPlainNumbers(b: Block)
    ensures var sb := SuperOf(b);
      && sb.ninodes == Le16(b, 0) && sb.nzones == Le16(b, 2) && sb.imapBlocks == Le16(b, 4) && sb.zmapBlocks == Le16(b, 6)
      && sb.firstDataZone == Le16(b, 8) && sb.logZoneSize == Le16(b, 10) && sb.magic == Le16(b, 16)
    ensures Mountable(SuperOf(b)) <==> b[16] == 0x7F && b[17] == 0x13 && b[10] == 0 && b[11] == 0
  {
  }

  /** Bit `k` of a bitmap that begins at block `first`. */
  predicate BitAt(disk: Disk, first: nat, k: nat) {
    first + k / 8192 < |disk| && disk[first + k / 8192][k % 8192 / 8] / Weight(k % 8) % 2 == 1
  }

  /** The bitmap of inodes begins at block 2, with inode `i` as bit `i`; the one of zones
      follows, with the first data zone as bit 1. */
  lemma BitmapsInPlainNumbers(disk: Disk, img: Img, i: nat, z: nat)
    requires Represents(disk, img)
    ensures 1 <= i <= img.sb.ninodes ==> (i in img.live <==> BitAt(disk, 2, i))
    ensures img.sb.firstDataZone <= z < img.sb.nzones ==>
      (z in img.taken <==> BitAt(disk, 2 + img.sb.imapBlocks, z - img.sb.firstDataZone + 1))
  {
    hide BitOf;
    if 1 <= i <= img.sb.ninodes {
      assert DiskBit(disk, 2, i) <==> i in img.live;
      DiskBitIs(disk, 2, i);
    }
    if img.sb.firstDataZone <= z < img.sb.nzones {
      var k := z - img.sb.firstDataZone + 1;
      assert DiskBit(disk, img.sb.ZmapBlock(), k) <==> img.sb.ZoneOfBit(k) in img.taken;
      DiskBitIs(disk, 2 + img.sb.imapBlocks, k);
    }
  }

  lemma DiskBitIs(disk: Disk, first: nat, k: nat)
    ensures DiskBit(disk, first, k) == BitAt(disk, first, k)
  {
    hide BitOf;
    assert k % 8192 % 8 == k % 8;
    if first + k / 8192 < |disk| {
      BitInPlainNumbers(disk[first + k / 8192][k % 8192 / 8], k % 8);
    }
  }

  /** Inode `i` lies in the table behind the bitmaps, 32 to a block, the root first. */
  function TableBlock(sb: Super, i: nat): nat
    requires i > 0
  {
    2 + sb.imapBlocks + sb.zmapBlocks + (i - 1) / 32
  }

  lemma InodeInPlainNumbers(disk: Disk, img: Img, i: nat)
    requires Represents(disk, img) && 1 <= i <= img.sb.ninodes
    ensures i in img.itab && TableBlock(img.sb, i) < |disk|
    ensures var d, b, o := img.itab[i], disk[TableBlock(img.sb, i)], (i - 1) % 32 * 32;
      && d.mode == Le16(b, o) && d.uid == Le16(b, o + 2)
      && d.size == Le16(b, o + 4) + 0x1_0000 * Le16(b, o + 6) && d.time == Le16(b, o + 8) + 0x1_0000 * Le16(b, o + 10)
      && d.gid == b[o + 12] && d.nlinks == b[o + 13]
      && forall k :: 0 <= k < 9 ==> d.zone[k] == Le16(b, o + 14 + 2 * k)
  {
    InodeInTable(disk, img, i);
  }

  /** A data zone is the block of its number. */
  lemma ZoneInPlainNumbers(disk: Disk, img: Img, z: nat)
    requires Represents(disk, img) && Shaped(img) && z in img.data
    ensures z < |disk| && disk[z] == img.data[z]
  {
  }

  // ---- directories -------------------------------------------------------------------

  /** Entry `k` of a directory is its bytes from 16 times `k` on: a number, and a name of up
      to 14 bytes that ends at its first zero. */
  lemma EntryInPlainNumbers(bytes: seq<byte>, k: nat)
    requires k < |bytes| / 16
    ensures |Entries(bytes)| == |bytes| / 16
    ensures var e := Entries(bytes)[k];
      && e.ino == Le16(bytes, 16 * k) && |e.name| <= 14
      && (forall j :: 0 <= j < |e.name| ==> e.name[j] == bytes[16 * k + 2 + j] != 0)
      && (|e.name| < 14 ==> bytes[16 * k + 2 + |e.name|] == 0)
  {
    var w := bytes[k * 16..(k + 1) * 16];
    assert w[2..] == bytes[16 * k + 2..16 * k + 16];
  }

  /** A name has 1 to 14 bytes, none of them zero. */
  lemma NamesInPlainNumbers(name: seq<byte>)
    ensures NameFits(name) <==> 1 <= |name| <= 14 && forall j :: 0 <= j < |name| ==> name[j] != 0
  {
  }

  /** What is written for an entry: number, name, and zeros behind it. */
  lemma WrittenEntry(ino: u16, name: seq<byte>)
    requires NameFits(name)
    ensures 0 < |name| <= 14 && |DirentBytes(Dirent(ino, name))| == 16
    ensures DirentBytes(Dirent(ino, name))[0] == ino % 256 && DirentBytes(Dirent(ino, name))[1] == ino / 256
    ensures forall j :: 0 <= j < 14 ==> DirentBytes(Dirent(ino, name))[2 + j] == if j < |name| then name[j] else 0
  {
  }

  // ---- new nodes ----------------------------------------------------------------------

  /** The bytes of a new directory: its own number under ".", its parent's under "..". */
  function TwoDots(self: u16, parent: u16): seq<byte> {
    [self % 256, self / 256, 0x2E] + seq(13, _ => 0) + [parent % 256, parent / 256, 0x2E, 0x2E] + seq(12, _ => 0)
  }

  lemma NewbornInPlainNumbers()
    ensures Newborn(FileKind) == Node(0x81A4, 0, 0, 0, 1, []) && Newborn(DirKind) == Node(0x41ED, 0, 0, 0, 2, [])
  {
  }

  /** A file is born with mode 0100644 and one link, a directory with mode 040755 and two,
      stranded ones included; nobody's, of time 0; only a complete directory has bytes. */
  lemma BornInPlainNumbers(t: Tree, ev: Event, n: nat)
    requires Enabled(t, ev, n) && Creates(ev)
    ensures ev.ino in Apply(t, ev, n)
    ensures Apply(t, ev, n)[ev.ino] == Node(
      if ev.MadeFile? then 0x81A4 else 0x41ED, 0, 0, 0, if ev.MadeFile? then 1 else 2,
      if ev.MadeDir? then TwoDots(ev.ino, ev.dir) else [])
  {
    hide Entries, FindName, AddEntry;
    if ev.MadeDir? {
      assert Dots(ev.ino, ev.dir) == TwoDots(ev.ino, ev.dir);
    }
  }

  lemma TwoBytes(s: seq<byte>, at: nat, v: u16)
    requires at + 1 < |s| && v == Le16(s, at)
    ensures s[at] == v % 256 && s[at + 1] == v / 256
  {
  }

  /** And so it stands on the drive after a create that makes a node: `a` was the image
      before, `b` is the one after. */
  lemma BornOnDrive(disk: Disk, a: Img, b: Img, ev: Event)
    requires Represents(disk, b) && Shaped(a) && Shaped(b) && Creates(ev)
    requires Enabled(TreeOf(a), ev, a.sb.ninodes) && TreeOf(b) == Apply(TreeOf(a), ev, a.sb.ninodes)
    ensures 1 <= ev.ino <= b.sb.ninodes && TableBlock(b.sb, ev.ino) < |disk|
    ensures var t, o := disk[TableBlock(b.sb, ev.ino)], (ev.ino - 1) % 32 * 32;
      && t[o] == (if ev.MadeFile? then 0xA4 else 0xED) && t[o + 1] == (if ev.MadeFile? then 0x81 else 0x41)
      && t[o + 13] == if ev.MadeFile? then 1 else 2
  {
    hide Apply, Enabled, Represents, Contents, TwoDots;
    BornInPlainNumbers(TreeOf(a), ev, a.sb.ninodes);
    assert ev.ino in b.live && TreeOf(b)[ev.ino] == NodeOf(b, ev.ino);
    InodeInPlainNumbers(disk, b, ev.ino);
    TwoBytes(disk[TableBlock(b.sb, ev.ino)], (ev.ino - 1) % 32 * 32, b.itab[ev.ino].mode);
  }

  // ---- where the bytes of a file are -------------------------------------------------

  /** Word `k` of block `z`, the low byte first; nowhere is nothing. */
  function WordOf(disk: Disk, z: nat, k: nat): nat
    requires k < 512
  {
    if 0 < z < |disk| then Le16(disk[z], 2 * k) else 0
  }

  /** The number of the block that holds block `n` of a file with these nine zones. */
  function BlockOf(disk: Disk, zone: Zones, n: nat): nat {
    if n < 7 then zone[n]
    else if n < 519 then WordOf(disk, zone[7], n - 7)
    else if n < 519 + 512 * 512 then WordOf(disk, WordOf(disk, zone[8], (n - 519) / 512), (n - 519) % 512)
    else 0
  }

  lemma ZoneOnDrive(disk: Disk, img: Img, i: nat, n: nat)
    requires Represents(disk, img) && Sane(img) && i in img.live && HasZones(img.itab[i].mode)
    ensures Zone(img, i, Leaf(n)) == BlockOf(disk, img.itab[i].zone, n)
  {
    hide Represents, OwnedByNobody;
    var zone := img.itab[i].zone;
    FollowOnDrive(disk, img, i, Single);
    FollowOnDrive(disk, img, i, Double);
    assert Zone(img, i, Single) == zone[7] && Zone(img, i, Double) == zone[8];
    if 519 <= n < 519 + 512 * 512 {
      var m := (n - 519) / 512;
      FollowOnDrive(disk, img, i, Middle(m));
      assert Zone(img, i, Middle(m)) == Follow(img.data, zone[8], m) == WordOf(disk, zone[8], m);
      assert Zone(img, i, Leaf(n)) == Follow(img.data, Zone(img, i, Middle(m)), (n - 519) % 512);
    } else if 7 <= n < 519 {
      assert Zone(img, i, Leaf(n)) == Follow(img.data, zone[7], n - 7);
    }
  }

  lemma FollowOnDrive(disk: Disk, img: Img, i: nat, r: Role)
    requires Represents(disk, img) && Sane(img) && i in img.live
    ensures forall k: nat :: k < 512 ==> Follow(img.data, Zone(img, i, r), k) == WordOf(disk, Zone(img, i, r), k)
  {
    var z := Zone(img, i, r);
    if z != 0 {
      assert z in img.taken;
      ZoneInPlainNumbers(disk, img, z);
    }
  }

  /** Where there is room for one more block: it is there; or it is one of the first 519, and
      as many zones are free as it takes, one more for the first behind the seventh. */
  lemma RoomInPlainNumbers(disk: Disk, img: Img, i: nat, n: nat)
    requires Represents(disk, img) && Sane(img) && i in img.live && HasZones(img.itab[i].mode)
    ensures CanPlace(img, i, n) <==>
      || BlockOf(disk, img.itab[i].zone, n) != 0
      || (n < 519 && FreeZones(img) >= if n >= 7 && img.itab[i].zone[7] == 0 then 2 else 1)
    ensures Assignable(img, i, n) <==> n < 7 || (n < 519 && (img.itab[i].zone[7] != 0 || FreeZones(img) >= 1))
  {
    hide Represents, BlockOf, FreeZones;
    ZoneOnDrive(disk, img, i, n);
    assert Zone(img, i, Single) == img.itab[i].zone[7];
  }

  /** Byte `p` of a file is byte `p % 1024` of the block that holds block `p / 1024`. */
  lemma ByteOnDrive(disk: Disk, img: Img, i: nat, p: nat)
    requires Represents(disk, img) && Sane(img) && i in img.live && HasZones(img.itab[i].mode) && p < img.itab[i].size
    ensures var z := BlockOf(disk, img.itab[i].zone, p / 1024);
      z < |disk| && Contents(img, i)[p] == if z == 0 then 0 else disk[z][p % 1024]
  {
    hide Represents, BlockOf;
    ZoneOnDrive(disk, img, i, p / 1024);
    var z := Zone(img, i, Leaf(p / 1024));
    if z != 0 {
      assert z in img.taken;
      ZoneInPlainNumbers(disk, img, z);
    } else {
      assert 0 !in img.data;
      SuperInside(disk, img);
    }
  }

  lemma SuperInside(disk: Disk, img: Img)
    requires Represents(disk, img)
    ensures 0 < |disk|
  {
  }

  /** The first seven blocks are those the inode names. */
  lemma DirectByte(disk: Disk, img: Img, i: nat, k: nat, q: nat)
    requires Represents(disk, img) && Sane(img) && i in img.live && HasZones(img.itab[i].mode)
    requires k < 7 && q < 1024 && k * 1024 + q < img.itab[i].size
    ensures var z := img.itab[i].zone[k];
      z < |disk| && Contents(img, i)[k * 1024 + q] == if z == 0 then 0 else disk[z][q]
  {
    hide Represents;
    assert (k * 1024 + q) / 1024 == k && (k * 1024 + q) % 1024 == q;
    ByteOnDrive(disk, img, i, k * 1024 + q);
  }

  /** The next 512 are those the words of block `zone[7]` name. */
  lemma IndirectByte(disk: Disk, img: Img, i: nat, k: nat, q: nat)
    requires Represents(disk, img) && Sane(img) && i in img.live && HasZones(img.itab[i].mode)
    requires k < 512 && q < 1024 && (7 + k) * 1024 + q < img.itab[i].size
    ensures var z := img.itab[i].zone[7]; z < |disk|
    ensures var z := img.itab[i].zone[7];
      var y := if z == 0 then 0 else Le16(disk[z], 2 * k);
      y < |disk| && Contents(img, i)[(7 + k) * 1024 + q] == if y == 0 then 0 else disk[y][q]
  {
    hide Represents;
    var p := (7 + k) * 1024 + q;
    assert p / 1024 == 7 + k && p % 1024 == q;
    PointerBlocksInside(disk, img, i);
    ByteOnDrive(disk, img, i, p);
  }

  /** The last are those named by the words of the blocks that the words of block
      `zone[8]` name. */
  lemma DoubleByte(disk: Disk, img: Img, i: nat, a: nat, b: nat, q: nat)
    requires Represents(disk, img) && Sane(img) && i in img.live && HasZones(img.itab[i].mode)
    requires a < 512 && b < 512 && q < 1024 && (519 + 512 * a + b) * 1024 + q < img.itab[i].size
    ensures var z := img.itab[i].zone[8]; z < |disk| && (z != 0 ==> Le16(disk[z], 2 * a) < |disk|)
    ensures var z := img.itab[i].zone[8];
      var y := if z == 0 then 0 else Le16(disk[z], 2 * a);
      var x := if y == 0 then 0 else Le16(disk[y], 2 * b);
      x < |disk| && Contents(img, i)[(519 + 512 * a + b) * 1024 + q] == if x == 0 then 0 else disk[x][q]
  {
    hide Represents;
    var n := 519 + 512 * a + b;
    var p := n * 1024 + q;
    assert p / 1024 == n && p % 1024 == q;
    assert (n - 519) / 512 == a && (n - 519) % 512 == b;
    PointerBlocksInside(disk, img, i);
    MiddleInside(disk, img, i, a);
    ByteOnDrive(disk, img, i, p);
  }

  lemma PointerBlocksInside(disk: Disk, img: Img, i: nat)
    requires Represents(disk, img) && Sane(img) && i in img.live && HasZones(img.itab[i].mode)
    ensures img.itab[i].zone[7] < |disk| && img.itab[i].zone[8] < |disk|
  {
    SuperInside(disk, img);
    assert Zone(img, i, Single) == img.itab[i].zone[7] && Zone(img, i, Double) == img.itab[i].zone[8];
    assert Zone(img, i, Single) != 0 ==> Zone(img, i, Single) in img.taken;
    assert Zone(img, i, Double) != 0 ==> Zone(img, i, Double) in img.taken;
  }

  lemma MiddleInside(disk: Disk, img: Img, i: nat, a: nat)
    requires Represents(disk, img) && Sane(img) && i in img.live && HasZones(img.itab[i].mode) && a < 512
    ensures WordOf(disk, img.itab[i].zone[8], a) < |disk|
  {
    SuperInside(disk, img);
    FollowOnDrive(disk, img, i, Double);
    var y := Zone(img, i, Middle(a));
    assert y == Follow(img.data, Zone(img, i, Double), a) == WordOf(disk, img.itab[i].zone[8], a);
    assert y != 0 ==> y in img.taken;
  }

  /** What an assignment does to the nine zones: one of the first seven is set; or, from 7
      on, number 7 alone may change, from 0, and the word for the place is in its block. */
  ghost predicate AssignedOnDrive(disk: Disk, was: Zones, now: Zones, n: nat, z: nat) {
    && n < 519
    && (n < 7 && z < 0x1_0000 ==> now == was[n := z])
    && (n >= 7 ==>
          && now[7] != 0 && now == was[7 := now[7]] && (was[7] != 0 ==> now[7] == was[7])
          && WordOf(disk, now[7], n - 7) == z)
  }

  lemma AssignedInPlainNumbers(disk: Disk, a: Img, b: Img, i: nat, n: nat, z: nat)
    requires Sane(a) && Sane(b) && i in a.live && i in b.live && HasZones(a.itab[i].mode) && HasZones(b.itab[i].mode)
    requires Represents(disk, b) && Assigned(a, b, i, n, z) && n < SINGLE_LIMIT && 0 < z < 0x1_0000
    ensures AssignedOnDrive(disk, a.itab[i].zone, b.itab[i].zone, n, z)
  {
    hide Represents, OwnedByNobody, OthersSame;
    var was, now := a.itab[i].zone, b.itab[i].zone;
    assert Zone(b, i, Single) == now[7] && Zone(a, i, Single) == was[7];
    assert Zone(b, i, Double) == now[8] && Zone(a, i, Double) == was[8];
    ZoneOnDrive(disk, b, i, n);
    forall k | 0 <= k < 7 && k != n
      ensures now[k] == was[k]
    {
      assert Zone(b, i, Leaf(k)) == Zone(a, i, Leaf(k));
    }
    assert Zone(b, i, Leaf(n)) == z;
    if n < 7 {
      assert now == was[n := z];
    } else {
      assert now == was[7 := now[7]];
    }
  }
}
