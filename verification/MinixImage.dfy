/** What the blocks of a minix drive mean: two bitmaps, an inode table and the
    data zones. `Represents` ties the raw blocks to that image, and one lemma per
    kind of block write says which single part of the image it changes. */
module MinixImage {
  import opened Bytes
  import opened MinixFormat

  type Disk = seq<Block>

  /** `live` and `taken` hold the numbers whose bit is on: inode `i` is bit `i` of
      its bitmap, zone `z` is bit `z - firstDataZone + 1` of the other. */
  datatype Img = Img(sb: Super, live: set<nat>, taken: set<nat>, itab: map<nat, Inode>, data: map<nat, Block>)

  /** Bit `k` of the bitmap that starts at block `first`. */
  predicate DiskBit(disk: Disk, first: nat, k: nat) {
    first + k / BITS_PER_BLOCK < |disk| && BlockBit(disk[first + k / BITS_PER_BLOCK], k % BITS_PER_BLOCK)
  }

  /** Where inode `i` lives: block and offset. Inode 1 is the first of the table. */
  function InodeHome(sb: Super, i: nat): nat
    requires i > 0
  {
    sb.InodeBlock() + (i - 1) / INODES_PER_BLOCK
  }

  function InodeOffset(i: nat): (r: nat)
    requires i > 0
    ensures r + INODE_SIZE <= BLOCK_SIZE
  {
    (i - 1) % INODES_PER_BLOCK * INODE_SIZE
  }

  function InodeOnDisk(sb: Super, disk: Disk, i: nat): Inode
    requires i > 0
  {
    if InodeHome(sb, i) < |disk| then InodeOf(disk[InodeHome(sb, i)], InodeOffset(i)) else ZERO_INODE
  }

  ghost predicate LiveBits(sb: Super, disk: Disk, live: set<nat>) {
    forall i {:trigger DiskBit(disk, IMAP_BLOCK, i)} ::
      1 <= i <= sb.ninodes ==> (DiskBit(disk, IMAP_BLOCK, i) <==> i in live)
  }

  ghost predicate TakenBits(sb: Super, disk: Disk, taken: set<nat>) {
    forall k {:trigger DiskBit(disk, sb.ZmapBlock(), k)} ::
      1 <= k <= sb.ZoneBits() ==> (DiskBit(disk, sb.ZmapBlock(), k) <==> sb.ZoneOfBit(k) in taken)
  }

  ghost predicate Table(sb: Super, disk: Disk, itab: map<nat, Inode>) {
    forall i {:trigger InodeOnDisk(sb, disk, i)} ::
      1 <= i <= sb.ninodes ==> i in itab && InodeOnDisk(sb, disk, i) == itab[i]
  }

  ghost predicate DataZones(sb: Super, disk: Disk, data: map<nat, Block>) {
    forall z {:trigger disk[z]} ::
      sb.firstDataZone <= z < sb.nzones <= |disk| ==> z in data && disk[z] == data[z]
  }

  ghost predicate Represents(disk: Disk, img: Img) {
    && img.sb.Sound(|disk|)
    && SuperOf(disk[1]) == img.sb
    && LiveBits(img.sb, disk, img.live)
    && TakenBits(img.sb, disk, img.taken)
    && Table(img.sb, disk, img.itab)
    && DataZones(img.sb, disk, img.data)
  }

  /** The parts of an image range over the numbers the superblock declares. */
  ghost predicate Shaped(img: Img) {
    && img.sb.firstDataZone > 0
    && (forall i :: i in img.itab <==> 1 <= i <= img.sb.ninodes)
    && (forall z :: z in img.data <==> img.sb.firstDataZone <= z < img.sb.nzones)
    && img.live <= img.itab.Keys
    && img.taken <= img.data.Keys
  }

  /** The zones nobody has taken. */
  function FreeZones(img: Img): nat {
    |img.data.Keys - img.taken|
  }

  // ---- one block write, one change of the image ------------------------------

  function WithBit(disk: Disk, first: nat, k: nat, on: bool): Disk
    requires first + k / BITS_PER_BLOCK < |disk|
  {
    var b := first + k / BITS_PER_BLOCK;
    disk[b := if on then BlockOn(disk[b], k % BITS_PER_BLOCK) else BlockOff(disk[b], k % BITS_PER_BLOCK)]
  }

  lemma WithBitBit(disk: Disk, first: nat, k: nat, on: bool, j: nat)
    requires first + k / BITS_PER_BLOCK < |disk|
    ensures DiskBit(WithBit(disk, first, k, on), first, j) <==> if j == k then on else DiskBit(disk, first, j)
  {
    var b := disk[first + k / BITS_PER_BLOCK];
    if on {
      BlockOnBit(b, k % BITS_PER_BLOCK, j % BITS_PER_BLOCK);
    } else {
      BlockOffBit(b, k % BITS_PER_BLOCK, j % BITS_PER_BLOCK);
    }
  }

  /** Clearing a bit that was just set gives back the very same disk. */
  lemma ClearUndoesSet(disk: Disk, first: nat, k: nat)
    requires first + k / BITS_PER_BLOCK < |disk| && !DiskBit(disk, first, k)
    ensures WithBit(WithBit(disk, first, k, true), first, k, false) == disk
  {
    BlockOffOn(disk[first + k / BITS_PER_BLOCK], k % BITS_PER_BLOCK);
  }

  /** A write to block `b` is felt only by the region that `b` lies in. */
  lemma OtherRegions(disk: Disk, img: Img, b: nat, x: Block)
    requires Represents(disk, img) && 1 < b < |disk|
    ensures b >= img.sb.ZmapBlock() ==> LiveBits(img.sb, disk[b := x], img.live)
    ensures b < img.sb.ZmapBlock() || b >= img.sb.InodeBlock() ==> TakenBits(img.sb, disk[b := x], img.taken)
    ensures b < img.sb.InodeBlock() || b >= img.sb.firstDataZone ==> Table(img.sb, disk[b := x], img.itab)
    ensures b < img.sb.firstDataZone ==> DataZones(img.sb, disk[b := x], img.data)
  {
    var disk' := disk[b := x];
    if b >= img.sb.ZmapBlock() {
      forall i | 1 <= i <= img.sb.ninodes
        ensures DiskBit(disk', IMAP_BLOCK, i) <==> i in img.live
      {
        assert DiskBit(disk', IMAP_BLOCK, i) == DiskBit(disk, IMAP_BLOCK, i);
      }
    }
    if b < img.sb.ZmapBlock() || b >= img.sb.InodeBlock() {
      forall k | 1 <= k <= img.sb.ZoneBits()
        ensures DiskBit(disk', img.sb.ZmapBlock(), k) <==> img.sb.ZoneOfBit(k) in img.taken
      {
        assert DiskBit(disk', img.sb.ZmapBlock(), k) == DiskBit(disk, img.sb.ZmapBlock(), k);
      }
    }
    if b < img.sb.InodeBlock() || b >= img.sb.firstDataZone {
      forall i | 1 <= i <= img.sb.ninodes
        ensures i in img.itab && InodeOnDisk(img.sb, disk', i) == img.itab[i]
      {
        assert InodeOnDisk(img.sb, disk', i) == InodeOnDisk(img.sb, disk, i);
      }
    }
    if b < img.sb.firstDataZone {
      forall z | img.sb.firstDataZone <= z < img.sb.nzones
        ensures z in img.data && disk'[z] == img.data[z]
      {
        assert disk'[z] == disk[z];
      }
    }
  }

  /** A bit of the inode bitmap changes the set of live inodes and nothing else. */
  lemma MarkInode(disk: Disk, img: Img, i: nat, on: bool)
    requires Represents(disk, img) && 1 <= i <= img.sb.ninodes
    ensures IMAP_BLOCK + i / BITS_PER_BLOCK < |disk|
    ensures Represents(WithBit(disk, IMAP_BLOCK, i, on),
                       img.(live := if on then img.live + {i} else img.live - {i}))
  {
    var b := IMAP_BLOCK + i / BITS_PER_BLOCK;
    assert b < img.sb.ZmapBlock();
    var disk' := WithBit(disk, IMAP_BLOCK, i, on);
    OtherRegions(disk, img, b, disk'[b]);
    var live' := if on then img.live + {i} else img.live - {i};
    forall j | 1 <= j <= img.sb.ninodes
      ensures DiskBit(disk', IMAP_BLOCK, j) <==> j in live'
    {
      WithBitBit(disk, IMAP_BLOCK, i, on, j);
    }
  }

  /** A bit of the zone bitmap takes one zone and changes nothing else. */
  lemma MarkZone(disk: Disk, img: Img, k: nat)
    requires Represents(disk, img) && 1 <= k <= img.sb.ZoneBits()
    ensures img.sb.ZmapBlock() + k / BITS_PER_BLOCK < |disk|
    ensures Represents(WithBit(disk, img.sb.ZmapBlock(), k, true),
                       img.(taken := img.taken + {img.sb.ZoneOfBit(k)}))
  {
    var first := img.sb.ZmapBlock();
    var b := first + k / BITS_PER_BLOCK;
    assert b < img.sb.InodeBlock();
    var disk' := WithBit(disk, first, k, true);
    OtherRegions(disk, img, b, disk'[b]);
    forall j | 1 <= j <= img.sb.ZoneBits()
      ensures DiskBit(disk', first, j) <==> img.sb.ZoneOfBit(j) in img.taken + {img.sb.ZoneOfBit(k)}
    {
      WithBitBit(disk, first, k, true, j);
    }
  }

  /** Rewriting the 32 bytes of an inode changes that inode: the other 31 of the
      block, the bitmaps and the data stay as they are. */
  lemma PutInode(disk: Disk, img: Img, i: nat, d: Inode)
    requires Represents(disk, img) && 1 <= i <= img.sb.ninodes
    ensures InodeHome(img.sb, i) < |disk|
    ensures Represents(disk[InodeHome(img.sb, i) := Patch(disk[InodeHome(img.sb, i)], InodeOffset(i), InodeBytes(d))],
                       img.(itab := img.itab[i := d]))
  {
    var home := InodeHome(img.sb, i);
    var disk', itab' := disk[home := Patch(disk[home], InodeOffset(i), InodeBytes(d))], img.itab[i := d];
    OtherRegions(disk, img, home, disk'[home]);
    forall j | 1 <= j <= img.sb.ninodes
      ensures j in itab' && InodeOnDisk(img.sb, disk', j) == itab'[j]
    {
      InodeAfterPut(disk, img.sb, i, d, j);
      assert InodeOnDisk(img.sb, disk, j) == img.itab[j];
    }
  }

  lemma InodeAfterPut(disk: Disk, sb: Super, i: nat, d: Inode, j: nat)
    requires i > 0 && j > 0 && InodeHome(sb, i) < |disk|
    ensures InodeOnDisk(sb, disk[InodeHome(sb, i) := Patch(disk[InodeHome(sb, i)], InodeOffset(i), InodeBytes(d))], j)
         == if j == i then d else InodeOnDisk(sb, disk, j)
  {
    var home := InodeHome(sb, i);
    if j == i {
      InodeRoundTrip(disk[home], InodeOffset(i), d);
    } else if InodeHome(sb, j) == home {
      InodeElsewhere(disk[home], InodeOffset(i), InodeBytes(d), InodeOffset(j));
    }
  }

  /** Writing a data zone changes its contents: no data write can reach the
      superblock, the bitmaps or the inode table. */
  lemma PutZone(disk: Disk, img: Img, z: nat, b: Block)
    requires Represents(disk, img) && img.sb.firstDataZone <= z < img.sb.nzones
    ensures z < |disk|
    ensures Represents(disk[z := b], img.(data := img.data[z := b]))
  {
    OtherRegions(disk, img, z, b);
    var disk', data' := disk[z := b], img.data[z := b];
    forall y | img.sb.firstDataZone <= y < img.sb.nzones
      ensures y in data' && disk'[y] == data'[y]
    {
      var x := disk[y];
    }
  }

  /** A disk has one image: what is on it decides every part. */
  lemma ImageUnique(disk: Disk, a: Img, b: Img)
    requires Represents(disk, a) && Represents(disk, b) && Shaped(a) && Shaped(b)
    ensures a == b
  {
    forall i | 1 <= i <= a.sb.ninodes
      ensures (i in a.live <==> i in b.live) && a.itab[i] == b.itab[i]
    {
      var bit := DiskBit(disk, IMAP_BLOCK, i);
      var d := InodeOnDisk(a.sb, disk, i);
    }
    forall z | a.sb.firstDataZone <= z < a.sb.nzones
      ensures (z in a.taken <==> z in b.taken) && a.data[z] == b.data[z]
    {
      var k := z - a.sb.firstDataZone + 1;
      var bit := DiskBit(disk, a.sb.ZmapBlock(), k);
      assert a.sb.ZoneOfBit(k) == z;
      var x := disk[z];
    }
    assert a.live == b.live;
    assert a.taken == b.taken;
    assert a.itab == b.itab;
    assert a.data == b.data;
  }
}
