/** What each step of the file system does to the image: the lemmas behind the
    operations of the mounted volume, stated on values. */
module MinixSteps {
  import opened Bytes
  import opened MinixFormat
  import opened MinixImage
  import opened MinixZones
  import opened MinixTree
  import opened MinixState

  function Stored(s: Slot, d: Inode): Inode {
    d.(mode := s.mode, size := s.size, nlinks := s.nlinks, zone := s.zone)
  }

  /** The marker of a slot whose inode was just sent to the drive: free again if
      that failed. */
  function SlotMark(r: int, ino: nat): nat {
    if r < 0 then 0 else ino
  }

  predicate Mountable(d: Super) {
    d.magic == MINIX_MAGIC && d.logZoneSize == 0
  }

  /** The least number no inode uses. */
  ghost predicate Unused(img: Img, i: nat) {
    1 <= i <= img.sb.ninodes && i !in img.live && forall j :: 1 <= j < i ==> j in img.live
  }

  ghost predicate CanAlloc(img: Img, cache: seq<Slot>, kind: Kind) {
    && (kind == FileKind || kind == DirKind)
    && Cached(cache, 0)
    && exists i :: 1 <= i <= img.sb.ninodes && i !in img.live
  }

  lemma ZeroInodeBytes()
    ensures InodeBytes(ZERO_INODE) == seq(INODE_SIZE, _ => 0)
  {
    assert ZoneWords(NO_ZONES) == seq(18, _ => 0);
    assert InodeHead(ZERO_INODE) == seq(14, _ => 0);
  }

  /** Whether an inode without zones is live makes no difference to the zones. */
  lemma EmptyInodeHoldsNothing(a: Img, b: Img, i: nat)
    requires Shaped(a) && Shaped(b) && b.live == a.live + {i} && i !in a.live && b.taken == a.taken && b.data == a.data
    requires i in b.itab && b.itab[i].zone == NO_ZONES && b.itab == a.itab[i := b.itab[i]]
    ensures Lost(b) == Lost(a)
  {
    forall j, r | j in b.live
      ensures Zone(b, j, r) == if j == i then 0 else Zone(a, j, r)
    {
    }
    forall z | z in b.taken
      ensures OwnedByNobody(b, z) <==> OwnedByNobody(a, z)
    {
      assert z != 0;
      if !OwnedByNobody(a, z) {
        var j, r :| j in a.live && Zone(a, j, r) == z;
        assert Zone(b, j, r) == z;
      }
    }
  }

  /** Where zones and bytes lie once an inode without zones is live. */
  lemma NewInodeMaps(a: Img, b: Img, i: nat)
    requires Shaped(a) && i !in a.live && i in b.itab && b.itab[i].zone == NO_ZONES
    requires b.live == a.live + {i} && b.data == a.data && b.itab == a.itab[i := b.itab[i]]
    ensures forall j, r :: j in b.live ==> Zone(b, j, r) == if j == i then 0 else Zone(a, j, r)
    ensures forall j, p: nat :: j in b.live ==> ByteAt(b, j, p) == if j == i then 0 else ByteAt(a, j, p)
    ensures forall j, p: nat :: ByteAt(b.(live := a.live), j, p) == ByteAt(b, j, p)
  {
    forall j, r | j in b.live
      ensures Zone(b, j, r) == if j == i then 0 else Zone(a, j, r)
    {
    }
    forall j, p: nat | j in b.live
      ensures ByteAt(b, j, p) == if j == i then 0 else ByteAt(a, j, p)
    {
      assert Zone(b, j, Leaf(p / BLOCK_SIZE)) == if j == i then 0 else Zone(a, j, Leaf(p / BLOCK_SIZE));
    }
    forall j, p: nat
      ensures ByteAt(b.(live := a.live), j, p) == ByteAt(b, j, p)
    {
      assert Zone(b.(live := a.live), j, Leaf(p / BLOCK_SIZE)) == Zone(b, j, Leaf(p / BLOCK_SIZE));
    }
  }

  /** An inode without zones owns nothing and holds nothing. */
  lemma NewInode(a: Img, b: Img, i: nat, kind: Kind)
    requires Shaped(a) && Owned(a) && Tidy(a) && 1 <= i <= a.sb.ninodes && i !in a.live
    requires kind == FileKind || kind == DirKind
    requires b == a.(live := a.live + {i}, itab := a.itab[i :=
      Inode(BirthMode(kind), 0, 0, 0, 0, if kind == DirKind then 2 else 1, NO_ZONES)])
    ensures Shaped(b) && Owned(b) && Tidy(b)
    ensures OthersSame(a, b.(live := a.live), i)
    ensures TreeOf(b) == TreeOf(a)[i := Newborn(kind)]
    ensures Lost(b) == Lost(a)
  {
    hide Lost, OwnedByNobody, Entries, DirsSound, Zone, ByteAt;
    EmptyInodeHoldsNothing(a, b, i);
    NewInodeMaps(a, b, i);
    forall j | j in a.live
      ensures NodeOf(b, j) == NodeOf(a, j) && CleanTail(b, j)
    {
      SameContents(a, b, j);
    }
    assert NodeOf(b, i) == Newborn(kind);
    assert TreeOf(b) == TreeOf(a)[i := Newborn(kind)];
    NewbornKeepsDirsSound(TreeOf(a), i, kind);
  }

  lemma NewSlot(a: Img, b: Img, cache: seq<Slot>, m: nat, slot: Slot, kind: Kind)
    requires Shaped(a) && Coherent(a, cache) && m < MAX_INODES && cache[m].ino == 0
    requires slot.ino != 0 && slot.ino !in a.live && (kind == FileKind || kind == DirKind)
    requires slot.kind == kind && slot.mode == BirthMode(kind)
    requires b.live == a.live + {slot.ino} && slot.ino in b.itab
    requires b.itab == a.itab[slot.ino := b.itab[slot.ino]]
    requires Stored(slot, b.itab[slot.ino]) == b.itab[slot.ino]
    ensures Coherent(b, cache[m := slot])
  {
    BirthModeKind(kind);
  }

  lemma NewbornKeepsDirsSound(t: Tree, i: nat, kind: Kind)
    requires DirsSound(t) && i !in t && (kind == FileKind || kind == DirKind)
    ensures DirsSound(t[i := Newborn(kind)])
  {
    var t' := t[i := Newborn(kind)];
    BirthModeKind(kind);
    forall d | d in t' && t'[d].IsDir()
      ensures |t'[d].bytes| % DIRENT_SIZE == 0 && EntriesSound(t', Entries(t'[d].bytes))
    {
      if d in t {
        assert EntriesSound(t, Entries(t[d].bytes));
      }
    }
  }

  lemma NoZones(img: Img)
    requires Shaped(img) && img.sb.nzones <= img.sb.firstDataZone
    ensures FreeZones(img) == 0
  {
    assert img.data.Keys - img.taken == {};
  }

  lemma BitmapInside(disk: Disk, img: Img)
    requires Represents(disk, img)
    ensures IMAP_BLOCK + img.sb.ninodes / BITS_PER_BLOCK < |disk|
  {
  }

  /** The block and offset of an inode hold what the table says. */
  lemma InodeInTable(disk: Disk, img: Img, i: nat)
    requires Represents(disk, img) && 1 <= i <= img.sb.ninodes
    ensures InodeHome(img.sb, i) < |disk| && i in img.itab
    ensures InodeOf(disk[InodeHome(img.sb, i)], InodeOffset(i)) == img.itab[i]
  {
    assert InodeOnDisk(img.sb, disk, i) == img.itab[i];
  }

  lemma OneMoreLive(img: Img, i: nat)
    requires Shaped(img) && 1 <= i <= img.sb.ninodes
    ensures Shaped(img.(live := img.live + {i}))
  {
  }

  /** A bit of the first bitmap is the inode of that number. */
  lemma InodesOfBits(disk: Disk, img: Img, bit: nat)
    requires Represents(disk, img) && bit <= img.sb.ninodes
    requires bit == 0 ==> forall k :: 1 <= k <= img.sb.ninodes ==> DiskBit(disk, IMAP_BLOCK, k)
    requires bit != 0 ==> !DiskBit(disk, IMAP_BLOCK, bit) && forall k :: 1 <= k < bit ==> DiskBit(disk, IMAP_BLOCK, k)
    ensures bit == 0 ==> forall i :: 1 <= i <= img.sb.ninodes ==> i in img.live
    ensures bit != 0 ==> Unused(img, bit)
  {
    forall i | 1 <= i <= img.sb.ninodes
      ensures DiskBit(disk, IMAP_BLOCK, i) <==> i in img.live
    {
    }
  }

  /** The bitmap search speaks of bits, the allocator of zones. */
  lemma ZonesOfBits(disk: Disk, img: Img, bit: nat)
    requires Represents(disk, img) && Shaped(img) && bit <= img.sb.ZoneBits()
    requires img.sb.firstDataZone < img.sb.nzones
    requires bit == 0 ==> forall k :: 1 <= k <= img.sb.ZoneBits() ==> DiskBit(disk, img.sb.ZmapBlock(), k)
    requires bit != 0 ==> !DiskBit(disk, img.sb.ZmapBlock(), bit)
    requires bit != 0 ==> forall k :: 1 <= k < bit ==> DiskBit(disk, img.sb.ZmapBlock(), k)
    ensures bit == 0 ==> FreeZones(img) == 0
    ensures bit != 0 ==> img.sb.ZoneOfBit(bit) in img.data && img.sb.ZoneOfBit(bit) !in img.taken
    ensures bit != 0 ==> forall y :: y in img.data && y < img.sb.ZoneOfBit(bit) ==> y in img.taken
  {
    forall y | y in img.data && (bit == 0 || y < img.sb.ZoneOfBit(bit))
      ensures y in img.taken
    {
      var k := y - img.sb.firstDataZone + 1;
      assert DiskBit(disk, img.sb.ZmapBlock(), k);
      assert img.sb.ZoneOfBit(k) == y;
    }
    if bit == 0 {
      assert img.data.Keys - img.taken == {};
    }
  }

  /** A zone marked as taken, clean, and in nobody's hands yet. */
  ghost predicate FreshZone(img: Img, z: nat) {
    z in img.taken && z in img.data && z < 0x1_0000 && OwnedByNobody(img, z) && img.data[z] == ZeroBlock()
  }

  /** The law of the zone map: what was put is there, every other place of every
      file is as before, except that the file may have gained an indirect block. */
  ghost predicate Assigned(a: Img, b: Img, i: nat, n: nat, z: nat) {
    && OthersSame(a, b, i) && SameButZones(a, b, i)
    && b.data.Keys == a.data.Keys
    && Zone(b, i, Leaf(n)) == z
    && (forall r {:trigger Zone(b, i, r)} :: r != Leaf(n) && r != Single ==> Zone(b, i, r) == Zone(a, i, r))
    && OneMoreBlock(a, b, i, n >= DIRECT_ZONES && Zone(a, i, Single) == 0)
    && (forall j :: j in a.live && j != i ==> SameMap(a, b, j))
    && (Zone(a, i, Leaf(n)) == 0 && z in a.data && a.data[z] == ZeroBlock() ==> SameBytes(a, b, i))
  }

  /** The bitmap and the indirect block of inode `i`: both stay, or a zone was taken
      for the block. */
  ghost predicate OneMoreBlock(a: Img, b: Img, i: nat, grown: bool) {
    if grown then Zone(b, i, Single) !in a.taken && b.taken == a.taken + {Zone(b, i, Single)}
    else Zone(b, i, Single) == Zone(a, i, Single) && b.taken == a.taken
  }

  predicate Assignable(img: Img, i: nat, n: nat) {
    n < DIRECT_ZONES || (n < SINGLE_LIMIT && (Zone(img, i, Single) != 0 || FreeZones(img) > 0))
  }

  lemma AssignableMeans(img: Img, i: nat, n: nat)
    ensures n < DIRECT_ZONES ==> Assignable(img, i, n)
    ensures n >= SINGLE_LIMIT ==> !Assignable(img, i, n)
  {
  }

  /** How many zones go to pointer blocks before logical zone `n` can be assigned. */
  function BlocksBefore(img: Img, i: nat, n: nat): nat {
    if DIRECT_ZONES <= n && Zone(img, i, Single) == 0 then 1 else 0
  }

  /** Nothing changed, or inode `i` gained an empty indirect block. */
  ghost predicate Grown(a: Img, b: Img, i: nat) {
    a == b || (
      && OthersSame(a, b, i) && SameButZones(a, b, i) && SameBytes(a, b, i)
      && b.data.Keys == a.data.Keys
      && Zone(a, i, Single) == 0 && OneMoreBlock(a, b, i, true)
      && FreeZones(b) == FreeZones(a) - 1
      && (forall y :: y in a.taken && y in a.data && y in b.data ==> b.data[y] == a.data[y])
      && (forall r {:trigger Zone(b, i, r)} :: r != Single ==> Zone(b, i, r) == Zone(a, i, r))
      && (forall j :: j in a.live && j != i ==> SameMap(a, b, j)))
  }

  /** A slot that follows its inode keeps the cache coherent. */
  lemma SlotFollows(a: Img, b: Img, cache: seq<Slot>, s: nat, zone: Zones)
    requires Shaped(a) && Coherent(a, cache) && s < MAX_INODES && cache[s].ino != 0
    requires b.live == a.live && b.itab == a.itab[cache[s].ino := a.itab[cache[s].ino].(zone := zone)]
    ensures Coherent(b, cache[s := cache[s].(zone := zone)])
  {
  }

  lemma DirectAssigned(a: Img, i: nat, n: nat, z: u16)
    requires Sane(a) && i in a.live && HasZones(a.itab[i].mode) && n < DIRECT_ZONES && FreshZone(a, z)
    ensures Sane(WithSlot(a, i, n, z)) && Assigned(a, WithSlot(a, i, n, z), i, n, z)
  {
    var b := WithSlot(a, i, n, z);
    forall j, s | j in a.live
      ensures Zone(b, j, s) == if j == i && s == Leaf(n) then z else Zone(a, j, s)
    {
      SetDirect(a, i, n, z, j, s);
    }
    HandOver(a, b, i, Leaf(n), z);
    OtherBytes(a, b, i);
    if Zone(a, i, Leaf(n)) == 0 {
      FillHole(a, b, i, n, z);
    }
  }

  /** The maps once inode `i` has an empty indirect block. */
  lemma SingleMaps(a: Img, m: Img, b: Img, i: nat, z: u16)
    requires Sane(a) && i in a.live && HasZones(a.itab[i].mode) && a.itab[i].zone[SINGLE_SLOT] == 0
    requires z in a.data && z !in a.taken && z != 0
    requires m == a.(taken := a.taken + {z as nat}, data := a.data[z as nat := ZeroBlock()])
    requires b == WithSlot(m, i, SINGLE_SLOT, z)
    ensures forall j, s {:trigger Zone(b, j, s)} :: j in a.live ==>
      Zone(b, j, s) == (if j == i && s == Single then z else Zone(a, j, s)) && Zone(m, j, s) == Zone(a, j, s)
    ensures forall j, p: nat {:trigger ByteAt(b, j, p)} :: j in a.live ==> ByteAt(b, j, p) == ByteAt(a, j, p)
    ensures Zone(a, i, Single) == 0
  {
    TakeZone(a, z);
    forall j, s | j in a.live
      ensures Zone(b, j, s) == (if j == i && s == Single then z else Zone(a, j, s)) && Zone(m, j, s) == Zone(a, j, s)
    {
      SetSingle(m, i, z, j, s);
      assert SameMap(a, m, j);
    }
    forall j, p: nat | j in a.live
      ensures ByteAt(b, j, p) == ByteAt(a, j, p)
    {
      assert SameBytes(a, m, j);
      assert Zone(b, j, Leaf(p / BLOCK_SIZE)) == Zone(m, j, Leaf(p / BLOCK_SIZE));
    }
  }

  lemma SingleGrown(a: Img, m: Img, b: Img, i: nat, z: u16)
    requires Sane(a) && i in a.live && HasZones(a.itab[i].mode) && a.itab[i].zone[SINGLE_SLOT] == 0
    requires z in a.data && z !in a.taken && z != 0
    requires m == a.(taken := a.taken + {z as nat}, data := a.data[z as nat := ZeroBlock()])
    requires b == WithSlot(m, i, SINGLE_SLOT, z)
    ensures Sane(b) && Grown(a, b, i) && Zone(b, i, Single) == z
  {
    hide Zone, ByteAt, Owned, OwnedByNobody;
    TakeZone(a, z);
    SingleMaps(a, m, b, i, z);
    HandOver(m, b, i, Single, z);
  }

  lemma GrownKeepsFresh(a: Img, b: Img, i: nat, z: nat)
    requires Grown(a, b, i) && FreshZone(a, z) && Shaped(a) && Shaped(b) && i in a.live
    ensures FreshZone(b, z)
  {
    if a != b {
      forall j, r | j in b.live
        ensures Zone(b, j, r) != z
      {
        assert Zone(a, j, r) != z;
        if j != i {
          assert SameMap(a, b, j);
        }
      }
    }
  }

  /** The image with pointer `k` of the indirect block of inode `i` set to `z`. */
  function WithPointer(img: Img, ind: nat, k: nat, z: u16): Img
    requires ind in img.data && k < PTRS_PER_BLOCK
  {
    img.(data := img.data[ind := PutPointer(img.data[ind], k, z)])
  }

  lemma IndirectAssigned(a: Img, b: Img, i: nat, n: nat, z: u16)
    requires Sane(a) && i in a.live && DIRECT_ZONES <= n < SINGLE_LIMIT && FreshZone(a, z)
    requires Zone(a, i, Single) in a.data && b == WithPointer(a, Zone(a, i, Single), n - DIRECT_ZONES, z)
    ensures Sane(b) && Assigned(a, b, i, n, z)
  {
    var ind := Zone(a, i, Single);
    forall j, s | j in a.live
      ensures Zone(b, j, s) == if j == i && s == Leaf(n) then z else Zone(a, j, s)
    {
      SetIndirect(a, i, n, z, j, s);
    }
    HandOver(a, b, i, Leaf(n), z);
    forall j, p: nat | j in a.live && j != i
      ensures ByteAt(b, j, p) == ByteAt(a, j, p)
    {
      assert Zone(b, j, Leaf(p / BLOCK_SIZE)) == Zone(a, j, Leaf(p / BLOCK_SIZE)) != ind;
    }
    if Zone(a, i, Leaf(n)) == 0 {
      FillHole(a, b, i, n, z);
    }
  }

  /** With the same maps over the same data come the same bytes. */
  lemma OtherBytes(a: Img, b: Img, i: nat)
    requires b.data == a.data
    requires forall j :: j in a.live && j != i ==> SameMap(a, b, j)
    ensures forall j :: j in a.live && j != i ==> SameBytes(a, b, j)
  {
    forall j, p: nat | j in a.live && j != i
      ensures ByteAt(b, j, p) == ByteAt(a, j, p)
    {
      assert Zone(b, j, Leaf(p / BLOCK_SIZE)) == Zone(a, j, Leaf(p / BLOCK_SIZE));
    }
  }

  /** Allocating the indirect block first does not show in the law. */
  lemma AssignedInSteps(a: Img, b: Img, c: Img, i: nat, n: nat, z: nat)
    requires Assigned(b, c, i, n, z) && Grown(a, b, i) && i in a.live && n >= DIRECT_ZONES
    requires Shaped(a) && Shaped(b) && Shaped(c) && z in a.taken
    ensures Assigned(a, c, i, n, z)
  {
    if a != b {
      forall j | j in a.live && j != i
        ensures SameMap(a, c, j) && SameBytes(a, c, j) && c.itab[j] == a.itab[j]
      {
        assert SameMap(a, b, j) && SameMap(b, c, j) && SameBytes(a, b, j) && SameBytes(b, c, j);
        assert b.itab[j] == a.itab[j];
        forall r ensures Zone(c, j, r) == Zone(a, j, r) {
          assert Zone(b, j, r) == Zone(a, j, r);
        }
        forall p: nat ensures ByteAt(c, j, p) == ByteAt(a, j, p) {
          assert ByteAt(b, j, p) == ByteAt(a, j, p);
        }
      }
      forall r | r != Leaf(n) && r != Single ensures Zone(c, i, r) == Zone(a, i, r) {
        assert Zone(b, i, r) == Zone(a, i, r);
      }
      if Zone(a, i, Leaf(n)) == 0 && z in a.data && a.data[z] == ZeroBlock() {
        assert Zone(b, i, Leaf(n)) == 0;
        forall p: nat ensures ByteAt(c, i, p) == ByteAt(a, i, p) {
          assert ByteAt(b, i, p) == ByteAt(a, i, p);
        }
      }
    }
  }

  /** An unowned zone assigned to a hole is in use, and nothing else is lost or
      found. */
  lemma AssignedFinds(a: Img, b: Img, i: nat, n: nat, z: nat)
    requires Sane(a) && Sane(b) && Assigned(a, b, i, n, z) && i in a.live
    requires Zone(a, i, Leaf(n)) == 0 && z in a.taken && OwnedByNobody(a, z)
    ensures Lost(b) == Lost(a) - {z}
  {
    var grown := if n >= DIRECT_ZONES && Zone(a, i, Single) == 0 then {Zone(b, i, Single)} else {};
    forall j, s | j in a.live && (j != i || s != Leaf(n))
      ensures Zone(b, j, s) == Zone(a, j, s) || (Zone(a, j, s) == 0 && Zone(b, j, s) in grown)
    {
      if j != i {
        assert SameMap(a, b, j);
      }
    }
    HandedOver(a, b, i, Leaf(n), z, grown);
  }

  /** No file has changed a byte; at most the zone list of `i` has grown. */
  ghost predicate Kept(a: Img, b: Img, i: nat) {
    OthersSame(a, b, i) && SameButZones(a, b, i) && SameBytes(a, b, i) && b.data.Keys == a.data.Keys
  }

  lemma KeptInSteps(a: Img, b: Img, c: Img, i: nat)
    requires Kept(a, b, i) && Kept(b, c, i) && Shaped(a) && Shaped(b) && Shaped(c)
    ensures Kept(a, c, i)
  {
    forall j, p: nat | j in a.live || j == i
      ensures ByteAt(c, j, p) == ByteAt(a, j, p)
    {
      if j != i {
        assert SameBytes(a, b, j) && SameBytes(b, c, j);
      }
      assert ByteAt(b, j, p) == ByteAt(a, j, p);
    }
    forall j | j in a.live && j != i
      ensures c.itab[j] == a.itab[j]
    {
      assert b.itab[j] == a.itab[j];
    }
  }

  /** A zone fresh from the allocator: nothing visible has changed. */
  lemma ZoneTaken(a: Img, b: Img, i: nat, n: nat, z: nat)
    requires Sane(a) && i in a.live && z in a.data && z !in a.taken
    requires b == a.(taken := a.taken + {z}, data := a.data[z := ZeroBlock()])
    ensures Sane(b) && Kept(a, b, i) && FreshZone(b, z)
    ensures FreeZones(b) == FreeZones(a) - 1
    ensures SameMap(a, b, i) && Lost(b) == Lost(a) + {z}
  {
    TakeZone(a, z);
    TakenIsLost(a, b, z);
    assert SameMap(a, b, i) && SameBytes(a, b, i);
  }

  lemma SlotsStay(a: Img, b: Img, cache: seq<Slot>)
    requires Coherent(a, cache) && b.live == a.live && b.itab == a.itab
    ensures Coherent(b, cache)
  {
  }

  lemma ChunkFits(pos: nat, rest: nat)
    requires rest > 0
    ensures var k := Min(BLOCK_SIZE - pos % BLOCK_SIZE, rest);
      && 0 < k <= rest && pos % BLOCK_SIZE + k <= BLOCK_SIZE
      && pos / BLOCK_SIZE <= (pos + rest - 1) / BLOCK_SIZE
      && (k < rest ==> (pos + k) / BLOCK_SIZE == pos / BLOCK_SIZE + 1)
      && (k == rest ==> (pos + rest - 1) / BLOCK_SIZE == pos / BLOCK_SIZE)
  {
  }

  function ReadCount(c: seq<byte>, off: nat, n: nat): (k: nat)
    ensures k <= n && (k > 0 ==> off + k <= |c|)
  {
    if off >= |c| then 0 else Min(n, |c| - off)
  }

  /** What a read of `n` bytes at `off` has to deliver. */
  function ReadBytes(c: seq<byte>, off: nat, n: nat): (r: seq<byte>)
    ensures |r| == ReadCount(c, off, n)
  {
    if off >= |c| then [] else c[off..off + ReadCount(c, off, n)]
  }

  /** `data` stands at `off` in inode `i`, and no other byte of any file changed. */
  ghost predicate Written(a: Img, b: Img, i: nat, off: nat, data: seq<byte>) {
    && OthersSame(a, b, i) && SameButZones(a, b, i) && b.data.Keys == a.data.Keys
    && forall p: nat {:trigger ByteAt(b, i, p)} ::
         ByteAt(b, i, p) == if off <= p < off + |data| then data[p - off] else ByteAt(a, i, p)
  }

  lemma ChunkWritten(a: Img, b: Img, c: Img, i: nat, off: nat, chunk: seq<byte>)
    requires Shaped(a) && Sane(b) && Kept(a, b, i) && i in b.live
    requires off % BLOCK_SIZE + |chunk| <= BLOCK_SIZE && Zone(b, i, Leaf(off / BLOCK_SIZE)) in b.data
    requires var z := Zone(b, i, Leaf(off / BLOCK_SIZE));
      c == b.(data := b.data[z := Patch(b.data[z], off % BLOCK_SIZE, chunk)])
    ensures Sane(c) && Written(a, c, i, off, chunk)
    ensures SameMap(b, c, i) && Lost(c) == Lost(b)
  {
    var n := off / BLOCK_SIZE;
    var z := Zone(b, i, Leaf(n));
    var buf := Patch(b.data[z], off % BLOCK_SIZE, chunk);
    DataWrite(b, i, n, buf);
    SameLost(b, c);
    assert SameMap(b, c, i);
    forall p: nat
      ensures ByteAt(c, i, p) == if off <= p < off + |chunk| then chunk[p - off] else ByteAt(a, i, p)
    {
      assert ByteAt(b, i, p) == ByteAt(a, i, p);
      if p / BLOCK_SIZE == n {
        assert p - off == p % BLOCK_SIZE - off % BLOCK_SIZE;
      }
    }
    forall j, p: nat | j in a.live && j != i
      ensures ByteAt(c, j, p) == ByteAt(a, j, p)
    {
      assert SameBytes(b, c, j) && SameBytes(a, b, j);
      assert ByteAt(b, j, p) == ByteAt(a, j, p);
    }
  }

  /** Writing a block that was made ready moves no zone. */
  lemma ChunkPlaced(a: Img, b: Img, c: Img, i: nat, n: nat, z: nat)
    requires Placed(a, b, i, n) && SameMap(b, c, i) && Lost(c) == Lost(b) && Loses(a, b, false)
    requires z != 0 && Zone(b, i, Leaf(n)) == z && c.taken == b.taken && c.data.Keys == b.data.Keys
    ensures Placed(a, c, i, n) && Loses(a, c, false) && InOneBlock(a, c, i, n, true)
  {
    assert Zone(c, i, Leaf(n)) == z && Zone(c, i, Single) == Zone(b, i, Single);
  }

  lemma NothingWrittenYet(a: Img, b: Img, i: nat, off: nat)
    requires Kept(a, b, i)
    ensures Written(a, b, i, off, [])
  {
  }

  lemma PlacedFits(a: Img, i: nat, off: nat, k: nat)
    requires CanPlace(a, i, off / BLOCK_SIZE) && off % BLOCK_SIZE + k <= BLOCK_SIZE
    ensures off + k <= ZONE_LIMIT * BLOCK_SIZE
  {
  }

  /** A write within one block succeeds exactly when there is room, and takes exactly
      the zones it needs; one that fails takes a zone if there is one. */
  ghost predicate InOneBlock(a: Img, b: Img, i: nat, n: nat, ok: bool) {
    && (ok <==> CanPlace(a, i, n))
    && (ok ==> FreeZones(b) == FreeZones(a) - Cost(a, i, n) && Zone(b, i, Leaf(n)) != 0)
    && (!ok ==> InVain(a, b))
  }

  /** A zone was taken if there was one. */
  predicate InVain(a: Img, b: Img) {
    FreeZones(b) == FreeZones(a) - if FreeZones(a) > 0 then 1 else 0
  }

  /** Logical zone `n` of inode `i` was made ready for writing at its exact cost; the
      other logical zones are where they were. */
  ghost predicate Placed(a: Img, b: Img, i: nat, n: nat) {
    && CanPlace(a, i, n) && FreeZones(b) == FreeZones(a) - Cost(a, i, n)
    && (forall m {:trigger Zone(b, i, Leaf(m))} :: m != n ==> Zone(b, i, Leaf(m)) == Zone(a, i, Leaf(m)))
    && (Zone(b, i, Single) == 0 <==> Zone(a, i, Single) == 0 && (n < DIRECT_ZONES || Zone(a, i, Leaf(n)) != 0))
  }

  /** Before anything is done: a zone that is there needs no placing, and without free
      zones a hole cannot be filled. */
  lemma NothingPlaced(a: Img, i: nat, n: nat)
    requires Sane(a) && i in a.live
    ensures Kept(a, a, i) && Loses(a, a, false)
    ensures Zone(a, i, Leaf(n)) != 0 ==> CanPlace(a, i, n) && Placed(a, a, i, n)
    ensures Zone(a, i, Leaf(n)) == 0 && FreeZones(a) == 0 ==> !CanPlace(a, i, n)
  {
  }

  /** A zone taken and assigned to a hole. */
  lemma FreshPlaced(a: Img, m: Img, b: Img, i: nat, n: nat, z: nat)
    requires Sane(a) && i in a.live && Zone(a, i, Leaf(n)) == 0 && z in a.data && z !in a.taken
    requires m == a.(taken := a.taken + {z}, data := a.data[z := ZeroBlock()])
    requires Sane(b) && Assigned(m, b, i, n, z) && Assignable(m, i, n)
    requires FreeZones(b) == FreeZones(m) - BlocksBefore(m, i, n)
    ensures CanPlace(a, i, n) && Placed(a, b, i, n) && Kept(a, b, i) && Loses(a, b, false)
    ensures Zone(b, i, Leaf(n)) == z
  {
    hide ByteAt;
    ZoneTaken(a, m, i, n, z);
    KeptInSteps(a, m, b, i);
    AssignedFinds(m, b, i, n, z);
  }

  /** A zone taken that could not be assigned: it is lost. */
  lemma ZoneInVain(a: Img, m: Img, i: nat, n: nat, z: nat)
    requires Sane(a) && i in a.live && Zone(a, i, Leaf(n)) == 0 && z in a.data && z !in a.taken
    requires m == a.(taken := a.taken + {z}, data := a.data[z := ZeroBlock()])
    requires !Assignable(m, i, n)
    ensures !CanPlace(a, i, n) && !CanPlace(m, i, n) && Kept(a, m, i)
    ensures FreeZones(a) > 0 && Loses(a, m, true) && InVain(a, m)
  {
    hide ByteAt;
    ZoneTaken(a, m, i, n, z);
  }

  /** Does a write of the logical zones `n` to `last` lose a zone? It goes on as long as
      zones can be placed; where it stops, a zone was taken in vain if there was one:
      behind the indirect range, or as the last one where the indirect block was
      missing too. */
  predicate Spills(img: Img, i: nat, n: nat, last: nat, free: nat, single: bool)
    decreases last + 1 - n
  {
    if n > last then false
    else if Zone(img, i, Leaf(n)) != 0 then Spills(img, i, n + 1, last, free, single)
    else if n >= SINGLE_LIMIT then free > 0
    else
      var cost := if n >= DIRECT_ZONES && !single then 2 else 1;
      if free < cost then free > 0
      else Spills(img, i, n + 1, last, free - cost, single || n >= DIRECT_ZONES)
  }

  predicate SpillsFrom(img: Img, i: nat, n: nat, last: nat) {
    Spills(img, i, n, last, FreeZones(img), Zone(img, i, Single) != 0)
  }

  /** What a write of `len` bytes at `off` will lose can be told before. */
  predicate WriteSpills(img: Img, i: nat, off: nat, len: nat) {
    len > 0 && SpillsFrom(img, i, off / BLOCK_SIZE, (off + len - 1) / BLOCK_SIZE)
  }

  lemma {:induction false} SpillsAlike(a: Img, b: Img, i: nat, n: nat, last: nat, free: nat, single: bool)
    requires forall m :: n <= m <= last ==> Zone(b, i, Leaf(m)) == Zone(a, i, Leaf(m))
    ensures Spills(b, i, n, last, free, single) == Spills(a, i, n, last, free, single)
    decreases last + 1 - n
  {
    if n <= last {
      assert Zone(b, i, Leaf(n)) == Zone(a, i, Leaf(n));
      if Zone(a, i, Leaf(n)) != 0 {
        SpillsAlike(a, b, i, n + 1, last, free, single);
      } else if n < SINGLE_LIMIT {
        var cost := if n >= DIRECT_ZONES && !single then 2 else 1;
        if free >= cost {
          SpillsAlike(a, b, i, n + 1, last, free - cost, single || n >= DIRECT_ZONES);
        }
      }
    }
  }

  lemma SpillsEnd(img: Img, i: nat, last: nat)
    ensures !SpillsFrom(img, i, last + 1, last)
  {
  }

  /** The forecast follows the write, block by block. */
  lemma SpillsNext(a: Img, b: Img, i: nat, n: nat, last: nat)
    requires n <= last
    ensures Placed(a, b, i, n) ==> SpillsFrom(a, i, n, last) == SpillsFrom(b, i, n + 1, last)
    ensures !CanPlace(a, i, n) ==> SpillsFrom(a, i, n, last) == (FreeZones(a) > 0)
  {
    hide Zone, FreeZones;
    if Placed(a, b, i, n) {
      SpillsAlike(a, b, i, n + 1, last, FreeZones(b), Zone(b, i, Single) != 0);
    }
  }

  /** Within one block: a zone is lost exactly if one is free and cannot be placed. */
  lemma OneBlockSpills(img: Img, i: nat, off: nat, len: nat)
    requires len > 0 && off % BLOCK_SIZE + len <= BLOCK_SIZE
    ensures WriteSpills(img, i, off, len) <==> !CanPlace(img, i, off / BLOCK_SIZE) && FreeZones(img) > 0
  {
    var n := off / BLOCK_SIZE;
    assert (off + len - 1) / BLOCK_SIZE == n;
    var free, single := FreeZones(img), Zone(img, i, Single) != 0;
    if Zone(img, i, Leaf(n)) != 0 {
      assert !Spills(img, i, n + 1, n, free, single);
    } else if n < SINGLE_LIMIT {
      var cost := Cost(img, i, n);
      if free >= cost {
        assert !Spills(img, i, n + 1, n, free - cost, single || n >= DIRECT_ZONES);
      }
    }
  }

  lemma LosesThen(a: Img, b: Img, c: Img, one: bool)
    requires Loses(a, b, false) && Loses(b, c, one) && b.data.Keys == a.data.Keys
    ensures Loses(a, c, one)
  {
    if one {
      var z :| z in b.data && z !in Lost(b) && Lost(c) == Lost(b) + {z};
      assert z in a.data.Keys;
    }
  }

  /** The write of the tree: one file's contents change. */
  ghost function TreeWrite(t: MinixTree.Tree, i: nat, off: nat, data: seq<byte>): MinixTree.Tree
    requires i in t
  {
    t[i := t[i].(bytes := Splice(t[i].bytes, off, data))]
  }

  /** Slot `s` still holds its inode, with perhaps more zones and a new size; the
      others are untouched. */
  predicate OneSlotMoved(a: seq<Slot>, b: seq<Slot>, s: nat) {
    |a| == |b| && s < |a| && b == a[s := a[s].(zone := b[s].zone, size := b[s].size)]
  }

  lemma NothingWritten(a: Img, i: nat, off: nat)
    requires Shaped(a) && i in a.live
    ensures Written(a, a, i, off, []) && Loses(a, a, false)
  {
  }

  lemma NothingIsKept(a: Img, b: Img, i: nat, off: nat)
    requires Written(a, b, i, off, []) && Shaped(a) && Shaped(b) && i in a.live && Trim(a)
    ensures Kept(a, b, i) && Trim(b)
    ensures TreeOf(b) == TreeWrite(TreeOf(a), i, off, [])
    ensures Tidy(a) ==> Tidy(b)
  {
    KeptTree(a, b, i);
  }

  lemma KeptTree(a: Img, b: Img, i: nat)
    requires Kept(a, b, i) && Shaped(a) && Shaped(b) && i in a.live
    ensures TreeOf(b) == TreeOf(a)
    ensures forall off :: TreeWrite(TreeOf(a), i, off, []) == TreeOf(a)
    ensures Trim(a) ==> Trim(b)
    ensures Tidy(a) ==> Tidy(b)
  {
    TreeUnchanged(a, b, i);
    TreeOfOthers(a, b, i);
    SameContents(a, b, i);
  }

  lemma WrittenInSteps(a: Img, b: Img, c: Img, i: nat, off: nat, d: seq<byte>, e: seq<byte>)
    requires Written(a, b, i, off, d) && Written(b, c, i, off + |d|, e)
    requires Shaped(a) && Shaped(b) && Shaped(c) && i in a.live
    ensures Written(a, c, i, off, d + e)
  {
    forall j | j in a.live && j != i
      ensures SameBytes(a, c, j) && c.itab[j] == a.itab[j]
    {
      assert SameBytes(a, b, j) && SameBytes(b, c, j) && b.itab[j] == a.itab[j];
      forall p: nat ensures ByteAt(c, j, p) == ByteAt(a, j, p) {
        assert ByteAt(b, j, p) == ByteAt(a, j, p);
      }
    }
    forall p: nat
      ensures ByteAt(c, i, p) == if off <= p < off + |d + e| then (d + e)[p - off] else ByteAt(a, i, p)
    {
      assert ByteAt(b, i, p) == if off <= p < off + |d| then d[p - off] else ByteAt(a, i, p);
    }
  }

  lemma SlotGrows(a: Img, b: Img, cache: seq<Slot>, s: nat, size: u32)
    requires Shaped(a) && Coherent(a, cache) && s < MAX_INODES && cache[s].ino != 0
    requires b.live == a.live && b.itab == a.itab[cache[s].ino := a.itab[cache[s].ino].(size := size)]
    ensures Coherent(b, cache[s := cache[s].(size := size)])
  {
  }

  /** A new size moves no zone and no byte. */
  lemma SizeMovesNothing(b: Img, c: Img, i: nat, size: nat)
    requires Sane(b) && i in b.live && size < 0x1_0000_0000
    requires c == b || c == b.(itab := b.itab[i := b.itab[i].(size := size)])
    ensures Sane(c) && FreeZones(c) == FreeZones(b) && Lost(c) == Lost(b)
    ensures forall j, r :: Zone(c, j, r) == Zone(b, j, r)
    ensures forall j, p: nat :: ByteAt(c, j, p) == ByteAt(b, j, p)
    ensures forall n {:trigger CanPlace(c, i, n)} :: CanPlace(c, i, n) == CanPlace(b, i, n)
  {
    forall j, r
      ensures Zone(c, j, r) == Zone(b, j, r)
    {
    }
    forall j, p: nat
      ensures ByteAt(c, j, p) == ByteAt(b, j, p)
    {
      assert Zone(c, j, Leaf(p / BLOCK_SIZE)) == Zone(b, j, Leaf(p / BLOCK_SIZE));
    }
    SameLost(b, c);
  }

  /** The size follows the last byte written; then the write is a splice. */
  lemma WriteDone(a: Img, b: Img, c: Img, i: nat, off: nat, data: seq<byte>)
    requires Trim(a) && Sane(b) && i in a.live && Written(a, b, i, off, data) && data != []
    requires off + |data| < 0x1_0000_0000
    requires c == if off + |data| <= b.itab[i].size then b
                  else b.(itab := b.itab[i := b.itab[i].(size := off + |data|)])
    ensures Sane(c) && Trim(c) && FreeZones(c) == FreeZones(b) && Lost(c) == Lost(b)
    ensures TreeOf(c) == TreeWrite(TreeOf(a), i, off, data)
    ensures forall n {:trigger CanPlace(c, i, n)} :: CanPlace(c, i, n) == CanPlace(b, i, n)
    ensures forall n {:trigger Zone(c, i, Leaf(n))} :: Zone(c, i, Leaf(n)) == Zone(b, i, Leaf(n))
    ensures OthersSame(a, c, i)
    ensures Tidy(a) && KindOfMode(a.itab[i].mode) != DirKind ==> Tidy(c)
  {
    hide Entries, KindOfMode, Splice, Zone, ByteAt, CanPlace, FreeZones, Lost;
    SizeMovesNothing(b, c, i, off + |data|);
    forall j | j in a.live && j != i
      ensures c.itab[j] == a.itab[j] && SameBytes(a, c, j)
    {
      assert b.itab[j] == a.itab[j] && SameBytes(a, b, j);
    }
    TreeOfOthers(a, c, i);
    WrittenIsSpliced(a, c, i, off, data);
    if Tidy(a) && KindOfMode(a.itab[i].mode) != DirKind {
      FileWriteKeepsDirsSound(TreeOf(a), i, off, data);
    }
  }

  lemma FileWriteKeepsDirsSound(t: MinixTree.Tree, i: nat, off: nat, data: seq<byte>)
    requires DirsSound(t) && i in t && !t[i].IsDir()
    ensures DirsSound(TreeWrite(t, i, off, data))
  {
    var t' := TreeWrite(t, i, off, data);
    forall d | d in t' && t'[d].IsDir()
      ensures |t'[d].bytes| % DIRENT_SIZE == 0 && EntriesSound(t', Entries(t'[d].bytes))
    {
      assert EntriesSound(t, Entries(t[d].bytes));
    }
  }

  function EntriesOf(img: Img, d: nat): seq<Dirent>
    requires d in img.itab
  {
    Entries(Contents(img, d))
  }

  /** The block of directory `d` the next new entry goes to. */
  function InsertBlock(img: Img, d: nat): nat
    requires d in img.itab
  {
    FreeSlot(EntriesOf(img, d)) * DIRENT_SIZE / BLOCK_SIZE
  }

  lemma DirIsEntries(img: Img, d: nat)
    requires Tidy(img) && d in img.live && KindOfMode(img.itab[d].mode) == DirKind
    ensures img.itab[d].size == |EntriesOf(img, d)| * DIRENT_SIZE
    ensures TreeOf(img)[d].bytes == Contents(img, d) && TreeOf(img)[d].IsDir()
  {
    var node := TreeOf(img)[d];
    assert node.IsDir() && |node.bytes| % DIRENT_SIZE == 0;
  }

  lemma WriteIsLink(img: Img, d: nat, name: seq<byte>, i: u16)
    requires Tidy(img) && d in img.live && KindOfMode(img.itab[d].mode) == DirKind && NameFits(name)
    requires i in img.live
    ensures TreeWrite(TreeOf(img), d, FreeSlot(EntriesOf(img, d)) * DIRENT_SIZE, DirentBytes(Dirent(i, name)))
         == Link(TreeOf(img), d, name, i)
    ensures DirsSound(Link(TreeOf(img), d, name, i))
  {
    DirIsEntries(img, d);
    LinkKeepsDirsSound(TreeOf(img), d, name, i);
  }

  lemma EntryInOneBlock(k: nat)
    ensures k * DIRENT_SIZE % BLOCK_SIZE + DIRENT_SIZE <= BLOCK_SIZE
  {
    assert k * 16 % 1024 == k % 64 * 16;
  }

  lemma LinkKeepsDirsSound(t: MinixTree.Tree, d: nat, name: seq<byte>, i: u16)
    requires DirsSound(t) && d in t && t[d].IsDir() && NameFits(name)
    requires i in t
    ensures DirsSound(Link(t, d, name, i))
  {
    hide Entries, KindOfMode;
    var t' := Link(t, d, name, i);
    forall j | j in t' && t'[j].IsDir()
      ensures |t'[j].bytes| % DIRENT_SIZE == 0 && EntriesSound(t', Entries(t'[j].bytes))
    {
      assert EntriesSound(t, Entries(t[j].bytes));
      if j == d {
        AddEntryInserts(t[d].bytes, Dirent(i, name));
      }
    }
  }

  /** The number a directory gives for a name, 0 if it has no such entry. */
  function LookupIno(img: Img, d: nat, name: seq<byte>): nat
    requires d in img.itab
  {
    var es := EntriesOf(img, d);
    var k := FindName(es, name);
    if k < |es| then es[k].ino else 0
  }

  /** The type of the inode is not one the kernel knows: it cannot be loaded. */
  predicate Unknown(img: Img, i: nat) { i in img.itab && KindOfMode(img.itab[i].mode) == NoKind }

  /** The name is there and its inode has, or can get, a slot. */
  predicate CanLookup(img: Img, cache: seq<Slot>, d: nat, name: seq<byte>)
    requires d in img.itab
  {
    var i := LookupIno(img, d, name);
    i != 0 && (Cached(cache, i) || (Cached(cache, 0) && !Unknown(img, i)))
  }

  /** A loaded inode has a known type. */
  lemma CachedIsKnown(img: Img, cache: seq<Slot>, i: nat)
    requires Shaped(img) && Coherent(img, cache) && i != 0 && Cached(cache, i)
    ensures !Unknown(img, i)
  {
  }

  lemma EntryIsSound(img: Img, d: nat, k: nat)
    requires Tidy(img) && d in img.live && KindOfMode(img.itab[d].mode) == DirKind
    requires k < |EntriesOf(img, d)| && EntriesOf(img, d)[k].ino != 0
    ensures EntriesOf(img, d)[k].ino in img.live
  {
    DirIsEntries(img, d);
    assert EntriesSound(TreeOf(img), EntriesOf(img, d));
  }

  /** The least number from `from` on that is not in use; 0 if all are. */
  function FirstUnused(live: set<nat>, from: nat, n: nat): (i: nat)
    requires from >= 1
    ensures i == 0 ==> forall j :: from <= j <= n ==> j in live
    ensures i != 0 ==> from <= i <= n && i !in live && forall j :: from <= j < i ==> j in live
    decreases n + 1 - from
  {
    if from > n then 0 else if from !in live then from else FirstUnused(live, from + 1, n)
  }

  /** A create that gets as far as allocating: the slot is a directory, the kind can be
      created, the name fits and is not found, and there are a free cache slot and a free
      inode. A name is not found either if its inode cannot be loaded. */
  predicate CanBegin(img: Img, cache: seq<Slot>, s: nat, name: seq<byte>, kind: Kind)
    requires s < |cache| && cache[s].ino in img.itab
  {
    && cache[s].kind == DirKind
    && (kind == FileKind || kind == DirKind)
    && NameFits(name)
    && !CanLookup(img, cache, cache[s].ino, name)
    && Cached(cache, 0)
    && FirstUnused(img.live, 1, img.sb.ninodes) != 0
  }

  /** What a create does, decided by the state before it. A directory needs one
      zone more than its entry in the parent: with exactly as many free zones as
      the parent needs it ends up stranded. */
  function Outcome(img: Img, cache: seq<Slot>, s: nat, name: seq<byte>, kind: Kind): Event
    requires s < |cache| && cache[s].ino in img.itab
  {
    var d := cache[s].ino;
    var n := InsertBlock(img, d);
    if !CanBegin(img, cache, s, name, kind) || !CanPlace(img, d, n) then Nothing
    else
      var i := FirstUnused(img.live, 1, img.sb.ninodes);
      if kind == FileKind then MadeFile(d, name, i)
      else if FreeZones(img) > Cost(img, d, n) then MadeDir(d, name, i)
      else Stranded(d, name, i)
  }

  /** A free slot now holds `ino`; the others hold what they held. */
  ghost predicate SlotFilled(a: seq<Slot>, b: seq<Slot>, ino: nat) {
    && |a| == |b|
    && exists m :: 0 <= m < |a| && a[m].ino == 0 && b[m].ino == ino && forall t :: 0 <= t < |a| && t != m ==> b[t].ino == a[t].ino
  }

  /** Does inserting an entry lose a zone? Only where the last free zone was needed
      twice, for the indirect block and for the entry, or where the directory has
      reached the end of the indirect range. */
  predicate EntrySpills(img: Img, d: nat)
    requires d in img.itab
  {
    !CanPlace(img, d, InsertBlock(img, d)) && FreeZones(img) > 0
  }

  /** A create that is undone gives back the inode, not the zone. */
  predicate CreateSpills(img: Img, cache: seq<Slot>, s: nat, name: seq<byte>, kind: Kind)
    requires s < |cache| && cache[s].ino in img.itab
  {
    CanBegin(img, cache, s, name, kind) && EntrySpills(img, cache[s].ino)
  }

  /** How many zones a create takes: for the entry in the parent, and for the two
      entries of a directory if one is left; the one that is lost; or none. */
  function ZonesFor(img: Img, cache: seq<Slot>, s: nat, name: seq<byte>, kind: Kind): nat
    requires s < |cache| && cache[s].ino in img.itab
  {
    var d := cache[s].ino;
    var cost := Cost(img, d, InsertBlock(img, d));
    match Outcome(img, cache, s, name, kind)
    case MadeDir(_, _, _) => cost + 1
    case Nothing => if CreateSpills(img, cache, s, name, kind) then 1 else 0
    case _ => cost
  }

  /** An inode has been allocated in slot `m`: the first unused number, a node
      without zones, everything else as before. */
  ghost predicate Begun(a: Img, b: Img, before: seq<Slot>, after: seq<Slot>, m: nat, kind: Kind) {
    && |before| == |after| && m < |after| && before[m].ino == 0
    && after == before[m := after[m]] && after[m].kind == kind
    && after[m].ino == FirstUnused(a.live, 1, a.sb.ninodes) != 0
    && b.live == a.live + {after[m].ino} && b.sb == a.sb
    && b.taken == a.taken && b.data == a.data && Lost(b) == Lost(a)
    && OthersSame(a, b.(live := a.live), after[m].ino)
    && after[m].ino in b.itab && b.itab[after[m].ino].zone == NO_ZONES && b.itab[after[m].ino].size == 0
  }

  ghost function MoreLinks(t: MinixTree.Tree, i: nat): MinixTree.Tree
    requires i in t
  {
    t[i := t[i].(links := (t[i].links + 1) % 0x100)]
  }

  /** A new directory furnished with its two entries, its parent's count raised. */
  ghost function WithDots(t: MinixTree.Tree, i: nat, d: nat): MinixTree.Tree
    requires i in t && d in t && i < 0x1_0000 && d < 0x1_0000
  {
    MoreLinks(t[i := t[i].(bytes := Dots(i, d))], d)
  }

  lemma Relinked(a: Img, b: Img, i: nat, links: byte)
    requires Tidy(a) && Owned(a) && i in a.live
    requires b == a.(itab := a.itab[i := a.itab[i].(nlinks := links)])
    ensures i in TreeOf(a) && TreeOf(a)[i].links == a.itab[i].nlinks
    ensures Tidy(b) && Owned(b) && TreeOf(b) == TreeOf(a)[i := TreeOf(a)[i].(links := links)]
    ensures Lost(b) == Lost(a)
  {
    forall j, r
      ensures Zone(b, j, r) == Zone(a, j, r)
    {
    }
    SameLost(a, b);
    forall j, p: nat
      ensures ByteAt(b, j, p) == ByteAt(a, j, p)
    {
      assert Zone(b, j, Leaf(p / BLOCK_SIZE)) == Zone(a, j, Leaf(p / BLOCK_SIZE));
    }
    TreeOfOthers(a, b, i);
    SameContents(a, b, i);
    var t, t' := TreeOf(a), TreeOf(b);
    forall d | d in t' && t'[d].IsDir()
      ensures |t'[d].bytes| % DIRENT_SIZE == 0 && EntriesSound(t', Entries(t'[d].bytes))
    {
      assert EntriesSound(t, Entries(t[d].bytes));
    }
  }

  lemma SlotRelinked(a: Img, b: Img, cache: seq<Slot>, s: nat, links: byte)
    requires Shaped(a) && Coherent(a, cache) && s < MAX_INODES && cache[s].ino != 0
    requires b.live == a.live && b.itab == a.itab[cache[s].ino := a.itab[cache[s].ino].(nlinks := links)]
    ensures Coherent(b, cache[s := cache[s].(nlinks := links)])
  {
  }

  lemma EmptyDir(img: Img, i: nat)
    requires Shaped(img) && i in img.live && img.itab[i].zone == NO_ZONES && img.itab[i].size == 0
    ensures i in TreeOf(img) && TreeOf(img)[i].bytes == [] && InsertBlock(img, i) == 0
    ensures Cost(img, i, 0) == 1 && (CanPlace(img, i, 0) <==> FreeZones(img) > 0)
  {
    assert Entries([]) == [];
    assert Contents(img, i) == [];
  }

  /** With "." in place there is room for "..", and both together are the two
      entries of a newborn directory. */
  lemma DotDir(img: Img, t: MinixTree.Tree, i: nat, d: nat)
    requires Shaped(img) && i in img.live && 0 < i < 0x1_0000 && d in img.live && d < 0x1_0000
    requires i in t && t[i].bytes == [] && TreeOf(img) == Link(t, i, DOT, i) && Zone(img, i, Leaf(0)) != 0
    ensures CanPlace(img, i, InsertBlock(img, i)) && Cost(img, i, InsertBlock(img, i)) == 0
    ensures Link(TreeOf(img), i, DOT_DOT, d) == t[i := t[i].(bytes := Dots(i, d))]
  {
    hide Entries, PadName, Splice;
    DotsEntries(i, d);
    var one := DirentBytes(Dirent(i, DOT));
    assert Contents(img, i) == TreeOf(img)[i].bytes == one;
    DotEntry(i);
    assert InsertBlock(img, i) == 0;
  }

  lemma DotEntry(i: u16)
    requires i != 0
    ensures FreeSlot(Entries(DirentBytes(Dirent(i, DOT)))) == 1
  {
    var e := Dirent(i, DOT);
    DotsFit();
    DirentRoundTrip(e);
    var w := DirentBytes(e);
    assert w[0..16] == w;
    assert Entries(w) == [e];
    assert [e][1..] == [];
  }

  /** A create reports the slot of the new node exactly when the node is complete. */
  predicate Reported(ev: Event, out: Option<nat>, cache: seq<Slot>) {
    && (out.Some? <==> ev.MadeFile? || ev.MadeDir?)
    && (out.Some? ==> out.value < |cache| && cache[out.value].ino == ev.ino)
  }

  lemma OutcomeEnabled(img: Img, cache: seq<Slot>, s: nat, name: seq<byte>, kind: Kind)
    requires Tidy(img) && Coherent(img, cache) && s < MAX_INODES && cache[s].ino != 0
    ensures cache[s].ino in img.live
    ensures Enabled(TreeOf(img), Outcome(img, cache, s, name, kind), img.sb.ninodes)
  {
    if CanBegin(img, cache, s, name, kind) {
      DirIsEntries(img, cache[s].ino);
    }
  }

  /** The events of a create, put together from the steps that make them up. */
  lemma EventSteps(t: MinixTree.Tree, ev: Event, n: nat)
    requires Enabled(t, ev, n)
    ensures ev.Nothing? ==> Apply(t, ev, n) == t
    ensures ev.MadeFile? ==> Apply(t, ev, n) == Link(t[ev.ino := Newborn(FileKind)], ev.dir, ev.name, ev.ino)
    ensures ev.Stranded? ==> Apply(t, ev, n) == Link(t[ev.ino := Newborn(DirKind)], ev.dir, ev.name, ev.ino)
    ensures ev.MadeDir? ==>
      Apply(t, ev, n) == WithDots(Link(t[ev.ino := Newborn(DirKind)], ev.dir, ev.name, ev.ino), ev.ino, ev.dir)
  {
    hide AddEntry, Entries, DirentBytes;
  }

  /** The parent looks the same to the insertion as it did before the allocation. */
  lemma BegunSees(a: Img, b: Img, before: seq<Slot>, after: seq<Slot>, m: nat, kind: Kind, d: nat)
    requires Shaped(a) && Shaped(b) && Begun(a, b, before, after, m, kind) && d in a.live
    requires FirstUnused(a.live, 1, a.sb.ninodes) == after[m].ino
    ensures d != after[m].ino && after[m].ino < 0x1_0000
    ensures InsertBlock(b, d) == InsertBlock(a, d)
    ensures forall n {:trigger CanPlace(b, d, n)} :: CanPlace(b, d, n) == CanPlace(a, d, n)
    ensures forall n {:trigger Cost(b, d, n)} :: Cost(b, d, n) == Cost(a, d, n)
    ensures FreeZones(b) == FreeZones(a)
  {
    var i := after[m].ino;
    var b' := b.(live := a.live);
    assert b'.itab[d] == a.itab[d];
    forall r ensures Zone(b, d, r) == Zone(a, d, r) {
    }
    forall p: nat ensures ByteAt(b, d, p) == ByteAt(a, d, p) {
      assert Zone(b, d, Leaf(p / BLOCK_SIZE)) == Zone(a, d, Leaf(p / BLOCK_SIZE));
    }
    SameContents(a, b, d);
  }

  /** Taking the number back leaves the tree as it was before it was handed out. */
  lemma RolledBack(a: Img, b: Img, c: Img, e: Img, i: nat, node: Node)
    requires Tidy(a) && Tidy(c) && Owned(c) && Shaped(b) && i !in a.live
    requires b.live == a.live + {i} && c.live == b.live && e == c.(live := c.live - {i})
    requires TreeOf(c) == TreeOf(b) && TreeOf(b) == TreeOf(a)[i := node]
    requires i in c.itab && c.itab[i].zone == NO_ZONES
    ensures Tidy(e) && Owned(e) && e.live == a.live && TreeOf(e) == TreeOf(a)
    ensures e.taken == c.taken && Lost(e) == Lost(c)
  {
    EmptyInodeHoldsNothing(e, c, i);
    forall j, r
      ensures Zone(e, j, r) == Zone(c, j, r)
    {
    }
    forall j, p: nat
      ensures ByteAt(e, j, p) == ByteAt(c, j, p)
    {
      assert Zone(e, j, Leaf(p / BLOCK_SIZE)) == Zone(c, j, Leaf(p / BLOCK_SIZE));
    }
    forall j | j in e.live
      ensures NodeOf(e, j) == TreeOf(a)[j] && CleanTail(e, j)
    {
      SameContents(c, e, j);
      assert TreeOf(c)[j] == NodeOf(c, j);
    }
    assert e.live == a.live;
    assert TreeOf(e) == TreeOf(a);
  }

  lemma SlotFreed(c: Img, e: Img, cache: seq<Slot>, m: nat)
    requires Coherent(c, cache) && m < MAX_INODES && cache[m].ino != 0
    requires e == c.(live := c.live - {cache[m].ino})
    ensures Coherent(e, cache[m := cache[m].(ino := 0)])
  {
  }

  lemma StillEmpty(b: Img, c: Img, d: nat, i: nat)
    requires OthersSame(b, c, d) && i in b.live && i != d && i in b.itab
    ensures i in c.itab && c.itab[i] == b.itab[i]
  {
  }
}
