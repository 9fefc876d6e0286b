/** The mounted minix file system: the drive, the superblock copy and the inode
    cache as fields, updated in place by the operations. An inode pointer is the
    number of a cache slot. Each operation is proved against the image of the
    drive and the tree that image stands for. */
module MinixFs {
  import opened Bytes
  import opened MinixFormat
  import opened MinixImage
  import opened MinixZones
  import opened MinixTree
  import opened MinixState
  import opened MinixSteps
  import opened MinixLayout

  class Volume {
    var disk: Disk
    var attached: bool
    var sb: Super
    var mounted: bool
    const cache: array<Slot>

    /** What the blocks mean. */
    ghost var img: Img

    /** The drive holds `img`, and the superblock copy is the one on the drive. */
    ghost predicate Image()
      reads this
    {
      && attached && mounted && img.sb == sb
      && cache.Length == MAX_INODES
      && Represents(disk, img) && Shaped(img)
    }

    /** Between any two block writes: zones have one owner, cache and drive agree. */
    ghost predicate Steady()
      reads this, cache
    {
      Image() && Owned(img) && Coherent(img, cache[..])
    }

    /** Between any two operations. */
    ghost predicate Valid()
      reads this, cache
    {
      Steady() && Tidy(img)
    }

    ghost function Tree(): MinixTree.Tree
      reads this
      requires Image()
    {
      TreeOf(img)
    }

    constructor (disk: Disk)
      ensures this.disk == disk && !mounted && !attached
      ensures cache.Length == MAX_INODES && fresh(cache)
    {
      this.disk := disk;
      attached, mounted := false, false;
      sb := Super(0, 0, 0, 0, 0, 0, 0);
      cache := new Slot[MAX_INODES](_ => FREE_SLOT);
      img := Img(Super(0, 0, 0, 0, 0, 0, 0), {}, {}, map[], map[]);
    }

    // ---- blocks ----------------------------------------------------------------

    /** The drive refuses a block it does not have, and nothing else. */
    method ReadBlock(b: nat) returns (ok: bool, buf: Block)
      ensures ok == (attached && b < |disk|)
      ensures ok ==> buf == disk[b]
    {
      if !attached || b >= |disk| {
        return false, ZeroBlock();
      }
      return true, disk[b];
    }

    method WriteBlock(b: nat, buf: Block) returns (ok: bool)
      modifies this`disk
      ensures ok == (attached && b < old(|disk|))
      ensures disk == if ok then old(disk)[b := buf] else old(disk)
    {
      if !attached || b >= |disk| {
        return false;
      }
      disk := disk[b := buf];
      return true;
    }

    /** Reading and writing a data zone of a mounted drive cannot fail, and a write
        there touches nothing else. */
    method ReadZone(z: nat) returns (ok: bool, buf: Block)
      requires Image() && z in img.data
      ensures ok && buf == img.data[z]
    {
      ok, buf := ReadBlock(z);
    }

    method WriteZone(z: nat, buf: Block) returns (ok: bool)
      requires Image() && z in img.data
      modifies this`disk, this`img
      ensures Image() && ok
      ensures img == old(img).(data := old(img).data[z := buf])
    {
      PutZone(disk, img, z, buf);
      ok := WriteBlock(z, buf);
      img := img.(data := img.data[z := buf]);
    }

    // ---- bitmaps ---------------------------------------------------------------

    /** The least clear bit in 1..max of the bitmap at block `first`, however many
        blocks it spans; 0 if there is none. */
    method FindFreeBit(first: nat, max: nat) returns (bit: nat)
      ensures bit != 0 ==> 1 <= bit <= max && !DiskBit(disk, first, bit)
      ensures bit != 0 ==> forall k :: 1 <= k < bit ==> DiskBit(disk, first, k)
      ensures bit == 0 && attached && first + max / BITS_PER_BLOCK < |disk| ==>
        forall k :: 1 <= k <= max ==> DiskBit(disk, first, k)
    {
      var current: int := -1;
      var buf := ZeroBlock();
      bit := 1;
      while bit <= max
        invariant 1 <= bit <= max + 1
        invariant forall k :: 1 <= k < bit ==> DiskBit(disk, first, k)
        invariant current >= 0 ==> current < |disk| && buf == disk[current]
      {
        var b := first + bit / BITS_PER_BLOCK;
        if b != current {
          var ok;
          ok, buf := ReadBlock(b);
          if !ok {
            return 0;
          }
          current := b;
        }
        if !BitOf(buf[bit % BITS_PER_BLOCK / 8], bit % 8) {
          assert bit % BITS_PER_BLOCK % 8 == bit % 8;
          return bit;
        }
        assert bit % BITS_PER_BLOCK % 8 == bit % 8;
        bit := bit + 1;
      }
      return 0;
    }

    /** Read, change one bit, write back. */
    method ChangeBit(first: nat, bit: nat, on: bool) returns (ok: bool)
      modifies this`disk
      ensures ok == (attached && first + bit / BITS_PER_BLOCK < old(|disk|))
      ensures disk == if ok then WithBit(old(disk), first, bit, on) else old(disk)
    {
      var b := first + bit / BITS_PER_BLOCK;
      var got, buf := ReadBlock(b);
      if !got {
        return false;
      }
      ByteWidth();
      var at, k := bit % BITS_PER_BLOCK / 8, bit % 8;
      assert bit % BITS_PER_BLOCK % 8 == bit % 8;
      buf := buf[at := if on then BitOn(buf[at], k, 8) else BitOff(buf[at], k)];
      ok := WriteBlock(b, buf);
    }

    // ---- mounting --------------------------------------------------------------

    /** Mounts the drive, or the absence of one. `g` is any well-formed image of
        it: mounting reads exactly that image and starts with an empty cache. */
    method Mount(present: bool, ghost g: Img) returns (r: int)
      requires cache.Length == MAX_INODES
      modifies this`attached, this`sb, this`mounted, this`img, cache
      ensures r == 0 || r == -1
      ensures r == 0 <==> present && |disk| > 1 && Mountable(SuperOf(disk[1]))
      ensures mounted == attached == (r == 0)
      ensures r == 0 ==> sb == SuperOf(disk[1]) && forall s :: 0 <= s < MAX_INODES ==> cache[s] == FREE_SLOT
      ensures present && Represents(disk, g) && Shaped(g) && Owned(g) ==> r == 0 && Steady() && img == g
      ensures present && Represents(disk, g) && Shaped(g) && Owned(g) && Tidy(g) ==> Valid()
    {
      mounted := false;
      attached := false;
      if !present {
        return -1;
      }
      attached := true;
      var ok, buf := ReadBlock(1);
      if !ok {
        attached := false;
        return -1;
      }
      var d := SuperOf(buf);
      if d.magic != MINIX_MAGIC || d.logZoneSize != 0 {
        attached := false;
        return -1;
      }
      sb := d;
      forall s | 0 <= s < cache.Length {
        cache[s] := FREE_SLOT;
      }
      mounted := true;
      img := g;
      return 0;
    }

    /** Mounting a mounted file system again changes nothing on it: the image, and
        with it the whole tree, is the one before. */
    method Remount() returns (r: int)
      requires Valid()
      modifies this`attached, this`sb, this`mounted, this`img, cache
      ensures r == 0 && Valid() && img == old(img) && Tree() == old(Tree())
      ensures forall s :: 0 <= s < MAX_INODES ==> cache[s].ino == 0
    {
      r := Mount(true, img);
    }

    // ---- inodes ----------------------------------------------------------------

    /** The first slot holding `ino`, or nothing. */
    method FindSlot(ino: nat) returns (s: Option<nat>)
      requires cache.Length == MAX_INODES
      ensures s.Some? ==> s.value < MAX_INODES && cache[s.value].ino == ino
      ensures s.Some? ==> forall t :: 0 <= t < s.value ==> cache[t].ino != ino
      ensures s.None? ==> forall t :: 0 <= t < MAX_INODES ==> cache[t].ino != ino
      ensures s.Some? <==> Cached(cache[..], ino)
    {
      for t := 0 to MAX_INODES
        invariant forall u :: 0 <= u < t ==> cache[u].ino != ino
      {
        if cache[t].ino == ino {
          assert cache[..][t].ino == ino;
          return Some(t);
        }
      }
      return None;
    }

    /** The slot of inode `ino`, loaded from the drive if need be. It fails for a
        number out of range, for an inode of no known type and, deterministically,
        when the cache is full. An inode nobody uses would be loaded like any other;
        the names in sound directories lead to live ones only. */
    method LoadInode(ino: nat) returns (s: Option<nat>)
      requires Valid()
      modifies cache
      ensures s.None? || ino in img.live ==> Valid()
      ensures s.Some? <==> (
        && 1 <= ino <= sb.ninodes
        && (Cached(old(cache[..]), ino) || (Cached(old(cache[..]), 0) && !Unknown(img, ino))))
      ensures s.Some? ==> s.value < MAX_INODES && cache[s.value].ino == ino && Mirrors(cache[s.value], img.itab[ino])
      ensures AtMostLoaded(old(cache[..]), cache[..], ino)
      ensures FirstTouched(old(cache[..]), cache[..])
      ensures s.None? ==> SameSlots(old(cache[..]), cache[..])
      ensures Cached(old(cache[..]), ino) ==> cache[..] == old(cache[..])
      ensures s.None? && (1 <= ino <= sb.ninodes ==> !Unknown(img, ino)) ==> cache[..] == old(cache[..])
    {
      hide Represents, InodeOnDisk, InodeOf, Owned, Tidy, KindOfMode, InodeHome, InodeOffset;
      if !mounted {
        return None;
      }
      if ino == 0 || ino > sb.ninodes {
        return None;
      }
      s := FindSlot(ino);
      if s.Some? {
        return;
      }
      var m := FindSlot(0);
      if m.None? {
        return None;
      }
      InodeInTable(disk, img, ino);
      var ok, buf := ReadBlock(InodeHome(sb, ino));
      if !ok {
        return None;
      }
      var d := InodeOf(buf, InodeOffset(ino));
      cache[m.value] := cache[m.value].(kind := KindOfMode(d.mode));
      if cache[m.value].kind == NoKind {
        return None;
      }
      cache[m.value] := cache[m.value].(size := d.size, mode := d.mode, nlinks := d.nlinks, zone := d.zone);
      cache[m.value] := cache[m.value].(ino := ino);
      return m;
    }

    /** The root directory's slot. Whether inode 1 is in use, or a directory, nobody
        checks. */
    method Root() returns (s: Option<nat>)
      requires Valid()
      modifies cache
      ensures s.None? || ROOT_INO in img.live ==> Valid()
      ensures s.Some? <==> (
        && 1 <= sb.ninodes
        && (Cached(old(cache[..]), ROOT_INO) || (Cached(old(cache[..]), 0) && !Unknown(img, ROOT_INO))))
      ensures s.Some? ==>
        && s.value < MAX_INODES && cache[s.value].ino == ROOT_INO
        && Mirrors(cache[s.value], img.itab[ROOT_INO])
      ensures AtMostLoaded(old(cache[..]), cache[..], ROOT_INO) && FirstTouched(old(cache[..]), cache[..])
    {
      if !mounted {
        return None;
      }
      s := LoadInode(ROOT_INO);
    }

    /** Sends a slot back to the drive. Owner, group and time of the inode are read
        and written back unchanged, and so are the other inodes of the block. */
    method StoreInode(s: nat) returns (r: int)
      requires Image() && s < MAX_INODES
      modifies this`disk, this`img
      ensures Image()
      ensures r == 0 || r == -1
      ensures r == 0 <==> 1 <= cache[s].ino <= sb.ninodes
      ensures r == 0 ==> img == old(img).(itab := old(img).itab[cache[s].ino := Stored(cache[s], old(img).itab[cache[s].ino])])
      ensures r == -1 ==> img == old(img) && disk == old(disk)
    {
      var ino := cache[s].ino;
      if !mounted || ino == 0 || ino > sb.ninodes {
        return -1;
      }
      var ok, buf := ReadBlock(InodeHome(sb, ino));
      if !ok {
        return -1;
      }
      var d := InodeOf(buf, InodeOffset(ino));
      assert d == InodeOnDisk(sb, disk, ino);
      d := Stored(cache[s], d);
      PutInode(disk, img, ino, d);
      ok := WriteBlock(InodeHome(sb, ino), Patch(buf, InodeOffset(ino), InodeBytes(d)));
      img := img.(itab := img.itab[ino := d]);
      return if ok then 0 else -1;
    }

    /** Turns on the first clear bit of the inode bitmap; 0 if there is none. */
    method TakeInodeNumber() returns (bit: nat)
      requires Image()
      modifies this`disk, this`img
      ensures Image()
      ensures bit == 0 ==> img == old(img) && forall i :: 1 <= i <= sb.ninodes ==> i in img.live
      ensures bit != 0 ==> Unused(old(img), bit) && img == old(img).(live := old(img).live + {bit})
    {
      hide Represents, Shaped;
      BitmapInside(disk, img);
      bit := FindFreeBit(IMAP_BLOCK, sb.ninodes);
      InodesOfBits(disk, img, bit);
      if bit == 0 {
        return 0;
      }
      MarkInode(disk, img, bit, true);
      OneMoreLive(img, bit);
      var ok := ChangeBit(IMAP_BLOCK, bit, true);
      if !ok {
        return 0;
      }
      img := img.(live := img.live + {bit});
    }

    /** Clears the 32 bytes of an inode on the drive. */
    method WipeInode(i: nat) returns (ok: bool)
      requires Image() && 1 <= i <= sb.ninodes
      modifies this`disk, this`img
      ensures Image() && ok
      ensures img == old(img).(itab := old(img).itab[i := ZERO_INODE])
    {
      PutInode(disk, img, i, ZERO_INODE);
      ZeroInodeBytes();
      var buf;
      ok, buf := ReadBlock(InodeHome(sb, i));
      if !ok {
        return false;
      }
      ok := WriteBlock(InodeHome(sb, i), Patch(buf, InodeOffset(i), seq(INODE_SIZE, _ => 0)));
      img := img.(itab := img.itab[i := ZERO_INODE]);
    }

    /** A new inode: the least free number, 32 clean bytes on the drive, a slot of
        the cache. The slot is looked for first, so that a full cache touches
        nothing. */
    method AllocInode(kind: Kind) returns (s: Option<nat>)
      requires Valid()
      modifies this`disk, this`img, cache
      ensures Valid()
      ensures s.Some? <==> CanAlloc(old(img), old(cache[..]), kind)
      ensures s.None? ==> img == old(img) && cache[..] == old(cache[..])
      ensures s.Some? ==>
        && s.value < MAX_INODES && old(cache[s.value]).ino == 0
        && (forall t :: 0 <= t < s.value ==> old(cache[t]).ino != 0)
        && Unused(old(img), cache[s.value].ino)
        && img.live == old(img).live + {cache[s.value].ino}
        && img.taken == old(img).taken && img.data == old(img).data && Lost(img) == Lost(old(img))
        && OthersSame(old(img), img.(live := old(img).live), cache[s.value].ino)
        && img.itab[cache[s.value].ino].zone == NO_ZONES && img.itab[cache[s.value].ino].size == 0
        && Tree() == old(Tree())[cache[s.value].ino := Newborn(kind)]
        && cache[s.value].kind == kind
        && forall t :: 0 <= t < MAX_INODES && t != s.value ==> cache[t] == old(cache[t])
    {
      hide Represents, InodeOnDisk, OwnedByNobody, Owned, ByteAt, Contents, TreeOf, Lost;
      if !mounted {
        return None;
      }
      if kind != FileKind && kind != DirKind {
        return None;
      }
      var m := FindSlot(0);
      if m.None? {
        return None;
      }
      var bit := TakeInodeNumber();
      if bit == 0 {
        return None;
      }
      var ok := WipeInode(bit);
      if !ok {
        return None;
      }
      cache[m.value] := Slot(bit, kind, 0, NO_ZONES, BirthMode(kind), if kind == DirKind then 2 else 1);
      var r := StoreInode(m.value);
      cache[m.value] := cache[m.value].(ino := SlotMark(r, bit));
      if r < 0 {
        return None;
      }
      NewInode(old(img), img, bit, kind);
      NewSlot(old(img), img, old(cache[..]), m.value, cache[m.value], kind);
      assert cache[..] == old(cache[..])[m.value := cache[m.value]];
      return m;
    }

    // ---- zones -----------------------------------------------------------------

    /** Finds the first clear bit of the zone bitmap and sets it. */
    method TakeZoneBit() returns (bit: nat)
      requires Image() && sb.firstDataZone < sb.nzones
      modifies this`disk, this`img
      ensures Image() && bit <= sb.ZoneBits()
      ensures bit == 0 ==> img == old(img) && FreeZones(img) == 0
      ensures bit != 0 ==> var z := sb.ZoneOfBit(bit);
        && z in img.data && z !in old(img).taken
        && (forall y :: y in img.data && y < z ==> y in old(img).taken)
        && img == old(img).(taken := old(img).taken + {z})
    {
      var max := sb.nzones - sb.firstDataZone;
      bit := FindFreeBit(sb.ZmapBlock(), max);
      ZonesOfBits(disk, img, bit);
      if bit == 0 {
        return 0;
      }
      MarkZone(disk, img, bit);
      var ok := ChangeBit(sb.ZmapBlock(), bit, true);
      if !ok {
        return 0;
      }
      img := img.(taken := img.taken + {sb.ZoneOfBit(bit)});
    }

    /** The least free zone, marked and cleared; 0 when all are taken. */
    method AllocZone() returns (z: int)
      requires Image() && Owned(img)
      modifies this`disk, this`img
      ensures Image() && Owned(img) && z >= 0
      ensures z == 0 ==> img == old(img) && FreeZones(img) == 0
      ensures z != 0 ==>
        && z in img.data && z !in old(img).taken
        && (forall y :: y in img.data && y < z ==> y in old(img).taken)
        && img == old(img).(taken := old(img).taken + {z}, data := old(img).data[z := ZeroBlock()])
    {
      hide Represents, OwnedByNobody, FreeZones, Owned;
      if !mounted || sb.nzones <= sb.firstDataZone {
        NoZones(img);
        return 0;
      }
      var bit := TakeZoneBit();
      if bit == 0 {
        return 0;
      }
      ghost var img0 := old(img);
      z := bit + sb.firstDataZone - 1;
      var ok := WriteZone(z, ZeroBlock());
      if !ok {
        return 0;
      }
      TakeZone(img0, z);
    }

    /** A loaded inode that is no device node keeps zones. */
    lemma SlotHasZones(s: nat)
      requires Steady() && s < MAX_INODES && cache[s].ino != 0 && cache[s].kind != CharKind
      ensures cache[s].ino in img.live && cache[s].ino in img.itab && HasZones(img.itab[cache[s].ino].mode)
      ensures cache[s].zone == img.itab[cache[s].ino].zone
    {
    }

    /** The zone that holds logical zone `n` of the inode in slot `s`; 0 is a hole. */
    method ZoneOf(s: nat, n: nat) returns (z: int)
      requires Steady() && s < MAX_INODES && cache[s].ino != 0 && cache[s].kind != CharKind
      ensures z == Zone(img, cache[s].ino, Leaf(n))
    {
      var zone := cache[s].zone;
      ghost var i := cache[s].ino;
      assert img.itab[i].zone == zone;
      if n < DIRECT_ZONES {
        return zone[n];
      }
      var k := n - DIRECT_ZONES;
      if k < PTRS_PER_BLOCK {
        if zone[SINGLE_SLOT] == 0 {
          return 0;
        }
        assert Zone(img, i, Single) in img.data;
        var ok, buf := ReadBlock(zone[SINGLE_SLOT]);
        if !ok {
          return 0;
        }
        return Pointer(buf, k);
      }
      k := k - PTRS_PER_BLOCK;
      if k < PTRS_PER_BLOCK * PTRS_PER_BLOCK {
        if zone[DOUBLE_SLOT] == 0 {
          return 0;
        }
        assert Zone(img, i, Double) in img.data;
        var ok, buf := ReadBlock(zone[DOUBLE_SLOT]);
        if !ok {
          return 0;
        }
        z := Pointer(buf, k / PTRS_PER_BLOCK);
        assert z == Zone(img, i, Middle(k / PTRS_PER_BLOCK));
        if z == 0 {
          return 0;
        }
        ok, buf := ReadBlock(z);
        if !ok {
          return 0;
        }
        return Pointer(buf, k % PTRS_PER_BLOCK);
      }
      return 0;
    }

    /** The indirect block of the inode in slot `s`, allocated and recorded in the
        inode if it is the first time; 0 if there is no zone left for it. */
    method IndirectBlock(s: nat) returns (ind: int)
      requires Steady() && s < MAX_INODES && cache[s].ino != 0 && cache[s].kind != CharKind
      modifies this`disk, this`img, cache
      ensures Steady() && ind >= 0
      ensures ind == 0 ==> img == old(img) && cache[..] == old(cache[..])
      ensures ind == 0 <==> Zone(old(img), old(cache[s]).ino, Single) == 0 && FreeZones(old(img)) == 0
      ensures ind != 0 ==>
        && ind == Zone(img, cache[s].ino, Single) && ind in img.data
        && Grown(old(img), img, cache[s].ino)
        && cache[..] == old(cache[..])[s := old(cache[s]).(zone := cache[s].zone)]
    {
      ghost var i := cache[s].ino;
      hide Represents, InodeOnDisk, ByteAt, OwnedByNobody;
      ind := cache[s].zone[SINGLE_SLOT];
      assert ind == Zone(img, i, Single);
      if ind == 0 {
        ind := AllocZone();
        if ind == 0 {
          return;
        }
        ghost var mid := img;
        SlotsStay(old(img), mid, cache[..]);
        cache[s] := cache[s].(zone := cache[s].zone[SINGLE_SLOT := ind]);
        var r := StoreInode(s);
        SingleGrown(old(img), mid, img, i, ind);
        SlotFollows(mid, img, old(cache[..]), s, cache[s].zone);
        assert cache[..] == old(cache[..])[s := cache[s]];
        if r < 0 {
          return;
        }
      }
    }

    method AssignDirect(s: nat, n: nat, z: nat) returns (r: int)
      requires Steady() && s < MAX_INODES && cache[s].ino != 0 && cache[s].kind != CharKind
      requires FreshZone(img, z) && n < DIRECT_ZONES
      modifies this`disk, this`img, cache
      ensures Steady()
      ensures r == 0
      ensures
        && Assigned(old(img), img, old(cache[s]).ino, n, z)
        && FreeZones(img) == FreeZones(old(img)) - BlocksBefore(old(img), old(cache[s]).ino, n)
        && cache[..] == old(cache[..])[s := old(cache[s]).(zone := cache[s].zone)]
    {
      ghost var i := cache[s].ino;
      DirectAssigned(img, i, n, z);
      cache[s] := cache[s].(zone := cache[s].zone[n := z]);
      r := StoreInode(s);
      assert img == WithSlot(old(img), i, n, z);
      SlotFollows(old(img), img, old(cache[..]), s, cache[s].zone);
      assert cache[..] == old(cache[..])[s := cache[s]];
    }

    method AssignIndirect(s: nat, n: nat, z: nat) returns (r: int)
      requires Steady() && s < MAX_INODES && cache[s].ino != 0 && cache[s].kind != CharKind
      requires FreshZone(img, z) && DIRECT_ZONES <= n < SINGLE_LIMIT
      modifies this`disk, this`img, cache
      ensures Steady()
      ensures r == 0 || r == -1
      ensures r == 0 <==> Assignable(old(img), old(cache[s]).ino, n)
      ensures r == -1 ==> img == old(img) && cache[..] == old(cache[..])
      ensures r == 0 ==>
        && Assigned(old(img), img, old(cache[s]).ino, n, z)
        && FreeZones(img) == FreeZones(old(img)) - BlocksBefore(old(img), old(cache[s]).ino, n)
        && cache[..] == old(cache[..])[s := old(cache[s]).(zone := cache[s].zone)]
    {
      hide Represents, PutPointer, OwnedByNobody, InodeOnDisk, ByteAt, Owned, Zone;
      var ind := IndirectBlock(s);
      if ind == 0 {
        return -1;
      }
      ghost var mid, i := img, cache[s].ino;
      GrownKeepsFresh(old(img), mid, i, z);
      var ok, buf := ReadZone(ind);
      if !ok {
        return -1;
      }
      ok := WriteZone(ind, PutPointer(buf, n - DIRECT_ZONES, z));
      IndirectAssigned(mid, img, i, n, z);
      AssignedInSteps(old(img), mid, img, i, n, z);
      r := if ok then 0 else -1;
    }

    /** Makes `z`, a fresh zone, logical zone `n` of the inode in slot `s`; allocates
        the indirect block if it is the first time. Zones behind the double
        indirect block are refused. On failure nothing has changed. */
    method AssignZone(s: nat, n: nat, z: nat) returns (r: int)
      requires Steady() && s < MAX_INODES && cache[s].ino != 0 && cache[s].kind != CharKind
      requires z != 0 ==> FreshZone(img, z)
      modifies this`disk, this`img, cache
      ensures Steady()
      ensures r == 0 || r == -1
      ensures r == 0 <==> z != 0 && Assignable(old(img), old(cache[s]).ino, n)
      ensures r == -1 ==> img == old(img) && cache[..] == old(cache[..])
      ensures r == 0 ==>
        && Assigned(old(img), img, old(cache[s]).ino, n, z)
        && FreeZones(img) == FreeZones(old(img)) - BlocksBefore(old(img), old(cache[s]).ino, n)
        && cache[..] == old(cache[..])[s := old(cache[s]).(zone := cache[s].zone)]
      ensures r == 0 ==> AssignedOnDrive(disk, old(cache[s]).zone, cache[s].zone, n, z)
    {
      hide Represents, InodeOnDisk, OwnedByNobody, ByteAt, Owned, Zone, Assigned, AssignedOnDrive, Assignable;
      SlotHasZones(s);
      AssignableMeans(img, cache[s].ino, n);
      if z == 0 {
        return -1;
      }
      if n < DIRECT_ZONES {
        r := AssignDirect(s, n, z);
        SlotHasZones(s);
        AssignedInPlainNumbers(disk, old(img), img, cache[s].ino, n, z);
        return;
      }
      if n - DIRECT_ZONES < PTRS_PER_BLOCK {
        r := AssignIndirect(s, n, z);
        if r == 0 {
          SlotHasZones(s);
          AssignedInPlainNumbers(disk, old(img), img, cache[s].ino, n, z);
        }
        return;
      }
      return -1;
    }

    // ---- reading and writing -----------------------------------------------------

    /** The zone of logical zone `n`, allocated and assigned if there is a hole; 0
        when there is no room. Either way no byte of any file changes. A zone that was
        allocated and could not be assigned is not given back: it is lost. */
    method PlaceZone(s: nat, n: nat) returns (z: int)
      requires Steady() && s < MAX_INODES && cache[s].ino != 0 && cache[s].kind != CharKind
      modifies this`disk, this`img, cache
      ensures Steady()
      ensures z != 0 <==> CanPlace(old(img), old(cache[s]).ino, n)
      ensures Kept(old(img), img, old(cache[s]).ino)
      ensures z != 0 ==> z == Zone(img, old(cache[s]).ino, Leaf(n)) && Placed(old(img), img, old(cache[s]).ino, n)
      ensures z == 0 ==> !CanPlace(img, old(cache[s]).ino, n) && InVain(old(img), img)
      ensures Loses(old(img), img, z == 0 && FreeZones(old(img)) > 0)
      ensures cache[..] == old(cache[..])[s := old(cache[s]).(zone := cache[s].zone)]
    {
      hide Represents, InodeOnDisk, OwnedByNobody, ByteAt, Lost, Kept, Placed, Assigned, CanPlace, Assignable, Zone;
      ghost var i := cache[s].ino;
      NothingPlaced(img, i, n);
      z := ZoneOf(s, n);
      if z == 0 {
        z := AllocZone();
        if z == 0 {
          return;
        }
        ghost var mid := img;
        ZoneTaken(old(img), mid, i, n, z);
        SlotsStay(old(img), mid, cache[..]);
        var r := AssignZone(s, n, z);
        if r < 0 {
          ZoneInVain(old(img), img, i, n, z);
          return 0;
        }
        FreshPlaced(old(img), mid, img, i, n, z);
      }
    }

    /** One block's share of a write: read the block, change it, write it back. */
    method WriteChunk(s: nat, off: nat, chunk: seq<byte>) returns (ok: bool)
      requires Steady() && s < MAX_INODES && cache[s].ino != 0 && cache[s].kind != CharKind
      requires chunk != [] && off % BLOCK_SIZE + |chunk| <= BLOCK_SIZE
      modifies this`disk, this`img, cache
      ensures Steady()
      ensures Written(old(img), img, old(cache[s]).ino, off, if ok then chunk else [])
      ensures InOneBlock(old(img), img, old(cache[s]).ino, off / BLOCK_SIZE, ok)
      ensures ok ==> Placed(old(img), img, old(cache[s]).ino, off / BLOCK_SIZE)
      ensures Loses(old(img), img, !ok && FreeZones(old(img)) > 0)
      ensures if ok then off + |chunk| <= ZONE_LIMIT * BLOCK_SIZE else !CanPlace(img, old(cache[s]).ino, off / BLOCK_SIZE)
      ensures cache[..] == old(cache[..])[s := old(cache[s]).(zone := cache[s].zone)]
    {
      hide Represents, InodeOnDisk, OwnedByNobody, ByteAt, Lost, Placed, CanPlace, Cost, FreeZones, Loses;
      var z := PlaceZone(s, off / BLOCK_SIZE);
      ghost var mid, i := img, cache[s].ino;
      if z == 0 {
        NothingWrittenYet(old(img), mid, i, off);
        return false;
      }
      assert z in img.data;
      PlacedFits(old(img), i, off, |chunk|);
      var buf;
      ok, buf := ReadZone(z);
      if !ok {
        return false;
      }
      buf := Patch(buf, off % BLOCK_SIZE, chunk);
      ok := WriteZone(z, buf);
      ChunkWritten(old(img), mid, img, i, off, chunk);
      ChunkPlaced(old(img), mid, img, i, off / BLOCK_SIZE, z);
      SlotsStay(mid, img, cache[..]);
    }

    /** One block's share of a write through a device node: the code takes its number for a
        zone and reads, changes and writes back the block of that number, whatever it is.
        In the data area that changes the block and no other part of the image. */
    method DeviceChunk(s: nat, off: nat, chunk: seq<byte>) returns (ok: bool)
      requires Steady() && s < MAX_INODES && cache[s].ino != 0 && cache[s].kind == CharKind
      requires chunk != [] && off % BLOCK_SIZE + |chunk| <= BLOCK_SIZE
      requires off / BLOCK_SIZE < DIRECT_ZONES && cache[s].zone[off / BLOCK_SIZE] != 0
      modifies this`disk
      ensures var z := cache[s].zone[off / BLOCK_SIZE];
        && (ok <==> z < old(|disk|))
        && disk == (if ok then old(disk)[z := Patch(old(disk)[z], off % BLOCK_SIZE, chunk)] else old(disk))
        && (z in img.data ==> ok && Represents(disk, img.(data := img.data[z := Patch(img.data[z], off % BLOCK_SIZE, chunk)])))
    {
      hide Owned, Coherent, Patch;
      var z := cache[s].zone[off / BLOCK_SIZE];
      ghost var was := disk;
      var buf;
      ok, buf := ReadBlock(z);
      if !ok {
        assert z !in img.data;
        return;
      }
      buf := Patch(buf, off % BLOCK_SIZE, chunk);
      if z in img.data {
        assert was[z] == img.data[z];
        PutZone(disk, img, z, buf);
      }
      ok := WriteBlock(z, buf);
    }

    /** One block's share of a read. */
    method ReadChunk(s: nat, off: nat, k: nat) returns (ok: bool, piece: seq<byte>)
      requires Steady() && s < MAX_INODES && cache[s].ino != 0 && cache[s].kind != CharKind
      requires off % BLOCK_SIZE + k <= BLOCK_SIZE && off + k <= cache[s].size
      ensures ok && piece == Contents(img, cache[s].ino)[off..off + k]
    {
      hide Represents, InodeOnDisk, OwnedByNobody;
      ghost var c := Contents(img, cache[s].ino);
      var inside := off % BLOCK_SIZE;
      var z := ZoneOf(s, off / BLOCK_SIZE);
      if z == 0 {
        ok, piece := true, seq(k, _ => 0);
      } else {
        var buf;
        ok, buf := ReadZone(z);
        piece := buf[inside..inside + k];
      }
      forall p | 0 <= p < k
        ensures piece[p] == c[off..off + k][p]
      {
        assert (off + p) / BLOCK_SIZE == off / BLOCK_SIZE && (off + p) % BLOCK_SIZE == inside + p;
        assert c[off + p] == ByteAt(img, cache[s].ino, off + p);
      }
    }

    /** A loaded inode knows the length of its file. */
    lemma SizeHeld(s: nat)
      requires Steady() && s < MAX_INODES && cache[s].ino != 0
      ensures cache.Length == MAX_INODES && Shaped(img) && cache[s].ino in img.live
      ensures cache[s].ino in img.itab && |Contents(img, cache[s].ino)| == cache[s].size
    {
    }

    /** The blocks of a read that stays within the file. */
    method ReadChunks(s: nat, off: u32, dest: array<byte>, m: u32) returns (done: u32)
      requires Steady() && s < MAX_INODES && cache[s].ino != 0 && cache[s].kind != CharKind
      requires m <= dest.Length && off + m <= cache[s].size
      modifies dest
      ensures done == m
      ensures dest[..] == Patch(old(dest[..]), 0, Contents(img, cache[s].ino)[off..off + m])
    {
      hide Volume.Steady, Represents, Sane, Contents, ByteAt, Patch;
      SizeHeld(s);
      ghost var c := Contents(img, cache[s].ino);
      PatchNothing(dest[..], c, off);
      var pos: u32 := off;
      done := 0;
      while done < m
        invariant done <= m && pos == off + done && off + m <= |c|
        invariant dest[..] == Patch(old(dest[..]), 0, c[off..pos])
      {
        var k := Min(BLOCK_SIZE - pos % BLOCK_SIZE, m - done);
        ChunkFits(pos, m - done);
        var ok, piece := ReadChunk(s, pos, k);
        if !ok {
          return;
        }
        Memcpy(dest, done, piece);
        PatchGrows(old(dest[..]), c, off, pos, pos + k);
        pos := pos + k;
        done := done + k;
      }
    }

    /** Reads what the file holds from `off` on, up to `n` bytes and its end: the
        bytes of its contents, holes as zeros, whatever was there before. */
    method Read(s: nat, off: u32, dest: array<byte>, n: u32) returns (r: int)
      requires Steady() && s < MAX_INODES && cache[s].ino != 0 && cache[s].kind != CharKind
      requires n <= dest.Length
      modifies dest
      ensures r == AsInt32(ReadCount(Contents(img, cache[s].ino), off, n))
      ensures dest[..] == Patch(old(dest[..]), 0, ReadBytes(Contents(img, cache[s].ino), off, n))
    {
      hide Represents, InodeOnDisk, OwnedByNobody, Owned, ByteAt;
      var size := cache[s].size;
      if off >= size {
        return 0;
      }
      var m: u32 := if n > size - off then size - off else n;
      var done := ReadChunks(s, off, dest, m);
      if done < m {
        return PartialCount(done);
      }
      return AsInt32(done);
    }

    /** The blocks of a write, one after the other, until `src` is written or there
        is no room for the next one. Returns the bytes written. */
    method WriteChunks(s: nat, off: u32, src: seq<byte>) returns (done: u32)
      requires Steady() && s < MAX_INODES && cache[s].ino != 0 && cache[s].kind != CharKind
      requires |src| < 0x1_0000_0000
      modifies this`disk, this`img, cache
      ensures Steady() && done <= |src|
      ensures done > 0 ==> off + done <= ZONE_LIMIT * BLOCK_SIZE
      ensures Written(old(img), img, old(cache[s]).ino, off, src[..done])
      ensures done < |src| ==> !CanPlace(img, old(cache[s]).ino, (off + done) / BLOCK_SIZE)
      ensures Loses(old(img), img, WriteSpills(old(img), old(cache[s]).ino, off, |src|))
      ensures src != [] && off % BLOCK_SIZE + |src| <= BLOCK_SIZE ==>
        && (done == 0 || done == |src|)
        && InOneBlock(old(img), img, old(cache[s]).ino, off / BLOCK_SIZE, done == |src|)
      ensures cache[..] == old(cache[..])[s := old(cache[s]).(zone := cache[s].zone)]
    {
      hide Represents, InodeOnDisk, OwnedByNobody, ByteAt, Owned, Written, CanPlace, Cost, Zone, Placed, Spills;
      hide Loses, FreeZones, SpillsFrom, Coherent;
      ghost var i, last := cache[s].ino, (off + |src| - 1) / BLOCK_SIZE;
      var pos: u32 := off;
      done := 0;
      SizeHeld(s);
      NothingWritten(img, i, off);
      while done < |src|
        invariant done <= |src| && pos == off + done
        invariant done > 0 ==> pos <= ZONE_LIMIT * BLOCK_SIZE
        invariant Steady() && Written(old(img), img, i, off, src[..done])
        invariant done == 0 ==> img == old(img)
        invariant Loses(old(img), img, false)
        invariant WriteSpills(old(img), i, off, |src|) == (done < |src| && SpillsFrom(img, i, pos / BLOCK_SIZE, last))
        invariant cache[..] == old(cache[..])[s := old(cache[s]).(zone := cache[s].zone)]
        invariant done > 0 && off % BLOCK_SIZE + |src| <= BLOCK_SIZE ==>
          done == |src| && InOneBlock(old(img), img, i, off / BLOCK_SIZE, true)
      {
        var k := Min(BLOCK_SIZE - pos % BLOCK_SIZE, |src| - done);
        ChunkFits(pos, |src| - done);
        ghost var before := img;
        var ok := WriteChunk(s, pos, src[done..done + k]);
        WrittenInSteps(old(img), before, img, i, off, src[..done], if ok then src[done..done + k] else []);
        SpillsNext(before, img, i, pos / BLOCK_SIZE, last);
        SpillsEnd(img, i, last);
        LosesThen(old(img), before, img, !ok && FreeZones(before) > 0);
        if !ok {
          assert src[..done] + [] == src[..done];
          break;
        }
        assert src[..done + k] == src[..done] + src[done..done + k];
        pos := pos + k;
        done := done + k;
      }
    }

    /** Writes `src` at `off`. The file's contents become exactly the old ones with
        the written prefix spliced in, a gap past the old end filled with zeros;
        all other nodes stay as they are. A short write means there was no room
        for the block it stopped at; whether it loses a zone there is known before. */
    method Write(s: nat, off: u32, src: seq<byte>) returns (r: int)
      requires Steady() && Trim(img) && s < MAX_INODES && cache[s].ino != 0 && cache[s].kind != CharKind
      requires |src| < 0x1_0000_0000
      modifies this`disk, this`img, cache
      ensures Steady() && Trim(img)
      ensures -1 <= r <= |src| && (r == 0 <==> src == [])
      ensures Tree() == TreeWrite(old(Tree()), old(cache[s]).ino, off, src[..Max(r, 0)])
      ensures r < |src| ==> !CanPlace(img, old(cache[s]).ino, (off + Max(r, 0)) / BLOCK_SIZE)
      ensures src != [] && off % BLOCK_SIZE + |src| <= BLOCK_SIZE ==>
        && (r == -1 || r == |src|)
        && InOneBlock(old(img), img, old(cache[s]).ino, off / BLOCK_SIZE, r == |src|)
      ensures OthersSame(old(img), img, old(cache[s]).ino)
      ensures r <= 0 ==> Kept(old(img), img, old(cache[s]).ino)
      ensures Loses(old(img), img, WriteSpills(old(img), old(cache[s]).ino, off, |src|))
      ensures OneSlotMoved(old(cache[..]), cache[..], s)
      ensures old(Valid()) && old(cache[s]).kind != DirKind ==> Valid()
    {
      hide Represents, InodeOnDisk, OwnedByNobody, ByteAt, Contents, Owned, Splice, Cost, Zone, TreeOf, CleanTail;
      hide DirsSound, Lost, SpillsFrom, CanPlace, FreeZones, TreeWrite, KindOfMode;
      ghost var i := cache[s].ino;
      if |src| == 0 {
        KeptTree(img, img, i);
        return 0;
      }
      var done := WriteChunks(s, off, src);
      if done == 0 {
        NothingIsKept(old(img), img, i, off);
        return -1;
      }
      ghost var mid := img;
      var end := off + done;
      if end > cache[s].size {
        cache[s] := cache[s].(size := end);
        r := StoreInode(s);
        SlotGrows(mid, img, old(cache[..])[s := old(cache[s]).(zone := cache[s].zone)], s, end);
        assert cache[..] == old(cache[..])[s := old(cache[s]).(zone := cache[s].zone, size := cache[s].size)];
        if r < 0 {
          return;
        }
      }
      WriteDone(old(img), mid, img, i, off, src[..done]);
      return AsInt32(done);
    }

    // ---- directories -------------------------------------------------------------

    /** Entry `k` of the directory in slot `s`. */
    method ReadEntry(s: nat, k: nat) returns (ok: bool, e: Dirent)
      requires Steady() && s < MAX_INODES && cache[s].ino != 0 && cache[s].kind != CharKind
      requires (k + 1) * DIRENT_SIZE <= cache[s].size
      ensures ok && k < |EntriesOf(img, cache[s].ino)| && e == EntriesOf(img, cache[s].ino)[k]
    {
      hide Represents, InodeOnDisk, OwnedByNobody, Owned, ByteAt;
      var entry := new byte[DIRENT_SIZE];
      ghost var c := Contents(img, cache[s].ino);
      var r := Read(s, k * DIRENT_SIZE, entry, DIRENT_SIZE);
      assert ReadCount(c, k * DIRENT_SIZE, DIRENT_SIZE) == DIRENT_SIZE;
      assert entry[..] == c[k * DIRENT_SIZE..(k + 1) * DIRENT_SIZE];
      ok, e := r == DIRENT_SIZE, DirentOf(entry[..]);
    }

    /** The first deleted entry of a directory, or its end. */
    method FindFreeEntry(s: nat) returns (ok: bool, k: nat)
      requires Valid() && s < MAX_INODES && cache[s].ino != 0 && cache[s].kind == DirKind
      ensures ok && k == FreeSlot(EntriesOf(img, cache[s].ino))
    {
      hide Represents, InodeOnDisk, OwnedByNobody, Owned, ByteAt, Contents, Entries, TreeOf, DirsSound, Trim;
      ghost var es := EntriesOf(img, cache[s].ino);
      DirIsEntries(img, cache[s].ino);
      k := 0;
      while k * DIRENT_SIZE < cache[s].size
        invariant k <= |es| && forall j :: 0 <= j < k ==> es[j].ino != 0
      {
        var e;
        ok, e := ReadEntry(s, k);
        if !ok {
          return;
        }
        if e.ino == 0 {
          break;
        }
        k := k + 1;
      }
      ok := true;
    }

    /** Puts a name in a directory: the first deleted entry is reused, otherwise the
        directory grows. It fails, changing nothing a user could see, exactly when
        the name does not fit or there is no room for the entry's block. */
    method InsertEntry(s: nat, name: seq<byte>, ino: u16) returns (r: int)
      requires Valid() && s < MAX_INODES && cache[s].ino != 0 && 0 !in name
      requires ino in img.live
      modifies this`disk, this`img, cache
      ensures Valid()
      ensures r == 0 || r == -1
      ensures r == 0 <==> old(cache[s]).kind == DirKind && NameFits(name)
                          && CanPlace(old(img), old(cache[s]).ino, InsertBlock(old(img), old(cache[s]).ino))
      ensures Tree() == if r == 0 then Link(old(Tree()), old(cache[s]).ino, name, ino) else old(Tree())
      ensures old(cache[s]).kind == DirKind && NameFits(name) ==>
        InOneBlock(old(img), img, old(cache[s]).ino, InsertBlock(old(img), old(cache[s]).ino), r == 0)
      ensures OthersSame(old(img), img, old(cache[s]).ino) && img.live == old(img).live
      ensures if r == 0 then OneSlotMoved(old(cache[..]), cache[..], s) else SameSlots(old(cache[..]), cache[..])
      ensures Loses(old(img), img,
        old(cache[s]).kind == DirKind && NameFits(name) && EntrySpills(old(img), old(cache[s]).ino))
    {
      hide Lost, WriteSpills;
      hide Represents, InodeOnDisk, OwnedByNobody, Owned, ByteAt, Contents, Zone, TreeOf, TreeWrite, Entries;
      ghost var i := cache[s].ino;
      if cache[s].kind != DirKind {
        KeptTree(img, img, i);
        return -1;
      }
      if |name| == 0 || |name| > NAME_MAX {
        KeptTree(img, img, i);
        return -1;
      }
      var ok, k := FindFreeEntry(s);
      if !ok {
        return -1;
      }
      var w := DirentBytes(Dirent(ino, name));
      EntryInOneBlock(k);
      WriteIsLink(img, i, name, ino);
      OneBlockSpills(img, i, k * DIRENT_SIZE, |w|);
      r := Write(s, k * DIRENT_SIZE, w);
      assert w[..|w|] == w;
      if r != DIRENT_SIZE {
        assert Kept(old(img), img, i);
        KeptTree(old(img), img, i);
        return -1;
      }
      return 0;
    }

    /** The slot of the node that `name` names in a directory. Deleted entries are
        skipped. It fails exactly when the name is not there, or is there and its inode
        is not cached and has no known type or finds no free slot. */
    method Lookup(s: nat, name: seq<byte>) returns (found: Option<nat>)
      requires Valid() && s < MAX_INODES && cache[s].ino != 0 && 0 !in name
      modifies cache
      ensures Valid()
      ensures found.Some? <==> old(cache[s]).kind == DirKind && CanLookup(img, old(cache[..]), old(cache[s]).ino, name)
      ensures found.Some? ==>
        && found.value < MAX_INODES
        && cache[found.value].ino == LookupIno(img, old(cache[s]).ino, name)
      ensures found.None? ==> SameSlots(old(cache[..]), cache[..])
      ensures AtMostLoaded(old(cache[..]), cache[..], LookupIno(img, old(cache[s]).ino, name))
      ensures FirstTouched(old(cache[..]), cache[..])
    {
      hide Represents, InodeOnDisk, OwnedByNobody, Owned, ByteAt, Contents, TreeOf, Entries, KindOfMode;
      ghost var d := cache[s].ino;
      if cache[s].kind != DirKind {
        return None;
      }
      ghost var es := EntriesOf(img, d);
      DirIsEntries(img, d);
      var k := 0;
      while k * DIRENT_SIZE < cache[s].size
        invariant k <= |es| && forall j :: 0 <= j < k ==> es[j].ino == 0 || es[j].name != name
        invariant cache[..] == old(cache[..]) && Valid()
      {
        var ok, e := ReadEntry(s, k);
        if !ok {
          break;
        }
        if e.ino != 0 && e.name == name {
          EntryIsSound(img, d, k);
          assert k == FindName(es, name);
          found := LoadInode(e.ino);
          return;
        }
        k := k + 1;
      }
      assert FindName(es, name) == |es|;
      return None;
    }

    /** Entry `idx` as it stands, a deleted one included: 1 with its name and number,
        0 past the end, -1 for a question without sense. */
    method Readdir(s: nat, idx: int) returns (r: int, name: seq<byte>, ino: u16)
      requires Valid() && s < MAX_INODES && cache[s].ino != 0
      ensures r == if idx < 0 || cache[s].kind != DirKind then -1
                   else if idx < |EntriesOf(img, cache[s].ino)| then 1 else 0
      ensures r == 1 ==> Dirent(ino, name) == EntriesOf(img, cache[s].ino)[idx]
    {
      hide Represents, InodeOnDisk, OwnedByNobody, Owned, ByteAt, Contents;
      r, name, ino := -1, [], 0;
      if idx < 0 || cache[s].kind != DirKind {
        return;
      }
      DirIsEntries(img, cache[s].ino);
      if idx < cache[s].size / DIRENT_SIZE {
        var ok, e := ReadEntry(s, idx);
        if !ok {
          return;
        }
        return 1, e.name, e.ino;
      }
      r := 0;
    }

    // ---- creating ----------------------------------------------------------------

    /** Undoes an allocation: the number is free again on the drive and the slot in
        the cache. */
    method FreeInode(m: nat)
      requires Steady() && Trim(img) && m < MAX_INODES && cache[m].ino != 0
      modifies this`disk, this`img, cache
      ensures Image() && img == old(img).(live := old(img).live - {old(cache[m]).ino})
      ensures cache[..] == old(cache[..])[m := old(cache[m]).(ino := 0)]
    {
      ghost var i := cache[m].ino;
      MarkInode(disk, img, i, false);
      var ok := ChangeBit(IMAP_BLOCK, cache[m].ino, false);
      img := img.(live := img.live - {i});
      cache[m] := cache[m].(ino := 0);
    }

    /** Everything before the name: no change unless a new inode is allocated. */
    method BeginCreate(s: nat, name: seq<byte>, kind: Kind) returns (m: Option<nat>)
      requires Valid() && s < MAX_INODES && cache[s].ino != 0 && 0 !in name
      modifies this`disk, this`img, cache
      ensures Valid()
      ensures m.Some? <==> CanBegin(old(img), old(cache[..]), s, name, kind)
      ensures m.None? ==>
        && img == old(img)
        && AtMostLoaded(old(cache[..]), cache[..], LookupIno(old(img), old(cache[s]).ino, name))
      ensures m.Some? ==>
        && m.value < MAX_INODES && m.value != s
        && Begun(old(img), img, old(cache[..]), cache[..], m.value, kind)
        && KindOfMode(img.itab[cache[m.value].ino].mode) == kind
        && Tree() == old(Tree())[cache[m.value].ino := Newborn(kind)]
    {
      hide Represents, InodeOnDisk, OwnedByNobody, Owned, ByteAt, Contents, Zone, Entries, TreeOf, OthersSame;
      if cache[s].kind != DirKind {
        return None;
      }
      if kind != FileKind && kind != DirKind {
        return None;
      }
      if |name| == 0 || |name| > NAME_MAX {
        return None;
      }
      var existing := Lookup(s, name);
      if existing.Some? {
        return None;
      }
      m := AllocInode(kind);
    }

    /** One more link to the inode in slot `s`; the count has 8 bits. */
    method AddLink(s: nat) returns (r: int)
      requires Valid() && s < MAX_INODES && cache[s].ino != 0
      modifies this`disk, this`img, cache
      ensures Valid() && r == 0
      ensures Tree() == MoreLinks(old(Tree()), old(cache[s]).ino)
      ensures img.data == old(img).data && FreeZones(img) == FreeZones(old(img)) && Loses(old(img), img, false)
      ensures SameSlots(old(cache[..]), cache[..])
    {
      hide Represents, InodeOnDisk, OwnedByNobody, Owned, ByteAt, Contents, Zone, TreeOf;
      ghost var i := cache[s].ino;
      cache[s] := cache[s].(nlinks := (cache[s].nlinks + 1) % 0x100);
      r := StoreInode(s);
      Relinked(old(img), img, i, cache[s].nlinks);
      SlotRelinked(old(img), img, old(cache[..]), s, cache[s].nlinks);
      assert cache[..] == old(cache[..])[s := cache[s]];
    }

    /** The two entries a directory is born with, and the parent's link for "..".
        The first one needs a zone; once it is there the rest cannot fail. */
    method MakeDots(m: nat, s: nat) returns (r: int)
      requires Valid() && s < MAX_INODES && m < MAX_INODES && s != m
      requires cache[s].ino != 0 && cache[m].ino != 0 && cache[m].kind == DirKind
      requires img.itab[cache[m].ino].zone == NO_ZONES && img.itab[cache[m].ino].size == 0
      modifies this`disk, this`img, cache
      ensures Valid()
      ensures r == 0 || r == -1
      ensures r == 0 <==> FreeZones(old(img)) > 0
      ensures FreeZones(img) == FreeZones(old(img)) - (if r == 0 then 1 else 0)
      ensures Tree() == if r == 0 then WithDots(old(Tree()), old(cache[m]).ino, old(cache[s]).ino) else old(Tree())
      ensures SameSlots(old(cache[..]), cache[..])
      ensures Loses(old(img), img, false)
    {
      hide Represents, InodeOnDisk, OwnedByNobody, Owned, ByteAt, Contents, Zone, TreeOf, Entries, AddEntry, Apply;
      hide Lost, FreeZones;
      ghost var i, d, t := cache[m].ino, cache[s].ino, Tree();
      DotsFit();
      EmptyDir(img, i);
      r := InsertEntry(m, DOT, cache[m].ino);
      if r < 0 {
        return -1;
      }
      DotDir(img, t, i, d);
      r := InsertEntry(m, DOT_DOT, cache[s].ino);
      if r < 0 {
        return -1;
      }
      r := AddLink(s);
      if r < 0 {
        return -1;
      }
    }

    /** Undoes a create whose entry found no room: `a` is the image before it, `b` the
        one with the new inode. The zones are as the insertion left them. */
    method Undo(m: nat, ghost a: Img, ghost b: Img, ghost d: nat, ghost kind: Kind)
      requires Valid() && m < MAX_INODES && cache[m].ino != 0
      requires Tidy(a) && Shaped(b) && cache[m].ino !in a.live && b.live == a.live + {cache[m].ino}
      requires cache[m].ino in b.itab && b.itab[cache[m].ino].zone == NO_ZONES && cache[m].ino != d
      requires OthersSame(b, img, d) && img.live == b.live
      requires Tree() == TreeOf(b) == TreeOf(a)[cache[m].ino := Newborn(kind)]
      modifies this`disk, this`img, cache
      ensures Valid() && img.live == a.live && img.sb == old(img).sb && Tree() == TreeOf(a)
      ensures FreeZones(img) == FreeZones(old(img)) && Lost(img) == Lost(old(img))
      ensures cache[..] == old(cache[..])[m := old(cache[m]).(ino := 0)]
    {
      hide Represents, InodeOnDisk, OwnedByNobody, Owned, ByteAt, Contents, Zone, TreeOf, Entries, Lost, OthersSame;
      ghost var c, slots, i := img, cache[..], cache[m].ino;
      FreeInode(m);
      StillEmpty(b, c, d, i);
      assert c.live == b.live;
      RolledBack(a, b, c, img, i, Newborn(kind));
      SlotFreed(c, img, slots, m);
    }

    /** Creates a file or a directory called `name`. What happens is decided by the
        state before the call: nothing at all, a new node with its name in the
        parent, or a directory whose name is there but whose "." found no room. A new
        node takes one slot, and zones as told by ZonesFor. */
    method Create(s: nat, name: seq<byte>, kind: Kind) returns (out: Option<nat>)
      requires Valid() && s < MAX_INODES && cache[s].ino != 0 && 0 !in name
      modifies this`disk, this`img, cache
      ensures Valid()
      ensures Enabled(old(Tree()), Outcome(old(img), old(cache[..]), s, name, kind), old(img).sb.ninodes)
      ensures Tree() == Apply(old(Tree()), Outcome(old(img), old(cache[..]), s, name, kind), old(img).sb.ninodes)
      ensures Reported(Outcome(old(img), old(cache[..]), s, name, kind), out, cache[..])
      ensures Outcome(old(img), old(cache[..]), s, name, kind).Nothing? ==>
        && img.live == old(img).live
        && AtMostLoaded(old(cache[..]), cache[..], LookupIno(old(img), old(cache[s]).ino, name))
      ensures !Outcome(old(img), old(cache[..]), s, name, kind).Nothing? ==>
        SlotFilled(old(cache[..]), cache[..], FirstUnused(old(img).live, 1, old(img).sb.ninodes))
      ensures FreeZones(img) == FreeZones(old(img)) - ZonesFor(old(img), old(cache[..]), s, name, kind)
      ensures Loses(old(img), img, CreateSpills(old(img), old(cache[..]), s, name, kind))
    {
      hide Represents, InodeOnDisk, OwnedByNobody, Owned, ByteAt, Contents, Zone, TreeOf, Entries, AddEntry;
      hide Lost, FreeZones;
      hide OthersSame, Apply, Cost, InsertBlock, LookupIno, DirsSound, CleanTail;
      hide Trim, KindOfMode, WithDots, MoreLinks, Enabled, FirstUnused, FindName, Coherent;
      ghost var a, t, before, d := img, Tree(), cache[..], cache[s].ino;
      OutcomeEnabled(a, before, s, name, kind);
      EventSteps(t, Outcome(a, before, s, name, kind), sb.ninodes);
      var m := BeginCreate(s, name, kind);
      if m.None? {
        return None;
      }
      ghost var b, i := img, cache[m.value].ino;
      BegunSees(a, b, before, cache[..], m.value, kind, d);
      var r := InsertEntry(s, name, cache[m.value].ino);
      if r < 0 {
        Undo(m.value, a, b, d, kind);
        return None;
      }
      if kind == DirKind {
        StillEmpty(b, img, d, i);
        r := MakeDots(m.value, s);
        if r < 0 {
          return None;
        }
      }
      return m;
    }
  }
}
