/** Which zone of the drive holds which part of which file: the zone map of an
    inode, exclusive ownership of zones, and the contents they add up to. */
module MinixZones {
  import opened Bytes
  import opened MinixFormat
  import opened MinixImage

  const SINGLE_LIMIT: nat := DIRECT_ZONES + PTRS_PER_BLOCK
  const ZONE_LIMIT: nat := SINGLE_LIMIT + PTRS_PER_BLOCK * PTRS_PER_BLOCK

  /** The places of an inode that can hold a zone: logical zone `n` of the file,
      the indirect and the double indirect block, and the pointer blocks the
      latter lists. */
  datatype Role = Leaf(n: nat) | Single | Double | Middle(k: nat)

  /** Pointer `k` of pointer block `z`; a missing block points nowhere. */
  function Follow(data: map<nat, Block>, z: nat, k: nat): nat {
    if z in data && k < PTRS_PER_BLOCK then Pointer(data[z], k) else 0
  }

  /** The zone an inode with zone numbers `zone` keeps at a role; 0 is a hole. */
  function ZoneAt(data: map<nat, Block>, zone: Zones, r: Role): nat {
    match r
    case Single => zone[SINGLE_SLOT]
    case Double => zone[DOUBLE_SLOT]
    case Middle(k) => Follow(data, zone[DOUBLE_SLOT], k)
    case Leaf(n) =>
      if n < DIRECT_ZONES then zone[n]
      else if n < SINGLE_LIMIT then Follow(data, zone[SINGLE_SLOT], n - DIRECT_ZONES)
      else if n < ZONE_LIMIT then
        Follow(data, Follow(data, zone[DOUBLE_SLOT], (n - SINGLE_LIMIT) / PTRS_PER_BLOCK),
               (n - SINGLE_LIMIT) % PTRS_PER_BLOCK)
      else 0
  }

  function Zone(img: Img, i: nat, r: Role): nat {
    if i in img.itab && HasZones(img.itab[i].mode) then ZoneAt(img.data, img.itab[i].zone, r) else 0
  }

  /** Every zone of a live inode is a data zone whose bit is on, and it has one
      owner and one role. */
  ghost predicate Owned(img: Img) {
    && (forall i, r {:trigger Zone(img, i, r)} ::
          i in img.live && Zone(img, i, r) != 0 ==> Zone(img, i, r) in img.taken)
    && (forall i, r, j, s {:trigger Zone(img, i, r), Zone(img, j, s)} ::
          i in img.live && j in img.live && Zone(img, i, r) != 0 && Zone(img, i, r) == Zone(img, j, s)
          ==> i == j && r == s)
  }

  ghost predicate OwnedByNobody(img: Img, z: nat) {
    forall i, r {:trigger Zone(img, i, r)} :: i in img.live ==> Zone(img, i, r) != z
  }

  /** The zones whose bit is on although no live inode holds them: what fsck finds
      when it compares the bitmap with the zones in use. */
  ghost function Lost(img: Img): set<nat> {
    set z | z in img.taken && OwnedByNobody(img, z)
  }

  /** From `a` to `b` one more zone was lost, or none. */
  ghost predicate Loses(a: Img, b: Img, one: bool) {
    if one then exists z :: z in a.data && z !in Lost(a) && Lost(b) == Lost(a) + {z}
    else Lost(b) == Lost(a)
  }

  ghost predicate Sane(img: Img) {
    Shaped(img) && Owned(img)
  }

  // ---- contents --------------------------------------------------------------

  /** Byte `p` of inode `i`, whatever its size says: holes read as zeros. */
  function ByteAt(img: Img, i: nat, p: nat): byte {
    var z := Zone(img, i, Leaf(p / BLOCK_SIZE));
    if z in img.data then img.data[z][p % BLOCK_SIZE] else 0
  }

  function Contents(img: Img, i: nat): (r: seq<byte>)
    requires i in img.itab
    ensures |r| == img.itab[i].size
    ensures forall p :: 0 <= p < |r| ==> r[p] == ByteAt(img, i, p)
  {
    seq(img.itab[i].size, p requires 0 <= p => ByteAt(img, i, p))
  }

  /** Nothing but zeros past the end of a file. */
  ghost predicate CleanTail(img: Img, i: nat) {
    i in img.itab ==> forall p: nat :: p >= img.itab[i].size ==> ByteAt(img, i, p) == 0
  }

  /** Same zones at the same places. */
  ghost predicate SameMap(a: Img, b: Img, i: nat) {
    forall r {:trigger Zone(b, i, r)} :: Zone(b, i, r) == Zone(a, i, r)
  }

  /** Same bytes everywhere, past the end included. */
  ghost predicate SameBytes(a: Img, b: Img, i: nat) {
    forall p: nat {:trigger ByteAt(b, i, p)} :: ByteAt(b, i, p) == ByteAt(a, i, p)
  }

  // ---- what one block write does to the zone maps ------------------------------

  /** Writing a zone that holds no pointers leaves every zone map alone. */
  lemma PlainWriteKeepsMaps(img: Img, z: nat, b: Block, j: nat, s: Role)
    requires Shaped(img) && z in img.data && j in img.live
    requires Zone(img, j, Single) != z && Zone(img, j, Double) != z
    requires forall k :: Zone(img, j, Middle(k)) != z
    ensures Zone(img.(data := img.data[z := b]), j, s) == Zone(img, j, s)
  {
    if s.Leaf? && SINGLE_LIMIT <= s.n < ZONE_LIMIT {
      var k := (s.n - SINGLE_LIMIT) / PTRS_PER_BLOCK;
      assert Zone(img, j, Middle(k)) != z;
    }
  }

  /** Overwriting a zone that is a file's data: maps stay, and the file's bytes
      change in that zone only. */
  lemma DataWrite(img: Img, i: nat, n: nat, b: Block)
    requires Sane(img) && i in img.live && Zone(img, i, Leaf(n)) != 0
    ensures Zone(img, i, Leaf(n)) in img.data
    ensures var img' := img.(data := img.data[Zone(img, i, Leaf(n)) := b]);
      && Sane(img')
      && (forall j :: j in img.live ==> SameMap(img, img', j))
      && (forall j :: j in img.live && j != i ==> SameBytes(img, img', j))
      && (forall p: nat {:trigger ByteAt(img', i, p)} ::
            ByteAt(img', i, p) == if p / BLOCK_SIZE == n then b[p % BLOCK_SIZE] else ByteAt(img, i, p))
  {
    var z := Zone(img, i, Leaf(n));
    var img' := img.(data := img.data[z := b]);
    forall j, s | j in img.live
      ensures Zone(img', j, s) == Zone(img, j, s)
    {
      PlainWriteKeepsMaps(img, z, b, j, s);
    }
    forall j, p: nat | j in img.live
      ensures ByteAt(img', j, p)
        == if j == i && p / BLOCK_SIZE == n then b[p % BLOCK_SIZE] else ByteAt(img, j, p)
    {
      assert Zone(img', j, Leaf(p / BLOCK_SIZE)) == Zone(img, j, Leaf(p / BLOCK_SIZE));
    }
  }

  lemma PointersDiffer(a: Block, b: Block) returns (k: nat)
    requires a != b
    ensures k < PTRS_PER_BLOCK && Pointer(a, k) != Pointer(b, k)
  {
    var q :| 0 <= q < BLOCK_SIZE && a[q] != b[q];
    k := q / 2;
    assert q == 2 * k || q == 2 * k + 1;
  }

  /** A write to a block of the data area behind the back of the file system, as one
      through a device node is: all files keep their zones and their bytes exactly if the
      block was nobody's, or the write changed nothing. */
  lemma StrayWrite(img: Img, z: nat, b: Block)
    requires Sane(img) && z in img.data
    ensures var img' := img.(data := img.data[z := b]);
      (forall j :: j in img.live ==> SameMap(img, img', j) && SameBytes(img, img', j))
      <==> OwnedByNobody(img, z) || b == img.data[z]
  {
    var img' := img.(data := img.data[z := b]);
    if b == img.data[z] {
      assert img' == img;
    } else if OwnedByNobody(img, z) {
      forall j, s | j in img.live
        ensures Zone(img', j, s) == Zone(img, j, s)
      {
        assert forall k :: Zone(img, j, Middle(k)) != z;
        assert Zone(img, j, Single) != z && Zone(img, j, Double) != z;
        PlainWriteKeepsMaps(img, z, b, j, s);
      }
      forall j, p: nat | j in img.live
        ensures ByteAt(img', j, p) == ByteAt(img, j, p)
      {
        assert Zone(img', j, Leaf(p / BLOCK_SIZE)) == Zone(img, j, Leaf(p / BLOCK_SIZE)) != z;
      }
    } else {
      var j, r :| j in img.live && Zone(img, j, r) == z;
      StrayHits(img, z, b, j, r);
    }
  }

  lemma StrayHits(img: Img, z: nat, b: Block, j: nat, r: Role)
    requires Sane(img) && z in img.data && b != img.data[z] && j in img.live && Zone(img, j, r) == z
    ensures var img' := img.(data := img.data[z := b]);
      !SameMap(img, img', j) || !SameBytes(img, img', j)
  {
    var img' := img.(data := img.data[z := b]);
    assert z != 0;
    match r
    case Leaf(n) =>
      var q :| 0 <= q < BLOCK_SIZE && b[q] != img.data[z][q];
      var p := n * BLOCK_SIZE + q;
      assert p / BLOCK_SIZE == n && p % BLOCK_SIZE == q;
      assert Zone(img', j, Leaf(n)) == z ==> ByteAt(img', j, p) != ByteAt(img, j, p);
    case Single =>
      var k := PointersDiffer(b, img.data[z]);
      assert Zone(img', j, Leaf(DIRECT_ZONES + k)) != Zone(img, j, Leaf(DIRECT_ZONES + k));
    case Double =>
      var k := PointersDiffer(b, img.data[z]);
      assert Zone(img', j, Middle(k)) != Zone(img, j, Middle(k));
    case Middle(m) =>
      var k := PointersDiffer(b, img.data[z]);
      assert Zone(img, j, Double) != z && m < PTRS_PER_BLOCK;
      var n := SINGLE_LIMIT + m * PTRS_PER_BLOCK + k;
      assert (n - SINGLE_LIMIT) / PTRS_PER_BLOCK == m && (n - SINGLE_LIMIT) % PTRS_PER_BLOCK == k && n < ZONE_LIMIT;
      assert Zone(img', j, Leaf(n)) != Zone(img, j, Leaf(n));
  }

  /** Taking and clearing a free zone changes no map and no file. */
  lemma TakeZone(img: Img, z: nat)
    requires Sane(img) && z in img.data && z !in img.taken
    ensures var img' := img.(taken := img.taken + {z}, data := img.data[z := ZeroBlock()]);
      && Sane(img')
      && OwnedByNobody(img', z)
      && FreeZones(img') == FreeZones(img) - 1
      && (forall j :: j in img.live ==> SameMap(img, img', j) && SameBytes(img, img', j))
  {
    var img' := img.(taken := img.taken + {z}, data := img.data[z := ZeroBlock()]);
    forall j, s | j in img.live
      ensures Zone(img', j, s) == Zone(img, j, s) != z
    {
      assert forall k :: Zone(img, j, Middle(k)) != z;
      assert Zone(img, j, Single) != z && Zone(img, j, Double) != z && Zone(img, j, s) != z;
      PlainWriteKeepsMaps(img, z, ZeroBlock(), j, s);
      assert img'.itab == img.(data := img.data[z := ZeroBlock()]).itab;
    }
    forall j, p: nat | j in img.live
      ensures ByteAt(img', j, p) == ByteAt(img, j, p)
    {
      assert Zone(img', j, Leaf(p / BLOCK_SIZE)) == Zone(img, j, Leaf(p / BLOCK_SIZE));
    }
    assert img'.data.Keys == img.data.Keys;
    assert img'.data.Keys - img'.taken == (img.data.Keys - img.taken) - {z};
  }

  /** The image with slot `k` of the zone list of inode `i` set to `z`. */
  function WithSlot(img: Img, i: nat, k: nat, z: u16): Img
    requires i in img.itab && k < 9
  {
    img.(itab := img.itab[i := img.itab[i].(zone := img.itab[i].zone[k := z])])
  }

  /** Get after set, direct zones: the zone asked for is there, every other place
      of every file is as before. */
  lemma SetDirect(img: Img, i: nat, n: nat, z: u16, j: nat, s: Role)
    requires i in img.itab && HasZones(img.itab[i].mode) && n < DIRECT_ZONES
    ensures Zone(WithSlot(img, i, n, z), j, s) == if j == i && s == Leaf(n) then z else Zone(img, j, s)
  {
  }

  /** An empty indirect block is invisible: it appears in its own role and every
      logical zone stays where it was. */
  lemma SetSingle(img: Img, i: nat, z: u16, j: nat, s: Role)
    requires i in img.itab && HasZones(img.itab[i].mode) && img.itab[i].zone[SINGLE_SLOT] == 0 && 0 !in img.data
    requires z in img.data && img.data[z] == ZeroBlock()
    ensures Zone(WithSlot(img, i, SINGLE_SLOT, z), j, s) == if j == i && s == Single then z else Zone(img, j, s)
  {
    if j == i && s.Leaf? && DIRECT_ZONES <= s.n < SINGLE_LIMIT {
      assert Pointer(ZeroBlock(), s.n - DIRECT_ZONES) == 0;
    }
  }

  /** Get after set, behind the indirect block. */
  lemma SetIndirect(img: Img, i: nat, n: nat, z: u16, j: nat, s: Role)
    requires Sane(img) && i in img.live && j in img.live
    requires DIRECT_ZONES <= n < SINGLE_LIMIT && Zone(img, i, Single) != 0
    ensures Zone(img, i, Single) in img.data
    ensures var ind := Zone(img, i, Single);
      var img' := img.(data := img.data[ind := PutPointer(img.data[ind], n - DIRECT_ZONES, z)]);
      Zone(img', j, s) == if j == i && s == Leaf(n) then z else Zone(img, j, s)
  {
    var ind := Zone(img, i, Single);
    var b := PutPointer(img.data[ind], n - DIRECT_ZONES, z);
    if j != i {
      PlainWriteKeepsMaps(img, ind, b, j, s);
    } else {
      assert Zone(img, i, Double) != ind;
      if s.Leaf? {
        if DIRECT_ZONES <= s.n < SINGLE_LIMIT {
          PointerPut(img.data[ind], n - DIRECT_ZONES, z, s.n - DIRECT_ZONES);
        } else if SINGLE_LIMIT <= s.n < ZONE_LIMIT {
          assert Zone(img, i, Middle((s.n - SINGLE_LIMIT) / PTRS_PER_BLOCK)) != ind;
        }
      }
    }
  }

  // ---- ownership -------------------------------------------------------------

  /** Handing a zone that nobody owns to one place keeps ownership exclusive. */
  lemma HandOver(img: Img, img': Img, i: nat, r: Role, z: nat)
    requires Sane(img) && OwnedByNobody(img, z) && z in img.taken && i in img.live
    requires Shaped(img') && img'.live == img.live && img'.taken == img.taken
    requires forall j, s {:trigger Zone(img', j, s)} :: j in img.live ==>
      Zone(img', j, s) == if j == i && s == r then z else Zone(img, j, s)
    ensures Sane(img')
  {
    forall j, s | j in img.live && Zone(img', j, s) != 0
      ensures Zone(img', j, s) in img.taken
    {
      var y := Zone(img, j, s);
    }
    forall j, s, k, t | j in img.live && k in img.live && Zone(img', j, s) != 0 && Zone(img', j, s) == Zone(img', k, t)
      ensures j == k && s == t
    {
      var y, y' := Zone(img, j, s), Zone(img, k, t);
    }
  }

  /** Putting a fresh, empty zone where a file had a hole changes no byte. */
  lemma FillHole(img: Img, img': Img, i: nat, n: nat, z: nat)
    requires Shaped(img) && i in img.live && z in img.data && img.data[z] == ZeroBlock()
    requires Zone(img, i, Leaf(n)) == 0
    requires forall y :: y in img.data && y in img'.data && (exists p: nat :: Zone(img, i, Leaf(p)) == y) ==>
      img'.data[y] == img.data[y]
    requires img'.data.Keys == img.data.Keys && img'.data[z] == ZeroBlock()
    requires forall s {:trigger Zone(img', i, s)} ::
      Zone(img', i, s) == if s == Leaf(n) then z else Zone(img, i, s)
    ensures SameBytes(img, img', i)
  {
    forall p: nat
      ensures ByteAt(img', i, p) == ByteAt(img, i, p)
    {
      var y := Zone(img, i, Leaf(p / BLOCK_SIZE));
      assert Zone(img', i, Leaf(p / BLOCK_SIZE)) == if p / BLOCK_SIZE == n then z else y;
    }
  }

  // ---- lost zones --------------------------------------------------------------

  /** As long as the places of live inodes and the bitmap stay, nothing is lost or
      found. */
  lemma SameLost(a: Img, b: Img)
    requires b.live == a.live && b.taken == a.taken
    requires forall j :: j in a.live ==> SameMap(a, b, j)
    ensures Lost(b) == Lost(a)
  {
    forall z
      ensures OwnedByNobody(b, z) <==> OwnedByNobody(a, z)
    {
      if !OwnedByNobody(a, z) {
        var j, r :| j in a.live && Zone(a, j, r) == z;
        assert SameMap(a, b, j) && Zone(b, j, r) == z;
      }
      if !OwnedByNobody(b, z) {
        var j, r :| j in b.live && Zone(b, j, r) == z;
        assert SameMap(a, b, j) && Zone(a, j, r) == z;
      }
    }
  }

  /** A zone just taken is lost until it is handed over. */
  lemma TakenIsLost(a: Img, b: Img, z: nat)
    requires b.live == a.live && b.taken == a.taken + {z} && OwnedByNobody(b, z)
    requires forall j :: j in a.live ==> SameMap(a, b, j)
    ensures Lost(b) == Lost(a) + {z}
  {
    var c := b.(taken := a.taken);
    forall j, r
      ensures Zone(c, j, r) == Zone(b, j, r)
    {
    }
    SameLost(a, c);
    forall y
      ensures OwnedByNobody(c, y) <==> OwnedByNobody(b, y)
    {
      if !OwnedByNobody(b, y) {
        var j, r :| j in b.live && Zone(b, j, r) == y;
        assert Zone(c, j, r) == y;
      }
    }
  }

  /** A zone that reaches an empty place is found; a pointer block that was taken
      for it is not lost either. */
  lemma HandedOver(a: Img, b: Img, i: nat, r: Role, z: nat, grown: set<nat>)
    requires b.live == a.live && i in a.live && b.taken == a.taken + grown && 0 !in b.taken && z in b.taken
    requires Zone(a, i, r) == 0 && Zone(b, i, r) == z
    requires forall j, s {:trigger Zone(b, j, s)} :: j in a.live && (j != i || s != r) ==>
      Zone(b, j, s) == Zone(a, j, s) || (Zone(a, j, s) == 0 && Zone(b, j, s) in grown)
    requires forall y :: y in grown ==> y !in a.taken && !OwnedByNobody(b, y)
    ensures Lost(b) == Lost(a) - {z}
  {
    forall y | y in b.taken
      ensures y in Lost(b) <==> y in Lost(a) && y != z
    {
      if y in a.taken {
        if y != z && !OwnedByNobody(a, y) {
          var j, s :| j in a.live && Zone(a, j, s) == y;
          assert Zone(b, j, s) == y;
        }
        if y != z && !OwnedByNobody(b, y) {
          var j, s :| j in b.live && Zone(b, j, s) == y;
          assert Zone(a, j, s) == y;
        }
      }
    }
  }
}
