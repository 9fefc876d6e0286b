/** The on-disk format of minix version 1: superblock, inode table entries,
    pointer blocks, bitmap blocks and directory entries, each as the bytes of a
    1024-byte block. */
module MinixFormat {
  import opened Bytes

  const BLOCK_SIZE: nat := 1024
  const MINIX_MAGIC: u16 := 0x137F
  const ROOT_INO: nat := 1
  const INODE_SIZE: nat := 32
  const INODES_PER_BLOCK: nat := 32
  const DIRECT_ZONES: nat := 7
  const SINGLE_SLOT: nat := 7
  const DOUBLE_SLOT: nat := 8
  const PTRS_PER_BLOCK: nat := 512
  const BITS_PER_BLOCK: nat := 8192
  const DIRENT_SIZE: nat := 16
  const NAME_MAX: nat := 14
  const IMAP_BLOCK: nat := 2

  type Block = b: seq<byte> | |b| == BLOCK_SIZE witness seq(BLOCK_SIZE, _ => 0)

  function ZeroBlock(): Block { seq(BLOCK_SIZE, _ => 0) }

  // ---- superblock ----------------------------------------------------------

  datatype Super = Super(ninodes: u16, nzones: u16, imapBlocks: u16, zmapBlocks: u16,
                         firstDataZone: u16, logZoneSize: u16, magic: u16)
  {
    /** Block where the zone bitmap starts. */
    function ZmapBlock(): nat { 2 + imapBlocks }

    /** Block where the inode table starts. */
    function InodeBlock(): nat { 2 + imapBlocks + zmapBlocks }

    /** Highest bit of the zone bitmap that stands for a zone. */
    function ZoneBits(): nat {
      if nzones <= firstDataZone then 0 else nzones - firstDataZone
    }

    /** The zone that bit `bit` of the zone bitmap stands for. */
    function ZoneOfBit(bit: nat): nat
      requires bit > 0
    {
      bit + firstDataZone - 1
    }

    /** What the mount code takes on trust: the bitmaps are long enough for their
        ranges, the data zones start past the inode table, and the zones lie
        within a drive of `blocks` blocks. */
    predicate Sound(blocks: nat) {
      && magic == MINIX_MAGIC
      && logZoneSize == 0
      && 1 <= ninodes < imapBlocks * BITS_PER_BLOCK
      && ZoneBits() < zmapBlocks * BITS_PER_BLOCK
      && InodeBlock() + (ninodes - 1) / INODES_PER_BLOCK < firstDataZone
      && firstDataZone <= nzones <= blocks
    }
  }

  function SuperOf(b: Block): Super {
    Super(U16At(b, 0), U16At(b, 2), U16At(b, 4), U16At(b, 6), U16At(b, 8), U16At(b, 10), U16At(b, 16))
  }

  // ---- inode types ---------------------------------------------------------

  datatype Kind = NoKind | FileKind | DirKind | CharKind | BlockKind

  /** `mode & 0170000`, by cases. */
  function KindOfMode(mode: u16): Kind {
    match mode / 0x1000
    case 4 => DirKind
    case 8 => FileKind
    case 2 => CharKind
    case _ => NoKind
  }

  /** Files, directories and symbolic links keep zones; where they do, a device node keeps
      its number, and other types nothing. */
  predicate HasZones(mode: u16) {
    var t := mode / 0x1000;
    t == 4 || t == 8 || t == 10
  }

  function ModeOfKind(kind: Kind): u16 {
    match kind
    case DirKind => 0x4000
    case FileKind => 0x8000
    case CharKind => 0x2000
    case _ => 0
  }

  /** The mode a new file (0644) or directory (0755) is born with. */
  function BirthMode(kind: Kind): u16 {
    ModeOfKind(kind) + if kind == DirKind then 0x1ED else 0x1A4
  }

  lemma BirthModeKind(kind: Kind)
    ensures KindOfMode(ModeOfKind(kind)) == if kind == BlockKind then NoKind else kind
    ensures kind == FileKind || kind == DirKind ==> KindOfMode(BirthMode(kind)) == kind
  {
  }

  // ---- inodes --------------------------------------------------------------

  type Zones = z: seq<u16> | |z| == 9 witness [0, 0, 0, 0, 0, 0, 0, 0, 0]

  const NO_ZONES: Zones := [0, 0, 0, 0, 0, 0, 0, 0, 0]

  datatype Inode = Inode(mode: u16, uid: u16, size: u32, time: u32, gid: byte, nlinks: byte, zone: Zones)

  const ZERO_INODE: Inode := Inode(0, 0, 0, 0, 0, 0, NO_ZONES)

  function InodeOf(b: Block, at: nat): Inode
    requires at + INODE_SIZE <= BLOCK_SIZE
  {
    Inode(U16At(b, at), U16At(b, at + 2), U32At(b, at + 4), U32At(b, at + 8), b[at + 12], b[at + 13],
          seq(9, k requires 0 <= k < 9 => U16At(b, at + 14 + 2 * k)))
  }

  function Word(v: u16): seq<byte> { [Lo(v), Hi(v)] }

  function Long(v: u32): seq<byte> { Word(v % 0x1_0000) + Word(v / 0x1_0000) }

  function InodeHead(d: Inode): (r: seq<byte>)
    ensures |r| == 14
  {
    Word(d.mode) + Word(d.uid) + Long(d.size) + Long(d.time) + [d.gid, d.nlinks]
  }

  function ZoneWords(zone: Zones): (r: seq<byte>)
    ensures |r| == 18
  {
    seq(18, i requires 0 <= i < 18 => (if i % 2 == 0 then Lo(zone[i / 2]) else Hi(zone[i / 2])))
  }

  function InodeBytes(d: Inode): (r: seq<byte>)
    ensures |r| == INODE_SIZE
  {
    InodeHead(d) + ZoneWords(d.zone)
  }

  lemma SliceOfSlice<T>(s: seq<T>, lo: nat, hi: nat, i: nat, j: nat)
    requires lo <= hi <= |s| && i <= j <= hi - lo
    ensures s[lo..hi][i..j] == s[lo + i..lo + j]
  {
    assert forall k :: 0 <= k < j - i ==> s[lo..hi][i..j][k] == s[lo..hi][i + k] == s[lo + i..lo + j][k];
  }

  lemma WordAt(v: u16, s: seq<byte>, at: nat)
    requires at + 2 <= |s| && s[at..at + 2] == Word(v)
    ensures U16At(s, at) == v
  {
    var e := s[at..at + 2];
    assert s[at] == e[0] && s[at + 1] == e[1];
  }

  lemma LongAt(v: u32, s: seq<byte>, at: nat)
    requires at + 4 <= |s| && s[at..at + 4] == Long(v)
    ensures U32At(s, at) == v
  {
    var e := s[at..at + 4];
    assert s[at..at + 2] == e[..2];
    assert s[at + 2..at + 4] == e[2..];
    WordAt(v % 0x1_0000, s, at);
    WordAt(v / 0x1_0000, s, at + 2);
  }

  /** An inode written into the table is read back as it was. */
  lemma InodeRoundTrip(b: Block, at: nat, d: Inode)
    requires at + INODE_SIZE <= BLOCK_SIZE
    ensures InodeOf(Patch(b, at, InodeBytes(d)), at) == d
  {
    var r := Patch(b, at, InodeBytes(d));
    assert r[at..at + INODE_SIZE] == InodeBytes(d);
    InodeRead(r, at, d);
  }

  lemma InodeRead(r: Block, at: nat, d: Inode)
    requires at + INODE_SIZE <= BLOCK_SIZE
    requires r[at..at + INODE_SIZE] == InodeBytes(d)
    ensures InodeOf(r, at) == d
  {
    var e := InodeBytes(d);
    assert e[0..14] == InodeHead(d);
    SliceOfSlice(r, at, at + INODE_SIZE, 0, 14);
    HeadRoundTrip(r, at, d);
    assert e[14..32] == ZoneWords(d.zone);
    SliceOfSlice(r, at, at + INODE_SIZE, 14, 32);
    ZonesRoundTrip(r, at, d);
    assert InodeOf(r, at).zone == d.zone;
  }

  lemma HeadRoundTrip(r: Block, at: nat, d: Inode)
    requires at + INODE_SIZE <= BLOCK_SIZE
    requires r[at..at + 14] == InodeHead(d)
    ensures InodeOf(r, at).(zone := d.zone) == d
  {
    SliceOfSlice(r, at, at + 14, 0, 2);
    SliceOfSlice(r, at, at + 14, 2, 4);
    SliceOfSlice(r, at, at + 14, 4, 8);
    SliceOfSlice(r, at, at + 14, 8, 12);
    var e := InodeHead(d);
    assert e[0..2] == Word(d.mode) && e[2..4] == Word(d.uid);
    assert e[4..8] == Long(d.size) && e[8..12] == Long(d.time);
    assert r[at + 12] == r[at..at + 14][12] == e[12] && r[at + 13] == r[at..at + 14][13] == e[13];
    WordAt(d.mode, r, at);
    WordAt(d.uid, r, at + 2);
    LongAt(d.size, r, at + 4);
    LongAt(d.time, r, at + 8);
  }

  lemma ZonesRoundTrip(r: Block, at: nat, d: Inode)
    requires at + INODE_SIZE <= BLOCK_SIZE
    requires r[at + 14..at + 32] == ZoneWords(d.zone)
    ensures forall k :: 0 <= k < 9 ==> U16At(r, at + 14 + 2 * k) == d.zone[k]
  {
    var w := ZoneWords(d.zone);
    forall k | 0 <= k < 9
      ensures U16At(r, at + 14 + 2 * k) == d.zone[k]
    {
      SliceOfSlice(r, at + 14, at + 32, 2 * k, 2 * k + 2);
      assert w[2 * k..2 * k + 2] == Word(d.zone[k]);
      WordAt(d.zone[k], r, at + 14 + 2 * k);
    }
  }

  /** Writing the 32 bytes of one inode leaves every other inode of the block alone. */
  lemma InodeElsewhere(b: Block, at: nat, t: seq<byte>, other: nat)
    requires at + |t| <= BLOCK_SIZE && other + INODE_SIZE <= BLOCK_SIZE
    requires other + INODE_SIZE <= at || at + |t| <= other
    ensures InodeOf(Patch(b, at, t), other) == InodeOf(b, other)
  {
    var r := Patch(b, at, t);
    assert forall k :: other <= k < other + INODE_SIZE ==> r[k] == b[k];
  }

  // ---- pointer blocks ------------------------------------------------------

  function Pointer(b: Block, k: nat): u16
    requires k < PTRS_PER_BLOCK
  {
    U16At(b, 2 * k)
  }

  function PutPointer(b: Block, k: nat, z: u16): Block
    requires k < PTRS_PER_BLOCK
  {
    Patch(b, 2 * k, Word(z))
  }

  lemma PointerPut(b: Block, k: nat, z: u16, j: nat)
    requires k < PTRS_PER_BLOCK && j < PTRS_PER_BLOCK
    ensures Pointer(PutPointer(b, k, z), j) == if j == k then z else Pointer(b, j)
  {
  }

  // ---- bitmap blocks -------------------------------------------------------

  predicate BlockBit(b: Block, k: nat)
    requires k < BITS_PER_BLOCK
  {
    BitOf(b[k / 8], k % 8)
  }

  function BlockOn(b: Block, k: nat): Block
    requires k < BITS_PER_BLOCK
  {
    ByteWidth();
    b[k / 8 := BitOn(b[k / 8], k % 8, 8)]
  }

  function BlockOff(b: Block, k: nat): Block
    requires k < BITS_PER_BLOCK
  {
    b[k / 8 := BitOff(b[k / 8], k % 8)]
  }

  lemma BlockOnBit(b: Block, k: nat, j: nat)
    requires k < BITS_PER_BLOCK && j < BITS_PER_BLOCK
    ensures BlockBit(BlockOn(b, k), j) <==> j == k || BlockBit(b, j)
  {
    ByteWidth();
    BitOnBit(b[k / 8], k % 8, 8, j % 8);
  }

  lemma BlockOffBit(b: Block, k: nat, j: nat)
    requires k < BITS_PER_BLOCK && j < BITS_PER_BLOCK
    ensures BlockBit(BlockOff(b, k), j) <==> j != k && BlockBit(b, j)
  {
    BitOffBit(b[k / 8], k % 8, j % 8);
  }

  /** Clearing a bit that was just set restores the block byte for byte. */
  lemma BlockOffOn(b: Block, k: nat)
    requires k < BITS_PER_BLOCK && !BlockBit(b, k)
    ensures BlockOff(BlockOn(b, k), k) == b
  {
    ByteWidth();
    BitOffOn(b[k / 8], k % 8, 8);
  }

  // ---- directory entries ---------------------------------------------------

  datatype Dirent = Dirent(ino: u16, name: seq<byte>)

  /** A name field up to its terminator; 14 bytes long it has none. */
  function CutNul(s: seq<byte>): (r: seq<byte>)
    ensures |r| <= |s| && r == s[..|r|] && 0 !in r
    ensures |r| < |s| ==> s[|r|] == 0
  {
    if s == [] || s[0] == 0 then [] else [s[0]] + CutNul(s[1..])
  }

  function PadName(name: seq<byte>): (r: seq<byte>)
    ensures |r| == NAME_MAX
  {
    seq(NAME_MAX, i requires 0 <= i => (if i < |name| then name[i] else 0))
  }

  function DirentBytes(e: Dirent): (r: seq<byte>)
    ensures |r| == DIRENT_SIZE
  {
    Word(e.ino) + PadName(e.name)
  }

  function DirentOf(s: seq<byte>): Dirent
    requires |s| == DIRENT_SIZE
  {
    Dirent(U16At(s, 0), CutNul(s[2..]))
  }

  /** A name the directory format can hold: no NUL inside, at most 14 bytes. */
  predicate NameFits(name: seq<byte>) {
    0 !in name && 0 < |name| <= NAME_MAX
  }

  lemma {:induction false} CutNulUnique(s: seq<byte>, k: nat)
    requires k <= |s| && 0 !in s[..k] && (k < |s| ==> s[k] == 0)
    ensures CutNul(s) == s[..k]
  {
    if k > 0 {
      assert s[0] == s[..k][0];
      assert s[1..][..k - 1] == s[..k][1..];
      CutNulUnique(s[1..], k - 1);
    }
  }

  /** An entry written to a directory is read back as it was, a full 14-byte
      unterminated name included. */
  lemma DirentRoundTrip(e: Dirent)
    requires NameFits(e.name)
    ensures DirentOf(DirentBytes(e)) == e
  {
    var s := DirentBytes(e);
    assert s[0..2] == Word(e.ino);
    WordAt(e.ino, s, 0);
    var p := PadName(e.name);
    assert s[2..] == p;
    assert p[..|e.name|] == e.name;
    CutNulUnique(p, |e.name|);
  }
}
