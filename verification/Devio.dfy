/** A disk seen as a file of bytes: reads and writes of any length at any offset,
    made of whole-sector calls to a driver that may fail. */
module Devio {
  import opened Bytes

  const SECTOR_SIZE: nat := 512

  type Sector = s: seq<byte> | |s| == SECTOR_SIZE witness seq(SECTOR_SIZE, i => 0)

  /** The size an inode gets for a disk: a 32-bit product. */
  function DeviceSize(nsectors: u32): u32 {
    (nsectors * SECTOR_SIZE) % 0x1_0000_0000
  }

  /** The size is the capacity exactly below 4 GiB; every 4 GiB it starts from 0 again. */
  lemma DeviceSizeExact(nsectors: u32)
    ensures DeviceSize(nsectors) == nsectors * 512 <==> nsectors < 0x80_0000
    ensures DeviceSize(nsectors) == nsectors * 512 - nsectors / 0x80_0000 * 0x1_0000_0000
    ensures DeviceSize(0x80_0000) == 0
  {
  }

  /** Where a byte of the disk lies: its sector, and its place there. */
  function Lba(pos: nat): nat { pos / SECTOR_SIZE }

  function Skip(pos: nat): (k: nat)
    ensures k < SECTOR_SIZE
  {
    pos % SECTOR_SIZE
  }

  /** The disk as one flat array of bytes. */
  function Flat(sectors: seq<Sector>): (r: seq<byte>)
    ensures |r| == |sectors| * SECTOR_SIZE
    ensures forall p :: 0 <= p < |r| ==> r[p] == sectors[Lba(p)][Skip(p)]
  {
    seq(|sectors| * SECTOR_SIZE, p requires 0 <= p < |sectors| * SECTOR_SIZE => sectors[Lba(p)][Skip(p)])
  }

  /** Byte by byte: sector after sector, 512 bytes each. */
  lemma FlatByte(sectors: seq<Sector>, lba: nat, k: nat)
    requires lba < |sectors| && k < 512
    ensures lba * 512 + k < |Flat(sectors)| && Flat(sectors)[lba * 512 + k] == sectors[lba][k]
  {
    Position(lba, k);
  }

  lemma Located(sectors: seq<Sector>, pos: nat)
    requires pos < |Flat(sectors)|
    ensures Lba(pos) < |sectors| && Lba(pos) <= pos
  {
  }

  /** One chunk: what is left of the sector at `pos`, or all that is left. If something
      is left behind it, that begins a sector. */
  lemma ChunkIs(pos: nat, left: nat, chunk: nat)
    requires left > 0 && chunk == if SECTOR_SIZE - Skip(pos) > left then left else SECTOR_SIZE - Skip(pos)
    ensures 0 < chunk <= left && Skip(pos) + chunk <= SECTOR_SIZE
    ensures chunk < left ==> Skip(pos + chunk) == 0
    ensures chunk < SECTOR_SIZE ==> PartOfSector(pos, left)
    ensures chunk < SECTOR_SIZE && Skip(pos) == 0 ==> chunk == left
  {
  }

  /** What comes next, with `left` bytes to go, does not fill a sector. */
  predicate PartOfSector(pos: nat, left: nat) { pos % 512 != 0 || left < 512 }

  /** How many bytes a transfer of `n` at `off` may touch: the end of the disk cuts
      it short. */
  function Clamped(size: u32, off: u32, n: u32): (r: u32)
    ensures r <= n && (r > 0 ==> off + r <= size)
    ensures r < n ==> off + r >= size
  {
    if off >= size then 0 else Min(n, size - off)
  }

  lemma Limits(sectors: seq<Sector>, off: u32, n: u32)
    requires |sectors| < 0x1_0000_0000
    ensures var size := DeviceSize(|sectors|);
      && size <= |Flat(sectors)|
      && Clamped(size, off, n) == if off >= size then 0 else if n > size - off then size - off else n
    ensures AsInt32(0) == 0
  {
  }

  lemma Position(lba: nat, k: nat)
    requires k < SECTOR_SIZE
    ensures Lba(lba * SECTOR_SIZE + k) == lba && Skip(lba * SECTOR_SIZE + k) == k
  {
  }

  /** Patching a sector is patching the flat disk. */
  lemma FlatPatch(sectors: seq<Sector>, pos: nat, t: seq<byte>)
    requires Skip(pos) + |t| <= SECTOR_SIZE && pos + |t| <= |Flat(sectors)| && Lba(pos) < |sectors|
    ensures Flat(sectors[Lba(pos) := Patch(sectors[Lba(pos)], Skip(pos), t)]) == Patch(Flat(sectors), pos, t)
  {
    var a := Flat(sectors[Lba(pos) := Patch(sectors[Lba(pos)], Skip(pos), t)]);
    var b := Patch(Flat(sectors), pos, t);
    forall p | 0 <= p < |a|
      ensures a[p] == b[p]
    {
      Position(Lba(p), Skip(p));
    }
  }

  function Piece(s: seq<byte>, at: nat, n: nat): (r: seq<byte>)
    requires at + n <= |s|
    ensures |r| == n
  {
    s[at..at + n]
  }

  /** A piece of one sector is a piece of the flat disk. */
  lemma FlatPiece(sectors: seq<Sector>, pos: nat, n: nat)
    requires Skip(pos) + n <= SECTOR_SIZE && pos + n <= |Flat(sectors)| && Lba(pos) < |sectors|
    ensures Piece(Flat(sectors), pos, n) == sectors[Lba(pos)][Skip(pos)..Skip(pos) + n]
  {
    var a, b := Piece(Flat(sectors), pos, n), sectors[Lba(pos)][Skip(pos)..Skip(pos) + n];
    forall k | 0 <= k < n
      ensures a[k] == b[k]
    {
      Position(Lba(pos), Skip(pos) + k);
    }
  }

  /** The first `moved` bytes of a read have arrived, the rest of the buffer is as
      it was. */
  predicate Read(now: seq<byte>, was: seq<byte>, flat: seq<byte>, off: nat, moved: nat)
    requires off + moved <= |flat| && moved <= |was|
  {
    now == Patch(was, 0, flat[off..off + moved])
  }

  lemma ReadNone(was: seq<byte>, flat: seq<byte>, off: nat)
    requires off <= |flat|
    ensures Read(was, was, flat, off, 0)
  {
  }

  lemma ReadMore(now: seq<byte>, was: seq<byte>, flat: seq<byte>, off: nat, moved: nat, chunk: nat)
    requires off + moved + chunk <= |flat| && moved + chunk <= |was| && Read(now, was, flat, off, moved)
    ensures |now| == |was|
    ensures Read(Patch(now, moved, Piece(flat, off + moved, chunk)), was, flat, off, moved + chunk)
  {
    PatchGrows(was, flat, off, off + moved, off + moved + chunk);
  }

  /** The first `moved` bytes of a write have landed, the rest of the disk is as it
      was. */
  predicate Written(now: seq<byte>, was: seq<byte>, off: nat, src: seq<byte>, moved: nat)
    requires moved <= |src| && off + moved <= |was|
  {
    now == Patch(was, off, src[..moved])
  }

  lemma WrittenNone(was: seq<byte>, off: nat, src: seq<byte>)
    requires off <= |was|
    ensures Written(was, was, off, src, 0)
  {
  }

  lemma WrittenMore(now: seq<byte>, was: seq<byte>, off: nat, src: seq<byte>, moved: nat, chunk: nat)
    requires moved + chunk <= |src| && off + moved + chunk <= |was| && Written(now, was, off, src, moved)
    ensures |now| == |was|
    ensures Written(Patch(now, off + moved, Piece(src, moved, chunk)), was, off, src, moved + chunk)
  {
  }

  /** What was written is read back, and a read elsewhere sees the disk as before. */
  lemma WrittenThenRead(now: seq<byte>, was: seq<byte>, off: nat, src: seq<byte>, k: nat,
                        buf': seq<byte>, buf: seq<byte>, at: nat, n: nat)
    requires k <= |src| && off + k <= |was| && Written(now, was, off, src, k)
    requires at + n <= |was| && n <= |buf| && Read(buf', buf, now, at, n)
    ensures at == off && n == k ==> buf'[..k] == src[..k]
    ensures at + n <= off || off + k <= at ==> Read(buf', buf, was, at, n)
  {
    if at + n <= off || off + k <= at {
      assert now[at..at + n] == was[at..at + n];
    }
    if at == off && n == k {
      assert now[off..off + k] == src[..k];
    }
  }

  /** A sector written whole does not depend on what was in the buffer. */
  lemma PatchWhole(s: seq<byte>, s': seq<byte>, at: nat, t: seq<byte>)
    requires |s| == |s'| && at + |t| <= |s|
    ensures |t| == |s| ==> Patch(s, at, t) == Patch(s', at, t)
  {
  }

  /** What the two ways to answer with a count come to. */
  lemma CountIs(k: u32)
    ensures k == 0 ==> PartialCount(k) == -1
    ensures 0 < k < 0x8000_0000 ==> PartialCount(k) == k && AsInt32(k) == k
  {
  }

  class Disk {
    var sectors: seq<Sector>
    /** Whether the driver knows how to read and how to write. */
    const canRead: bool
    const canWrite: bool
    /** Calls made to the driver, the reads among them, the failed ones among them;
        and which calls fail. */
    var calls: nat
    var fetched: nat
    var failed: nat
    const fails: int -> bool

    /** The driver reads one sector; a failing call transfers nothing. */
    method ReadSector(lba: u32, bounce: array<byte>) returns (count: int)
      requires lba < |sectors| && bounce.Length == SECTOR_SIZE
      modifies this`calls, this`fetched, this`failed, bounce
      ensures calls == old(calls) + 1 && fetched == old(fetched) + 1
      ensures count == if fails(old(calls)) then -1 else 1
      ensures failed == old(failed) + if count == 1 then 0 else 1
      ensures bounce[..] == if count == 1 then sectors[lba] else old(bounce[..])
    {
      calls := calls + 1;
      fetched := fetched + 1;
      if fails(calls - 1) {
        failed := failed + 1;
        return -1;
      }
      forall i | 0 <= i < SECTOR_SIZE {
        bounce[i] := sectors[lba][i];
      }
      return 1;
    }

    /** The driver writes one sector; a failing call changes nothing. */
    method WriteSector(lba: u32, bounce: array<byte>) returns (count: int)
      requires lba < |sectors| && bounce.Length == SECTOR_SIZE
      modifies this`calls, this`failed, this`sectors
      ensures calls == old(calls) + 1
      ensures count == if fails(old(calls)) then -1 else 1
      ensures failed == old(failed) + if count == 1 then 0 else 1
      ensures sectors == if count == 1 then old(sectors)[lba := bounce[..]] else old(sectors)
    {
      calls := calls + 1;
      if fails(calls - 1) {
        failed := failed + 1;
        return -1;
      }
      sectors := sectors[lba := bounce[..]];
      return 1;
    }

    /** One sector is read and the wanted piece of it copied out. */
    method ReadPiece(pos: u32, chunk: nat, bounce: array<byte>, dst: array<byte>, at: nat) returns (ok: bool)
      requires pos + chunk <= |Flat(sectors)| && Skip(pos) + chunk <= SECTOR_SIZE && 0 < chunk
      requires bounce.Length == SECTOR_SIZE && bounce != dst && at + chunk <= dst.Length
      modifies this`calls, this`fetched, this`failed, bounce, dst
      ensures failed == old(failed) + if ok then 0 else 1
      ensures dst[..] == if ok then Patch(old(dst[..]), at, Piece(Flat(sectors), pos, chunk)) else old(dst[..])
    {
      hide DeviceSize, Clamped, Flat, Lba, Skip, Piece, Patch, Read, Written, AsInt32, PartialCount;
      Located(sectors, pos);
      FlatPiece(sectors, pos, chunk);
      var count := ReadSector(Lba(pos), bounce);
      if count != 1 {
        return false;
      }
      Memcpy(dst, at, bounce[Skip(pos)..Skip(pos) + chunk]);
      return true;
    }

    /** One piece is stored: a sector it does not fill is read first. */
    method WritePiece(pos: u32, bounce: array<byte>, piece: seq<byte>) returns (ok: bool)
      requires pos + |piece| <= |Flat(sectors)| && Skip(pos) + |piece| <= SECTOR_SIZE && 0 < |piece|
      requires bounce.Length == SECTOR_SIZE
      modifies this`calls, this`fetched, this`failed, this`sectors, bounce
      ensures |sectors| == old(|sectors|)
      ensures Flat(sectors) == if ok then Patch(old(Flat(sectors)), pos, piece) else old(Flat(sectors))
      ensures failed == old(failed) + if ok || (!canRead && |piece| < SECTOR_SIZE) then 0 else 1
      ensures fetched == old(fetched) + if canRead && |piece| < SECTOR_SIZE then 1 else 0
    {
      hide DeviceSize, Clamped, Flat, Lba, Skip, Piece, Patch, Read, Written, AsInt32, PartialCount;
      Located(sectors, pos);
      PatchWhole(bounce[..], sectors[Lba(pos)], Skip(pos), piece);
      if |piece| != SECTOR_SIZE {
        if !canRead {
          return false;
        }
        var count := ReadSector(Lba(pos), bounce);
        if count != 1 {
          return false;
        }
      }
      Memcpy(bounce, Skip(pos), piece);
      FlatPatch(sectors, pos, piece);
      var count := WriteSector(Lba(pos), bounce);
      return count == 1;
    }

    /** Reading refines the flat disk, clamped at its size. What was read is a
        prefix, the rest of the buffer is untouched; only a failed call makes the
        prefix short, and it is the last call made. */
    method BlkRead(off: u32, n: u32, dst: array<byte>) returns (r: int, ghost done: nat)
      requires |sectors| < 0x1_0000_0000 && n <= dst.Length
      modifies this`calls, this`fetched, this`failed, dst
      ensures !canRead ==> r == -1 && done == 0 && calls == old(calls)
      ensures canRead ==> done <= Clamped(DeviceSize(|sectors|), off, n)
      ensures failed == old(failed) + if canRead && done < Clamped(DeviceSize(|sectors|), off, n) then 1 else 0
      ensures canRead ==> r == if done == Clamped(DeviceSize(|sectors|), off, n) then AsInt32(done) else PartialCount(done)
      ensures canRead && 0 < done < 0x8000_0000 ==> r == done
      ensures canRead && done == 0 && Clamped(DeviceSize(|sectors|), off, n) > 0 ==> r == -1
      ensures done > 0 ==> off + done <= |Flat(sectors)|
      ensures if done == 0 then dst[..] == old(dst[..]) else Read(dst[..], old(dst[..]), Flat(sectors), off, done)
    {
      hide DeviceSize, Clamped, Flat, Lba, Skip, Piece, Patch, Read, Written, AsInt32, PartialCount;
      if !canRead {
        return -1, 0;
      }
      var size := DeviceSize(|sectors|);
      Limits(sectors, off, n);
      if off >= size {
        return 0, 0;
      }
      var left: u32 := if n > size - off then size - off else n;
      assert left == Clamped(DeviceSize(|sectors|), off, n) && off + left <= |Flat(sectors)|;
      var bounce := new byte[SECTOR_SIZE];
      var moved: u32 := 0;
      ghost var was, flat := dst[..], Flat(sectors);
      ReadNone(was, flat, off);
      while moved < left
        invariant moved <= left && dst.Length == |was|
        invariant failed == old(failed)
        invariant Read(dst[..], was, flat, off, moved) && (moved == 0 ==> dst[..] == was)
      {
        var chunk := SECTOR_SIZE - Skip(off + moved);
        if chunk > left - moved {
          chunk := left - moved;
        }
        ReadMore(dst[..], was, flat, off, moved, chunk);
        var ok := ReadPiece(off + moved, chunk, bounce, dst, moved);
        if !ok {
          CountIs(moved);
          return PartialCount(moved), moved;
        }
        moved := moved + chunk;
      }
      CountIs(moved);
      return AsInt32(moved), moved;
    }

    /** Writing refines patching the flat disk, clamped at its size: a prefix of the
        request lands, every other byte of the disk stays, and at most two sectors
        are read on the way. */
    method BlkWrite(off: u32, n: u32, src: seq<byte>) returns (r: int, ghost done: nat)
      requires |sectors| < 0x1_0000_0000 && n <= |src|
      modifies this`calls, this`fetched, this`failed, this`sectors
      ensures |sectors| == old(|sectors|)
      ensures !canWrite ==> r == -1 && done == 0 && calls == old(calls)
      ensures done <= Clamped(DeviceSize(|sectors|), off, n)
      ensures canWrite && canRead ==> failed == old(failed) + if done < Clamped(DeviceSize(|sectors|), off, n) then 1 else 0
      ensures canWrite && done == Clamped(DeviceSize(|sectors|), off, n) ==> failed == old(failed)
      ensures canWrite ==> r == if done == Clamped(DeviceSize(|sectors|), off, n) then AsInt32(done) else PartialCount(done)
      ensures canWrite && 0 < done < 0x8000_0000 ==> r == done
      ensures canWrite && done == 0 && Clamped(DeviceSize(|sectors|), off, n) > 0 ==> r == -1
      ensures failed <= old(failed) + 1
      ensures canWrite && done < Clamped(DeviceSize(|sectors|), off, n) && failed == old(failed) ==>
        !canRead && PartOfSector(off + done, Clamped(DeviceSize(|sectors|), off, n) - done)
      ensures if done == 0 then Flat(sectors) == old(Flat(sectors)) else Written(Flat(sectors), old(Flat(sectors)), off, src, done)
      ensures fetched - old(fetched) <= 2
    {
      hide PartOfSector, DeviceSize, Clamped, Flat, Lba, Skip, Piece, Patch, Read, Written, AsInt32, PartialCount;
      if !canWrite {
        return -1, 0;
      }
      var size := DeviceSize(|sectors|);
      Limits(sectors, off, n);
      if off >= size {
        return 0, 0;
      }
      var left: u32 := if n > size - off then size - off else n;
      assert left == Clamped(DeviceSize(|sectors|), off, n) && off + left <= |Flat(sectors)|;
      var bounce := new byte[SECTOR_SIZE];
      var moved: u32 := 0;
      ghost var flat := Flat(sectors);
      WrittenNone(flat, off, src);
      while moved < left
        invariant moved <= left && |sectors| == old(|sectors|)
        invariant failed == old(failed)
        invariant 0 < moved < left ==> Skip(off + moved) == 0
        invariant Written(Flat(sectors), flat, off, src, moved)
        invariant moved == 0 ==> Flat(sectors) == flat
        invariant fetched - old(fetched) <= if moved == 0 then 0 else if moved < left then 1 else 2
      {
        ghost var pos := off + moved;
        var chunk := SECTOR_SIZE - Skip(off + moved);
        Located(sectors, off + moved);
        if chunk > left - moved {
          chunk := left - moved;
        }
        ChunkIs(pos, left - moved, chunk);
        WrittenMore(Flat(sectors), flat, off, src, moved, chunk);
        var ok := WritePiece(off + moved, bounce, Piece(src, moved, chunk));
        if !ok {
          CountIs(moved);
          return PartialCount(moved), moved;
        }
        moved := moved + chunk;
        assert pos + chunk == off + moved;
      }
      CountIs(moved);
      return AsInt32(moved), moved;
    }
  }
}
