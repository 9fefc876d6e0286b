# A verified model of the waltex kernel

This project models the parts of waltex that are pure state over fixed arrays, and
proves what they promise: the minix file system, the path walk with its mounts, the
descriptor tables, the byte view of a disk, the keyboard's ring buffer, the task switch, and the
text routines of the console and the shell. `dafny verify dfyconfig.toml` checks it.

## How it is built

Code that changes state in the kernel is a class here whose methods change fields and
arrays: `MinixFs.Volume`, `Ring.Buffer`, `Tasks.Machine`, `Devio.Disk`,
`VfsWalk.Namespace`, `VfsFiles.Descriptors`, `Printf.Sink`, `Console.Screen` and
`Console.LineEdit`. Each method is proved against a function of the old state, and the
promises are then proved about those functions, over all inputs, runs and
interleavings.

**The file system** has four views, each proved to follow from the one below.

| module | view |
|---|---|
| `MinixFormat` | bytes of a block: superblock, inodes, entries, bits, pointers |
| `MinixImage` | the drive as live inodes, taken zones, an inode table and data zones (`Represents`) |
| `MinixZones`, `MinixState` | who owns which zone, what bytes a file has, what the cache may hold |
| `MinixLayout` | the first two again in plain numbers: offsets, bits, words and literal bytes |
| `MinixTree`, `MinixFsck` | nodes with links and bytes, directories as lists of entries, what fsck checks of them |

`MinixSteps` holds the lemmas behind the operations, `MinixFs` the operations,
`MinixLaws` what they add up to, `MinixRuns` sessions of calls, and `MinixFormatted`
drives that exist.

`Volume.Valid` is the invariant between operations: the drive represents an image,
every zone of a live file, directory or link is marked and has one owner and one role,
every cached inode equals the one on the drive and is cached once, bytes past the end of
a file are zero, and directories are whole entries that name live inodes, of whatever
type. It includes what `minixfs_init` takes on trust: bitmaps long enough for their ranges, a data area behind
the inode table and inside the drive. `FormattedDrive` builds a drive that has all of it
for every sound geometry, and `MountFormatted` mounts it. Full disks are part of the
model; every contract says exactly when there is room, and whether a zone is lost.

**Concurrency** is modelled as steps. The ring's push and pop are split into their
single loads and stores, and every interleaving of one producer and one consumer is
covered. The task switch runs on a memory of words, instruction by instruction, and is
proved to be a plain exchange of contexts; whole schedules are then runs of that
exchange. A task is created store by store, and may be preempted between any two of
them. Opens are two steps between which other tasks may do anything.

**The world outside** is a parameter: which driver calls fail (`Disk.fails`), what the
file systems below a path answer (`World`), what a file's operations report
(`Backing`), what a running task does with its own registers and memory.

## Where the code and its comments part

The model does what the code does.

- `vfs_close` clears the descriptor and never frees the slot, against
  `include/vfs.h:230-233`: `AtMost32Opens` is the consequence. It has no upper check on
  the descriptor: with 8 or more it reaches into the rows of the tasks behind, and
  `CloseStaysHome` says exactly when that does harm.
- `SEEK_END` moves to positions before the beginning: `SoughtMeans`.
- Access flags are compared whole, so `O_CREAT` defeats the check: `AccessIsModeIff`.
- `vfs_mount` refuses only cycles of length one: `TwoMountsMakeACycle`, with the exact
  condition in `MountKeepsAcyclic`.
- A directory whose "." finds no zone is not undone, and a parent with 255 links
  overflows: both are in the exact condition of `EventKeepsTreeSound` and
  `CreateKeepsFsck`; `StrandedExample` and `LinkOverflow` are inputs. The latter needs
  several mounts: a slot of the cache is never given back, so one mount has room for 63
  nodes beside the root.
- A create is meant to fail for a name that exists. It does not if the name is that of a
  FIFO, a symbolic link or a block device: such an inode is never loaded, lookup answers
  -1, and a second entry of the name is made. `ExistingNameBlocksCreate` and
  `CreateKeepsNames` say exactly when, `RunKeepsNames` what that means for runs, and
  `SecondEntry` is an input.
- A device node keeps its number where a file keeps its first zone, and the code follows it
  as one: `DeviceChunk`, with the exact condition for harm in `StrayWrite` and an input in
  `DeviceWrite`.
- A zone stays marked but unowned when it cannot be entered. `Lost` is the set of these
  zones; `WriteSpills` and `CreateSpills` tell before a call whether it adds one, and they
  are in the exact conditions of `FileWriteKeepsFsck` and `CreateKeepsFsck`. `FarWrite` is
  an input.
- The size of a disk wraps at 2^23 sectors: `DeviceSizeExact`.

## Model

| member | source | states |
|---|---|---|
| MinixFormat.InodeRoundTrip | kernel/minixfs.c:48-58 | An inode written to its 32 bytes and read back is the same inode, all nine zones included, whatever stood in the block before. |
| MinixFormat.InodeElsewhere | kernel/minixfs.c:462-501 | Writing one inode of a table block leaves the block's other 31 inodes as they were. |
| MinixFormat.DirentRoundTrip | kernel/minixfs.c:822-860 | A 16-byte entry keeps the inode number and a name of up to 14 characters, the 14-character name without terminator included. |
| MinixFormat.PointerPut | kernel/minixfs.c:635-692 | Storing one 16-bit zone pointer in an indirect block changes that pointer and none of the other 511. |
| MinixFormat.BlockOnBit | kernel/minixfs.c:246-263 | Setting a bit of a bitmap block turns on that bit and no other of the 8192. |
| MinixImage.ClearUndoesSet | kernel/minixfs.c:246-283 | Clearing a bit that was off before it was set restores the drive exactly. |
| MinixImage.MarkInode | kernel/minixfs.c:207-283 | Switching the bit of an inode in the first bitmap, of any number of blocks, adds or removes exactly that number from the live inodes and touches no other region. |
| MinixImage.MarkZone | kernel/minixfs.c:599-629 | Setting bit k of the second bitmap takes exactly zone firstdatazone + k - 1. |
| MinixImage.PutInode | kernel/minixfs.c:462-501 | Rewriting the bytes of an inode replaces its table entry, and bitmaps, other inodes and data zones stay. |
| MinixImage.PutZone | kernel/minixfs.c:164-175 | Writing a data zone cannot reach the superblock, a bitmap or the inode table. |
| MinixImage.ImageUnique | kernel/minixfs.c:310-368 | A drive represents at most one image: what a mount reads is determined by the bytes. |
| MinixZones.DataWrite | kernel/minixfs.c:710-814 | Overwriting a leaf zone of one file changes bytes of that block of that file only; no zone map and no other file changes. |
| MinixZones.TakeZone | kernel/minixfs.c:599-629 | Taking a zone nobody owns, and clearing it, keeps every zone map and every byte of every file and leaves the zone owned by nobody. |
| MinixZones.HandOver | kernel/minixfs.c:635-692 | Entering an unowned zone into one empty place of one inode keeps the map from places to zones injective. |
| MinixZones.FillHole | kernel/minixfs.c:635-692 | A hole filled with a cleared zone reads as before, and the map changes at that place alone. |
| MinixTree.AddEntryInserts | kernel/minixfs.c:822-860 | Writing the 16 bytes at the first free place of a directory is inserting into its list of entries, deleted places reused. |
| MinixTree.EventKeepsLinks | kernel/minixfs.c:512-591 | After any event link counts equal the number of live entries naming each node, exactly when nothing is stranded and the parent's 8-bit count had room. |
| MinixFsck.EventKeepsTreeSound | kernel/minixfs.c:863-941 | What fsck checks of the tree (entries name live nodes, names unique, link counts exact, "." and ".." in place, ".." naming the directory that holds the entry, every node reachable from the root) holds after an event if and only if no directory was stranded, no name was doubled and, for a new directory, the parent's link count was below 255. |
| MinixFsck.EventKeepsParents | kernel/minixfs.c:915-936 | A directory made properly has ".." naming the directory that holds it, and all others keep theirs. |
| MinixFsck.RunKeepsReachable | kernel/minixfs.c:863-941 | On every run, stranded directories included, every node stays reachable from the root. |
| MinixFsck.DamageStays | kernel/minixfs.c:863-941 | A wrong link count or a doubled name is there for good. |
| MinixFsck.RunKeepsTreeSound | kernel/minixfs.c:863-941 | On every run the tree is sound at the end if and only if every event on the way was harmless; otherwise a link count is wrong, or a name there twice, for good. |
| MinixFsck.MiscountStays | kernel/minixfs.c:927-936 | A wrong link count stays wrong whatever happens later, the wrap after 255 included. |
| MinixTree.CreatedIsNamed | kernel/minixfs.c:822-941 | After a create the parent has a live entry with the new name and the new number. |
| MinixTree.EffectKeepsUniqueNames | kernel/minixfs.c:822-941 | Names are unique after an event if and only if they were before and the event did not double a name that was there for a node of unknown type. |
| MinixTree.InsertedIsFound | kernel/minixfs.c:822-860 | After an insertion whoever looks for the name finds the new entry exactly if it reused a place before the old one; otherwise the old one still hides it. |
| MinixTree.RunKeepsNames | kernel/minixfs.c:863-941 | On every run, stranded directories included, names are unique at the end if and only if they were at the start and no event doubled one; and every name keeps naming the node it was given to. |
| MinixZones.TakenIsLost | kernel/minixfs.c:599-629 | A zone whose bit was set is in the bitmap and in no file until it is entered somewhere: it is lost. |
| MinixZones.HandedOver | kernel/minixfs.c:635-692 | Entering it in an empty place takes exactly that zone off the lost ones; a pointer block taken on the way is not lost. |
| MinixZones.SameLost | kernel/minixfs.c:599-692 | As long as bitmap and zone maps stay, no zone is lost or found. |
| MinixZones.StrayWrite | kernel/minixfs.c:974-1026 | A write to a block of the data area behind the back of the files, as through a device node, leaves all their zones and bytes if and only if the block was nobody's or the write changed nothing. |
| MinixSteps.SpillsNext | kernel/minixfs.c:987-1010 | The forecast of whether a write loses a zone, made from the state before it, stays right block by block until the write stops. |
| MinixSteps.OneBlockSpills | kernel/minixfs.c:1001-1007 | Within one block a zone is lost exactly if one is free and the block cannot be placed. |
| MinixSteps.OutcomeEnabled | kernel/minixfs.c:863-913 | The outcome computed from the state before a create is an event that can happen: the name is not there or hidden behind an inode of unknown type, the number unused. |
| MinixSteps.RolledBack | kernel/minixfs.c:908-913 | Giving back an inode number that was just handed out restores live inodes and tree; the bitmap of zones and the lost zones are as the failed insertion left them. |
| MinixLayout.BitInPlainNumbers | kernel/minixfs.c:218-283 | Bit k of a byte is the one of weight 2^k. |
| MinixLayout.TypeInPlainNumbers | kernel/minixfs.c:286-308 | Directories are modes 0x4000 to 0x4FFF, files 0x8000 to 0x8FFF, character devices 0x2000 to 0x2FFF; nothing else has a type. |
| MinixLayout.SuperInPlainNumbers | kernel/minixfs.c:37-47 | The superblock's six words lie at bytes 0 to 11 of block 1, low byte first, the magic 0x137F at 16; a mount accepts exactly that magic with a zero log zone size. |
| MinixLayout.BitmapsInPlainNumbers | kernel/minixfs.c:205-283 | The inode bitmap begins at block 2 with inode i as bit i, the zone bitmap right behind it with the first data zone as bit 1. |
| MinixLayout.InodeInPlainNumbers | kernel/minixfs.c:49-58 | Inode i lies 32 to a block behind the bitmaps, its fields at bytes 0, 2, 4, 8, 12, 13 and 14, low byte first. |
| MinixLayout.EntryInPlainNumbers | kernel/minixfs.c:1066-1145 | Entry k of a directory is its bytes from 16k on: a number, and a name that ends at its first zero or at 14 bytes. |
| MinixLayout.WrittenEntry | kernel/minixfs.c:846-858 | A written entry is number, name and zeros. |
| MinixLayout.NamesInPlainNumbers | kernel/minixfs.c:838-841 | A name has 1 to 14 bytes, none of them zero. |
| MinixLayout.BornInPlainNumbers | kernel/minixfs.c:555-585 | A file is born with mode 0100644 and one link, a directory with 040755 and two, stranded ones included; a complete directory has the 32 bytes of its two entries, byte by byte. |
| MinixLayout.BornOnDrive | kernel/minixfs.c:573-585 | So stand the mode bytes and the link count in the inode table after a create. |
| MinixLayout.DirectByte | kernel/minixfs.c:717-733 | Byte k * 1024 + q of a file, k below 7, is byte q of block zone[k], 0 if that is 0. |
| MinixLayout.IndirectByte | kernel/minixfs.c:733-745 | Byte (7 + k) * 1024 + q is byte q of the block named by word k of block zone[7], 0 where a number is 0. |
| MinixLayout.DoubleByte | kernel/minixfs.c:747-760 | Byte (519 + 512a + b) * 1024 + q is byte q of the block named by word b of the block named by word a of block zone[8], 0 where a number is 0. |
| MinixLayout.RoomInPlainNumbers | kernel/minixfs.c:635-692 | One more block can be had if it is there, or is one of the first 519 with a zone free, two for the first behind the seventh. |
| MinixLayout.AssignedInPlainNumbers | kernel/minixfs.c:635-692 | After an assignment at a place below 7 that one zone number is set; from 7 to 518 zone[7] is not 0, no other of the nine numbers changed, and the word for the place is in its block. |
| MinixFs.Volume.ReadBlock | kernel/minixfs.c:148-162 | A block inside the drive is read whole; outside, or without a drive, the call fails. |
| MinixFs.Volume.WriteBlock | kernel/minixfs.c:164-175 | A block is replaced, all others stay. |
| MinixFs.Volume.FindFreeBit | kernel/minixfs.c:218-244 | The least clear bit from 1 to the maximum over as many blocks as it takes; 0 means all are set, or a block could not be read. |
| MinixFs.Volume.ChangeBit | kernel/minixfs.c:246-283 | Exactly one bit changes. |
| MinixFs.Volume.Mount | kernel/minixfs.c:310-368 | It succeeds exactly on a drive whose block 1 has the magic of version 1 and zones of one block; then the cache is empty and the image read is the one the bytes represent. |
| MinixFs.Volume.Remount | kernel/minixfs.c:310-368 | Between any two operations a new mount succeeds and shows the same image and the same tree: the cache never holds anything the drive does not. |
| MinixFs.Volume.LoadInode | kernel/minixfs.c:372-446 | A slot for an inode in range, if it has one, or one is free and the inode on the drive has a known type; the slot says what the drive says, an inode is never in two slots, and what was loaded stays. The invariant holds after it unless the inode is one nobody uses. |
| MinixFs.Volume.Root | kernel/minixfs.c:694-702 | The slot of inode 1, exactly if it has one, or one is free and the inode has a known type; the slot says what the drive says, and what was loaded stays. |
| MinixFs.Volume.StoreInode | kernel/minixfs.c:462-501 | The cached mode, size, link count and zones reach the drive; uid, gid and time are those already there. |
| MinixFs.Volume.AllocInode | kernel/minixfs.c:512-591 | The least unused number, an inode of mode 0100644 with one link or, for a directory, 040755 with two (`NewbornInPlainNumbers`), nobody's and without zones, in a free slot; it succeeds exactly when a number and a slot are free, and a failure changes nothing, the bitmap included. |
| MinixFs.Volume.TakeZoneBit | kernel/minixfs.c:599-629 | The first clear bit of the zone bitmap belongs to the least zone nobody has taken. |
| MinixFs.Volume.AllocZone | kernel/minixfs.c:599-629 | The least free data zone, marked and zeroed; 0 exactly when there is none. |
| MinixFs.Volume.ZoneOf | kernel/minixfs.c:710-760 | The zone at any logical place: direct, single and double indirect, 0 past the end of the map. |
| MinixFs.Volume.AssignZone | kernel/minixfs.c:635-692 | Success exactly for a zone other than 0 and a place before the double indirect range, with a free zone for the indirect block if that is missing; then the place holds the zone, every other place of this and of all other inodes is unchanged. A refusal changes nothing. |
| MinixFs.Volume.PlaceZone | kernel/minixfs.c:987-1010 | The zone a write goes to, allocated if needed; success exactly when the place exists or there is room, at the exact cost in zones, all other places staying; exactly when it fails with a zone free, one more zone is marked and unowned. |
| MinixFs.Volume.WriteChunk | kernel/minixfs.c:974-1026 | One block's share of a write is read, changed and written back: those bytes change and nothing else. |
| MinixFs.Volume.DeviceChunk | kernel/minixfs.c:974-1026 | A write through a device node changes the block of its number, exactly if the drive has one, and nothing else on the drive. |
| MinixFs.Volume.Read | kernel/minixfs.c:764-814 | The answer and the buffer are the clamped bytes of the file, holes as zeros, whatever way zones lie; the rest of the buffer is untouched. |
| MinixFs.Volume.WriteChunks | kernel/minixfs.c:959-1026 | What was written is a prefix of the request; it stops early exactly where no zone can be had, and one more zone is lost exactly if the forecast said so. |
| MinixFs.Volume.Write | kernel/minixfs.c:959-1044 | The tree changes as if the first r bytes were spliced into the file, zero-filled up to the offset, the size following; all other inodes keep zones, bytes, type and links. -1 only when not even the first block could be placed. One more zone is lost exactly if WriteSpills held before, otherwise none. |
| MinixFs.Volume.InsertEntry | kernel/minixfs.c:822-860 | The entry goes to the first free place, success exactly when the name fits and the block can be placed, at the exact cost in zones; a failure leaves the tree as it was, and takes and loses a zone exactly when one was free and could not be placed. |
| MinixFs.Volume.Lookup | kernel/minixfs.c:1066-1108 | Found exactly when the directory names an inode and the inode is cached, or has a known type and a slot is free; the cache gains at most that inode. |
| MinixFs.Volume.Readdir | kernel/minixfs.c:1110-1145 | Entry idx with its name cut at the first NUL or at 14; 0 at the end, -1 for what is not a directory. |
| MinixFs.Volume.FreeInode | kernel/minixfs.c:908-913 | The number is given back and the slot emptied. |
| MinixFs.Volume.BeginCreate | kernel/minixfs.c:863-906 | An inode is begun exactly when parent, type and name are right, a lookup does not find the name, and a slot and a number are free; otherwise only the lookup may have filled a slot. |
| MinixFs.Volume.AddLink | kernel/minixfs.c:927-936 | The parent's 8-bit link count goes up by one, wrapping after 255. |
| MinixFs.Volume.MakeDots | kernel/minixfs.c:915-936 | "." and ".." and the parent's link, exactly when one zone is free, which is then taken; otherwise nothing changes. |
| MinixFs.Volume.Undo | kernel/minixfs.c:908-913 | After an insertion that failed, number and slot are free again and the tree is the one before the create; the zones are as the insertion left them. |
| MinixFs.Volume.Create | kernel/minixfs.c:863-941 | The whole result is one of four events decided by the state before: nothing, a file, a directory, or a stranded directory; after nothing the inode bitmap, the tree and the slots are as before but for a loaded inode; otherwise one free slot is filled and no other slot changes its inode; the slot of the new node is reported exactly when it is complete; the zones taken are those told by ZonesFor; one zone is lost exactly if CreateSpills held before, otherwise none. |
| MinixLaws.ReadIs | kernel/minixfs.c:764-790 | A read delivers the bytes from the offset on, up to the number asked for and to the end of the file. |
| MinixLaws.ReadBack | kernel/minixfs.c:764-814 | Reading what was just spliced gives the data. |
| MinixLaws.ReadElsewhere | kernel/minixfs.c:764-814 | Outside the written range the old bytes, and zeros in a gap past the old end. |
| MinixLaws.ReadsJoin | kernel/minixfs.c:764-814 | Reads under any chunking give the bytes of one read. |
| MinixLaws.WritesJoin | kernel/minixfs.c:959-1044 | Two adjacent writes are one write. |
| MinixLaws.ChangeKeepsFsck | kernel/minixfs.c:863-1044 | All that fsck checks, of the tree and of the zone bitmap, holds after a change if and only if the event was harmless and no zone was lost. |
| MinixLaws.FileWriteKeepsFsck | kernel/minixfs.c:959-1044 | A write to a file keeps all that fsck checks if and only if the forecast, made before it, says that no zone will be lost. |
| MinixLaws.CreateKeepsNames | kernel/minixfs.c:895-913 | After a create names are unique if and only if they were before and it is not so that the name led to an inode of unknown type and the create went through. |
| MinixLaws.CreateKeepsFsck | kernel/minixfs.c:863-941 | After a create the volume passes fsck, zone bitmap included, if and only if none of four things was so before: a free zone that could be taken but not placed for the parent's entry; zones just enough for the parent's entry, making a directory; a parent with 255 links, making a directory; a name that led to an inode of unknown type, with the create going through. |
| MinixLaws.LossStays | kernel/minixfs.c:599-629 | What is lost stays lost: at the end of a run the lost zones are those of its start exactly if no change lost one. |
| MinixLaws.RunKeepsFsck | kernel/minixfs.c:863-1044 | On every run of file writes and creates from a volume that passes fsck it passes at the end if and only if every single change was harmless and lost no zone. |
| MinixLaws.ExistingNameBlocksCreate | kernel/minixfs.c:895-906 | A create with a name that has a live entry goes through if and only if the inode it leads to has an unknown type and a slot, a number and room for the entry are free; so never with a full cache, although the lookup then fails. |
| MinixLaws.LookupIsReaddir | kernel/minixfs.c:1066-1145 | The number lookup finds for a name is the number of the one live entry readdir lists under it. |
| MinixLaws.AllocatedZoneWasUnused | kernel/minixfs.c:218-244 | A free zone is at no place of any live file, so handing it out shares nothing. |
| MinixFormatted.SuperRoundTrip | kernel/minixfs.c:37-47 | A superblock written to its block is read back. |
| MinixFormatted.FormattedDrive | kernel/minixfs.c:310-368 | For every sound geometry there is a drive, built block by block, that represents a formatted volume. |
| MinixFormatted.FormattedIsSound | kernel/minixfs.c:310-368 | A formatted volume, empty or with one file, FIFO or device node, satisfies all the invariants and passes fsck. |
| MinixFormatted.MountFormatted | kernel/minixfs.c:310-368 | Mounting such a drive succeeds and gives a volume that is valid, so that every operation may be called. |
| MinixFormatted.StrandedExample | kernel/minixfs.c:915-922 | On a formatted volume without a free zone the first mkdir strands its directory, and the tree is no longer sound. |
| MinixFormatted.MkdirIsEvent | kernel/minixfs.c:863-941 | With k directories in the root, the root and an empty slot in the cache and two zones free, a mkdir of the next name is exactly the event that makes it, at a cost of at most two zones. |
| MinixFormatted.LastDir | kernel/minixfs.c:927-936 | With 253 directories in the root the next one wraps its link count from 255 to 0, and the sound tree is no longer sound. |
| MinixFormatted.LinkOverflow | kernel/minixfs.c:863-941 | The same through the operations: on a mounted formatted drive 254 creates in the root, with a new mount whenever the cache is full, end with link count 0 and a volume that fails fsck. |
| MinixFormatted.GeometriesExist | kernel/minixfs.c:310-368 | There are sound geometries of the kinds the examples ask for. |
| MinixFormatted.FarWriteSpills | kernel/minixfs.c:1001-1007 | One byte at logical zone 519 of an empty file cannot be placed and will lose a zone. |
| MinixFormatted.FarWrite | kernel/minixfs.c:959-1044 | Mounting a drive that passes fsck, finding its file and writing that byte: the write answers -1 and the volume fails fsck. |
| MinixFormatted.SecondEntryExample | kernel/minixfs.c:895-913 | On a formatted volume with a FIFO in its root a create of the FIFO's name is an event that can happen, after which the name is there twice and still leads to the FIFO. |
| MinixFormatted.SecondEntry | kernel/minixfs.c:863-941 | The same through the operations: the create reports a file, a lookup of its name fails, and the volume that passed fsck does not. |
| MinixFormatted.ErasedFails | kernel/minixfs.c:974-1026 | With two zero bytes at the start of the root's block the root has lost its ".", and fsck fails. |
| MinixFormatted.DeviceWrite | kernel/minixfs.c:974-1026 | Through the operations: two bytes written to a device node with the number of that block do just this. |
| MinixRuns.CreateChanges | kernel/minixfs.c:863-941 | A call of create is one change of a run, the one foretold. |
| MinixRuns.WriteChanges | kernel/minixfs.c:959-1044 | A write to a file is one change of a run: a splice of what was written, losing the zone foretold. |
| MinixRuns.Perform | kernel/minixfs.c:863-1145 | Every call, lookups and new mounts included, is one change of a run, the one foretold for it. |
| MinixRuns.Session | kernel/minixfs.c:863-1145 | Whatever is called in whatever order: a volume that passed fsck passes it at the end if and only if every change on the way was benign. |
| Sizes.RoomIs | include/vfs.h:7-25 | The kernel's tables and buffers have the sizes of the headers. |
| Sizes.FormatIs | kernel/minixfs.c:14-29 | The constants of the format. |
| Ring.Buffer.Push | kernel/ring.c:10-21 | The value is appended, unless 127 are waiting; then nothing changes. |
| Ring.Buffer.Pop | kernel/ring.c:23-35 | The oldest value is removed, or -1 if there is none. |
| Ring.Buffer.Empty | kernel/ring.c:37-46 | 1 exactly when nothing is waiting. |
| Ring.StepKeepsInv | kernel/ring.c:10-35 | Every single load and store of either side, wherever the other stands, keeps the ring whole. |
| Ring.RepliesAreTrue | kernel/ring.c:10-35 | A push is refused only with 127 values waiting, an accepted value goes to the end, a popped value is the oldest one. |
| Ring.NothingMeansEmpty | kernel/ring.c:23-35 | A pop that comes back empty loaded the head at a moment when the ring was empty. |
| Ring.NeverStuck | include/ring.h:11-24 | Neither side ever waits for the other: inside an operation it can always take its next step. |
| Ring.RingIsFifo | include/ring.h:11-34 | On every interleaving what was popped is a prefix of what was accepted, what is missing lies in the ring in order, and at most 127 values do. |
| Ring.PushAlone | kernel/ring.c:10-21 | Undisturbed, the steps of a push amount to the whole push. |
| Ring.PopAlone | kernel/ring.c:23-35 | Undisturbed, the steps of a pop amount to the whole pop. |
| Tasks.TaskNext | kernel/task.c:78-93 | The first ready task behind the current one, going round; -1 if there is none. |
| Tasks.NextIsNearest | kernel/task.c:78-93 | No ready task is passed over: nobody between the current and the chosen task is ready. |
| Tasks.NobodyElse | kernel/task.c:78-93 | -1 means exactly that no other task is ready; the current task is never chosen. |
| Tasks.BoundedWaiting | kernel/task.c:95-117 | On every run of the tasks, whatever is computed and created meanwhile, a ready task is running after at most as many switches as it is places away. |
| Tasks.TurnsComeCloser | kernel/task.c:78-117 | Each turn brings every waiting task strictly closer to running. |
| Tasks.SavedStays | kernel/task.c:95-117 | Whatever other tasks compute, switch or create, what was saved for a task stays, and is loaded when it runs. |
| Tasks.SwitchedBackUnchanged | kernel/switch.S:20-72 | A task that is switched out and later back in, after any schedule of the others, has the same ebx, esi, edi, ebp, eflags, stack pointer and return point. |
| Tasks.BirthStays | kernel/task.c:43-60 | A task in the making is preempted safely: whoever runs between its stores, and whatever they do, its slot is either still being filled or ready with a newborn's context. |
| Tasks.NewbornStarts | kernel/task.c:26-63 | From the choice of its slot on, through every interleaving of its stores with turns of others, a new task first runs at its entry point, at the top of its stack, with interrupts on. |
| Tasks.Layout.InPlainNumbers | include/task.h:32-36 | A task is 1026 words: stack pointer, state and stack; its frame is edi, esi, ebx, ebp, flags and return address from the saved pointer up. |
| Tasks.Layout.SwitchKeeps | kernel/switch.S:20-72 | A frame pushed on the outgoing stack and its address in the outgoing cell leave the frame of every other waiting task complete and in its own stack. |
| Tasks.Layout.OwnWritesKeep | kernel/task.c:26-63 | What a task writes to its own stack and to memory that belongs to no task leaves all saved frames. |
| Tasks.Layout.DraftStays | kernel/task.c:43-60 | A half-forged frame survives whatever happens near another task, switches included. |
| Tasks.Machine.constructor | kernel/task.c:8-24 | The boot flow becomes task 0, the only ready one. |
| Tasks.Machine.Compute | kernel/task.c:95-117 | A running task may do anything to its registers and its own memory: for the others that is no event. |
| Tasks.Machine.TaskSwitch | kernel/switch.S:20-72 | Instruction by instruction: the outgoing context ends up as a six-word frame whose address is stored, the incoming frame ends up in the registers, and no other word changes. |
| Tasks.Machine.Schedule | kernel/task.c:95-117 | The effect of a schedule on memory is the switch of contexts to the next ready task, or nothing if there is none. |
| Tasks.Machine.ChooseSlot | kernel/task.c:26-41 | The first free slot is chosen, or -1; nothing is stored yet. |
| Tasks.Machine.StoreFrameWord | kernel/task.c:45-58 | Each word of the frame, from the top down, is one event; for no task anything else has happened. |
| Tasks.Machine.StorePointer | kernel/task.c:59 | The stack pointer is stored only behind a complete frame; the task is still free. |
| Tasks.Machine.SetReady | kernel/task.c:60 | The state is stored only when the cell already points at a complete frame; then the task is ready with a newborn's context. |
| Tasks.Machine.TaskCreate | kernel/task.c:26-63 | Undisturbed, the stores in this order amount to a birth: the first free task becomes ready with a complete frame, or -1 and nothing changes. |
| Devio.DeviceSizeExact | kernel/devio.c:417 | The 32-bit size is the capacity exactly below 2^23 sectors; every 2^23 sectors it starts from 0 again. |
| Devio.FlatByte | kernel/devio.c:117-135 | The disk is its sectors one behind the other, 512 bytes each. |
| Devio.FlatPatch | kernel/devio.c:146-208 | Patching a piece of one sector is patching the flat array of bytes. |
| Devio.Disk.ReadSector | include/blockdev.h:46-61 | The driver interface: one sector or a failure that transfers nothing. |
| Devio.Disk.BlkRead | kernel/devio.c:85-144 | The buffer gets a prefix of the bytes of the flat disk, clamped at its size, and nothing else changes; the prefix is short only if one driver call failed; the answer is its length, as a signed number, or -1 if a failure left nothing. |
| Devio.Disk.BlkWrite | kernel/devio.c:146-208 | A prefix of the data lands at the offset, clamped at the size, every other byte of the disk stays; it is short only if a driver call failed, or where a disk that cannot be read would have to be, in front of a part of a sector; the answer is its length, or -1 if something was asked for and nothing landed; at most two sectors are read on the way. |
| Devio.WrittenThenRead | kernel/devio.c:85-208 | What was written is read back; a read of a disjoint range sees the disk as before. |
| VfsWalk.FollowMeans | kernel/vfs.c:226-252 | The first slot that covers an inode counts; an inode no slot covers leads nowhere else. |
| VfsWalk.SettlesIffAcyclic | kernel/vfs.c:226-252 | Following mounts for as many rounds as the table has slots ends at an uncovered inode for every inode, if and only if there is no cycle. |
| VfsWalk.FullChainNeedsAllRounds | kernel/vfs.c:211-225 | The bound is tight: a chain through all four slots needs all four rounds. |
| VfsWalk.MountKeepsAcyclic | kernel/vfs.c:627-676 | A new mount keeps the table free of cycles if and only if the chain of the new root does not end at the covered inode. |
| VfsWalk.MountKeepsTable | kernel/vfs.c:627-676 | For a mount that succeeds the covered inode was uncovered before, so no inode is covered twice, and cycles stay out exactly under the condition above. |
| VfsWalk.RunKeepsTable | kernel/vfs.c:627-676 | On every run of mounts, refused ones included, the table is free of cycles at every point if and only if every call passed the check vfs_mount does not make; then no inode is ever covered twice. |
| VfsWalk.CallKeepsTable | kernel/vfs.c:627-676 | The same for one call, whether it mounts or is refused. |
| VfsWalk.TwoMountsMakeACycle | kernel/vfs.c:656-658 | The check of vfs_mount lets a cycle of length two through: on an empty table of four slots 2 is mounted at /a, which is 1, then 1 at /a, which is now 2; both are accepted, and they cover each other. |
| VfsWalk.SettleMounted | kernel/vfs.c:226-252 | After a mount the covered inode leads where the new root leads, every other inode where it led. |
| VfsWalk.ComponentsSplit | kernel/vfs.c:145-207 | A slash cuts a path into two halves whose components follow each other. |
| VfsWalk.SqueezedMeans | kernel/vfs.c:145-159 | Two absolute paths have the same components if and only if they are the same once doubled slashes are squeezed and trailing ones dropped. |
| VfsWalk.SlashesDoNotCount | kernel/vfs.c:145-159 | A doubled slash anywhere, and one more at the end, are squeezed away. |
| VfsWalk.SpellingDoesNotMatter | kernel/vfs.c:110-159 | Any two accepted paths that differ in nothing but repeated and trailing slashes mean the same inode, and so does the shortest of these spellings. |
| VfsWalk.RefusedPaths | kernel/vfs.c:126-131 | A path that is empty, relative or of 64 characters or more leads nowhere. |
| VfsWalk.ResolveOneMore | kernel/vfs.c:133-199 | One name more is looked up in what the path before it leads to: only if that is a directory that can look up and the name has at most 14 characters; what is found is followed to what is mounted on it. |
| VfsWalk.ResolveSplit | kernel/vfs.c:349-393 | When a path splits into parent and last name, resolving it is resolving the parent, looking the name up there and following mounts. |
| VfsWalk.SplitMeans | kernel/vfs.c:349-393 | A path splits exactly if it is accepted and ends in a name of 1 to 14 characters, and then it is cut at its last slash. |
| VfsWalk.ResolveMounted | kernel/vfs.c:627-676 | After mounting r over the inode a path leads to, the path leads to r; a path that does not come through that inode resolves as before. |
| VfsWalk.WalkEndsUncovered | kernel/vfs.c:110-209 | Where a walk arrives nothing is mounted. |
| VfsWalk.Namespace.FollowMounts | kernel/vfs.c:226-252 | The nested loops follow the chain for at most MAX_MOUNTS rounds, first matching slot first. |
| VfsWalk.Namespace.Resolve | kernel/vfs.c:110-209 | Resolution is the fold of lookup and mount substitution over the components; on failure the caller's pointer is untouched. |
| VfsWalk.Namespace.SplitPath | kernel/vfs.c:349-393 | The loop finds the cut, the root as parent of a file in the root. |
| VfsWalk.MadeIsFound | kernel/vfs.c:395-419 | What was made under the last name is found under the path, with what is mounted on it, if the way to its directory is as before. |
| VfsWalk.Namespace.CreateLast | kernel/vfs.c:395-419 | It answers 0 exactly if the path splits, its parent resolves to a directory that can create and the file system agrees to make the last name, of the type asked for; then the path leads there. Every other case is -1 and leaves the caller's pointer. |
| VfsWalk.Namespace.MountAt | kernel/vfs.c:627-676 | Success exactly for a directory over another directory with a slot free; the first free slot then holds the pair, and a failure changes nothing. |
| VfsFiles.StepKeepsInv | kernel/vfs.c:254-333 | Every step of every interleaving of opens, closes and moves keeps each live descriptor and each slot in flight naming an occupied slot of its own. |
| VfsFiles.StepIsPrivate | kernel/vfs.c:421-580 | No step, of the same task or of another, changes a descriptor it is not about, nor inode, position or flags of the file behind it; a close leaves even the file behind the number it clears. |
| VfsFiles.RunKeepsInv | kernel/vfs.c:84-102 | So on every run from initialisation. |
| VfsFiles.StepCounts | kernel/vfs.c:528-542 | Occupied slots grow by one with each open that succeeds and never shrink: a close gives no slot back. |
| VfsFiles.AtMost32Opens | kernel/vfs.c:528-542 | However many descriptors are closed, at most 32 opens succeed after an initialisation. |
| VfsFiles.ThirtyTwoOpens | kernel/vfs.c:528-542 | The bound is reached: after 32 opens, each closed again, no descriptor is open, and no open of any task changes anything any more. |
| VfsFiles.CloseStaysHome | kernel/vfs.c:528-542 | A close leaves the other tasks' descriptors alone if and only if its number is below 8 or the place it reaches in the table is empty. |
| VfsFiles.OpenedMeans | kernel/vfs.c:421-464 | An open that fails leaves descriptors and occupied slots as they were; one that succeeds adds the lowest number the task had free, at position 0. |
| VfsFiles.AccessIsModeIff | kernel/vfs.c:466-526 | Comparing whole flags protects a write-only file from reading, and a read-only one from writing, exactly if the flags are the bare mode. |
| VfsFiles.ClosedMeans | kernel/vfs.c:528-542 | A close empties one entry of the table and changes nothing else. |
| VfsFiles.MovedMeans | kernel/vfs.c:466-580 | A move sets the position of one file and changes nothing else. |
| VfsFiles.SoughtMeans | kernel/vfs.c:544-580 | From the start the offset, unless negative; from the position and from the end the sum modulo 2^32; from the position nothing moves if that is 2^31 or more, from the end it moves even then, to before the beginning included. The answer is the position as a signed number, or -1. |
| VfsFiles.Descriptors.FileAlloc | kernel/vfs.c:277-299 | The first free slot is taken at position 0, or -1. |
| VfsFiles.Descriptors.FdAlloc | kernel/vfs.c:320-333 | The lowest free number of the task gets the slot, or -1. |
| VfsFiles.Descriptors.Open | kernel/vfs.c:439-464 | The two allocations with the undoing of the first when the second fails. |
| VfsFiles.Descriptors.Close | kernel/vfs.c:528-542 | The entry the number reaches in the table, row behind row, is cleared and nothing else changes; -1 for a negative number or an empty entry. |
| VfsFiles.Descriptors.Read | kernel/vfs.c:466-495 | Success exactly for a live descriptor, flags other than write-only, a file that can read and is no directory; only this position moves, by what was read. |
| VfsFiles.Descriptors.Write | kernel/vfs.c:497-526 | The same for writing. |
| VfsFiles.Descriptors.Lseek | kernel/vfs.c:544-580 | Only this position moves, in 32-bit arithmetic. |
| Numbers.PutUint | kernel/kprintf.c:38-76 | The digit loop, the sign and the reversal in place print the number. |
| Numbers.ReverseInPlace | kernel/kprintf.c:26-36 | The buffer prefix is turned around, the rest stays. |
| Numbers.DigitsValue | kernel/kprintf.c:57-61 | The digits of a number stand for it, without a leading zero. |
| Numbers.PrintedIsSigned | kernel/kprintf.c:38-76 | The decimal printed is the signed value of every 32-bit integer, the minimum included, with a minus sign exactly if it is negative and without leading zeros. |
| Numbers.ParseDec | kernel/shell.c:167-205 | It accepts exactly the non-empty strings of digits worth at most 2^32 - 1, gives their value and never wraps; the result is written only then. |
| Numbers.ParseHex | kernel/shell.c:115-165 | It accepts exactly one to eight hexadecimal digits of either case behind an optional 0x, and gives their value. |
| Numbers.ValueInPlainNumbers | kernel/shell.c:115-205 | The digits are 0 to 9, a to f and A to F, each place worth ten or sixteen of the next. |
| Numbers.HexPrefix | kernel/shell.c:120-121 | Exactly a leading 0x or 0X is dropped. |
| Numbers.HexRoundTrip | kernel/shell.c:115-165 | Parsing what %x prints gives back every 32-bit value; it is printed without leading zeros. |
| Numbers.DecRoundTrip | kernel/shell.c:167-205 | Parsing what %d prints gives back every value below 2^31, and is refused for exactly the others. |
| Printf.FormatDec | kernel/kprintf.c:93-96 | The text of %d is the signed decimal of the word. |
| Printf.FormatHex | kernel/kprintf.c:97-100 | The text of %x is its hexadecimal, one to eight digits in lower case. |
| Printf.FormatOthers | kernel/kprintf.c:90-124 | %c is the low byte, %s the string or (null), %% and a % at the end are %, unknown conversions stand as they are. |
| Printf.FormatPlain | kernel/kprintf.c:129-132 | Text without a % is sent as it is. |
| Printf.FormatJoin | kernel/kprintf.c:78-134 | The text of two formats joined is their texts joined, each with its own arguments. |
| Printf.Sink.Putc | kernel/kprintf.c:174-184 | Every character is counted; those that fit, with one place left for the NUL, are stored. |
| Printf.Sink.Kvprintf | kernel/kprintf.c:78-134 | What reaches the sink is the formatted text, a lone % at the end and unknown conversions included. |
| Printf.Vsnprintf | kernel/kprintf.c:186-207 | The buffer gets the whole text if it is shorter than size, otherwise its first size - 1 characters, and a NUL; nothing behind changes, size 0 writes nothing, and the answer is the length of the whole text. |
| Printf.Decimal | kernel/kprintf.c:186-207 | Printing %d into a buffer with room leaves there the signed decimal of the word and a NUL. |
| Printf.Hexadecimal | kernel/kprintf.c:186-207 | And %x its hexadecimal. |
| Console.PutChar | kernel/vga.c:77-116 | Whatever is printed, the screen keeps 2000 cells and its cursor stays below 2000. |
| Console.EchoTellsTheTruth | kernel/lineedit.c:14-58 | Whatever is typed without a newline on whatever screen, in the end the line stands right before the cursor, and before it what stood there when the line was begun, moved up by whole rows. |
| Console.StepShows | kernel/lineedit.c:14-58 | One character at a time: typing, rubbing out across a row border, a full line, ignored characters, at most one scroll each. |
| Console.PutCharMeans | kernel/vga.c:77-116 | What each character does to the 2000 cells and the cursor, wrapping and scrolling by 80 included. |
| Console.ControlKeepsLine | kernel/lineedit.c:14-58 | Enter and other control characters leave the line as it is, and only Enter is echoed; a full line of 127 takes no more. |
| Console.TypedIsInput | kernel/lineedit.c:36-45 | The text is the printable input in order, cut at 127 characters. |
| Console.BackspaceUndoes | kernel/lineedit.c:20-33 | A backspace undoes the last character kept. |
| Console.NewlineMeans | kernel/vga.c:101-112 | A newline goes to the start of the next row; on the last row all rows move up by one and the new last row is blank. |
| Console.Screen.Putc | kernel/vga.c:77-116 | The cells and the cursor in memory follow the function of the screen, scrolling included. |
| Console.LineEdit.Putc | kernel/lineedit.c:14-58 | The buffer holds the text with its first NUL right behind it, the echo sends what belongs to the change, and the answer is 1 exactly on a newline. |
| Console.LineEdit.Reset | kernel/lineedit.c:60-66 | The line is empty again. |
| Words.WordsCover | kernel/shell.c:82-113 | The words of a line hold exactly its characters that are not spaces. |
| Words.WordsApart | kernel/shell.c:82-113 | They stand in order, each up to the next space or the end. |
| Words.Split | kernel/shell.c:82-113 | The arguments are the first words, at most max, and nothing in the line changes but the spaces right behind them. |
| Words.ArgumentIsWord | kernel/shell.c:82-113 | After the split every argument is the string of its own word. |

## Left out

- Write: on a directory inode it is not shown to keep the directory whole; only `InsertEntry` writes there. Through a device node `DeviceChunk` has what it does to a block that is there; a hole filled there is not modelled.
- Compute: a task that writes outside its own stack and the memory of no task is not modelled.
- Schedule: it asks for eight words of room on the running stack; a stack that overflows is not modelled.
- TaskCreate: two tasks creating at once are not modelled; the code has no critical section there, and both would choose the same slot.
- Kvprintf: arguments that do not suit the format are undefined in C and not modelled; `%s` arguments are the characters before their NUL.
- Close: a descriptor that reaches past the last row of the table is not modelled; what lies there is other memory of the kernel.
- Open: the inode comes as an argument; resolution and creation are `Resolve` and `CreateLast`.
- Resolve: lookups are answered by a function, so the inode cache filling up during a walk is not seen here.
- Read: through a device node it is not modelled; the code reads the block of its number.
- ReadEntry: as it reads directories only, it asks for no device node either.
- Failures of the drive in the middle of a minix operation, and read-only drives: the drive of `Volume` answers every call inside its range. `zona_di` reporting a read error as a hole is therefore not seen.
- ReadBlock: a block is one unit, its two sectors are not told apart.
- Null pointers and inodes of other file systems handed to minix operations, and the checks against them.
- The static block buffers of `minixfs.c` are values here, as its operations are sequential; two operations at once are not modelled, and the source rules them out.
- Interrupt flags of `task_yield` and of the critical sections, beyond their being one step.
- Real time stamps, users and groups, beyond that they are kept.
- Colours and cursor registers of the screen, the serial line, and other tasks printing between two characters of a line.
- Port drivers, keyboard tables, timer, traps, the device registry, devfs, procfs and the shell's commands: constants, registry scans and printing.
- `vfs_mkdir` and `vfs_readdir`: thin wrappers of members that are modelled.
