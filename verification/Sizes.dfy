/** The sizes and numbers fixed by the headers, in one place. */
module Sizes {
  import Kernel
  import Console
  import Devio
  import MinixFormat
  import MinixState
  import Ring
  import Tasks
  import VfsFiles
  import VfsWalk

  /** What the kernel has room for. */
  lemma RoomIs()
    ensures Kernel.MAX_TASKS == 8 && Tasks.STACK_WORDS * 4 == 4096 && Tasks.INITIAL_EFLAGS == 0x202
    ensures VfsWalk.VFS_PATH_MAX == 64 && VfsWalk.VFS_NAME_MAX == 14 && VfsWalk.MAX_MOUNTS == 4
    ensures VfsFiles.MAX_OPEN_FILES == 32 && VfsFiles.TASK_FDS == 8
    ensures VfsFiles.O_RDONLY == 0 && VfsFiles.O_WRONLY == 1 && VfsFiles.O_CREAT == 64
    ensures VfsFiles.SEEK_SET == 0 && VfsFiles.SEEK_CUR == 1 && VfsFiles.SEEK_END == 2
    ensures Ring.RING_SIZE == 128 && Console.LINE_MAX == 128 && Console.VGA_COLS == 80 && Console.VGA_ROWS == 25
    ensures Devio.SECTOR_SIZE == 512 && MinixState.MAX_INODES == 64
  {
  }

  /** What the format of minix version 1 fixes. */
  lemma FormatIs()
    ensures MinixFormat.BLOCK_SIZE == 1024 && MinixFormat.MINIX_MAGIC == 0x137F && MinixFormat.ROOT_INO == 1
    ensures MinixFormat.INODE_SIZE == 32 && MinixFormat.INODES_PER_BLOCK == 32
    ensures MinixFormat.DIRECT_ZONES == 7 && MinixFormat.SINGLE_SLOT == 7 && MinixFormat.DOUBLE_SLOT == 8
    ensures MinixFormat.PTRS_PER_BLOCK == 512 && MinixFormat.BITS_PER_BLOCK == 8192 && MinixFormat.IMAP_BLOCK == 2
    ensures MinixFormat.DIRENT_SIZE == 16 && MinixFormat.NAME_MAX == 14
  {
  }
}
