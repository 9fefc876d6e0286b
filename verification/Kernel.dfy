/** What several parts of the kernel share. */
module Kernel {
  const MAX_TASKS: nat := 8

  /** The address of an inode; 0 would be the null pointer. */
  type Inode = x: int | x > 0 witness 1

  const NUL: char := 0 as char
}
