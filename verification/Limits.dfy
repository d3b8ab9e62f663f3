/** Numbers that several parts of the kernel share. */
module Limits {
  const PAGE_SIZE := 4096
  const NR_TASKS := 64

  /** The inode of a root directory. */
  const ROOT := 1

  /** What functions that look for something return in vain. */
  const EOF := -1

  function Min(a: int, b: int): int {
    if a < b then a else b
  }

  function Max(a: int, b: int): int {
    if a < b then b else a
  }
}
