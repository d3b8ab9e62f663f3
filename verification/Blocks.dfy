/** Disk blocks, and where a bit number is looked for when it is cleared. */
module Blocks {
  import opened Bytes

  const BLOCK_SIZE := 1024
  const BLOCK_BITS := 8192

  type Block = b: seq<Byte> | |b| == BLOCK_SIZE witness seq(BLOCK_SIZE, _ => 0)

  /** The bitmap block in which bfree looks for zone n, and ifree for inode n: the first i with n <= BLOCK_BITS * (i + 1). */
  function SearchBlock(n: nat): nat {
    if n == 0 then 0 else (n - 1) / BLOCK_BITS
  }
}
