/** Vocabulary shared by the modules of the bulbOS model. */
module Common {
  /** A value that may be missing: a NULL pointer or an aborted computation. */
  datatype Option<+T> = None | Some(value: T)

  /** Machine words are 32 bits wide; unsigned arithmetic wraps at this bound. */
  const TWO32: nat := 0x1_0000_0000

  const PAGE_FRAME_SIZE: nat := 4096

  /** The size of a disk block, with log_block_size 0. */
  const BLOCK_SIZE: nat := 1024

  ghost predicate Distinct<T>(s: seq<T>) {
    forall i, j :: 0 <= i < j < |s| ==> s[i] != s[j]
  }

  /** One byte of memory, of a disk block or of a pipe. */
  type Byte = b: int | 0 <= b < 256
}
