/** Disk blocks as the block layer moves them: 512 bytes at a time. */
module Blocks {

  const SECTOR_SIZE: nat := 512

  type byte = x: int | 0 <= x < 256

  function Zeros(n: nat): (z: seq<byte>)
    ensures |z| == n && forall i :: 0 <= i < n ==> z[i] == 0
  {
    seq(n, _ => 0)
  }

  type Block = b: seq<byte> | |b| == 512 witness Zeros(512)

  /** A zero-filled sector, the static `empty` buffer of the inode layer. */
  const ZEROS: Block := Zeros(512)
}
