/** The emulated disk TinyFS runs on (libDisk): a named store of 256-byte blocks that
    is open or closed. */
module Disks {
  import opened Errors
  import opened Layout

  /** name: the host file name; size: the nBytes it was created with (what getSize
      returns); blocks: the blocks its file holds; open: cleared by closeDisk. */
  datatype Disk = Disk(name: string, size: int, blocks: seq<Block>, open: bool)

  /** C's `/` on int: truncation toward zero. */
  function CDiv(a: int, b: int): (q: int)
    requires b > 0
  {
    if a >= 0 then a / b else -((-a) / b)
  }

  /** C's `%` on int: the remainder takes the sign of the dividend. */
  function CRem(a: int, b: int): (r: int)
    requires b > 0
    ensures -b < r < b && (a >= 0 ==> r == a % b)
  {
    if a >= 0 then a % b else -((-a) % b)
  }

  /** (nBytes - 1) / BLOCKSIZE + 1, the block count tfs_mkfs and the checker compute. */
  function NumBlocks(nBytes: int): int {
    CDiv(nBytes - 1, BLOCKSIZE) + 1
  }

  /** For a positive byte count the formula is the number of blocks the bytes fill;
      for 0 it is 1, not 0. */
  lemma NumBlocksCovers(nBytes: int)
    ensures nBytes >= 1 ==> (NumBlocks(nBytes) - 1) * BLOCKSIZE < nBytes <= NumBlocks(nBytes) * BLOCKSIZE
    ensures NumBlocks(0) == 1
  {
  }

  /** readBlock(disk, bNum, block): CLOSED_DISK_FAILURE on a closed store; READ_ERROR
      when the seek is negative or the read finds no block there. */
  function ReadBlock(d: Disk, a: int): (r: Result<Block>)
    ensures r.Ok? <==> d.open && 0 <= a < |d.blocks|
    ensures r.Ok? ==> r.value == d.blocks[a]
    ensures !d.open ==> r == Err(ClosedDiskFailure)
    ensures d.open && !(0 <= a < |d.blocks|) ==> r == Err(ReadError)
  {
    if !d.open then Err(ClosedDiskFailure)
    else if 0 <= a < |d.blocks| then Ok(d.blocks[a])
    else Err(ReadError)
  }

  /** The block a caller's buffer holds after readBlock: the block read, or the buffer's
      earlier contents when the read fails. */
  function ReadOr(d: Disk, a: int, buffer: Block): (b: Block)
    ensures d.open && 0 <= a < |d.blocks| ==> b == d.blocks[a]
    ensures !(d.open && 0 <= a < |d.blocks|) ==> b == buffer
  {
    match ReadBlock(d, a)
    case Ok(blk) => blk
    case Err(_) => buffer
  }

  /** The file after fwrite at block a: within the file the block is replaced; past its
      end the file grows, the gap reading as zero bytes. */
  function Store(blocks: seq<Block>, a: nat, b: Block): (r: seq<Block>)
    ensures a < |blocks| ==> r == blocks[a := b]
    ensures a >= |blocks| ==> |r| == a + 1 && r[..|blocks|] == blocks && r[a] == b
    ensures a >= |blocks| ==> forall i :: |blocks| <= i < a ==> r[i] == ZERO_BLOCK
  {
    if a < |blocks| then blocks[a := b]
    else blocks + seq(a - |blocks|, _ => ZERO_BLOCK) + [b]
  }

  /** writeBlock(disk, bNum, block). */
  function WriteBlock(d: Disk, a: int, b: Block): (r: Result<Disk>)
    ensures !d.open ==> r == Err(ClosedDiskFailure)
    ensures d.open && a < 0 ==> r == Err(WriteError)
    ensures d.open && a >= 0 ==> r.Ok? && r.value.name == d.name && r.value.size == d.size
                                 && r.value.open && r.value.blocks == Store(d.blocks, a, b)
  {
    if !d.open then Err(ClosedDiskFailure)
    else if a < 0 then Err(WriteError)
    else Ok(d.(blocks := Store(d.blocks, a, b)))
  }

  /** The store after a writeBlock whose result the caller ignores. */
  function WriteOr(d: Disk, a: int, b: Block): (r: Disk)
    ensures r.name == d.name && r.size == d.size && r.open == d.open
    ensures d.open && 0 <= a < |d.blocks| ==> r.blocks == d.blocks[a := b]
    ensures !(d.open && a >= 0) ==> r == d
  {
    match WriteBlock(d, a, b)
    case Ok(d') => d'
    case Err(_) => d
  }

  /** A block read back after it was written is the block written; the other blocks
      of the file read as before. */
  lemma ReadAfterWrite(d: Disk, a: int, b: Block, c: int)
    requires d.open && 0 <= a < |d.blocks|
    ensures ReadBlock(WriteOr(d, a, b), c) == if c == a then Ok(b) else ReadBlock(d, c)
  {
  }

  /** closeDisk: the store stays registered but every later access fails. */
  function CloseDisk(d: Disk): (r: Disk)
    ensures !r.open && r.blocks == d.blocks && r.name == d.name && r.size == d.size
  {
    d.(open := false)
  }

  lemma ClosedDiskFails(d: Disk, a: int, b: Block)
    ensures ReadBlock(CloseDisk(d), a) == Err(ClosedDiskFailure)
    ensures WriteBlock(CloseDisk(d), a, b) == Err(ClosedDiskFailure)
  {
  }

  /** findFile(filename): the index of the first store registered under the name, or
      OPEN_FAILURE. */
  function FindFile(disks: seq<Disk>, filename: string): (r: Result<nat>)
    ensures r.Ok? ==> r.value < |disks| && disks[r.value].name == filename
                      && forall j :: 0 <= j < r.value ==> disks[j].name != filename
    ensures r.Err? ==> r.error == OpenFailure && forall j :: 0 <= j < |disks| ==> disks[j].name != filename
  {
    if disks == [] then Err(OpenFailure)
    else if disks[0].name == filename then Ok(0)
    else match FindFile(disks[1..], filename)
      case Ok(i) => Ok(i + 1)
      case Err(e) => Err(e)
  }
}
