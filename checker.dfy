/** The mount-time checker of libTinyFS.c: checksuperblock, checkroot, checkmagicnum
    and checkfs, and the block checks checkusedblock, checkfreeblock and checkbitmap,
    which the source defines but checkfs never calls. */
module Checker {
  import opened Layout
  import opened Bits
  import opened Errors
  import opened Blocks
  import opened Disks
  import opened Bitmap

  /** The characters 'r', 'o', 'o', 't' as bytes. */
  const ROOT_NAME: seq<byte> := [0x72, 0x6F, 0x6F, 0x74]

  /** checksuperblock(disknum): READ_ERROR when block 0 cannot be read, CORRUPT_FS
      unless it has the superblock type, links the root and is flagged VALID. */
  function CheckSuperblock(d: Disk): (r: Outcome)
    ensures r == Pass <==> d.open && 0 < |d.blocks| && Kind(d.blocks[0]) == SUPERBLOCK
                           && Link(d.blocks[0]) == ROOT_ADDR && Flag(d.blocks[0]) == VALID
    ensures r != Pass ==> r == Fail(if ReadBlock(d, SUPERBLOCK_ADDR).Err? then ReadError else CorruptFs)
  {
    match ReadBlock(d, SUPERBLOCK_ADDR)
    case Err(_) => Fail(ReadError)
    case Ok(block) =>
      if block[0] != SUPERBLOCK || block[2] as nat != ROOT_ADDR || block[3] != VALID then Fail(CorruptFs)
      else Pass
  }

  /** The root inode checkroot accepts: type INODE, link NULL_ADDR, flag INVALID, the
      name "root" in bytes 4..7 and zeros in bytes 8..11. */
  predicate RootOk(b: Block) {
    Kind(b) == INODE && Link(b) == NULL_ADDR && Flag(b) == INVALID
    && b[4..8] == ROOT_NAME && b[8..12] == [0, 0, 0, 0]
  }

  /** checkroot(disknum). */
  function CheckRoot(d: Disk): (r: Outcome)
    ensures r == Pass <==> d.open && ROOT_ADDR < |d.blocks| && RootOk(d.blocks[ROOT_ADDR])
    ensures r != Pass ==> r == Fail(if ReadBlock(d, ROOT_ADDR).Err? then ReadError else CorruptFs)
  {
    match ReadBlock(d, ROOT_ADDR)
    case Err(_) => Fail(ReadError)
    case Ok(block) =>
      if block[0] != INODE || block[2] as nat != NULL_ADDR || block[3] != INVALID then Fail(CorruptFs)
      else if block[4] != 0x72 || block[5] != 0x6F || block[6] != 0x6F || block[7] != 0x74 then Fail(CorruptFs)
      else if block[8] != 0 || block[9] != 0 || block[10] != 0 || block[11] != 0 then Fail(CorruptFs)
      else
        assert block[4..8] == ROOT_NAME && block[8..12] == [0, 0, 0, 0];
        Pass
  }

  /** The outcome of checkmagicnum's loop from block k up to block n: READ_ERROR at the
      first block that cannot be read, CORRUPT_FS at the first without MAGIC_NUM. */
  function MagicFrom(d: Disk, k: int, n: int): (r: Outcome)
    ensures r == Pass <==> forall j :: k <= j < n ==> ReadBlock(d, j).Ok? && ReadBlock(d, j).value[1] == MAGIC_NUM
    ensures r == Pass || r == Fail(ReadError) || r == Fail(CorruptFs)
    decreases n - k
  {
    if k >= n then Pass
    else match ReadBlock(d, k)
      case Err(_) => Fail(ReadError)
      case Ok(block) => if block[1] != MAGIC_NUM then Fail(CorruptFs) else MagicFrom(d, k + 1, n)
  }

  /** The outcome of checkmagicnum: blocks 0 .. (getSize - 1) / BLOCKSIZE are checked. */
  function MagicCheck(d: Disk): Outcome {
    MagicFrom(d, 0, NumBlocks(d.size))
  }

  /** checkmagicnum accepts exactly the open stores that hold every block up to the one
      their size ends in, each with MAGIC_NUM in byte 1. */
  lemma MagicCheckPasses(d: Disk)
    ensures MagicCheck(d) == Pass <==>
              NumBlocks(d.size) <= 0
              || (d.open && NumBlocks(d.size) <= |d.blocks|
                  && forall j :: 0 <= j < NumBlocks(d.size) ==> d.blocks[j][1] == MAGIC_NUM)
  {
    var n := NumBlocks(d.size);
    if MagicCheck(d) == Pass && n > 0 {
      assert ReadBlock(d, 0).Ok? && ReadBlock(d, n - 1).Ok?;
      forall j | 0 <= j < n
        ensures d.blocks[j][1] == MAGIC_NUM
      {
        assert ReadBlock(d, j).Ok?;
      }
    }
  }

  /** checkmagicnum(disknum). */
  method CheckMagicNum(d: Disk) returns (r: Outcome)
    ensures r == MagicCheck(d)
    ensures r == Pass <==> forall j :: 0 <= j < NumBlocks(d.size) ==> ReadBlock(d, j).Ok? && ReadBlock(d, j).value[1] == MAGIC_NUM
  {
    var loop := 0;
    var numblocks := NumBlocks(d.size);
    while loop < numblocks
      invariant 0 <= loop && (numblocks >= 0 ==> loop <= numblocks)
      invariant MagicFrom(d, loop, numblocks) == MagicFrom(d, 0, numblocks)
    {
      var rb := ReadBlock(d, loop);
      if rb.Err? {
        return Fail(ReadError);
      }
      if rb.value[1] != MAGIC_NUM {
        return Fail(CorruptFs);
      }
      loop := loop + 1;
    }
    return Pass;
  }

  /** The outcome of checkfs: CORRUPT_FS unless all three checks pass. */
  function FsCheck(d: Disk): (r: Outcome)
    ensures r == Pass <==> CheckSuperblock(d) == Pass && CheckRoot(d) == Pass && MagicCheck(d) == Pass
    ensures r == Pass || r == Fail(CorruptFs)
  {
    if CheckSuperblock(d) != Pass || CheckRoot(d) != Pass || MagicCheck(d) != Pass then Fail(CorruptFs)
    else Pass
  }

  /** checkfs(disknum): the three checks in order, stopping at the first that fails. */
  method CheckFs(d: Disk) returns (r: Outcome)
    ensures r == FsCheck(d)
    ensures r == Pass <==> CheckSuperblock(d) == Pass && CheckRoot(d) == Pass && MagicCheck(d) == Pass
    ensures r != Pass ==> r == Fail(CorruptFs)
  {
    if CheckSuperblock(d) != Pass || CheckRoot(d) != Pass {
      return Fail(CorruptFs);
    }
    var m := CheckMagicNum(d);
    if m != Pass {
      return Fail(CorruptFs);
    }
    return Pass;
  }

  /** A closed store fails every check: checkfs rejects it. */
  lemma ClosedDiskFailsCheck(d: Disk)
    requires !d.open
    ensures FsCheck(d) == Fail(CorruptFs)
  {
  }

  // ---- the block checks and checkbitmap ----

  /** checkusedblock(disknum, blocknum): the block, read into a zeroed buffer whatever
      readBlock returns, must be a superblock, an inode or an extent. */
  function CheckUsedBlock(d: Disk, a: nat): (r: Outcome)
    ensures r == Pass <==> Kind(ReadOr(d, a, ZERO_BLOCK)) in {SUPERBLOCK, INODE, FILE_EXTENT}
    ensures r != Pass ==> r == Fail(CorruptFs)
  {
    var block := ReadOr(d, a, ZERO_BLOCK);
    if block[0] != SUPERBLOCK && block[0] != INODE && block[0] != FILE_EXTENT then Fail(CorruptFs) else Pass
  }

  /** checkfreeblock(disknum, blocknum): the block must be a free block. */
  function CheckFreeBlock(d: Disk, a: nat): (r: Outcome)
    ensures r == Pass <==> Kind(ReadOr(d, a, ZERO_BLOCK)) == FREE_BLOCK
    ensures r != Pass ==> r == Fail(CorruptFs)
  {
    var block := ReadOr(d, a, ZERO_BLOCK);
    if block[0] != FREE_BLOCK then Fail(CorruptFs) else Pass
  }

  /** What checkbitmap demands of bitmap bit `bit` when it looks at block a: a used bit
      needs a used block, a clear bit a free block. */
  predicate BitAgrees(d: Disk, bm: seq<byte>, bit: nat, a: nat)
    requires bit < 8 * |bm|
  {
    if Used(bm, bit) then CheckUsedBlock(d, a) == Pass else CheckFreeBlock(d, a) == Pass
  }

  /** The addresses the corrected checkbitmap inspects: those below the disk's block
      count and below MAX_NUM_BLOCKS. */
  function CheckedBlocks(d: Disk): (n: nat)
    ensures n <= MAX_NUM_BLOCKS
  {
    if NumBlocks(d.size) <= 0 then 0 else Min(NumBlocks(d.size), MAX_NUM_BLOCKS)
  }

  /** checkbitmap as intended: every address of the disk agrees with its bit. */
  predicate BitmapOk(d: Disk) {
    forall a :: 0 <= a < CheckedBlocks(d) ==> BitAgrees(d, GetBitmap(d), a, a)
  }

  /** The outcome of the corrected checkbitmap from address k on. */
  function BitmapFrom(d: Disk, bm: seq<byte>, k: nat, n: nat): (r: Outcome)
    requires |bm| == BITMAP_SIZE && n <= MAX_NUM_BLOCKS
    ensures r == Pass <==> forall a :: k <= a < n ==> BitAgrees(d, bm, a, a)
    ensures r != Pass ==> r == Fail(CorruptFs)
    decreases n - k
  {
    if k >= n then Pass
    else if !BitAgrees(d, bm, k, k) then Fail(CorruptFs)
    else BitmapFrom(d, bm, k + 1, n)
  }

  /** checkbitmap(disknum) as intended: one loop over the disk's block addresses, each
      checked against its own bitmap bit with checkusedblock or checkfreeblock. */
  method CheckBitmap(d: Disk) returns (r: Outcome)
    ensures r == Pass <==> BitmapOk(d)
    ensures r != Pass ==> r == Fail(CorruptFs)
  {
    var bitmap := GetBitmap(d);
    var numblocks := CheckedBlocks(d);
    var a := 0;
    while a < numblocks
      invariant 0 <= a <= numblocks
      invariant BitmapFrom(d, bitmap, a, numblocks) == BitmapFrom(d, bitmap, 0, numblocks)
    {
      if Used(bitmap, a) {
        if CheckUsedBlock(d, a) != Pass {
          return Fail(CorruptFs);
        }
      } else {
        if CheckFreeBlock(d, a) != Pass {
          return Fail(CorruptFs);
        }
      }
      a := a + 1;
    }
    return Pass;
  }

  /** How many bitmap bytes checkbitmap as written visits: its outer loop stops at
      BITMAP_SIZE or at the block count, whichever comes first. */
  function AsWrittenBytes(d: Disk): (n: nat)
    ensures n <= BITMAP_SIZE
  {
    Min(BITMAP_SIZE, if NumBlocks(d.size) < 0 then 0 else NumBlocks(d.size))
  }

  /** What checkbitmap as written accepts: every bitmap position p it visits agrees
      with the block numbered p as an unsigned char. */
  predicate BitmapAsWrittenOk(d: Disk) {
    forall p :: 0 <= p < 8 * AsWrittenBytes(d) ==> BitAgrees(d, GetBitmap(d), p, p % 256)
  }

  /** checkbitmap as written: the outer loop is bounded by the block count instead of
      the byte count, so it visits AsWrittenBytes(d) bytes; the inner loop takes bit
      7 - inner of byte outer as position outer * 8 + inner, which reaches
      checkusedblock or checkfreeblock as an unsigned char. */
  method CheckBitmapAsWritten(d: Disk) returns (r: Outcome)
    ensures r == Pass <==> BitmapAsWrittenOk(d)
    ensures r != Pass ==> r == Fail(CorruptFs)
  {
    var bitmap := GetBitmap(d);
    var numblocks := NumBlocks(d.size);
    var outer := 0;
    while outer < BITMAP_SIZE && outer < numblocks
      invariant 0 <= outer <= AsWrittenBytes(d)
      invariant forall p :: 0 <= p < 8 * outer ==> BitAgrees(d, bitmap, p, p % 256)
    {
      var ok := CheckByteAsWritten(d, bitmap, outer);
      if !ok {
        return Fail(CorruptFs);
      }
      outer := outer + 1;
    }
    return Pass;
  }

  /** The inner loop of checkbitmap as written over bitmap byte `outer`: true when all
      of its eight positions agree. */
  method CheckByteAsWritten(d: Disk, bitmap: seq<byte>, outer: nat) returns (ok: bool)
    requires |bitmap| == BITMAP_SIZE && outer < BITMAP_SIZE
    ensures ok <==> forall p :: 8 * outer <= p < 8 * outer + 8 ==> BitAgrees(d, bitmap, p, p % 256)
  {
    var inner := 0;
    while inner < BITS_PER_BYTE
      invariant 0 <= inner <= 8
      invariant forall p :: 8 * outer <= p < 8 * outer + inner ==> BitAgrees(d, bitmap, p, p % 256)
    {
      var p := outer * BITS_PER_BYTE + inner;
      AddressParts(outer, inner);
      assert Used(bitmap, p) <==> GetBit(bitmap[outer], 7 - inner) == 1;
      if GetBit(bitmap[outer], 7 - inner) == 1 {
        if CheckUsedBlock(d, p % 256) != Pass {
          assert !BitAgrees(d, bitmap, p, p % 256);
          return false;
        }
      } else {
        if CheckFreeBlock(d, p % 256) != Pass {
          assert !BitAgrees(d, bitmap, p, p % 256);
          return false;
        }
      }
      inner := inner + 1;
    }
    return true;
  }
}
