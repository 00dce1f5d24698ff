/** tfs_mkfs: the store openDisk creates for a positive byte count, formatted with a
    superblock, the root inode and free blocks. A freshly formatted volume is
    consistent, and checkfs accepts it exactly when its byte count fits the 256 blocks
    the format writes at most. */
module Format {
  import opened Layout
  import opened Errors
  import opened Endian
  import opened Blocks
  import opened Disks
  import opened Bitmap
  import opened Directory
  import opened Checker
  import opened Files

  /** The name tfs_mkfs opens: DEFAULT_DISK_NAME in place of an empty one. */
  function DiskName(filename: string): (n: string)
    ensures n != ""
    ensures filename != "" ==> n == filename
  {
    if filename == "" then DEFAULT_DISK_NAME else filename
  }

  /** The root inode tfs_mkfs writes: named "root", no extents, size 0. */
  const ROOT_INODE: Block := MakeInode(0, ROOT_NAME, 0, 0)

  /** How many free blocks tfs_mkfs writes: one for each address from 2 below both
      MAX_NUM_FREE_BLOCKS + 2 and the block count of nBytes. */
  function FreeCount(nBytes: int): (n: nat)
    ensures n <= MAX_NUM_FREE_BLOCKS
  {
    var top := if NumBlocks(nBytes) < MAX_NUM_FREE_BLOCKS + 2 then NumBlocks(nBytes) else MAX_NUM_FREE_BLOCKS + 2;
    if top <= 2 then 0 else top - 2
  }

  /** n free blocks in a row. */
  function Frees(n: nat): (s: seq<Block>)
    ensures |s| == n && forall i :: 0 <= i < n ==> s[i] == FREE
  {
    seq(n, _ => FREE)
  }

  /** The store tfs_mkfs leaves. */
  function Fresh(name: string, nBytes: int): Disk {
    Disk(name, nBytes, [InitSuperblock(), ROOT_INODE] + Frees(FreeCount(nBytes)), true)
  }

  /** tfs_mkfs's writes on the empty store openDisk creates for a positive nBytes: the
      superblock at 0, the root inode at 1, and a free block at each address the loop
      visits. */
  method FormatDisk(name: string, nBytes: int) returns (d: Disk)
    requires nBytes > 0
    ensures d == Fresh(name, nBytes)
  {
    var blocknum := CDiv(nBytes - 1, BLOCKSIZE) + 1;
    d := Disk(name, nBytes, [], true);
    FormatStart(name, nBytes);
    d := WriteOr(d, SUPERBLOCK_ADDR, InitSuperblock());
    d := WriteOr(d, ROOT_ADDR, ROOT_INODE);
    var addr := 2;
    while addr < MAX_NUM_FREE_BLOCKS + 2 && addr < blocknum
      invariant 2 <= addr <= MAX_NUM_FREE_BLOCKS + 2 && (addr == 2 || addr <= blocknum)
      invariant d == Disk(name, nBytes, [InitSuperblock(), ROOT_INODE] + Frees(addr - 2), true)
    {
      FreeStep(name, nBytes, addr - 2);
      d := WriteOr(d, addr, FREE);
      addr := addr + 1;
    }
  }

  /** tfs_mkfs's first two writes put the superblock and the root inode on the empty store. */
  lemma FormatStart(name: string, nBytes: int)
    ensures WriteOr(WriteOr(Disk(name, nBytes, [], true), SUPERBLOCK_ADDR, InitSuperblock()), ROOT_ADDR, ROOT_INODE)
         == Disk(name, nBytes, [InitSuperblock(), ROOT_INODE] + Frees(0), true)
  {
    assert Store([], SUPERBLOCK_ADDR, InitSuperblock()) == [InitSuperblock()];
    assert Store([InitSuperblock()], ROOT_ADDR, ROOT_INODE) == [InitSuperblock(), ROOT_INODE] + Frees(0);
  }

  /** One pass of tfs_mkfs's loop appends one free block to the store. */
  lemma FreeStep(name: string, nBytes: int, n: nat)
    ensures WriteOr(Disk(name, nBytes, [InitSuperblock(), ROOT_INODE] + Frees(n), true), n + 2, FREE)
         == Disk(name, nBytes, [InitSuperblock(), ROOT_INODE] + Frees(n + 1), true)
  {
    var before := [InitSuperblock(), ROOT_INODE] + Frees(n);
    assert Store(before, n + 2, FREE) == before + [FREE];
    assert Frees(n + 1) == Frees(n) + [FREE];
  }

  // ---- the formatted volume ----

  /** The root inode passes checkroot and points at no file. */
  lemma RootInodeEmpty()
    ensures RootOk(ROOT_INODE) && ROOT_INODE[1] == MAGIC_NUM
    ensures forall i :: 0 <= i < MAX_NUM_FILES ==> Slot(ROOT_INODE, i) == 0
  {
    RootName();
    SizeZero();
    var b := ROOT_INODE;
    forall i | 0 <= i < MAX_NUM_FILES
      ensures Slot(b, i) == 0
    {
      if 1 <= i <= 4 {
        assert b[ROOT_FIRST_ADDR + i] == b[13..17][i - 1];
      }
    }
  }

  /** The root inode's name field holds "root" and four NULs. */
  lemma RootName()
    ensures ROOT_INODE[4..8] == ROOT_NAME && ROOT_INODE[8..12] == [0, 0, 0, 0]
  {
    var b := ROOT_INODE;
    assert NameField(ROOT_NAME) == ROOT_NAME + [0, 0, 0, 0] by {
      assert CPrefix(ROOT_NAME) == ROOT_NAME;
    }
    assert b[4..8] == NameField(ROOT_NAME)[..4];
    assert b[8..12] == NameField(ROOT_NAME)[4..];
  }

  /** Size 0 is stored as four zero bytes. */
  lemma SizeZero()
    ensures EncodeInt32(0) == [0, 0, 0, 0]
  {
    assert EncodeBE(0, 1) == [0];
    assert EncodeBE(0, 2) == [0, 0];
    assert EncodeBE(0, 3) == [0, 0, 0];
  }

  /** A freshly formatted store is a consistent volume with no files. */
  lemma FreshConsistent(name: string, nBytes: int)
    ensures Consistent(Fresh(name, nBytes))
    ensures forall i :: 0 <= i < MAX_NUM_FILES ==> Slot(Fresh(name, nBytes).blocks[ROOT_ADDR], i) == 0
  {
    var d := Fresh(name, nBytes);
    var B := d.blocks;
    RootInodeEmpty();
    assert B[ROOT_ADDR] == ROOT_INODE;
    assert Bm(B) == DEFAULT_BITMAP;
    DefaultBitmapMarks(0);
    DefaultBitmapMarks(1);
    forall x | 2 <= x < |B|
      ensures Agrees(B, x)
    {
      DefaultBitmapMarks(x);
      assert B[x] == FREE;
    }
  }

  /** A freshly formatted volume passes checkfs exactly when nBytes is at most
      MAX_DISK_SIZE: a larger count makes checkmagicnum look past the 256 blocks
      written. */
  lemma FreshChecks(name: string, nBytes: int)
    requires nBytes > 0
    ensures FsCheck(Fresh(name, nBytes)) == Pass <==> nBytes <= MAX_DISK_SIZE
  {
    var d := Fresh(name, nBytes);
    FreshConsistent(name, nBytes);
    NumBlocksCovers(nBytes);
    if nBytes <= MAX_DISK_SIZE {
      assert NumBlocks(nBytes) <= |d.blocks|;
      ConsistentPassesChecks(d);
    } else {
      assert |d.blocks| == MAX_NUM_BLOCKS < NumBlocks(nBytes);
      MagicCheckPasses(d);
    }
  }

  /** checkbitmap as written rejects every freshly formatted volume. Below 256 blocks
      it inspects the position just past the last block, a clear bit whose block reads
      as zeros instead of a free block; at 256 blocks, position 256, a clear bit, reaches
      checkfreeblock as address 0, the superblock. The corrected checkbitmap accepts the
      same volume. */
  lemma CheckBitmapAsWrittenRejectsFresh(name: string, nBytes: int)
    requires 0 < nBytes
    ensures !BitmapAsWrittenOk(Fresh(name, nBytes))
    ensures BitmapOk(Fresh(name, nBytes))
  {
    var d := Fresh(name, nBytes);
    FreshConsistent(name, nBytes);
    NumBlocksCovers(nBytes);
    Reads(d);
    assert Bm(d.blocks) == DEFAULT_BITMAP;
    var p := if |d.blocks| < MAX_NUM_BLOCKS then |d.blocks| else MAX_NUM_BLOCKS;
    DefaultBitmapMarks(p);
    assert p < 8 * AsWrittenBytes(d);
    if p < MAX_NUM_BLOCKS {
      assert ReadOr(d, p % 256, ZERO_BLOCK) == ZERO_BLOCK;
    } else {
      assert ReadOr(d, p % 256, ZERO_BLOCK) == InitSuperblock();
    }
    assert !BitAgrees(d, GetBitmap(d), p, p % 256);
    forall a | 0 <= a < CheckedBlocks(d)
      ensures BitAgrees(d, GetBitmap(d), a, a)
    {
      DefaultBitmapMarks(a);
      if a >= 2 {
        assert Agrees(d.blocks, a);
      }
    }
  }
}
