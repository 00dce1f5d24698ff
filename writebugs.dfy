/** The while loop of tfs_writeFile as written (TinyFS.c:360-397), with its blocksused--
    branching but with the corrected nextFreeBlock (Bitmap.FreeList) as its allocator, so
    that only the loop's own defects show; and what it does to a volume in four cases: a
    one-extent file rewritten in one extent, a one-extent file grown to four, a file shrunk
    to one extent, and an entry whose name no inode carries. */
module WriteAsWritten {
  import opened Layout
  import opened Errors
  import opened Blocks
  import opened Disks
  import opened Bitmap
  import opened Checker
  import opened Files
  import opened Inodes
  import opened Write
  import opened Rewrite

  /** nextFreeBlock(mount, i) as the int the loop stores: the address, or the code of
      ROOT_DIRECTORY_FULL. */
  function NextFreeOrCode(disk: Disk, i: nat): int {
    if i < |FreeList(disk)| then FreeList(disk)[i] else Code(RootDirectoryFull)
  }

  /** The loop's variables: the block to write next, blocksused (below zero once the
      old chain is used up), writes left, free blocks taken, the chunk to copy, and the
      `data` buffer, which a failed read leaves as it was. */
  datatype Run = Run(currentblock: int, blocksused: int, writes: int, i: nat, k: nat, data: Block)

  /** The body's choice of nextblockaddr, with the new blocksused, i and data buffer. */
  function PickAsWritten(disk: Disk, r: Run): (int, int, nat, Block) {
    if r.blocksused == 0 then
      if r.writes != 1 then (NextFreeOrCode(disk, r.i), -1, r.i + 1, r.data)
      else (NULL_ADDR, -1, r.i, r.data)
    else
      var data := ReadOr(disk, r.currentblock, r.data);
      if r.blocksused - 1 != 0 then (Link(data), r.blocksused - 1, r.i, data)
      else (NextFreeOrCode(disk, r.i), 0, r.i + 1, data)
  }

  /** The data block the body builds: the chosen link as a byte, chunk k of the buffer. */
  function BlockAsWritten(disk: Disk, r: Run, buffer: seq<byte>): Block {
    MakeDataBlock(CByte(PickAsWritten(disk, r).0), Chunk(buffer, r.k))
  }

  /** The loop variables after the body. */
  function NextRun(disk: Disk, r: Run, buffer: seq<byte>): Run {
    var (next, used, i, _) := PickAsWritten(disk, r);
    Run(next, used, r.writes - 1, i, r.k + 1, BlockAsWritten(disk, r, buffer))
  }

  /** How the loop ends: after its last iteration with the disk and the bitmap copy; at
      a failed writeBlock, which tfs_writeFile returns; or at the assert after
      nextFreeBlock, which stops the process. */
  datatype Ending = Ended(disk: Disk, bitmap: seq<byte>) | Stopped(error: Error, at: Disk) | Aborted

  /** The loop from r on. setBitmap takes the block number as an unsigned char. */
  function LoopAsWritten(disk: Disk, bm: seq<byte>, r: Run, buffer: seq<byte>): (e: Ending)
    requires |bm| == BITMAP_SIZE
    ensures e.Ended? ==> |e.bitmap| == BITMAP_SIZE
    decreases if r.writes > 0 then r.writes else 0
  {
    if r.writes <= 0 then Ended(disk, bm)
    else if r.blocksused == 0 && r.writes != 1 && PickAsWritten(disk, r).0 == Code(RootDirectoryFull) then Aborted
    else
      match WriteBlock(disk, r.currentblock, BlockAsWritten(disk, r, buffer))
      case Err(e) => Stopped(e, disk)
      case Ok(disk') => LoopAsWritten(disk', Mark(bm, CByte(r.currentblock) as int, InUse), NextRun(disk, r, buffer), buffer)
  }

  /** What tfs_writeFile returns and leaves on the volume. */
  datatype WriteEnd = Written(disk: Disk) | Refused(error: Error, on: Disk) | Died

  /** tfs_writeFile as written for the file whose inode is v: the access stamp, the room
      check, the loop, the bitmap, the inode and the modification stamp. */
  function WriteOnDiskAsWritten(d: Disk, v: nat, buffer: seq<byte>, now: int): WriteEnd
    requires v < MAX_NUM_BLOCKS && |buffer| < 0x8000_0000
  {
    ToByteValue(v);
    Resume(d, UpdateTime(d, ToByte(v), Accessed, now), v, buffer, now)
  }

  /** tfs_writeFile after the access stamp, which left the volume d1. */
  function Resume(d: Disk, d1: Disk, v: nat, buffer: seq<byte>, now: int): WriteEnd
    requires v < MAX_NUM_BLOCKS && |buffer| < 0x8000_0000
  {
    var inode := ReadOr(d1, v, ZERO_BLOCK);
    var blocks := Needed(buffer);
    var need := blocks - BlockCount(inode);
    if need > 0 && need - 1 >= |FreeList(d1)| then Refused(RootDirectoryFull, d1)
    else
      match LoopAsWritten(d1, GetBitmap(d1), Run(Link(inode), BlockCount(inode), blocks, 0, 0, ZERO_BLOCK), buffer)
      case Ended(d2, bm) =>
        Written(UpdateTime(WriteOr(UpdateBitmap(d2, bm), v, SizedInode(d, v, buffer, now)), ToByte(v), Modified, now))
      case Stopped(e, d2) => Refused(e, d2)
      case Aborted => Died
  }

  // ---- unrolling ----

  /** One iteration that writes its block. */
  lemma Unroll(disk: Disk, bm: seq<byte>, r: Run, buffer: seq<byte>)
    requires |bm| == BITMAP_SIZE && r.writes > 0 && disk.open && 0 <= r.currentblock < |disk.blocks|
    requires !(r.blocksused == 0 && r.writes != 1 && PickAsWritten(disk, r).0 == Code(RootDirectoryFull))
    ensures LoopAsWritten(disk, bm, r, buffer)
         == LoopAsWritten(disk.(blocks := disk.blocks[r.currentblock := BlockAsWritten(disk, r, buffer)]),
                          Mark(bm, CByte(r.currentblock) as int, InUse), NextRun(disk, r, buffer), buffer)
  {
  }

  /** The volume tfs_writeFile starts the loop on: the access stamp changed only the
      inode, and the old chain and the free list lie apart. */
  lemma Start(d: Disk, v: nat, now: int)
    requires Consistent(d) && Live(d.blocks, v)
    ensures v < MAX_NUM_BLOCKS
    ensures var d1 := UpdateTime(d, ToByte(v), Accessed, now);
      var oc := Extents(d.blocks, v);
      var fl := FreeList(d);
      d1 == d.(blocks := d1.blocks) && d1.open && |d1.blocks| == |d.blocks| && 2 <= v < |d.blocks|
      && (forall x :: 0 <= x < |d.blocks| && x != v ==> d1.blocks[x] == d.blocks[x])
      && FreeList(d1) == fl && BlockCount(d1.blocks[v]) == |oc| && Link(d1.blocks[v]) == oc[0]
      && Distinct(oc) && Distinct(fl)
      && (forall i :: 0 <= i < |oc| ==> 2 <= oc[i] < |d.blocks| && oc[i] != v && Used(Bm(d.blocks), oc[i]))
      && (forall i :: 0 <= i < |oc| - 1 ==> Link(d.blocks[oc[i]]) == oc[i + 1])
      && (forall j :: 0 <= j < |fl| ==> 2 <= fl[j] < |d.blocks| && fl[j] != v && d.blocks[fl[j]] == FREE && !Used(Bm(d.blocks), fl[j]))
      && GetBitmap(d1) == Bm(d.blocks)
      && (forall i, j :: 0 <= i < |oc| && 0 <= j < |fl| ==> oc[i] != fl[j])
  {
    var B := d.blocks;
    Stamped(d, v, now);
    OldChain(B, v);
    FreeApart(d, v);
    var oc := Extents(B, v);
    forall i | 0 <= i < |oc|
      ensures Used(Bm(B), oc[i])
    {
      assert oc[i] in Footprint(B, v);
    }
    forall j | 0 <= j < |FreeList(d)|
      ensures B[FreeList(d)[j]] == FREE
    {
      assert Agrees(B, FreeList(d)[j]);
    }
  }

  /** After the loop: the bitmap, the inode and the stamp touch only blocks 0 and v. */
  lemma Finish(d2: Disk, bm: seq<byte>, v: nat, si: Block, now: int)
    requires d2.open && 2 <= v < |d2.blocks| && v < MAX_NUM_BLOCKS && |bm| == BITMAP_SIZE
    ensures var d' := UpdateTime(WriteOr(UpdateBitmap(d2, bm), v, si), ToByte(v), Modified, now);
      |d'.blocks| == |d2.blocks| && d'.blocks[0] == d2.blocks[0][..4] + bm && Bm(d'.blocks) == bm
      && d'.blocks[v] == PutTime(si, Modified, now)
      && forall x :: 0 < x < |d2.blocks| && x != v ==> d'.blocks[x] == d2.blocks[x]
  {
    var d3 := UpdateBitmap(d2, bm);
    BitmapRoundTrip(d2, bm);
    var d4 := WriteOr(d3, v, si);
    ToByteValue(v);
    assert ReadOr(d4, v, ZERO_BLOCK) == si;
    assert (d2.blocks[0][..4] + bm)[4..] == bm;
  }

  /** The inode tfs_writeFile writes back counts n extents and keeps its link. */
  lemma NewCount(d: Disk, v: nat, buffer: seq<byte>, now: int)
    requires d.open && 2 <= v < |d.blocks| <= MAX_NUM_BLOCKS && |buffer| < 0x8000_0000 && Needed(buffer) < 256
    requires Kind(d.blocks[v]) == INODE
    ensures var ib := PutTime(SizedInode(d, v, buffer, now), Modified, now);
      BlockCount(ib) == Needed(buffer) && Link(ib) == Link(d.blocks[v])
  {
    SizedIs(d, v, buffer, now);
    Small(Needed(buffer));
    ToByteValue(Needed(buffer));
    InodeShape(d.blocks[v], ToByte(Needed(buffer) % 256), |buffer|, now);
  }

  /** For a buffer of at most one block's data, the inode written back counts one extent. */
  lemma OneExtentInode(d: Disk, v: nat, buffer: seq<byte>, now: int)
    requires d.open && 2 <= v < |d.blocks| <= MAX_NUM_BLOCKS && |buffer| <= DATA_SIZE && Kind(d.blocks[v]) == INODE
    ensures var ib := PutTime(SizedInode(d, v, buffer, now), Modified, now);
      BlockCount(ib) == 1 && Link(ib) == Link(d.blocks[v])
  {
    assert Needed(buffer) == 1;
    NewCount(d, v, buffer, now);
  }

  // ---- a one-extent file rewritten in one extent ----

  /** B' holds at a the extent of chunk 0 linked to f and flagged VALID, while f is
      still free in the bitmap and the file whose inode is v is not well-formed. */
  predicate LinkedOn(B: seq<Block>, B': seq<Block>, v: nat, a: nat, f: nat, buffer: seq<byte>) {
    2 <= |B| && |B'| == |B| && a < |B| && f < MAX_NUM_BLOCKS
    && B'[a] == MakeDataBlock(ToByte(f), Chunk(buffer, 0))
    && Link(B'[a]) == f != NULL_ADDR && Flag(B'[a]) == VALID
    && !Used(Bm(B'), f) && !FileOk(B', v)
  }

  /** With one old block and one write, `blocksused--` reaches 0 in the else branch, so
      the last block is linked to the first free block instead of NULL_ADDR and flagged
      VALID: the file written is not well-formed, and the block it now links to is still
      free. */
  lemma LastLinkAsWritten(d: Disk, v: nat, buffer: seq<byte>, now: int)
    requires Consistent(d) && Live(d.blocks, v) && BlockCount(d.blocks[v]) == 1
    requires |buffer| <= DATA_SIZE && |FreeList(d)| >= 1
    ensures v < MAX_NUM_BLOCKS
    ensures var r := WriteOnDiskAsWritten(d, v, buffer, now);
      r.Written? && LinkedOn(d.blocks, r.disk.blocks, v, Extents(d.blocks, v)[0], FreeList(d)[0], buffer)
  {
    Start(d, v, now);
    OldChain(d.blocks, v);
    LastLinkFrom(d, UpdateTime(d, ToByte(v), Accessed, now), v, buffer, now, Extents(d.blocks, v)[0], FreeList(d)[0]);
  }

  /** LastLinkAsWritten, from the facts Start states about the volume. */
  lemma LastLinkFrom(d: Disk, d1: Disk, v: nat, buffer: seq<byte>, now: int, a: nat, f: nat)
    requires 2 <= v < |d.blocks| <= MAX_NUM_BLOCKS && Kind(d.blocks[v]) == INODE && |buffer| <= DATA_SIZE && d.open
    requires d1.open && |d1.blocks| == |d.blocks| && (forall x :: 0 <= x < |d.blocks| && x != v ==> d1.blocks[x] == d.blocks[x])
    requires FreeList(d1) == FreeList(d) && GetBitmap(d1) == Bm(d.blocks)
    requires BlockCount(d1.blocks[v]) == 1 && Link(d1.blocks[v]) == a
    requires BlockCount(d.blocks[v]) == 1 && Link(d.blocks[v]) == a
    requires 2 <= a < |d.blocks| && a != v && |FreeList(d)| >= 1 && f == FreeList(d)[0]
    requires 2 <= f < |d.blocks| && f != a && !Used(Bm(d.blocks), f)
    ensures var r := Resume(d, d1, v, buffer, now);
      r.Written? && LinkedOn(d.blocks, r.disk.blocks, v, a, f, buffer)
  {
    var B := d.blocks;
    var blk := MakeDataBlock(ToByte(f), Chunk(buffer, 0));
    var bm := Mark(Bm(B), a, InUse);
    var d2 := d1.(blocks := d1.blocks[a := blk]);
    LoopOne(d1, a, f, buffer, Bm(B));
    Launched(d, d1, v, buffer, now, a, 1, Ended(d2, bm));
    OneExtentBlocks(d, d2, v, buffer, now, a, f, blk, bm);
  }

  /** The blocks the one-extent rewrite leaves, once the loop has written blk at a. */
  lemma OneExtentBlocks(d: Disk, d2: Disk, v: nat, buffer: seq<byte>, now: int, a: nat, f: nat, blk: Block, bm: seq<byte>)
    requires 2 <= v < |d.blocks| <= MAX_NUM_BLOCKS && Kind(d.blocks[v]) == INODE && |buffer| <= DATA_SIZE && d.open
    requires 2 <= a < |d.blocks| && a != v && 2 <= f < |d.blocks| && f != a && !Used(Bm(d.blocks), f)
    requires d2.open && |d2.blocks| == |d.blocks| && d2.blocks[a] == blk && Link(d2.blocks[v]) == Link(d.blocks[v]) == a
    requires BlockCount(d.blocks[v]) == 1 && blk == MakeDataBlock(ToByte(f), Chunk(buffer, 0)) && bm == Mark(Bm(d.blocks), a, InUse)
    ensures LinkedOn(d.blocks, UpdateTime(WriteOr(UpdateBitmap(d2, bm), v, SizedInode(d, v, buffer, now)), ToByte(v), Modified, now).blocks,
                     v, a, f, buffer)
  {
    var si := SizedInode(d, v, buffer, now);
    var d' := UpdateTime(WriteOr(UpdateBitmap(d2, bm), v, si), ToByte(v), Modified, now);
    OneExtentInode(d, v, buffer, now);
    Finish(d2, bm, v, si, now);
    ToByteValue(f);
    OneLinkBroken(d.blocks, d'.blocks, v, a, f, blk, bm);
  }

  /** The loop on a one-extent file with one write: one iteration, which links the
      block to the first free block. */
  lemma LoopOne(d1: Disk, a: nat, f: nat, buffer: seq<byte>, bm0: seq<byte>)
    requires d1.open && a < |d1.blocks| <= MAX_NUM_BLOCKS && |FreeList(d1)| >= 1 && f == FreeList(d1)[0] && GetBitmap(d1) == bm0
    ensures f < MAX_NUM_BLOCKS && a < MAX_NUM_BLOCKS
    ensures LoopAsWritten(d1, GetBitmap(d1), Run(a, 1, 1, 0, 0, ZERO_BLOCK), buffer)
         == Ended(d1.(blocks := d1.blocks[a := MakeDataBlock(ToByte(f), Chunk(buffer, 0))]), Mark(bm0, a, InUse))
  {
    var r0 := Run(a, 1, 1, 0, 0, ZERO_BLOCK);
    assert PickAsWritten(d1, r0).0 == f;
    assert CByte(f) == ToByte(f) by { Small(f); }
    assert CByte(a) as int == a;
    Unroll(d1, GetBitmap(d1), r0, buffer);
  }

  /** tfs_writeFile as written, when the room check passes and the loop ends normally,
      writes back the bitmap, the inode and the stamp. */
  lemma Launched(d: Disk, d1: Disk, v: nat, buffer: seq<byte>, now: int, a: nat, u: nat, e: Ending)
    requires v < MAX_NUM_BLOCKS && |buffer| < 0x8000_0000 && e.Ended? && d1.open && v < |d1.blocks|
    requires BlockCount(d1.blocks[v]) == u && Link(d1.blocks[v]) == a
    requires Needed(buffer) <= u || Needed(buffer) - u - 1 < |FreeList(d1)|
    requires LoopAsWritten(d1, GetBitmap(d1), Run(a, u, Needed(buffer), 0, 0, ZERO_BLOCK), buffer) == e
    ensures Resume(d, d1, v, buffer, now)
         == Written(UpdateTime(WriteOr(UpdateBitmap(e.disk, e.bitmap), v, SizedInode(d, v, buffer, now)), ToByte(v), Modified, now))
  {
  }

  /** The blocks the one-extent rewrite leaves: the inode counts one extent, and that
      extent links on. */
  lemma OneLinkBroken(B: seq<Block>, B': seq<Block>, v: nat, a: nat, f: nat, blk: Block, bm: seq<byte>)
    requires 2 <= v < |B| <= MAX_NUM_BLOCKS && a < |B| && a != v && f < |B|
    requires |B'| == |B| && B'[a] == blk && Link(blk) == f != NULL_ADDR && Bm(B') == bm
    requires bm == Mark(Bm(B), a, InUse)
    requires BlockCount(B'[v]) == 1 && Link(B'[v]) == a && f != a && !Used(Bm(B), f)
    ensures !Used(Bm(B'), f) && !FileOk(B', v)
  {
    assert Extents(B', v) == [a];
  }

  /** The block an iteration builds, for a link that fits in its byte. */
  lemma BlockIs(disk: Disk, r: Run, buffer: seq<byte>, next: int)
    requires PickAsWritten(disk, r).0 == next && 0 <= next < MAX_NUM_BLOCKS
    ensures BlockAsWritten(disk, r, buffer) == MakeDataBlock(ToByte(next), Chunk(buffer, r.k))
  {
    assert CByte(next) == ToByte(next) by { Small(next); }
  }

  /** One iteration that writes its block, with the link the body picks spelled out. */
  lemma StepTo(disk: Disk, bm: seq<byte>, r: Run, buffer: seq<byte>, next: int, used: int, i: nat, data: Block, blk: Block)
    requires |bm| == BITMAP_SIZE && r.writes > 0 && disk.open && 0 <= r.currentblock < |disk.blocks| <= MAX_NUM_BLOCKS
    requires PickAsWritten(disk, r) == (next, used, i, data) && 0 <= next < MAX_NUM_BLOCKS
    requires blk == MakeDataBlock(ToByte(next), Chunk(buffer, r.k))
    ensures LoopAsWritten(disk, bm, r, buffer)
         == LoopAsWritten(disk.(blocks := disk.blocks[r.currentblock := blk]), Mark(bm, r.currentblock, InUse),
                          Run(next, used, r.writes - 1, i, r.k + 1, blk), buffer)
  {
    BlockIs(disk, r, buffer, next);
    assert CByte(r.currentblock) as int == r.currentblock;
    assert NextRun(disk, r, buffer) == Run(next, used, r.writes - 1, i, r.k + 1, blk);
    Unroll(disk, bm, r, buffer);
  }

  /** An iteration that follows the old chain: blocksused stays nonzero after `--`. */
  lemma StepOld(disk: Disk, bm: seq<byte>, r: Run, buffer: seq<byte>)
    requires |bm| == BITMAP_SIZE && r.writes > 0 && disk.open && 0 <= r.currentblock < |disk.blocks| <= MAX_NUM_BLOCKS
    requires r.blocksused != 0 && r.blocksused != 1
    ensures var next := Link(disk.blocks[r.currentblock]);
      var blk := MakeDataBlock(ToByte(next), Chunk(buffer, r.k));
      LoopAsWritten(disk, bm, r, buffer)
      == LoopAsWritten(disk.(blocks := disk.blocks[r.currentblock := blk]), Mark(bm, r.currentblock, InUse),
                       Run(next, r.blocksused - 1, r.writes - 1, r.i, r.k + 1, blk), buffer)
  {
    var data := disk.blocks[r.currentblock];
    assert PickAsWritten(disk, r) == (Link(data), r.blocksused - 1, r.i, data);
    StepTo(disk, bm, r, buffer, Link(data), r.blocksused - 1, r.i, data, MakeDataBlock(ToByte(Link(data)), Chunk(buffer, r.k)));
  }

  /** The iteration that uses up the old chain: `blocksused--` reaches 0 and the link is
      the next free block. */
  lemma StepLast(disk: Disk, bm: seq<byte>, r: Run, buffer: seq<byte>)
    requires |bm| == BITMAP_SIZE && r.writes > 0 && disk.open && 0 <= r.currentblock < |disk.blocks| <= MAX_NUM_BLOCKS
    requires r.blocksused == 1 && r.i < |FreeList(disk)|
    ensures var next := FreeList(disk)[r.i];
      var blk := MakeDataBlock(ToByte(next), Chunk(buffer, r.k));
      LoopAsWritten(disk, bm, r, buffer)
      == LoopAsWritten(disk.(blocks := disk.blocks[r.currentblock := blk]), Mark(bm, r.currentblock, InUse),
                       Run(next, 0, r.writes - 1, r.i + 1, r.k + 1, blk), buffer)
  {
    var next := FreeList(disk)[r.i];
    var data := disk.blocks[r.currentblock];
    assert PickAsWritten(disk, r) == (next, 0, r.i + 1, data);
    StepTo(disk, bm, r, buffer, next, 0, r.i + 1, data, MakeDataBlock(ToByte(next), Chunk(buffer, r.k)));
  }

  /** An iteration with blocksused at 0 and more writes to come: the link is the next
      free block and blocksused becomes -1. */
  lemma StepFree(disk: Disk, bm: seq<byte>, r: Run, buffer: seq<byte>)
    requires |bm| == BITMAP_SIZE && r.writes > 1 && disk.open && 0 <= r.currentblock < |disk.blocks| <= MAX_NUM_BLOCKS
    requires r.blocksused == 0 && r.i < |FreeList(disk)|
    ensures var next := FreeList(disk)[r.i];
      var blk := MakeDataBlock(ToByte(next), Chunk(buffer, r.k));
      LoopAsWritten(disk, bm, r, buffer)
      == LoopAsWritten(disk.(blocks := disk.blocks[r.currentblock := blk]), Mark(bm, r.currentblock, InUse),
                       Run(next, -1, r.writes - 1, r.i + 1, r.k + 1, blk), buffer)
  {
    var next := FreeList(disk)[r.i];
    assert PickAsWritten(disk, r) == (next, -1, r.i + 1, r.data);
    StepTo(disk, bm, r, buffer, next, -1, r.i + 1, r.data, MakeDataBlock(ToByte(next), Chunk(buffer, r.k)));
  }

  // ---- a file shrunk to one extent ----

  /** B' holds at oc[0] the extent of chunk 0, still linked to oc[1] and flagged VALID,
      and every later block of the old chain oc unchanged and still marked used, while
      the file whose inode is v is not well-formed. */
  predicate LeftOver(B: seq<Block>, B': seq<Block>, v: nat, oc: seq<nat>, buffer: seq<byte>) {
    2 <= |B| <= MAX_NUM_BLOCKS && |B'| == |B| && |oc| >= 2 && (forall k :: 0 <= k < |oc| ==> oc[k] < |B|) && oc[1] < MAX_NUM_BLOCKS
    && B'[oc[0]] == MakeDataBlock(ToByte(oc[1]), Chunk(buffer, 0)) && Flag(B'[oc[0]]) == VALID
    && (forall k :: 1 <= k < |oc| ==> B'[oc[k]] == B[oc[k]] && Used(Bm(B'), oc[k]))
    && !FileOk(B', v)
  }

  /** Shrinking a file of two or more extents to one: `blocksused--` leaves blocksused
      nonzero, so the one block written keeps the old link and flag VALID, nothing frees
      the rest of the old chain, and its blocks stay marked used while the inode counts
      one extent: they are lost to the volume. */
  lemma ShrinkAsWritten(d: Disk, v: nat, buffer: seq<byte>, now: int)
    requires Consistent(d) && Live(d.blocks, v) && BlockCount(d.blocks[v]) >= 2 && |buffer| <= DATA_SIZE
    ensures v < MAX_NUM_BLOCKS
    ensures var r := WriteOnDiskAsWritten(d, v, buffer, now);
      r.Written? && LeftOver(d.blocks, r.disk.blocks, v, Extents(d.blocks, v), buffer)
  {
    Start(d, v, now);
    OldChain(d.blocks, v);
    ShrinkFrom(d, UpdateTime(d, ToByte(v), Accessed, now), v, buffer, now, Extents(d.blocks, v));
  }

  /** ShrinkAsWritten, from the facts Start states about the volume. */
  lemma ShrinkFrom(d: Disk, d1: Disk, v: nat, buffer: seq<byte>, now: int, oc: seq<nat>)
    requires 2 <= v < |d.blocks| <= MAX_NUM_BLOCKS && Kind(d.blocks[v]) == INODE && |buffer| <= DATA_SIZE && d.open
    requires |oc| >= 2 && BlockCount(d.blocks[v]) == |oc| && Link(d.blocks[v]) == oc[0] && Distinct(oc)
    requires forall i :: 0 <= i < |oc| ==> 2 <= oc[i] < |d.blocks| && oc[i] != v && Used(Bm(d.blocks), oc[i])
    requires Link(d.blocks[oc[0]]) == oc[1]
    requires d1.open && |d1.blocks| == |d.blocks| && (forall x :: 0 <= x < |d.blocks| && x != v ==> d1.blocks[x] == d.blocks[x])
    requires GetBitmap(d1) == Bm(d.blocks) && BlockCount(d1.blocks[v]) == |oc| && Link(d1.blocks[v]) == oc[0]
    ensures var r := Resume(d, d1, v, buffer, now);
      r.Written? && LeftOver(d.blocks, r.disk.blocks, v, oc, buffer)
  {
    var B := d.blocks;
    var blk := MakeDataBlock(ToByte(oc[1]), Chunk(buffer, 0));
    ShrinkLoop(d1, oc[0], oc[1], |oc|, buffer, Bm(B));
    var d2 := d1.(blocks := d1.blocks[oc[0] := blk]);
    var bm := Mark(Bm(B), oc[0], InUse);
    Launched(d, d1, v, buffer, now, oc[0], |oc|, Ended(d2, bm));
    ShrunkBlocks(d, d1, v, buffer, now, oc);
  }

  /** The loop on a file of u >= 2 extents with one write: one iteration, which keeps
      the old link. */
  lemma ShrinkLoop(d1: Disk, a: nat, b: nat, u: int, buffer: seq<byte>, bm0: seq<byte>)
    requires d1.open && a < |d1.blocks| <= MAX_NUM_BLOCKS && Link(d1.blocks[a]) == b && u >= 2 && GetBitmap(d1) == bm0
    ensures LoopAsWritten(d1, GetBitmap(d1), Run(a, u, 1, 0, 0, ZERO_BLOCK), buffer)
         == Ended(d1.(blocks := d1.blocks[a := MakeDataBlock(ToByte(b), Chunk(buffer, 0))]), Mark(bm0, a, InUse))
  {
    StepOld(d1, GetBitmap(d1), Run(a, u, 1, 0, 0, ZERO_BLOCK), buffer);
  }

  /** The blocks the shrinking rewrite leaves, once the loop has written blk at oc[0]. */
  lemma ShrunkBlocks(d: Disk, d1: Disk, v: nat, buffer: seq<byte>, now: int, oc: seq<nat>)
    requires 2 <= v < |d.blocks| <= MAX_NUM_BLOCKS && Kind(d.blocks[v]) == INODE && |buffer| <= DATA_SIZE && d.open
    requires |oc| >= 2 && Distinct(oc) && forall i :: 0 <= i < |oc| ==> 2 <= oc[i] < |d.blocks| && oc[i] != v && Used(Bm(d.blocks), oc[i])
    requires Link(d.blocks[v]) == oc[0]
    requires d1.open && |d1.blocks| == |d.blocks| && (forall x :: 0 <= x < |d.blocks| && x != v ==> d1.blocks[x] == d.blocks[x])
    requires Link(d1.blocks[v]) == oc[0]
    ensures var blk := MakeDataBlock(ToByte(oc[1]), Chunk(buffer, 0));
      var d2 := d1.(blocks := d1.blocks[oc[0] := blk]);
      var bm := Mark(Bm(d.blocks), oc[0], InUse);
      LeftOver(d.blocks, UpdateTime(WriteOr(UpdateBitmap(d2, bm), v, SizedInode(d, v, buffer, now)), ToByte(v), Modified, now).blocks,
               v, oc, buffer)
  {
    var blk := MakeDataBlock(ToByte(oc[1]), Chunk(buffer, 0));
    var d2 := d1.(blocks := d1.blocks[oc[0] := blk]);
    var bm := Mark(Bm(d.blocks), oc[0], InUse);
    var si := SizedInode(d, v, buffer, now);
    var B' := UpdateTime(WriteOr(UpdateBitmap(d2, bm), v, si), ToByte(v), Modified, now).blocks;
    OneExtentInode(d, v, buffer, now);
    Finish(d2, bm, v, si, now);
    assert |d2.blocks| == |d.blocks| && B'[v] == PutTime(si, Modified, now);
    ChainKept(d.blocks, d1.blocks, d2.blocks, B', v, oc, blk);
    ShrunkOn(d.blocks, B', v, oc, blk, bm, buffer);
  }

  /** Blocks B1 keeps from B outside v, then B2 writes blk at oc[0], then B' keeps from
      B2 outside 0 and v: B' holds blk at oc[0] and the rest of oc as B does. */
  lemma ChainKept(B: seq<Block>, B1: seq<Block>, B2: seq<Block>, B': seq<Block>, v: nat, oc: seq<nat>, blk: Block)
    requires |oc| >= 1 && Distinct(oc) && forall i :: 0 <= i < |oc| ==> 2 <= oc[i] < |B| && oc[i] != v
    requires |B1| == |B| && forall x :: 0 <= x < |B| && x != v ==> B1[x] == B[x]
    requires B2 == B1[oc[0] := blk]
    requires |B'| == |B2| && forall x :: 0 < x < |B2| && x != v ==> B'[x] == B2[x]
    ensures B'[oc[0]] == blk
    ensures forall i :: 1 <= i < |oc| ==> B'[oc[i]] == B[oc[i]]
  {
    forall i | 1 <= i < |oc|
      ensures B'[oc[i]] == B[oc[i]]
    {
      assert oc[i] != oc[0];
    }
  }

  /** The blocks the shrinking rewrite leaves: the inode counts one extent, that extent
      links on, and the rest of the old chain is as it was. */
  lemma ShrunkOn(B: seq<Block>, B': seq<Block>, v: nat, oc: seq<nat>, blk: Block, bm: seq<byte>, buffer: seq<byte>)
    requires 2 <= v < |B| <= MAX_NUM_BLOCKS && |B'| == |B| && |oc| >= 2 && Distinct(oc)
    requires forall i :: 0 <= i < |oc| ==> 2 <= oc[i] < |B| && oc[i] != v && Used(Bm(B), oc[i])
    requires B'[oc[0]] == blk && blk == MakeDataBlock(ToByte(oc[1]), Chunk(buffer, 0))
    requires forall i :: 1 <= i < |oc| ==> B'[oc[i]] == B[oc[i]]
    requires Bm(B') == bm && bm == Mark(Bm(B), oc[0], InUse)
    requires BlockCount(B'[v]) == 1 && Link(B'[v]) == oc[0]
    ensures LeftOver(B, B', v, oc, buffer)
  {
    ToByteValue(oc[1]);
    assert oc[1] != oc[0];
    assert Extents(B', v) == [oc[0]];
    RestKept(B, B', oc, bm);
  }

  /** The blocks of the old chain after the first keep their contents and their bits. */
  lemma RestKept(B: seq<Block>, B': seq<Block>, oc: seq<nat>, bm: seq<byte>)
    requires 0 < |B| <= MAX_NUM_BLOCKS && |B'| == |B| && |oc| >= 1 && Distinct(oc)
    requires forall i :: 0 <= i < |oc| ==> 0 < oc[i] < |B| && Used(Bm(B), oc[i])
    requires forall i :: 1 <= i < |oc| ==> B'[oc[i]] == B[oc[i]]
    requires Bm(B') == bm == Mark(Bm(B), oc[0], InUse)
    ensures forall k :: 1 <= k < |oc| ==> B'[oc[k]] == B[oc[k]] && Used(Bm(B'), oc[k])
  {
    forall k | 1 <= k < |oc|
      ensures Used(Bm(B'), oc[k])
    {
      assert oc[k] != oc[0];
    }
  }

  // ---- a one-extent file grown to four extents ----

  /** Growing a one-extent file to four: the second iteration takes blocksused from 0
      to -1, so the third reads the free block it is about to write as if it were part
      of the old chain, takes its zero link, and the fourth iteration writes its extent
      over the superblock: the volume no longer passes checksuperblock. */
  lemma ZeroAsWritten(d: Disk, v: nat, buffer: seq<byte>, now: int)
    requires Consistent(d) && Live(d.blocks, v) && BlockCount(d.blocks[v]) == 1
    requires Needed(buffer) == 4 && |buffer| < 0x8000_0000 && |FreeList(d)| >= 3
    ensures v < MAX_NUM_BLOCKS
    ensures var r := WriteOnDiskAsWritten(d, v, buffer, now);
      r.Written? && |r.disk.blocks| == |d.blocks| && Kind(r.disk.blocks[SUPERBLOCK_ADDR]) == FILE_EXTENT
      && CheckSuperblock(r.disk) == Fail(CorruptFs)
  {
    Start(d, v, now);
    OldChain(d.blocks, v);
    var fl := FreeList(d);
    ZeroFrom(d, UpdateTime(d, ToByte(v), Accessed, now), v, buffer, now, Extents(d.blocks, v)[0], fl[0], fl[1]);
  }

  /** ZeroAsWritten, from the facts Start states about the volume. */
  lemma ZeroFrom(d: Disk, d1: Disk, v: nat, buffer: seq<byte>, now: int, a: nat, f0: nat, f1: nat)
    requires 2 <= v < |d.blocks| <= MAX_NUM_BLOCKS && Needed(buffer) == 4 && |buffer| < 0x8000_0000 && d.open
    requires Link(d.blocks[SUPERBLOCK_ADDR]) == ROOT_ADDR
    requires d1.open && |d1.blocks| == |d.blocks| && (forall x :: 0 <= x < |d.blocks| && x != v ==> d1.blocks[x] == d.blocks[x])
    requires BlockCount(d1.blocks[v]) == 1 && Link(d1.blocks[v]) == a
    requires |FreeList(d1)| >= 3 && FreeList(d1)[0] == f0 && FreeList(d1)[1] == f1
    requires 2 <= a < |d.blocks| && 2 <= f0 < |d.blocks| && 2 <= f1 < |d.blocks|
    requires a != v && f0 != v && f1 != v && a != f0 && a != f1 && f0 != f1 && d.blocks[f1] == FREE
    ensures var r := Resume(d, d1, v, buffer, now);
      r.Written? && |r.disk.blocks| == |d.blocks| && Kind(r.disk.blocks[SUPERBLOCK_ADDR]) == FILE_EXTENT
      && CheckSuperblock(r.disk) == Fail(CorruptFs)
  {
    var e := GrowLoop(d1, buffer, a, f0, f1);
    Launched(d, d1, v, buffer, now, a, 1, e);
    var si := SizedInode(d, v, buffer, now);
    Finish(e.disk, e.bitmap, v, si, now);
    var d' := UpdateTime(WriteOr(UpdateBitmap(e.disk, e.bitmap), v, si), ToByte(v), Modified, now);
    assert d'.blocks[0] == e.disk.blocks[0][..4] + e.bitmap;
    assert d'.open;
  }

  /** The four iterations of the growing loop: the last writes at address 0. */
  lemma GrowLoop(d1: Disk, buffer: seq<byte>, a: nat, f0: nat, f1: nat) returns (e: Ending)
    requires d1.open && 2 <= |d1.blocks| <= MAX_NUM_BLOCKS && Link(d1.blocks[SUPERBLOCK_ADDR]) == ROOT_ADDR
    requires |FreeList(d1)| >= 2 && FreeList(d1)[0] == f0 && FreeList(d1)[1] == f1
    requires 2 <= a < |d1.blocks| && 2 <= f0 < |d1.blocks| && 2 <= f1 < |d1.blocks|
    requires a != f0 && a != f1 && f0 != f1 && d1.blocks[f1] == FREE
    ensures e == LoopAsWritten(d1, GetBitmap(d1), Run(a, 1, 4, 0, 0, ZERO_BLOCK), buffer)
    ensures e.Ended? && |e.disk.blocks| == |d1.blocks| && e.disk.open && Kind(e.disk.blocks[SUPERBLOCK_ADDR]) == FILE_EXTENT
  {
    GrowHead(d1, GetBitmap(d1), buffer, a, f0, f1);
    e := GrowOn(d1, GetBitmap(d1), buffer, a, f0, f1);
  }

  /** The growing loop after its first two iterations, from the blocks they leave. */
  lemma GrowOn(d1: Disk, bm0: seq<byte>, buffer: seq<byte>, a: nat, f0: nat, f1: nat) returns (e: Ending)
    requires d1.open && 2 <= |d1.blocks| <= MAX_NUM_BLOCKS && Link(d1.blocks[SUPERBLOCK_ADDR]) == ROOT_ADDR
    requires |bm0| == BITMAP_SIZE && a < MAX_NUM_BLOCKS && f0 < MAX_NUM_BLOCKS
    requires 2 <= a < |d1.blocks| && 2 <= f0 < |d1.blocks| && 2 <= f1 < |d1.blocks|
    requires a != f1 && f0 != f1 && d1.blocks[f1] == FREE
    ensures var b0 := MakeDataBlock(ToByte(f0), Chunk(buffer, 0));
      var b1 := MakeDataBlock(ToByte(f1), Chunk(buffer, 1));
      e == LoopAsWritten(d1.(blocks := d1.blocks[a := b0][f0 := b1]), Mark(Mark(bm0, a, InUse), f0, InUse),
                         Run(f1, -1, 2, 2, 2, b1), buffer)
    ensures e.Ended? && |e.disk.blocks| == |d1.blocks| && e.disk.open && Kind(e.disk.blocks[SUPERBLOCK_ADDR]) == FILE_EXTENT
  {
    var b0 := MakeDataBlock(ToByte(f0), Chunk(buffer, 0));
    var b1 := MakeDataBlock(ToByte(f1), Chunk(buffer, 1));
    var d3 := d1.(blocks := d1.blocks[a := b0][f0 := b1]);
    assert d3.blocks[f1] == FREE && d3.blocks[SUPERBLOCK_ADDR] == d1.blocks[SUPERBLOCK_ADDR];
    e := GrowTail(d3, d1.blocks[SUPERBLOCK_ADDR], Mark(Mark(bm0, a, InUse), f0, InUse), buffer, f1, b1);
  }

  /** The first two iterations: the old block is linked to the first free block, and
      that one, written with blocksused at 0, to the second. */
  lemma GrowHead(d1: Disk, bm0: seq<byte>, buffer: seq<byte>, a: nat, f0: nat, f1: nat)
    requires d1.open && 2 <= |d1.blocks| <= MAX_NUM_BLOCKS && |bm0| == BITMAP_SIZE
    requires |FreeList(d1)| >= 2 && FreeList(d1)[0] == f0 && FreeList(d1)[1] == f1
    requires 2 <= a < |d1.blocks| && 2 <= f0 < |d1.blocks|
    ensures var b0 := MakeDataBlock(ToByte(f0), Chunk(buffer, 0));
      var b1 := MakeDataBlock(ToByte(f1), Chunk(buffer, 1));
      LoopAsWritten(d1, bm0, Run(a, 1, 4, 0, 0, ZERO_BLOCK), buffer)
      == LoopAsWritten(d1.(blocks := d1.blocks[a := b0][f0 := b1]), Mark(Mark(bm0, a, InUse), f0, InUse),
                       Run(f1, -1, 2, 2, 2, b1), buffer)
  {
    StepLast(d1, bm0, Run(a, 1, 4, 0, 0, ZERO_BLOCK), buffer);
    var b0 := MakeDataBlock(ToByte(f0), Chunk(buffer, 0));
    FreeListAway(d1, a, b0);
    StepFree(d1.(blocks := d1.blocks[a := b0]), Mark(bm0, a, InUse), Run(f0, 0, 3, 1, 1, b0), buffer);
  }

  /** The third and fourth iterations: the free block's zero link sends the fourth
      write to the superblock. */
  lemma GrowTail(d3: Disk, sb: Block, bm2: seq<byte>, buffer: seq<byte>, f1: nat, b1: Block) returns (e: Ending)
    requires d3.open && 2 <= |d3.blocks| <= MAX_NUM_BLOCKS && |bm2| == BITMAP_SIZE && 2 <= f1 < |d3.blocks|
    requires d3.blocks[f1] == FREE && d3.blocks[SUPERBLOCK_ADDR] == sb && Link(sb) == ROOT_ADDR
    ensures e == LoopAsWritten(d3, bm2, Run(f1, -1, 2, 2, 2, b1), buffer)
    ensures e.Ended? && |e.disk.blocks| == |d3.blocks| && e.disk.open && Kind(e.disk.blocks[SUPERBLOCK_ADDR]) == FILE_EXTENT
  {
    var r2 := Run(f1, -1, 2, 2, 2, b1);
    StepOld(d3, bm2, r2, buffer);
    assert Link(FREE) == NULL_ADDR;
    var b2 := MakeDataBlock(ToByte(0), Chunk(buffer, 2));
    var d4 := d3.(blocks := d3.blocks[f1 := b2]);
    var bm3 := Mark(bm2, f1, InUse);
    var r3 := Run(0, -2, 1, 2, 3, b2);
    assert d4.blocks[0] == sb;
    StepOld(d4, bm3, r3, buffer);
    var b3 := MakeDataBlock(ToByte(1), Chunk(buffer, 3));
    var d5 := d4.(blocks := d4.blocks[0 := b3]);
    e := Ended(d5, Mark(bm3, 0, InUse));
  }

  // ---- an entry whose name resolves to no inode ----

  /** tfs_writeFile as written when getInodeBlock finds no inode for the entry's name:
      the int FILE_NOT_FOUND goes on unchecked. updateTime takes it as the unsigned char
      250; readBlock and writeBlock take it as block -6, so the inode buffer stays
      zeroed, the room check counts no old extent, and the loop starts at block 0. */
  function WriteUnfoundAsWritten(d: Disk, buffer: seq<byte>, now: int): WriteEnd
    requires |buffer| < 0x8000_0000
  {
    var inodeblock := Code(FileNotFound);
    var d1 := UpdateTime(d, CByte(inodeblock), Accessed, now);
    var inode := ReadOr(d1, inodeblock, ZERO_BLOCK);
    var blocks := Needed(buffer);
    var need := blocks - BlockCount(inode);
    if need > 0 && need - 1 >= |FreeList(d1)| then Refused(RootDirectoryFull, d1)
    else
      match LoopAsWritten(d1, GetBitmap(d1), Run(Link(inode), BlockCount(inode), blocks, 0, 0, ZERO_BLOCK), buffer)
      case Ended(d2, bm) =>
        Written(UpdateTime(WriteOr(UpdateBitmap(d2, bm), inodeblock, WithSize(inode, CByte(blocks), |buffer|)),
                           CByte(inodeblock), Modified, now))
      case Stopped(e, d2) => Refused(e, d2)
      case Aborted => Died
  }

  /** On a formatted volume with a free block, such a write of at most one extent
      returns 0 having written a data block over the superblock: block 0 now has the
      file-extent type and checkfs rejects the volume. */
  lemma WriteUnfoundHitsSuperblock(d: Disk, buffer: seq<byte>, now: int)
    requires Formatted(d) && FreeList(d) != [] && |buffer| <= DATA_SIZE
    ensures var r := WriteUnfoundAsWritten(d, buffer, now);
      r.Written? && 0 < |r.disk.blocks| && Kind(r.disk.blocks[0]) == FILE_EXTENT
      && FsCheck(r.disk) == Fail(CorruptFs)
  {
    UnfoundStart(d, now);
    var d1 := UpdateTime(d, CByte(Code(FileNotFound)), Accessed, now);
    assert Needed(buffer) == 1;
    UnfoundLoop(d1, buffer);
    var e := LoopAsWritten(d1, GetBitmap(d1), Run(0, 0, 1, 0, 0, ZERO_BLOCK), buffer);
    UnfoundFinish(e.disk, e.bitmap, WithSize(ZERO_BLOCK, CByte(1), |buffer|), now);
  }

  /** The access stamp at 250 leaves block 0 and the free list's start alone, and the
      read at block -6 fails. */
  lemma UnfoundStart(d: Disk, now: int)
    requires Formatted(d) && FreeList(d) != []
    ensures var d1 := UpdateTime(d, CByte(Code(FileNotFound)), Accessed, now);
      d1.open && 0 < |d1.blocks| && d1.blocks[0] == d.blocks[0] && FreeList(d1) != []
      && ReadOr(d1, Code(FileNotFound), ZERO_BLOCK) == ZERO_BLOCK
  {
    ToByteValue(250);
    assert CByte(Code(FileNotFound)) as int == 250;
    var d1 := UpdateTime(d, CByte(Code(FileNotFound)), Accessed, now);
    assert d1.blocks[0] == d.blocks[0];
    assert GetBitmap(d1) == GetBitmap(d);
    FreeBelowPrefix(GetBitmap(d), Limit(d), Limit(d1));
  }

  /** With no old extent and one write the loop writes one data block, at block 0. */
  lemma UnfoundLoop(d1: Disk, buffer: seq<byte>)
    requires d1.open && 0 < |d1.blocks| && |buffer| <= DATA_SIZE
    ensures var e := LoopAsWritten(d1, GetBitmap(d1), Run(0, 0, 1, 0, 0, ZERO_BLOCK), buffer);
      e.Ended? && e.disk.open && 0 < |e.disk.blocks| && Kind(e.disk.blocks[0]) == FILE_EXTENT
  {
    var r := Run(0, 0, 1, 0, 0, ZERO_BLOCK);
    Unroll(d1, GetBitmap(d1), r, buffer);
  }

  /** The bitmap, inode and modification writes after the loop keep block 0's type. */
  lemma UnfoundFinish(d2: Disk, bm: seq<byte>, si: Block, now: int)
    requires d2.open && 0 < |d2.blocks| && |bm| == BITMAP_SIZE
    ensures var d' := UpdateTime(WriteOr(UpdateBitmap(d2, bm), Code(FileNotFound), si), CByte(Code(FileNotFound)), Modified, now);
      0 < |d'.blocks| && Kind(d'.blocks[0]) == Kind(d2.blocks[0])
  {
    ToByteValue(250);
    assert CByte(Code(FileNotFound)) as int == 250;
    var d3 := UpdateBitmap(d2, bm);
    assert d3.blocks[0][0] == d2.blocks[0][0];
  }
}
