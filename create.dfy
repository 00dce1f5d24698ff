/** createFile: two free blocks become a file's inode and its one empty extent, and the
    first unused root slot points at the inode. */
module Create {
  import opened Layout
  import opened Errors
  import opened Blocks
  import opened Disks
  import opened Bitmap
  import opened Directory
  import opened Files
  import opened Inodes
  import opened Checker

  /** What createFile writes once it has an inode address, a data address and a slot:
      both bits set in the bitmap, the inode (linked to the data block, one extent,
      size 0), the slot, and an empty extent that ends the chain. */
  function CreateOnDisk(d: Disk, name: seq<byte>, inode: nat, data: nat, slot: nat): Disk
    requires inode < MAX_NUM_BLOCKS && data < MAX_NUM_BLOCKS && slot < MAX_NUM_FILES
  {
    var bm := Mark(Mark(GetBitmap(d), inode, InUse), data, InUse);
    var d1 := UpdateBitmap(d, bm);
    var d2 := WriteOr(d1, inode, MakeInode(ToByte(data), name, 0, 1));
    var d3 := UpdateRoot(d2, ToByte(inode), slot);
    WriteOr(d3, data, MakeDataBlock(0, Zeros(DATA_SIZE)))
  }

  /** createFile's work on the volume. The allocation and the slot are checked before
      anything is written: when fewer than two blocks are free or every slot is in use
      the result is ROOT_DIRECTORY_FULL and the volume is untouched. */
  method CreateOnVolume(d: Disk, name: seq<byte>) returns (r: Result<Disk>, inode: nat, data: nat)
    ensures r.Ok? <==> |FreeList(d)| >= 2 && FirstZeroFrom(Root(d), 0).Ok?
    ensures r.Err? ==> r.error == RootDirectoryFull
    ensures r.Ok? ==> inode == FreeList(d)[0] && data == FreeList(d)[1]
                      && inode < MAX_NUM_BLOCKS && data < MAX_NUM_BLOCKS
                      && r.value == CreateOnDisk(d, name, inode, data, FirstZeroFrom(Root(d), 0).value)
  {
    FreeBelowIncreasing(GetBitmap(d), Limit(d));
    var first := NextFreeBlock(d, 0);
    var second := NextFreeBlock(d, 1);
    if first.Err? || second.Err? {
      return Err(RootDirectoryFull), 0, 0;
    }
    inode, data := first.value, second.value;
    var rootIndex := NextRootAddrIndex(d);
    if rootIndex.Err? {
      return Err(RootDirectoryFull), inode, data;
    }
    var bm := GetBitmap(d);
    var bitmap := new byte[BITMAP_SIZE](i requires 0 <= i < BITMAP_SIZE => bm[i]);
    assert bitmap[..] == bm;
    SetBitmap(bitmap, inode, InUse);
    SetBitmap(bitmap, data, InUse);
    var disk := UpdateBitmap(d, bitmap[..]);
    disk := WriteOr(disk, inode, MakeInode(ToByte(data), name, 0, 1));
    disk := UpdateRoot(disk, ToByte(inode), rootIndex.value);
    disk := WriteOr(disk, data, MakeDataBlock(0, Zeros(DATA_SIZE)));
    return Ok(disk), inode, data;
  }

  // ---- the volume createFile leaves ----

  /** The inode createFile writes: VALID, linked to its one extent at `data`, one block
      in use, size 0, named `name`. */
  predicate FreshInode(ib: Block, data: nat, name: seq<byte>) {
    Kind(ib) == INODE && ib[1] == MAGIC_NUM && Link(ib) == data && Flag(ib) == VALID
    && BlockCount(ib) == 1 && GetFileSize(ib) == 0 && ib[NAME_INDEX..NAME_INDEX + MAX_NAME_SIZE] == NameField(name)
  }

  /** An extent that ends its chain. */
  predicate LastExtent(db: Block) {
    ExtentOk(db) && Link(db) == NULL_ADDR
  }

  lemma CreatedBlocksShape(name: seq<byte>, data: nat)
    requires 0 < data < MAX_NUM_BLOCKS
    ensures FreshInode(MakeInode(ToByte(data), name, 0, 1), data, name)
    ensures LastExtent(MakeDataBlock(0, Zeros(DATA_SIZE)))
  {
    ToByteValue(data);
    FileSizeOfMakeInode(ToByte(data), name, 0, 1);
  }

  /** bm is the bitmap of B with inode and data marked used. */
  predicate Marked(B: seq<Block>, bm: seq<byte>, inode: nat, data: nat)
    requires 0 < |B|
  {
    |bm| == BITMAP_SIZE
    && forall c :: 0 <= c < 8 * BITMAP_SIZE ==> (Used(bm, c) <==> c == inode || c == data || Used(Bm(B), c))
  }

  lemma MarkedTwice(B: seq<Block>, inode: nat, data: nat)
    requires 0 < |B| && inode < MAX_NUM_BLOCKS && data < MAX_NUM_BLOCKS
    ensures Marked(B, Mark(Mark(Bm(B), inode, InUse), data, InUse), inode, data)
  {
  }

  /** The blocks createFile leaves: the bitmap bm, the inode ib at `inode`, the slot
      pointing at it, and the extent db at `data`. */
  function Created(B: seq<Block>, bm: seq<byte>, inode: nat, ib: Block, slot: nat, data: nat, db: Block): seq<Block>
    requires 2 <= |B| && |bm| == BITMAP_SIZE && inode < |B| && inode < MAX_NUM_BLOCKS && data < |B| && slot < MAX_NUM_FILES
  {
    B[SUPERBLOCK_ADDR := B[SUPERBLOCK_ADDR][..4] + bm][inode := ib]
     [ROOT_ADDR := B[ROOT_ADDR][ROOT_FIRST_ADDR + slot := ToByte(inode)]][data := db]
  }

  /** The four writes of createFile, for any bitmap and blocks. */
  lemma PlacedIs(d: Disk, bm: seq<byte>, inode: nat, ib: Block, slot: nat, data: nat, db: Block)
    requires d.open && 2 <= |d.blocks| <= MAX_NUM_BLOCKS && |bm| == BITMAP_SIZE && slot < MAX_NUM_FILES
    requires 2 <= inode < |d.blocks| && 2 <= data < |d.blocks|
    ensures WriteOr(UpdateRoot(WriteOr(UpdateBitmap(d, bm), inode, ib), ToByte(inode), slot), data, db)
         == d.(blocks := Created(d.blocks, bm, inode, ib, slot, data, db))
  {
    var d2 := WriteOr(UpdateBitmap(d, bm), inode, ib);
    assert d2.blocks == d.blocks[SUPERBLOCK_ADDR := d.blocks[SUPERBLOCK_ADDR][..4] + bm][inode := ib];
    assert Root(d2) == d.blocks[ROOT_ADDR];
    assert (slot + ROOT_FIRST_ADDR) % 256 == ROOT_FIRST_ADDR + slot;
  }

  /** CreateOnDisk writes the blocks Created describes. */
  lemma CreateBlocks(d: Disk, name: seq<byte>, inode: nat, data: nat, slot: nat)
    requires d.open && 2 <= |d.blocks| <= MAX_NUM_BLOCKS && slot < MAX_NUM_FILES
    requires 2 <= inode < |d.blocks| && 2 <= data < |d.blocks|
    ensures CreateOnDisk(d, name, inode, data, slot)
         == d.(blocks := Created(d.blocks, Mark(Mark(Bm(d.blocks), inode, InUse), data, InUse), inode,
                                 MakeInode(ToByte(data), name, 0, 1), slot, data, MakeDataBlock(0, Zeros(DATA_SIZE))))
  {
    assert GetBitmap(d) == Bm(d.blocks);
    PlacedIs(d, Mark(Mark(Bm(d.blocks), inode, InUse), data, InUse), inode, MakeInode(ToByte(data), name, 0, 1),
             slot, data, MakeDataBlock(0, Zeros(DATA_SIZE)));
  }

  /** What createFile needs of its volume, its bitmap and its two blocks. */
  predicate CreateReady(d: Disk, bm: seq<byte>, inode: nat, ib: Block, slot: nat, data: nat, db: Block, name: seq<byte>) {
    Consistent(d) && slot < MAX_NUM_FILES && Slot(d.blocks[ROOT_ADDR], slot) == 0
    && inode in FreeList(d) && data in FreeList(d) && inode != data
    && inode < MAX_NUM_BLOCKS && data < MAX_NUM_BLOCKS
    && Marked(d.blocks, bm, inode, data) && FreshInode(ib, data, name) && LastExtent(db)
  }

  /** The free blocks createFile takes lie past the root and inside the volume. */
  lemma ReadyBounds(d: Disk, bm: seq<byte>, inode: nat, ib: Block, slot: nat, data: nat, db: Block, name: seq<byte>)
    requires CreateReady(d, bm, inode, ib, slot, data, db, name)
    ensures 2 <= inode < |d.blocks| && 2 <= data < |d.blocks|
    ensures !Used(Bm(d.blocks), inode) && !Used(Bm(d.blocks), data)
  {
    FreeListFree(d, inode);
    FreeListFree(d, data);
  }

  lemma CreatedSlots(d: Disk, bm: seq<byte>, inode: nat, ib: Block, slot: nat, data: nat, db: Block, name: seq<byte>)
    requires CreateReady(d, bm, inode, ib, slot, data, db, name)
    requires 2 <= inode < |d.blocks| && 2 <= data < |d.blocks|
    ensures var R' := Created(d.blocks, bm, inode, ib, slot, data, db)[ROOT_ADDR];
      Slot(R', slot) == inode
      && (forall j :: 0 <= j < MAX_NUM_FILES && j != slot ==> Slot(R', j) == Slot(d.blocks[ROOT_ADDR], j))
      && R'[..ROOT_FIRST_ADDR] == d.blocks[ROOT_ADDR][..ROOT_FIRST_ADDR]
  {
    ToByteValue(inode);
  }

  lemma CreatedFormatted(d: Disk, bm: seq<byte>, inode: nat, ib: Block, slot: nat, data: nat, db: Block, name: seq<byte>)
    requires CreateReady(d, bm, inode, ib, slot, data, db, name)
    requires 2 <= inode < |d.blocks| && 2 <= data < |d.blocks|
    ensures Formatted(d.(blocks := Created(d.blocks, bm, inode, ib, slot, data, db)))
  {
    var B := d.blocks;
    var B' := Created(B, bm, inode, ib, slot, data, db);
    CreatedSlots(d, bm, inode, ib, slot, data, db, name);
    assert B'[0] == B[0][..4] + bm;
    assert Bm(B') == bm;
    assert B'[1][..12] == B[1][..12];
    assert B'[1][4..8] == B[1][4..8] && B'[1][8..12] == B[1][8..12];
  }

  lemma CreatedConfined(d: Disk, bm: seq<byte>, inode: nat, ib: Block, slot: nat, data: nat, db: Block, name: seq<byte>)
    requires CreateReady(d, bm, inode, ib, slot, data, db, name)
    requires 2 <= inode < |d.blocks| && 2 <= data < |d.blocks|
    requires !Used(Bm(d.blocks), inode) && !Used(Bm(d.blocks), data)
    ensures Confined(d, d.(blocks := Created(d.blocks, bm, inode, ib, slot, data, db)), slot, {inode, data})
    ensures Agrees(Created(d.blocks, bm, inode, ib, slot, data, db), inode)
    ensures Agrees(Created(d.blocks, bm, inode, ib, slot, data, db), data)
  {
    var B' := Created(d.blocks, bm, inode, ib, slot, data, db);
    CreatedSlots(d, bm, inode, ib, slot, data, db, name);
    assert Bm(B') == bm;
  }

  lemma CreatedFile(d: Disk, bm: seq<byte>, inode: nat, ib: Block, slot: nat, data: nat, db: Block, name: seq<byte>)
    requires CreateReady(d, bm, inode, ib, slot, data, db, name)
    requires 2 <= inode < |d.blocks| && 2 <= data < |d.blocks|
    ensures var B' := Created(d.blocks, bm, inode, ib, slot, data, db);
      Live(B', inode) && Extents(B', inode) == [data] && Footprint(B', inode) == [inode, data]
      && Contents(B', inode) == [] && NameBytes(B', inode) == NameField(name)
  {
    var B' := Created(d.blocks, bm, inode, ib, slot, data, db);
    assert B'[inode] == ib && B'[data] == db;
    assert Chain(B', Link(db), 0) == [];
    assert Extents(B', inode) == [data];
    EmptyFileExtents();
    assert FileOk(B', inode);
    assert Bm(B') == bm;
  }

  /** createFile on a consistent volume, given two distinct free blocks and an unused
      slot: the volume stays consistent; the slot now holds the inode, which is named
      after the new file and heads one extent, the second block; the new file is
      empty; every other slot and every other file is as it was. */
  lemma CreatedKeeps(d: Disk, bm: seq<byte>, inode: nat, ib: Block, slot: nat, data: nat, db: Block, name: seq<byte>)
    requires CreateReady(d, bm, inode, ib, slot, data, db, name)
    ensures 2 <= inode < |d.blocks| && 2 <= data < |d.blocks|
    ensures var B' := Created(d.blocks, bm, inode, ib, slot, data, db);
      Consistent(d.(blocks := B'))
      && Slot(B'[ROOT_ADDR], slot) == inode
      && Live(B', inode) && Extents(B', inode) == [data] && Contents(B', inode) == []
      && NameBytes(B', inode) == NameField(name)
      && forall j :: 0 <= j < MAX_NUM_FILES && j != slot ==>
           Slot(B'[ROOT_ADDR], j) == Slot(d.blocks[ROOT_ADDR], j)
           && (Slot(d.blocks[ROOT_ADDR], j) != 0 ==>
                 Live(B', Slot(d.blocks[ROOT_ADDR], j))
                 && Contents(B', Slot(d.blocks[ROOT_ADDR], j)) == Contents(d.blocks, Slot(d.blocks[ROOT_ADDR], j)))
  {
    ReadyBounds(d, bm, inode, ib, slot, data, db, name);
    var d' := d.(blocks := Created(d.blocks, bm, inode, ib, slot, data, db));
    CreatedSlots(d, bm, inode, ib, slot, data, db, name);
    CreatedFormatted(d, bm, inode, ib, slot, data, db, name);
    CreatedConfined(d, bm, inode, ib, slot, data, db, name);
    CreatedFile(d, bm, inode, ib, slot, data, db, name);
    assert NewFileOk(d, d', slot, {inode, data});
    Reshape(d, d', slot, {inode, data});
  }

  /** createFile's writes in full: CreateOnDisk on a consistent volume with two
      distinct free blocks and an unused slot. */
  lemma CreateKeeps(d: Disk, name: seq<byte>, inode: nat, data: nat, slot: nat)
    requires Consistent(d) && slot < MAX_NUM_FILES && Slot(d.blocks[ROOT_ADDR], slot) == 0
    requires inode in FreeList(d) && data in FreeList(d) && inode != data
    requires inode < MAX_NUM_BLOCKS && data < MAX_NUM_BLOCKS
    ensures CreateReady(d, Mark(Mark(Bm(d.blocks), inode, InUse), data, InUse), inode,
                        MakeInode(ToByte(data), name, 0, 1), slot, data, MakeDataBlock(0, Zeros(DATA_SIZE)), name)
    ensures 2 <= inode < |d.blocks| && 2 <= data < |d.blocks|
    ensures CreateOnDisk(d, name, inode, data, slot)
         == d.(blocks := Created(d.blocks, Mark(Mark(Bm(d.blocks), inode, InUse), data, InUse), inode,
                                 MakeInode(ToByte(data), name, 0, 1), slot, data, MakeDataBlock(0, Zeros(DATA_SIZE))))
  {
    FreeListFree(d, inode);
    FreeListFree(d, data);
    CreatedBlocksShape(name, data);
    MarkedTwice(d.blocks, inode, data);
    CreateBlocks(d, name, inode, data, slot);
  }

  // ---- createFile as written ----

  /** The volume createFile leaves when nextRootAddrIndex reports a full directory: the
      bitmap with both blocks marked used has already been written. */
  function CreateRootFullAsWritten(d: Disk, inode: nat, data: nat): Disk
    requires inode < MAX_NUM_BLOCKS && data < MAX_NUM_BLOCKS
  {
    UpdateBitmap(d, Mark(Mark(GetBitmap(d), inode, InUse), data, InUse))
  }

  /** After that early return the inode address is marked used although its block is
      still a free block, so checkbitmap's rule for that address fails. */
  lemma CreateRootFullLeaks(d: Disk, inode: nat, data: nat)
    requires d.open && 0 < inode < |d.blocks| && inode < MAX_NUM_BLOCKS && data < MAX_NUM_BLOCKS
    requires d.blocks[inode] == FREE
    ensures var d' := CreateRootFullAsWritten(d, inode, data);
      Used(GetBitmap(d'), inode) && d'.blocks[inode] == FREE
      && !BitAgrees(d', GetBitmap(d'), inode, inode)
  {
    var bm := Mark(Mark(GetBitmap(d), inode, InUse), data, InUse);
    BitmapRoundTrip(d, bm);
  }

  /** On a consistent volume that early return breaks allocation conservation: the
      files stay live, but the inode address is marked used and no file holds it. */
  lemma CreateRootFullBreaks(d: Disk, inode: nat, data: nat)
    requires Consistent(d) && inode in FreeList(d) && data in FreeList(d)
    ensures inode < MAX_NUM_BLOCKS && data < MAX_NUM_BLOCKS
    ensures var B' := CreateRootFullAsWritten(d, inode, data).blocks;
      2 <= |B'| <= MAX_NUM_BLOCKS && FilesOk(B') && !Conserved(B')
  {
    var B := d.blocks;
    FreeListFree(d, inode);
    FreeListFree(d, data);
    RootFullBitmap(d, inode, data);
    var B' := CreateRootFullAsWritten(d, inode, data).blocks;
    MarkedFilesOk(B, B');
    forall j | 0 <= j < MAX_NUM_FILES
      ensures inode !in Owned(B', j)
    {
    }
    assert !Claimed(B', inode);
  }

  /** The early return rewrites only the superblock, with a bitmap that keeps every
      used bit and marks the inode address. */
  lemma RootFullBitmap(d: Disk, inode: nat, data: nat)
    requires Formatted(d) && 2 <= inode < |d.blocks| && data < MAX_NUM_BLOCKS
    ensures var B' := CreateRootFullAsWritten(d, inode, data).blocks;
      |B'| == |d.blocks| && (forall x :: 1 <= x < |B'| ==> B'[x] == d.blocks[x])
      && Used(Bm(B'), inode)
      && forall x :: 0 <= x < |B'| && Used(Bm(d.blocks), x) ==> Used(Bm(B'), x)
  {
    Reads(d);
    var bm := Mark(Mark(GetBitmap(d), inode, InUse), data, InUse);
    BitmapRoundTrip(d, bm);
    var B' := CreateRootFullAsWritten(d, inode, data).blocks;
    assert Bm(B') == bm;
  }

  /** Setting bits and leaving every block past the superblock alone keeps every file
      live and every slot's blocks. */
  lemma MarkedFilesOk(B: seq<Block>, B': seq<Block>)
    requires 2 <= |B| <= MAX_NUM_BLOCKS && FilesOk(B) && |B'| == |B|
    requires forall x :: 1 <= x < |B| ==> B'[x] == B[x]
    requires forall x :: 0 <= x < |B| && Used(Bm(B), x) ==> Used(Bm(B'), x)
    ensures FilesOk(B')
    ensures forall j :: 0 <= j < MAX_NUM_FILES ==> Owned(B', j) == Owned(B, j)
  {
    forall j | 0 <= j < MAX_NUM_FILES && Slot(B[ROOT_ADDR], j) != 0
      ensures Live(B', Slot(B[ROOT_ADDR], j)) && Footprint(B', Slot(B[ROOT_ADDR], j)) == Footprint(B, Slot(B[ROOT_ADDR], j))
    {
      var w := Slot(B[ROOT_ADDR], j);
      assert Live(B, w);
      forall x | x in Footprint(B, w)
        ensures B'[x] == B[x]
      {
        if x != w {
          assert x in Extents(B, w);
        }
      }
      FileFrame(B, B', w);
    }
    assert B'[ROOT_ADDR] == B[ROOT_ADDR];
  }

  // ---- the directory never fills ----

  /** The blocks of the files in slots 0..k-1. */
  function SlotBlocks(B: seq<Block>, k: nat): set<nat>
    requires 2 <= |B| && k <= MAX_NUM_FILES
  {
    if k == 0 then {}
    else SlotBlocks(B, k - 1) + SlotSet(B, k - 1)
  }

  lemma {:induction false} SlotBlocksMembers(B: seq<Block>, k: nat, x: nat)
    requires 2 <= |B| && k <= MAX_NUM_FILES && x in SlotBlocks(B, k)
    ensures x < |B|
    ensures exists j :: 0 <= j < k && 0 < Slot(B[ROOT_ADDR], j) < |B| && x in Footprint(B, Slot(B[ROOT_ADDR], j))
    decreases k
  {
    if x !in SlotBlocks(B, k - 1) {
      assert x in SlotSet(B, k - 1);
    } else {
      SlotBlocksMembers(B, k - 1, x);
    }
  }

  /** A well-formed file holds at least two blocks: its inode and its first extent. */
  lemma FileHoldsTwo(B: seq<Block>, v: nat)
    requires FileOk(B, v)
    ensures |Members(Footprint(B, v))| >= 2
  {
    var f := Footprint(B, v);
    assert f[0] == v && f[1] == Extents(B, v)[0];
    SubsetSize({f[0], f[1]}, Members(f));
  }

  /** The file in slot k shares no block with the files in slots before it. */
  lemma SlotBlocksApart(B: seq<Block>, k: nat)
    requires 2 <= |B| <= MAX_NUM_BLOCKS && FilesOk(B) && Separate(B)
    requires k < MAX_NUM_FILES && Slot(B[ROOT_ADDR], k) != 0
    ensures SlotBlocks(B, k) !! SlotSet(B, k)
  {
    var v := Slot(B[ROOT_ADDR], k);
    forall x | x in SlotBlocks(B, k)
      ensures x !in Footprint(B, v)
    {
      SlotBlocksMembers(B, k, x);
      var j :| 0 <= j < k && 0 < Slot(B[ROOT_ADDR], j) < |B| && x in Footprint(B, Slot(B[ROOT_ADDR], j));
      assert Apart(B, Slot(B[ROOT_ADDR], j), v);
    }
  }

  /** The file in slot j, as a set of blocks. */
  function SlotSet(B: seq<Block>, j: nat): set<nat>
    requires 2 <= |B| && j < MAX_NUM_FILES
  {
    if 0 < Slot(B[ROOT_ADDR], j) < |B| then Members(Footprint(B, Slot(B[ROOT_ADDR], j))) else {}
  }

  /** Slots 0..k-1 whose files each hold two blocks of their own hold 2k blocks
      between them. */
  lemma {:induction false} SlotBlocksSize(B: seq<Block>, k: nat)
    requires 2 <= |B| && k <= MAX_NUM_FILES
    requires forall j :: 0 <= j < k ==> OwnsTwo(B, j)
    ensures |SlotBlocks(B, k)| >= 2 * k
    decreases k
  {
    if k > 0 {
      SlotBlocksSize(B, k - 1);
      StepGrows(B, k - 1);
    }
  }

  lemma StepGrows(B: seq<Block>, j: nat)
    requires 2 <= |B| && j < MAX_NUM_FILES && OwnsTwo(B, j)
    ensures |SlotBlocks(B, j + 1)| >= |SlotBlocks(B, j)| + 2
  {
    SlotBlocksStep(B, j + 1);
    SizeStep(SlotBlocks(B, j), SlotSet(B, j), SlotBlocks(B, j + 1));
  }

  /** Slot j's file holds at least two blocks, none of them held by slots 0..j-1. */
  predicate OwnsTwo(B: seq<Block>, j: nat)
    requires 2 <= |B| && j < MAX_NUM_FILES
  {
    |SlotSet(B, j)| >= 2 && SlotBlocks(B, j) !! SlotSet(B, j)
  }

  lemma SlotBlocksStep(B: seq<Block>, k: nat)
    requires 2 <= |B| && 0 < k <= MAX_NUM_FILES
    ensures SlotBlocks(B, k) == SlotBlocks(B, k - 1) + SlotSet(B, k - 1)
  {
  }

  lemma SizeStep(below: set<nat>, own: set<nat>, all: set<nat>)
    requires |own| >= 2 && below !! own && all == below + own
    ensures |all| >= |below| + 2
  {
  }

  /** Slots 0..k-1 all in use need 2k of the volume's blocks. */
  lemma SlotsNeedBlocks(B: seq<Block>, k: nat)
    requires 2 <= |B| <= MAX_NUM_BLOCKS && FilesOk(B) && Separate(B) && k <= MAX_NUM_FILES
    requires forall j :: 0 <= j < k ==> Slot(B[ROOT_ADDR], j) != 0
    ensures 2 * k <= |B|
  {
    forall j | 0 <= j < k
      ensures OwnsTwo(B, j)
    {
      assert Live(B, Slot(B[ROOT_ADDR], j));
      FileHoldsTwo(B, Slot(B[ROOT_ADDR], j));
      SlotBlocksApart(B, j);
    }
    SlotBlocksSize(B, k);
    forall x | x in SlotBlocks(B, k)
      ensures x in Range(|B|)
    {
      SlotBlocksMembers(B, k, x);
      InRange(|B|, x);
    }
    SubsetSize(SlotBlocks(B, k), Range(|B|));
  }

  /** Files that are live and apart leave a slot of the root unused. */
  lemma SlotLeft(B: seq<Block>)
    requires 2 <= |B| <= MAX_NUM_BLOCKS && FilesOk(B) && Separate(B)
    ensures exists j :: 0 <= j < MAX_NUM_FILES && Slot(B[ROOT_ADDR], j) == 0
  {
    if forall j :: 0 <= j < MAX_NUM_FILES ==> Slot(B[ROOT_ADDR], j) != 0 {
      SlotsNeedBlocks(B, MAX_NUM_FILES);
    }
  }

  /** On a consistent volume the root directory always has an unused slot: 244 files
      would need 488 blocks and a volume has at most 256. So createFile's
      ROOT_DIRECTORY_FULL for a full directory cannot arise there. */
  lemma RootNeverFull(d: Disk)
    requires Consistent(d)
    ensures FirstZeroFrom(Root(d), 0).Ok?
  {
    Reads(d);
    SlotLeft(d.blocks);
    var j :| 0 <= j < MAX_NUM_FILES && Slot(Root(d), j) == 0;
  }
}
