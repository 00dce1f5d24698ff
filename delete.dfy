/** tfs_deleteFile: every block of the file becomes a free block, its bits are cleared
    and its root slot is zeroed. */
module Delete {
  import opened Layout
  import opened Errors
  import opened Blocks
  import opened Disks
  import opened Bitmap
  import opened Directory
  import opened Files

  // ---- the walk ----

  /** The store after a free block is written at each address of s, in order. */
  function FreeAll(d: Disk, s: seq<nat>): (r: Disk)
    ensures r.open == d.open && r.name == d.name && r.size == d.size
    decreases |s|
  {
    if s == [] then d else WriteOr(FreeAll(d, s[..|s| - 1]), s[|s| - 1], FREE)
  }

  /** After FreeAll the addresses of s hold free blocks and every other block is as
      before. */
  lemma {:induction false} FreeAllBlocks(d: Disk, s: seq<nat>)
    requires d.open && forall k :: 0 <= k < |s| ==> s[k] < |d.blocks|
    ensures |FreeAll(d, s).blocks| == |d.blocks|
    ensures forall x :: 0 <= x < |d.blocks| ==> FreeAll(d, s).blocks[x] == if x in s then FREE else d.blocks[x]
    decreases |s|
  {
    if s != [] {
      var t := s[..|s| - 1];
      FreeAllBlocks(d, t);
      assert s == t + [s[|s| - 1]];
      assert forall x :: x in s <==> x in t || x == s[|s| - 1];
    }
  }

  /** fp lists the blocks tfs_deleteFile visits: distinct addresses past the root, each
      linked to the next and flagged VALID, the last linked to NULL_ADDR. */
  predicate Walkable(B: seq<Block>, fp: seq<nat>) {
    |fp| >= 1 && Distinct(fp)
    && (forall k :: 0 <= k < |fp| ==> 2 <= fp[k] < |B|)
    && (forall k :: 0 <= k < |fp| - 1 ==> Link(B[fp[k]]) == fp[k + 1] && Flag(B[fp[k]]) == VALID)
    && Link(B[fp[|fp| - 1]]) == NULL_ADDR
  }

  /** The walk from a well-formed file's inode visits exactly its footprint. */
  lemma FileWalkable(B: seq<Block>, v: nat)
    requires FileOk(B, v)
    ensures Walkable(B, Footprint(B, v))
  {
    var c := Extents(B, v);
    var fp := Footprint(B, v);
    ChainLinks(B, Link(B[v]), BlockCount(B[v]));
    assert fp[0] == v && fp[1..] == c;
    forall k | 0 <= k < |fp| - 1
      ensures Link(B[fp[k]]) == fp[k + 1] && Flag(B[fp[k]]) == VALID
    {
      if k > 0 {
        assert fp[k] == c[k - 1] && fp[k + 1] == c[k];
        assert ExtentOk(B[c[k - 1]]);
        assert Link(B[c[k - 1]]) == c[k];
      }
    }
    forall i, j | 0 <= i < j < |fp|
      ensures fp[i] != fp[j]
    {
      if i > 0 {
        assert fp[i] == c[i - 1] && fp[j] == c[j - 1];
      }
    }
  }

  /** Step k of the walk reads the block fp[k] is before it is freed, and its link and
      flag say where the walk goes next. */
  lemma FreeStep(d: Disk, fp: seq<nat>, k: nat)
    requires d.open && Walkable(d.blocks, fp) && k < |fp|
    ensures var dk := FreeAll(d, fp[..k]);
      dk.open && |dk.blocks| == |d.blocks| && dk.blocks[fp[k]] == d.blocks[fp[k]]
      && WriteOr(dk, fp[k], FREE) == FreeAll(d, fp[..k + 1])
      && fp[..k + 1] == fp[..k] + [fp[k]]
      && (k + 1 < |fp| ==> d.blocks[fp[k]][2] as nat == fp[k + 1] && d.blocks[fp[k]][3] == VALID)
      && (k + 1 == |fp| ==> d.blocks[fp[k]][2] as nat == NULL_ADDR)
  {
    FreeAllBlocks(d, fp[..k]);
    assert fp[k] !in fp[..k];
    assert fp[..k + 1] == fp[..k] + [fp[k]];
    assert fp[..k + 1][..k] == fp[..k];
  }

  /** The walk of tfs_deleteFile: from the inode along the link byte while the flag byte
      says VALID, clearing each visited block's bit in a copy of the bitmap and
      overwriting the block with a free block. On a chain the walk visits exactly the
      listed blocks. */
  method FreeChain(d: Disk, first: nat, ghost fp: seq<nat>) returns (d': Disk, bm: seq<byte>)
    requires d.open && 2 <= |d.blocks| <= MAX_NUM_BLOCKS && Walkable(d.blocks, fp) && fp[0] == first
    ensures d' == FreeAll(d, fp)
    ensures bm == MarkAll(GetBitmap(d), fp, Free)
  {
    var bm0 := GetBitmap(d);
    var bitmap := new byte[BITMAP_SIZE](i requires 0 <= i < BITMAP_SIZE => bm0[i]);
    assert bitmap[..] == MarkAll(bm0, fp[..0], Free);
    var block := ZERO_BLOCK;
    var currentblock := first;
    var valid := VALID;
    d' := d;
    ghost var k := 0;
    while currentblock != NULL_ADDR && valid == VALID
      invariant 0 <= k <= |fp|
      invariant k < |fp| ==> currentblock == fp[k] && valid == VALID
      invariant k == |fp| ==> currentblock == NULL_ADDR
      invariant d' == FreeAll(d, fp[..k])
      invariant bitmap[..] == MarkAll(bm0, fp[..k], Free)
      decreases |fp| - k
    {
      FreeStep(d, fp, k);
      block := ReadOr(d', currentblock, block);
      var nextblock := block[2];
      valid := block[3];
      SetBitmap(bitmap, currentblock, Free);
      d' := WriteOr(d', currentblock, FREE);
      MarkAllSnoc(bm0, fp[..k], fp[k], Free);
      currentblock := nextblock as nat;
      k := k + 1;
    }
    assert fp[..k] == fp;
    bm := bitmap[..];
  }

  // ---- the volume tfs_deleteFile leaves ----

  /** What tfs_deleteFile writes once it has the file's inode v and its slot: free
      blocks over the file, the bitmap with the file's bits cleared, and a zero in the
      slot. */
  function DeleteOnDisk(d: Disk, v: nat, slot: nat): Disk
    requires 2 <= |d.blocks| <= MAX_NUM_BLOCKS && v < |d.blocks| && slot < MAX_NUM_FILES
  {
    WipeOnDisk(d, Footprint(d.blocks, v), slot)
  }

  /** Free blocks over fp, the bitmap with the bits of fp cleared, a zero in the slot. */
  function WipeOnDisk(d: Disk, fp: seq<nat>, slot: nat): Disk
    requires forall k :: 0 <= k < |fp| ==> fp[k] < MAX_NUM_BLOCKS
    requires slot < MAX_NUM_FILES
  {
    UpdateRoot(UpdateBitmap(FreeAll(d, fp), MarkAll(GetBitmap(d), fp, Free)), 0, slot)
  }

  /** B' is B with the bitmap bm in the superblock, a zero in root slot slot, and a
      free block at each address of fp past the root. */
  predicate Wiped(B: seq<Block>, B': seq<Block>, bm: seq<byte>, fp: seq<nat>, slot: nat) {
    2 <= |B| && |B'| == |B| && slot < MAX_NUM_FILES && |bm| == BITMAP_SIZE
    && B'[SUPERBLOCK_ADDR] == B[SUPERBLOCK_ADDR][..4] + bm
    && B'[ROOT_ADDR] == B[ROOT_ADDR][ROOT_FIRST_ADDR + slot := 0]
    && forall x :: 2 <= x < |B| ==> B'[x] == if x in fp then FREE else B[x]
  }

  /** The walk's writes followed by updateBitmap: free blocks over fp, bm in the
      superblock, the root as it was. */
  lemma FreedBlocks(d: Disk, fp: seq<nat>, bm: seq<byte>)
    requires d.open && 2 <= |d.blocks| && |bm| == BITMAP_SIZE
    requires forall k :: 0 <= k < |fp| ==> 2 <= fp[k] < |d.blocks|
    ensures var d2 := UpdateBitmap(FreeAll(d, fp), bm);
      d2 == d.(blocks := d2.blocks) && |d2.blocks| == |d.blocks|
      && d2.blocks[SUPERBLOCK_ADDR] == d.blocks[SUPERBLOCK_ADDR][..4] + bm
      && d2.blocks[ROOT_ADDR] == d.blocks[ROOT_ADDR]
      && forall x :: 2 <= x < |d.blocks| ==> d2.blocks[x] == if x in fp then FREE else d.blocks[x]
  {
    FreeAllBlocks(d, fp);
    var d1 := FreeAll(d, fp);
    assert d1.blocks[0] == d.blocks[0] && d1.blocks[1] == d.blocks[1];
    assert UpdateBitmap(d1, bm).blocks == d1.blocks[0 := d.blocks[0][..4] + bm];
  }

  /** WipeOnDisk leaves the blocks Wiped describes, for the bitmap with the bits of fp
      cleared. */
  lemma WipeBlocks(d: Disk, fp: seq<nat>, slot: nat)
    requires d.open && 2 <= |d.blocks| <= MAX_NUM_BLOCKS && slot < MAX_NUM_FILES
    requires forall k :: 0 <= k < |fp| ==> 2 <= fp[k] < |d.blocks|
    ensures var d' := WipeOnDisk(d, fp, slot);
      d' == d.(blocks := d'.blocks) && Wiped(d.blocks, d'.blocks, MarkAll(Bm(d.blocks), fp, Free), fp, slot)
  {
    var bm := MarkAll(GetBitmap(d), fp, Free);
    FreedBlocks(d, fp, bm);
    var d2 := UpdateBitmap(FreeAll(d, fp), bm);
    assert Root(d2) == d.blocks[ROOT_ADDR];
    assert (slot + ROOT_FIRST_ADDR) % 256 == ROOT_FIRST_ADDR + slot;
    var d3 := UpdateRoot(d2, 0, slot);
    assert d3.blocks == d2.blocks[1 := d.blocks[ROOT_ADDR][ROOT_FIRST_ADDR + slot := 0]];
  }

  /** bm is the bitmap of B with the addresses of fp cleared. */
  predicate Cleared(B: seq<Block>, bm: seq<byte>, fp: seq<nat>)
    requires 0 < |B|
  {
    |bm| == BITMAP_SIZE
    && forall c :: 0 <= c < 8 * BITMAP_SIZE ==> (Used(bm, c) <==> c !in fp && Used(Bm(B), c))
  }

  lemma ClearedAll(B: seq<Block>, fp: seq<nat>)
    requires 0 < |B| && forall k :: 0 <= k < |fp| ==> fp[k] < MAX_NUM_BLOCKS
    ensures Cleared(B, MarkAll(Bm(B), fp, Free), fp)
  {
    forall c | 0 <= c < 8 * BITMAP_SIZE
      ensures Used(MarkAll(Bm(B), fp, Free), c) <==> c !in fp && Used(Bm(B), c)
    {
      MarkAllUsed(Bm(B), fp, Free, c);
    }
  }

  /** Outside fp a cleared bitmap says what the old one said. */
  lemma ClearedOutside(B: seq<Block>, bm: seq<byte>, fp: seq<nat>, x: nat)
    requires 0 < |B| && Cleared(B, bm, fp) && x < 8 * BITMAP_SIZE && x !in fp
    ensures Used(bm, x) <==> Used(Bm(B), x)
  {
  }

  lemma WipedSlots(B: seq<Block>, B': seq<Block>, bm: seq<byte>, fp: seq<nat>, slot: nat)
    requires Wiped(B, B', bm, fp, slot)
    ensures Slot(B'[ROOT_ADDR], slot) == 0
    ensures forall j :: 0 <= j < MAX_NUM_FILES && j != slot ==> Slot(B'[ROOT_ADDR], j) == Slot(B[ROOT_ADDR], j)
    ensures B'[ROOT_ADDR][..ROOT_FIRST_ADDR] == B[ROOT_ADDR][..ROOT_FIRST_ADDR]
  {
  }

  lemma WipedFormatted(d: Disk, B': seq<Block>, bm: seq<byte>, fp: seq<nat>, slot: nat)
    requires Formatted(d) && Wiped(d.blocks, B', bm, fp, slot) && Cleared(d.blocks, bm, fp)
    requires 0 !in fp && 1 !in fp
    ensures Formatted(d.(blocks := B'))
  {
    var B := d.blocks;
    WipedSlots(B, B', bm, fp, slot);
    assert Bm(B') == bm;
    assert B'[1][4..8] == B[1][4..8] && B'[1][8..12] == B[1][8..12];
  }

  lemma WipedConfined(d: Disk, B': seq<Block>, bm: seq<byte>, fp: seq<nat>, slot: nat)
    requires Consistent(d) && Wiped(d.blocks, B', bm, fp, slot) && Cleared(d.blocks, bm, fp)
    requires fp == Owned(d.blocks, slot) && forall x :: x in fp ==> 2 <= x < |d.blocks|
    ensures Confined(d, d.(blocks := B'), slot, Members(fp))
  {
    var B := d.blocks;
    WipedSlots(B, B', bm, fp, slot);
    assert Bm(B') == bm;
    forall x | 2 <= x < |B| && x !in Members(fp)
      ensures B'[x] == B[x] && (Used(Bm(B'), x) <==> Used(Bm(B), x))
    {
      ClearedOutside(B, bm, fp, x);
    }
  }

  lemma WipedFreed(B: seq<Block>, B': seq<Block>, bm: seq<byte>, fp: seq<nat>, slot: nat)
    requires |B| <= MAX_NUM_BLOCKS && Wiped(B, B', bm, fp, slot) && Cleared(B, bm, fp)
    requires forall x :: x in fp ==> 2 <= x < |B|
    ensures forall x :: x in Members(fp) ==> x < |B'| && B'[x] == FREE && !Used(Bm(B'), x) && Agrees(B', x)
  {
    assert Bm(B') == bm;
  }

  /** tfs_deleteFile on a consistent volume, for the blocks Wiped describes: the volume
      stays consistent; the slot is unused; every block the file held is now a free
      block with its bit clear; every other slot and every other file is as it was. */
  lemma WipedKeeps(d: Disk, B': seq<Block>, bm: seq<byte>, v: nat, slot: nat)
    requires Consistent(d) && slot < MAX_NUM_FILES && Slot(d.blocks[ROOT_ADDR], slot) == v && v != 0
    requires Wiped(d.blocks, B', bm, Footprint(d.blocks, v), slot) && Cleared(d.blocks, bm, Footprint(d.blocks, v))
    ensures Consistent(d.(blocks := B'))
    ensures Slot(B'[ROOT_ADDR], slot) == 0
    ensures forall x :: x in Footprint(d.blocks, v) ==> x < |B'| && !Used(Bm(B'), x) && B'[x] == FREE
    ensures forall j :: 0 <= j < MAX_NUM_FILES && j != slot ==>
              Slot(B'[ROOT_ADDR], j) == Slot(d.blocks[ROOT_ADDR], j)
              && (Slot(d.blocks[ROOT_ADDR], j) != 0 ==>
                    Live(B', Slot(d.blocks[ROOT_ADDR], j))
                    && Contents(B', Slot(d.blocks[ROOT_ADDR], j)) == Contents(d.blocks, Slot(d.blocks[ROOT_ADDR], j)))
  {
    var B := d.blocks;
    var fp := Footprint(B, v);
    var d' := d.(blocks := B');
    assert Live(B, v);
    FileWalkable(B, v);
    assert forall x :: x in fp ==> 2 <= x < |B|;
    assert Owned(B, slot) == fp;
    WipedSlots(B, B', bm, fp, slot);
    WipedFormatted(d, B', bm, fp, slot);
    WipedConfined(d, B', bm, fp, slot);
    WipedFreed(B, B', bm, fp, slot);
    assert NewFileOk(d, d', slot, Members(fp));
    Reshape(d, d', slot, Members(fp));
  }

  // ---- tfs_deleteFile ----

  /** On a consistent volume a slot holding the inode getInodeBlock found is the slot it
      found: no inode is in two slots. */
  lemma SlotOfInode(d: Disk, name: seq<byte>)
    requires Consistent(d) && InodeOf(d, name).Ok?
    ensures FindSlot(d, name).Some?
    ensures SlotOfFrom(Root(d), InodeOf(d, name).value, 0) == Ok(FindSlot(d, name).value)
  {
    Reads(d);
    var i := FindSlot(d, name).value;
    var v := Slot(Root(d), i);
    var r := SlotOfFrom(Root(d), v, 0);
    forall j | 0 <= j < MAX_NUM_FILES && j != i && Slot(Root(d), j) != 0
      ensures Slot(Root(d), j) != v
    {
      assert Apart(d.blocks, v, Slot(Root(d), j));
      assert v in Footprint(d.blocks, v);
      assert Slot(Root(d), j) in Footprint(d.blocks, Slot(Root(d), j));
    }
  }

  /** tfs_deleteFile's work on the volume: look the name up, find its slot, walk the
      chain, write the bitmap and zero the slot. The lookup failing gives
      FILE_NOT_FOUND with the volume untouched. */
  method DeleteOnVolume(d: Disk, name: seq<byte>) returns (r: Result<Disk>)
    requires Consistent(d)
    ensures r.Err? <==> InodeOf(d, name).Err?
    ensures r.Err? ==> r.error == FileNotFound
    ensures r.Ok? ==> FindSlot(d, name).Some?
                      && r.value == DeleteOnDisk(d, InodeOf(d, name).value, FindSlot(d, name).value)
  {
    var inode := GetInodeBlock(name, d);
    if inode.Err? {
      return Err(FileNotFound);
    }
    var currentblock := inode.value;
    SlotOfInode(d, name);
    var index := GetRootIndex(d, currentblock);
    // getrootindex cannot report FILE_NOT_FOUND for an inode getInodeBlock just found
    assert index.Ok?;
    Reads(d);
    assert Live(d.blocks, currentblock);
    FileWalkable(d.blocks, currentblock);
    var fp := Footprint(d.blocks, currentblock);
    var disk, bitmap := FreeChain(d, currentblock, fp);
    disk := UpdateBitmap(disk, bitmap);
    disk := UpdateRoot(disk, ToByte(NULL_ADDR), index.value);
    return Ok(disk);
  }

  /** tfs_deleteFile's writes, once the inode v of slot slot is found, keep a
      consistent volume consistent; the slot ends up unused and every block of the
      file free with its bit clear; every other slot and file is as it was. */
  lemma DeleteKeeps(d: Disk, v: nat, slot: nat)
    requires Consistent(d) && slot < MAX_NUM_FILES && Slot(d.blocks[ROOT_ADDR], slot) == v && v != 0
    ensures v < |d.blocks|
    ensures var d' := DeleteOnDisk(d, v, slot);
      Consistent(d')
      && Slot(d'.blocks[ROOT_ADDR], slot) == 0
      && (forall x :: x in Footprint(d.blocks, v) ==> x < |d'.blocks| && !Used(Bm(d'.blocks), x) && d'.blocks[x] == FREE)
      && forall j :: 0 <= j < MAX_NUM_FILES && j != slot ==>
           Slot(d'.blocks[ROOT_ADDR], j) == Slot(d.blocks[ROOT_ADDR], j)
           && (Slot(d.blocks[ROOT_ADDR], j) != 0 ==>
                 Live(d'.blocks, Slot(d.blocks[ROOT_ADDR], j))
                 && Contents(d'.blocks, Slot(d.blocks[ROOT_ADDR], j)) == Contents(d.blocks, Slot(d.blocks[ROOT_ADDR], j)))
  {
    var B := d.blocks;
    assert Live(B, v);
    FileWalkable(B, v);
    var fp := Footprint(B, v);
    ClearedAll(B, fp);
    WipeBlocks(d, fp, slot);
    var d' := DeleteOnDisk(d, v, slot);
    WipedKeeps(d, d'.blocks, MarkAll(Bm(B), fp, Free), v, slot);
  }

  // ---- tfs_deleteFile as written ----

  /** The block tfs_deleteFile starts from: getInodeBlock's result stored in an
      unsigned char, so FILE_NOT_FOUND (-6) becomes address 250. */
  function DeleteStartAsWritten(d: Disk, name: seq<byte>): (a: nat)
    ensures a < MAX_NUM_BLOCKS
  {
    match InodeOf(d, name)
    case Ok(v) => v
    case Err(e) => 256 + Code(e)
  }

  /** When the name is in no slot but a slot holds inode 250, getrootindex finds that
      slot, so the code goes on to delete the file whose inode is block 250. Deleting
      the same descriptor twice does this: the first call zeroes the table name. */
  lemma DeleteAsWrittenHitsOther(d: Disk, name: seq<byte>, j: nat)
    requires InodeOf(d, name).Err? && j < MAX_NUM_FILES && Slot(Root(d), j) == 250
    ensures DeleteStartAsWritten(d, name) == 250
    ensures SlotOfFrom(Root(d), DeleteStartAsWritten(d, name), 0).Ok?
  {
  }

  /** Every root slot of a consistent volume names a block the store holds: a used slot
      names a live file's inode, an unused one names block 0. */
  lemma SlotOnDisk(d: Disk, j: nat)
    requires Consistent(d) && j < MAX_NUM_FILES
    ensures Slot(Root(d), j) < |d.blocks|
  {
    Reads(d);
    if Slot(Root(d), j) != 0 {
      assert Live(d.blocks, Slot(d.blocks[ROOT_ADDR], j));
    }
  }

  /** tfs_deleteFile as written (TinyFS.c:412-433): it starts from getInodeBlock's result
      as an unsigned char, returns FILE_NOT_FOUND only when no slot holds that address,
      and otherwise walks the chain from it, writes the bitmap and zeroes the slot. */
  function DeleteAsWritten(d: Disk, name: seq<byte>): Result<Disk>
    requires Consistent(d)
  {
    var currentblock := DeleteStartAsWritten(d, name);
    var index := SlotOfFrom(Root(d), currentblock, 0);
    if index.Err? then Err(FileNotFound)
    else
      SlotOnDisk(d, index.value);
      Ok(DeleteOnDisk(d, currentblock, index.value))
  }

  /** On a consistent volume where slot j holds inode 250, deleting through a name that
      resolves to no inode does not report FILE_NOT_FOUND: it deletes the file of slot j.
      That slot becomes unused and every block of that file is freed with its bit clear,
      while the volume stays consistent. */
  lemma DeleteAsWrittenRemovesOther(d: Disk, name: seq<byte>, j: nat)
    requires Consistent(d) && InodeOf(d, name).Err? && j < MAX_NUM_FILES && Slot(Root(d), j) == 250
    ensures 250 < |d.blocks|
    ensures var r := DeleteAsWritten(d, name);
      r.Ok? && r.value == DeleteOnDisk(d, 250, j)
      && Consistent(r.value)
      && Slot(r.value.blocks[ROOT_ADDR], j) == 0
      && forall x :: x in Footprint(d.blocks, 250) ==>
           x < |r.value.blocks| && !Used(Bm(r.value.blocks), x) && r.value.blocks[x] == FREE
  {
    OnlySlotHolding(d, 250, j);
    Reads(d);
    assert DeleteStartAsWritten(d, name) == 250;
    DeleteKeeps(d, 250, j);
  }

  /** On a consistent volume the inode a used slot names is in no other slot, so
      getrootindex finds exactly that slot. */
  lemma OnlySlotHolding(d: Disk, v: nat, j: nat)
    requires Consistent(d) && j < MAX_NUM_FILES && Slot(Root(d), j) == v && v != 0
    ensures v < |d.blocks| && SlotOfFrom(Root(d), v, 0) == Ok(j)
  {
    Reads(d);
    SlotOnDisk(d, j);
    forall k | 0 <= k < MAX_NUM_FILES && k != j && Slot(Root(d), k) != 0
      ensures Slot(Root(d), k) != v
    {
      assert Apart(d.blocks, v, Slot(Root(d), k));
      assert v in Footprint(d.blocks, v);
      assert Slot(Root(d), k) in Footprint(d.blocks, Slot(Root(d), k));
    }
  }
}
