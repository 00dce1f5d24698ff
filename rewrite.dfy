/** What the corrected tfs_writeFile leaves on a consistent volume: the volume stays
    consistent, the file holds exactly the buffer in a chain of Needed(buffer) extents,
    every block the file gave up is free again, and every other file is as it was. */
module Rewrite {
  import opened Layout
  import opened Blocks
  import opened Disks
  import opened Bitmap
  import opened Directory
  import opened Files
  import opened Inodes
  import opened Delete
  import opened Write

  // ---- the blocks after the write, described pointwise ----

  /** B' is B with the bitmap bm in the superblock, the inode ib at v, extent e[i] at
      nc[i], a free block at each address of sp, and every other block as before. */
  predicate Rewritten(B: seq<Block>, B': seq<Block>, bm: seq<byte>, v: nat, ib: Block, nc: seq<nat>, e: seq<Block>, sp: seq<nat>) {
    2 <= |B| && |B'| == |B| && |bm| == BITMAP_SIZE && |e| == |nc| && v < |B|
    && B'[SUPERBLOCK_ADDR] == B[SUPERBLOCK_ADDR][..4] + bm
    && B'[ROOT_ADDR] == B[ROOT_ADDR]
    && B'[v] == ib
    && (forall i :: 0 <= i < |nc| ==> nc[i] < |B| && B'[nc[i]] == e[i])
    && forall x :: 2 <= x < |B| && x != v && x !in nc ==> B'[x] == if x in sp then FREE else B[x]
  }

  /** bm is the bitmap of B with the addresses of nc set and then those of sp cleared. */
  predicate Rebits(B: seq<Block>, bm: seq<byte>, nc: seq<nat>, sp: seq<nat>)
    requires 0 < |B|
  {
    |bm| == BITMAP_SIZE
    && forall c :: 0 <= c < 8 * BITMAP_SIZE ==> (Used(bm, c) <==> c !in sp && (c in nc || Used(Bm(B), c)))
  }

  /** The new chain nc of the file at v takes distinct blocks past the root, each one of
      the file's own extents or a free block; the surplus sp lists extents of the old
      chain that nc does not keep, and every old extent is kept or in the surplus. */
  predicate Replan(B: seq<Block>, v: nat, nc: seq<nat>, sp: seq<nat>)
    requires 0 < |B|
  {
    |B| <= MAX_NUM_BLOCKS && |nc| >= 1 && Distinct(nc)
    && (forall i :: 0 <= i < |nc| ==> 2 <= nc[i] < |B| && nc[i] != v && (nc[i] in Extents(B, v) || !Used(Bm(B), nc[i])))
    && (forall k :: 0 <= k < |sp| ==> sp[k] in Extents(B, v) && sp[k] !in nc)
    && (forall x :: x in Extents(B, v) ==> x in nc || x in sp)
  }

  /** The inode the write leaves: still a VALID inode, linked to the first block of the
      chain nc, counting its extents, and recording the size of the buffer. */
  predicate NewInode(ib: Block, nc: seq<nat>, buffer: seq<byte>) {
    Kind(ib) == INODE && ib[1] == MAGIC_NUM && Flag(ib) == VALID
    && |nc| == Needed(buffer) && Link(ib) == nc[0] && BlockCount(ib) == |nc| && GetFileSize(ib) == |buffer|
  }

  /** e[k] is extent k of the chain nc for the buffer: linked to the next one, the last
      to NULL_ADDR, holding chunk k. */
  predicate ChainBlocks(nc: seq<nat>, e: seq<Block>, buffer: seq<byte>) {
    |e| == |nc|
    && forall k :: 0 <= k < |nc| ==>
         ExtentOk(e[k]) && Payload(e[k]) == Chunk(buffer, k)
         && Link(e[k]) == if k + 1 < |nc| then nc[k + 1] else NULL_ADDR
  }

  lemma ExtentsOfChain(nc: seq<nat>, buffer: seq<byte>)
    requires forall i :: 0 <= i < |nc| ==> nc[i] < MAX_NUM_BLOCKS
    ensures ChainBlocks(nc, ExtentsOf(nc, buffer), buffer)
  {
  }

  lemma RebitsAll(B: seq<Block>, nc: seq<nat>, sp: seq<nat>)
    requires 0 < |B|
    requires forall i :: 0 <= i < |nc| ==> nc[i] < 8 * BITMAP_SIZE
    requires forall i :: 0 <= i < |sp| ==> sp[i] < 8 * BITMAP_SIZE
    ensures Rebits(B, MarkAll(MarkAll(Bm(B), nc, InUse), sp, Free), nc, sp)
  {
    var bm1 := MarkAll(Bm(B), nc, InUse);
    forall c | 0 <= c < 8 * BITMAP_SIZE
      ensures Used(MarkAll(bm1, sp, Free), c) <==> c !in sp && (c in nc || Used(Bm(B), c))
    {
      MarkAllUsed(bm1, sp, Free, c);
      MarkAllUsed(Bm(B), nc, InUse, c);
    }
  }

  // ---- the invariant, for blocks as Rewritten describes them ----

  lemma RewrittenFormatted(d: Disk, B': seq<Block>, bm: seq<byte>, v: nat, ib: Block, nc: seq<nat>, e: seq<Block>, sp: seq<nat>)
    requires Formatted(d) && Rewritten(d.blocks, B', bm, v, ib, nc, e, sp) && Rebits(d.blocks, bm, nc, sp)
    requires 0 !in sp && 1 !in sp
    ensures Formatted(d.(blocks := B'))
  {
    assert Bm(B') == bm;
  }

  lemma RewrittenConfined(d: Disk, B': seq<Block>, bm: seq<byte>, v: nat, slot: nat, ib: Block, nc: seq<nat>, e: seq<Block>, sp: seq<nat>)
    requires Consistent(d) && slot < MAX_NUM_FILES && Slot(d.blocks[ROOT_ADDR], slot) == v && v != 0
    requires Rewritten(d.blocks, B', bm, v, ib, nc, e, sp) && Rebits(d.blocks, bm, nc, sp) && Replan(d.blocks, v, nc, sp)
    ensures Confined(d, d.(blocks := B'), slot, {v} + Members(nc) + Members(sp))
  {
    var B := d.blocks;
    assert Live(B, v);
    assert Owned(B, slot) == Footprint(B, v);
    ChangedIn(B, v, nc, sp);
    KeptOut(B, B', bm, v, ib, nc, e, sp);
    ConfinedBy(d, B', slot, {v} + Members(nc) + Members(sp), Footprint(B, v));
  }

  /** Confined, spelled out for a change of blocks only. */
  lemma ConfinedBy(d: Disk, B': seq<Block>, s: nat, C: set<nat>, F: seq<nat>)
    requires Consistent(d) && s < MAX_NUM_FILES && Owned(d.blocks, s) == F
    requires |B'| == |d.blocks| && B'[ROOT_ADDR] == d.blocks[ROOT_ADDR]
    requires forall x: nat :: x in C ==> 2 <= x < |d.blocks| && (!Used(Bm(d.blocks), x) || x in F)
    requires forall x :: 2 <= x < |d.blocks| && x !in C ==> B'[x] == d.blocks[x] && (Used(Bm(B'), x) <==> Used(Bm(d.blocks), x))
    ensures Confined(d, d.(blocks := B'), s, C)
  {
  }

  /** Every block the rewrite may change is the inode, one of its old blocks, or free. */
  lemma ChangedIn(B: seq<Block>, v: nat, nc: seq<nat>, sp: seq<nat>)
    requires 0 < |B| <= MAX_NUM_BLOCKS && FileOk(B, v) && Replan(B, v, nc, sp)
    ensures forall x: nat :: x in {v} + Members(nc) + Members(sp) ==> 2 <= x < |B| && (!Used(Bm(B), x) || x in Footprint(B, v))
  {
    forall x: nat | x in {v} + Members(nc) + Members(sp)
      ensures 2 <= x < |B| && (!Used(Bm(B), x) || x in Footprint(B, v))
    {
      InUnion(v, nc, sp, x);
      MayChange(B, v, nc, sp, x);
    }
  }

  lemma InUnion(v: nat, nc: seq<nat>, sp: seq<nat>, x: nat)
    requires x in {v} + Members(nc) + Members(sp)
    ensures x == v || x in nc || x in sp
  {
  }

  /** Outside the inode, the new chain and the surplus, the rewrite changes no block and
      no bit. */
  lemma KeptOut(B: seq<Block>, B': seq<Block>, bm: seq<byte>, v: nat, ib: Block, nc: seq<nat>, e: seq<Block>, sp: seq<nat>)
    requires |B| <= MAX_NUM_BLOCKS && Rewritten(B, B', bm, v, ib, nc, e, sp) && Rebits(B, bm, nc, sp)
    ensures forall x :: 2 <= x < |B| && x !in {v} + Members(nc) + Members(sp) ==>
              B'[x] == B[x] && (Used(Bm(B'), x) <==> Used(Bm(B), x))
  {
    assert Bm(B') == bm;
  }

  /** A block the rewrite changes is the inode, a block of its chain or a free block. */
  lemma MayChange(B: seq<Block>, v: nat, nc: seq<nat>, sp: seq<nat>, x: nat)
    requires 0 < |B| <= MAX_NUM_BLOCKS && FileOk(B, v) && Replan(B, v, nc, sp)
    requires x == v || x in nc || x in sp
    ensures 2 <= x < |B| && (!Used(Bm(B), x) || x in Footprint(B, v))
  {
    if x == v {
      assert Footprint(B, v)[0] == x;
    } else if x in sp {
      OwnExtent(B, v, x);
    } else if x in Extents(B, v) {
      OwnExtent(B, v, x);
    }
  }

  /** An extent of a well-formed file is a data address of its footprint. */
  lemma OwnExtent(B: seq<Block>, v: nat, x: nat)
    requires FileOk(B, v) && x in Extents(B, v)
    ensures 2 <= x < |B| && x in Footprint(B, v)
  {
    OldChain(B, v);
    var oc := Extents(B, v);
    var i :| 0 <= i < |oc| && oc[i] == x;
    assert Footprint(B, v)[i + 1] == x;
  }

  lemma RewrittenAgrees(B: seq<Block>, B': seq<Block>, bm: seq<byte>, v: nat, ib: Block, nc: seq<nat>, e: seq<Block>, sp: seq<nat>, buffer: seq<byte>)
    requires |B| <= MAX_NUM_BLOCKS && Rewritten(B, B', bm, v, ib, nc, e, sp) && Rebits(B, bm, nc, sp)
    requires NewInode(ib, nc, buffer) && ChainBlocks(nc, e, buffer)
    requires v !in sp && Used(Bm(B), v)
    requires forall i :: 0 <= i < |nc| ==> nc[i] !in sp
    requires forall k :: 0 <= k < |sp| ==> 2 <= sp[k] < |B| && sp[k] != v && sp[k] !in nc
    ensures |B'| <= MAX_NUM_BLOCKS && Agrees(B', v)
    ensures forall i :: 0 <= i < |nc| ==> Agrees(B', nc[i])
    ensures forall k :: 0 <= k < |sp| ==> sp[k] < |B'| && B'[sp[k]] == FREE && !Used(Bm(B'), sp[k]) && Agrees(B', sp[k])
  {
    assert Bm(B') == bm;
    forall i | 0 <= i < |nc|
      ensures Agrees(B', nc[i])
    {
      assert B'[nc[i]] == e[i];
    }
  }

  /** The inode is neither in the new chain nor in the surplus, and the surplus lies
      past the root. */
  lemma RewrittenApart(d: Disk, v: nat, nc: seq<nat>, sp: seq<nat>)
    requires Formatted(d) && Live(d.blocks, v) && Replan(d.blocks, v, nc, sp)
    ensures v !in nc && v !in sp && Used(Bm(d.blocks), v)
    ensures forall k :: 0 <= k < |sp| ==> 2 <= sp[k] < |d.blocks| && sp[k] != v
    ensures forall i :: 0 <= i < |nc| ==> nc[i] !in sp
    ensures 0 !in sp && 1 !in sp
  {
    var B := d.blocks;
    assert v in Footprint(B, v);
    forall k | 0 <= k < |sp|
      ensures 2 <= sp[k] < |B| && sp[k] != v
    {
      assert sp[k] in Extents(B, v);
    }
  }

  lemma RewrittenFile(B: seq<Block>, B': seq<Block>, bm: seq<byte>, v: nat, ib: Block, nc: seq<nat>, e: seq<Block>, sp: seq<nat>, buffer: seq<byte>)
    requires |B| <= MAX_NUM_BLOCKS && Rewritten(B, B', bm, v, ib, nc, e, sp) && Rebits(B, bm, nc, sp)
    requires 2 <= v && Used(Bm(B), v) && v !in sp && Distinct(nc)
    requires forall i :: 0 <= i < |nc| ==> 2 <= nc[i] && nc[i] != v && nc[i] !in sp
    requires NewInode(ib, nc, buffer) && ChainBlocks(nc, e, buffer)
    ensures Live(B', v) && Extents(B', v) == nc && Footprint(B', v) == [v] + nc
    ensures Contents(B', v) == buffer
  {
    assert Bm(B') == bm;
    NewChain(B', v, ib, nc, e, buffer);
    NewLive(B, B', bm, v, nc, sp);
  }

  /** A well-formed file whose chain is nc is live once its inode and nc are marked. */
  lemma NewLive(B: seq<Block>, B': seq<Block>, bm: seq<byte>, v: nat, nc: seq<nat>, sp: seq<nat>)
    requires 0 < |B| && 0 < |B'| <= MAX_NUM_BLOCKS && FileOk(B', v) && Extents(B', v) == nc
    requires Bm(B') == bm && Rebits(B, bm, nc, sp)
    requires v < 8 * BITMAP_SIZE && Used(Bm(B), v) && v !in sp && forall i :: 0 <= i < |nc| ==> nc[i] !in sp
    ensures Live(B', v) && Footprint(B', v) == [v] + nc
  {
  }

  /** An inode and extents as the write builds them, in place, make a well-formed file
      whose chain is nc and whose bytes are the buffer. */
  lemma NewChain(B': seq<Block>, v: nat, ib: Block, nc: seq<nat>, e: seq<Block>, buffer: seq<byte>)
    requires 2 <= v < |B'| && B'[v] == ib && NewInode(ib, nc, buffer) && ChainBlocks(nc, e, buffer)
    requires Distinct(nc) && forall i :: 0 <= i < |nc| ==> 2 <= nc[i] < |B'| && nc[i] != v && B'[nc[i]] == e[i]
    ensures FileOk(B', v) && Extents(B', v) == nc && Contents(B', v) == buffer
  {
    forall i | 0 <= i < |nc| - 1
      ensures Link(B'[nc[i]]) == nc[i + 1]
    {
      assert B'[nc[i]] == e[i];
    }
    ChainOf(B', nc);
    assert Extents(B', v) == nc;
    assert Link(B'[nc[|nc| - 1]]) == NULL_ADDR by {
      assert B'[nc[|nc| - 1]] == e[|nc| - 1];
    }
    assert FileOk(B', v);
    forall k | 0 <= k < |nc|
      ensures Payload(B'[nc[k]]) == Chunk(buffer, k)
    {
      assert B'[nc[k]] == e[k];
    }
    DataOfChunks(B', nc, buffer);
  }

  /** tfs_writeFile, corrected, on a consistent volume, for blocks as Rewritten
      describes them: the volume stays consistent; the slot still holds the inode, whose
      file is live and holds the buffer in the chain nc; every block of the old file is
      in the new one or free with its bit clear; every other slot and file is as it was. */
  lemma RewrittenKeeps(d: Disk, B': seq<Block>, bm: seq<byte>, v: nat, slot: nat, ib: Block, nc: seq<nat>, e: seq<Block>, sp: seq<nat>, buffer: seq<byte>)
    requires Consistent(d) && slot < MAX_NUM_FILES && Slot(d.blocks[ROOT_ADDR], slot) == v && v != 0
    requires Rewritten(d.blocks, B', bm, v, ib, nc, e, sp) && Rebits(d.blocks, bm, nc, sp) && Replan(d.blocks, v, nc, sp)
    requires NewInode(ib, nc, buffer) && ChainBlocks(nc, e, buffer)
    ensures Consistent(d.(blocks := B'))
    ensures Slot(B'[ROOT_ADDR], slot) == v && Live(B', v) && Extents(B', v) == nc && Contents(B', v) == buffer
    ensures forall x :: x in Footprint(d.blocks, v) ==> x in Footprint(B', v) || (!Used(Bm(B'), x) && B'[x] == FREE)
    ensures forall j :: 0 <= j < MAX_NUM_FILES && j != slot ==>
              Slot(B'[ROOT_ADDR], j) == Slot(d.blocks[ROOT_ADDR], j)
              && (Slot(d.blocks[ROOT_ADDR], j) != 0 ==>
                    Live(B', Slot(d.blocks[ROOT_ADDR], j))
                    && Contents(B', Slot(d.blocks[ROOT_ADDR], j)) == Contents(d.blocks, Slot(d.blocks[ROOT_ADDR], j)))
  {
    var B := d.blocks;
    var d' := d.(blocks := B');
    var C := {v} + Members(nc) + Members(sp);
    assert Live(B, v);
    RewrittenApart(d, v, nc, sp);
    RewrittenFormatted(d, B', bm, v, ib, nc, e, sp);
    RewrittenConfined(d, B', bm, v, slot, ib, nc, e, sp);
    RewrittenAgrees(B, B', bm, v, ib, nc, e, sp, buffer);
    RewrittenFile(B, B', bm, v, ib, nc, e, sp, buffer);
    Covered(B', v, nc, sp);
    NothingLeaks(B, B', v, nc, sp);
    assert NewFileOk(d, d', slot, C);
    Reshape(d, d', slot, C);
  }

  /** The blocks the write changes agree with their bits, and the new file is made of
      them. */
  lemma Covered(B': seq<Block>, v: nat, nc: seq<nat>, sp: seq<nat>)
    requires |B'| <= MAX_NUM_BLOCKS && v < |B'| && Agrees(B', v)
    requires forall i :: 0 <= i < |nc| ==> nc[i] < |B'| && Agrees(B', nc[i])
    requires forall k :: 0 <= k < |sp| ==> sp[k] < |B'| && Agrees(B', sp[k])
    ensures forall x :: x in {v} + Members(nc) + Members(sp) ==> x < |B'| && Agrees(B', x)
    ensures forall x :: x in [v] + nc ==> x in {v} + Members(nc) + Members(sp)
  {
  }

  /** Every block of the old file is in the new one or free. */
  lemma NothingLeaks(B: seq<Block>, B': seq<Block>, v: nat, nc: seq<nat>, sp: seq<nat>)
    requires v < |B| <= MAX_NUM_BLOCKS && |B'| == |B| && Footprint(B', v) == [v] + nc
    requires forall x :: x in Extents(B, v) ==> x in nc || x in sp
    requires forall k :: 0 <= k < |sp| ==> sp[k] < |B'| && B'[sp[k]] == FREE && !Used(Bm(B'), sp[k])
    ensures forall x :: x in Footprint(B, v) ==> x in Footprint(B', v) || (!Used(Bm(B'), x) && B'[x] == FREE)
  {
    forall x | x in Footprint(B, v)
      ensures x in Footprint(B', v) || (!Used(Bm(B'), x) && B'[x] == FREE)
    {
      if x != v {
        assert x in Extents(B, v);
      }
    }
  }

  // ---- what WriteOnDisk writes ----

  /** The chain the corrected write plans, with the surplus it frees, is a replanning of
      the file's blocks. */
  lemma PlanReplan(d: Disk, v: nat, buffer: seq<byte>)
    requires Consistent(d) && Live(d.blocks, v) && Room(d, v, buffer)
    ensures var oc := Extents(d.blocks, v);
      Replan(d.blocks, v, Plan(oc, FreeList(d), Needed(buffer)), Surplus(oc, Needed(buffer)))
  {
    OldChain(d.blocks, v);
    FreeApart(d, v);
    PlanShape(d.blocks, v, Extents(d.blocks, v), FreeList(d), Needed(buffer));
  }

  lemma PlanShape(B: seq<Block>, v: nat, oc: seq<nat>, fl: seq<nat>, n: nat)
    requires 0 < |B| <= MAX_NUM_BLOCKS && oc == Extents(B, v) && |oc| >= 1 && 1 <= n <= |oc| + |fl|
    requires Distinct(oc) && Distinct(fl)
    requires forall i :: 0 <= i < |oc| ==> 2 <= oc[i] < |B| && oc[i] != v
    requires forall j :: 0 <= j < |fl| ==> 2 <= fl[j] < |B| && fl[j] != v && !Used(Bm(B), fl[j])
    requires forall i, j :: 0 <= i < |oc| && 0 <= j < |fl| ==> oc[i] != fl[j]
    ensures Replan(B, v, Plan(oc, fl, n), Surplus(oc, n))
  {
    var nc := Plan(oc, fl, n);
    var sp := Surplus(oc, n);
    PlanDistinct(oc, fl, n);
    forall i | 0 <= i < n
      ensures 2 <= nc[i] < |B| && nc[i] != v && (nc[i] in oc || !Used(Bm(B), nc[i]))
    {
      if i < |oc| {
        assert nc[i] == oc[i];
      } else {
        assert nc[i] == fl[i - |oc|];
      }
    }
    forall k | 0 <= k < |sp|
      ensures sp[k] in oc && sp[k] !in nc
    {
      assert sp[k] == oc[n + k];
      assert forall i :: 0 <= i < n ==> nc[i] == oc[i];
    }
    forall x | x in oc
      ensures x in nc || x in sp
    {
      var i :| 0 <= i < |oc| && oc[i] == x;
      if i < n {
        assert nc[i] == x;
      } else {
        assert sp[i - n] == x;
      }
    }
  }

  /** After the loop and the bitmap update: the new extents in place, the bitmap with
      their bits set, the stamped inode, and every other block as before. */
  lemma GrownBlocks(d: Disk, v: nat, ib0: Block, nc: seq<nat>, e: seq<Block>)
    requires Formatted(d) && 2 <= v < |d.blocks| && Distinct(nc) && |e| == |nc|
    requires forall i :: 0 <= i < |nc| ==> 2 <= nc[i] < |d.blocks| && nc[i] != v
    ensures var d1 := d.(blocks := d.blocks[v := ib0]);
      GetBitmap(d1) == Bm(d.blocks)
      && var d2 := UpdateBitmap(WriteAll(d1, nc, e, |nc|), MarkAll(Bm(d.blocks), nc, InUse));
      d2 == d.(blocks := d2.blocks)
      && Rewritten(d.blocks, d2.blocks, MarkAll(Bm(d.blocks), nc, InUse), v, ib0, nc, e, [])
  {
    var B := d.blocks;
    var d1 := d.(blocks := B[v := ib0]);
    var bm := MarkAll(Bm(B), nc, InUse);
    assert d1.blocks[0] == B[0];
    ChainWritten(d1, nc, e, bm);
    var d2 := UpdateBitmap(WriteAll(d1, nc, e, |nc|), bm);
    assert d2.blocks[1] == B[1] by {
      assert 1 !in nc;
    }
  }

  /** Freeing the surplus sp after that: free blocks over sp and their bits cleared. */
  lemma TrimmedBlocks(d: Disk, d2: Disk, bm: seq<byte>, v: nat, ib0: Block, nc: seq<nat>, e: seq<Block>, sp: seq<nat>)
    requires d2 == d.(blocks := d2.blocks) && d.open && Rewritten(d.blocks, d2.blocks, bm, v, ib0, nc, e, [])
    requires 2 <= v && v !in sp && forall i :: 0 <= i < |nc| ==> 2 <= nc[i] && nc[i] !in sp
    requires forall k :: 0 <= k < |sp| ==> 2 <= sp[k] < |d.blocks| && sp[k] < MAX_NUM_BLOCKS
    ensures var d3 := UpdateBitmap(FreeAll(d2, sp), MarkAll(bm, sp, Free));
      d3 == d.(blocks := d3.blocks) && Rewritten(d.blocks, d3.blocks, MarkAll(bm, sp, Free), v, ib0, nc, e, sp)
  {
    var bm2 := MarkAll(bm, sp, Free);
    FreedBlocks(d2, sp, bm2);
    assert d2.blocks[0][..4] == d.blocks[0][..4];
  }

  /** The loop, the bitmap update and the freeing of the surplus, from the volume with
      the stamped inode ib0 at v: the blocks Rewritten describes for the planned chain
      nc and its surplus sp. */
  lemma RechainBlocks(d: Disk, v: nat, ib0: Block, buffer: seq<byte>, nc: seq<nat>, sp: seq<nat>)
    requires Consistent(d) && Live(d.blocks, v) && Room(d, v, buffer)
    requires nc == Plan(Extents(d.blocks, v), FreeList(d), Needed(buffer))
    requires sp == Surplus(Extents(d.blocks, v), Needed(buffer))
    ensures FreeList(d.(blocks := d.blocks[v := ib0])) == FreeList(d)
    ensures forall i :: 0 <= i < |Extents(d.blocks, v)| ==> Extents(d.blocks, v)[i] < MAX_NUM_BLOCKS
    ensures forall i :: 0 <= i < |nc| ==> nc[i] < MAX_NUM_BLOCKS
    ensures forall k :: 0 <= k < |sp| ==> sp[k] < MAX_NUM_BLOCKS
    ensures var d3 := Rechain(d.(blocks := d.blocks[v := ib0]), Extents(d.blocks, v), buffer);
      d3 == d.(blocks := d3.blocks)
      && Rewritten(d.blocks, d3.blocks, MarkAll(MarkAll(Bm(d.blocks), nc, InUse), sp, Free), v, ib0, nc, ExtentsOf(nc, buffer), sp)
  {
    FreeListAway(d, v, ib0);
    PlanReplan(d, v, buffer);
    RewrittenApart(d, v, nc, sp);
    OldChain(d.blocks, v);
    RechainCore(d, v, ib0, buffer, Extents(d.blocks, v), nc, sp);
  }

  /** RechainBlocks past the facts about the plan: the loop writes nc, the bitmap update
      follows, and the surplus sp of a shrinking write is freed. */
  lemma RechainCore(d: Disk, v: nat, ib0: Block, buffer: seq<byte>, oc: seq<nat>, nc: seq<nat>, sp: seq<nat>)
    requires Formatted(d) && 2 <= v < |d.blocks| <= MAX_NUM_BLOCKS
    requires forall i :: 0 <= i < |oc| ==> oc[i] < MAX_NUM_BLOCKS
    requires Needed(buffer) <= |oc| + |FreeList(d)| && FreeList(d.(blocks := d.blocks[v := ib0])) == FreeList(d)
    requires nc == Plan(oc, FreeList(d), Needed(buffer)) && sp == Surplus(oc, Needed(buffer)) && Distinct(nc)
    requires forall i :: 0 <= i < |nc| ==> 2 <= nc[i] < |d.blocks| && nc[i] != v && nc[i] !in sp
    requires v !in sp && forall k :: 0 <= k < |sp| ==> 2 <= sp[k] < |d.blocks|
    ensures var d3 := Rechain(d.(blocks := d.blocks[v := ib0]), oc, buffer);
      d3 == d.(blocks := d3.blocks)
      && Rewritten(d.blocks, d3.blocks, MarkAll(MarkAll(Bm(d.blocks), nc, InUse), sp, Free), v, ib0, nc, ExtentsOf(nc, buffer), sp)
  {
    var B := d.blocks;
    var d1 := d.(blocks := B[v := ib0]);
    var n := Needed(buffer);
    var e := ExtentsOf(nc, buffer);
    GrownBlocks(d, v, ib0, nc, e);
    var bm1 := MarkAll(Bm(B), nc, InUse);
    var d2 := UpdateBitmap(WriteAll(d1, nc, e, n), bm1);
    if n < |oc| {
      TrimmedBlocks(d, d2, bm1, v, ib0, nc, e, sp);
    } else {
      assert MarkAll(bm1, sp, Free) == bm1;
    }
  }

  /** updateTime on the inode at v rewrites that block only. */
  lemma StampAt(d: Disk, v: nat, b: byte, ts: Timestamp, now: int)
    requires d.open && v < |d.blocks| && b as int == v
    ensures UpdateTime(d, b, ts, now) == d.(blocks := d.blocks[v := PutTime(d.blocks[v], ts, now)])
  {
  }

  /** Replacing the inode keeps the rest of the description. */
  lemma RewrittenInode(B: seq<Block>, B3: seq<Block>, bm: seq<byte>, v: nat, ib0: Block, ib: Block, nc: seq<nat>, e: seq<Block>, sp: seq<nat>)
    requires Rewritten(B, B3, bm, v, ib0, nc, e, sp) && 2 <= v && v !in nc
    ensures Rewritten(B, B3[v := ib], bm, v, ib, nc, e, sp)
  {
  }

  /** The inode tfs_writeFile leaves: the stamps, the count and the size rewritten, the
      header and the name as they were. */
  lemma InodeShape(b: Block, count: byte, size: int, now: int)
    requires -0x8000_0000 <= size < 0x8000_0000
    ensures var ib := PutTime(WithSize(PutTime(b, Accessed, now), count, size), Modified, now);
      ib[..COUNT_INDEX] == b[..COUNT_INDEX] && BlockCount(ib) == count as int && GetFileSize(ib) == size
  {
    var b1 := PutTime(b, Accessed, now);
    var b2 := WithSize(b1, count, size);
    var ib := PutTime(b2, Modified, now);
    assert ib[..17] == b2[..17];
    assert b1[..COUNT_INDEX] == b[..COUNT_INDEX];
    assert ib[13..17] == b2[13..17];
  }

  /** A chain of distinct blocks past the root of a volume of m blocks has at most
      m - 2 of them, so its length fits the inode's one-byte count. */
  lemma ChainBound(s: seq<nat>, m: nat)
    requires m >= 2 && Distinct(s) && forall i :: 0 <= i < |s| ==> 2 <= s[i] < m
    ensures |s| + 2 <= m
  {
    var t := [0, 1] + s;
    assert forall i :: 0 <= i < |s| ==> t[i + 2] == s[i];
    DistinctBound(t, m);
  }

  /** The inode WriteOnDisk writes is the new inode of the planned chain, with the name
      it had. */
  lemma SizedShape(d: Disk, v: nat, buffer: seq<byte>, now: int)
    requires Consistent(d) && Live(d.blocks, v) && |buffer| < 0x8000_0000 && Room(d, v, buffer)
    ensures v < MAX_NUM_BLOCKS
    ensures var ib := PutTime(SizedInode(d, v, buffer, now), Modified, now);
      NewInode(ib, Plan(Extents(d.blocks, v), FreeList(d), Needed(buffer)), buffer)
      && ib[..COUNT_INDEX] == d.blocks[v][..COUNT_INDEX]
  {
    var B := d.blocks;
    var oc := Extents(B, v);
    var n := Needed(buffer);
    var nc := Plan(oc, FreeList(d), n);
    OldChain(B, v);
    PlanReplan(d, v, buffer);
    ChainBound(nc, |B|);
    ToByteValue(n % 256);
    SizedIs(d, v, buffer, now);
    Small(|nc|);
    NewInodeOf(B[v], ToByte(n % 256), nc, buffer, now);
  }

  lemma Small(n: nat)
    requires n < 256
    ensures n % 256 == n
  {
  }

  lemma SizedIs(d: Disk, v: nat, buffer: seq<byte>, now: int)
    requires d.open && 2 <= v < |d.blocks| <= MAX_NUM_BLOCKS && |buffer| < 0x8000_0000
    ensures v < MAX_NUM_BLOCKS
    ensures SizedInode(d, v, buffer, now) == WithSize(PutTime(d.blocks[v], Accessed, now), ToByte(Needed(buffer) % 256), |buffer|)
  {
    Stamped(d, v, now);
  }

  lemma NewInodeOf(b: Block, count: byte, nc: seq<nat>, buffer: seq<byte>, now: int)
    requires Kind(b) == INODE && b[1] == MAGIC_NUM && Flag(b) == VALID && |nc| >= 1 && Link(b) == nc[0]
    requires count as int == |nc| && |nc| == Needed(buffer) && |buffer| < 0x8000_0000
    ensures var ib := PutTime(WithSize(PutTime(b, Accessed, now), count, |buffer|), Modified, now);
      NewInode(ib, nc, buffer) && ib[..COUNT_INDEX] == b[..COUNT_INDEX]
  {
    InodeShape(b, count, |buffer|, now);
  }

  /** WriteOnDisk leaves the blocks Rewritten describes, for the planned chain nc, its
      surplus sp and the new inode. */
  lemma WriteBlocks(d: Disk, v: nat, buffer: seq<byte>, now: int, nc: seq<nat>, sp: seq<nat>)
    requires Consistent(d) && Live(d.blocks, v) && |buffer| < 0x8000_0000 && Room(d, v, buffer)
    requires nc == Plan(Extents(d.blocks, v), FreeList(d), Needed(buffer))
    requires sp == Surplus(Extents(d.blocks, v), Needed(buffer))
    ensures 2 <= v < |d.blocks| <= MAX_NUM_BLOCKS
    ensures forall i :: 0 <= i < |nc| ==> nc[i] < MAX_NUM_BLOCKS
    ensures forall k :: 0 <= k < |sp| ==> sp[k] < MAX_NUM_BLOCKS
    ensures var d' := WriteOnDisk(d, v, buffer, now);
      d' == d.(blocks := d'.blocks)
      && Rewritten(d.blocks, d'.blocks, MarkAll(MarkAll(Bm(d.blocks), nc, InUse), sp, Free), v,
                   PutTime(SizedInode(d, v, buffer, now), Modified, now), nc, ExtentsOf(nc, buffer), sp)
  {
    var B := d.blocks;
    Stamped(d, v, now);
    var ib0 := PutTime(B[v], Accessed, now);
    RechainBlocks(d, v, ib0, buffer, nc, sp);
    PlanReplan(d, v, buffer);
    RewrittenApart(d, v, nc, sp);
    var d3 := Rechain(d.(blocks := B[v := ib0]), Extents(B, v), buffer);
    FinishBlocks(d, v, buffer, now, nc, ExtentsOf(nc, buffer), sp, MarkAll(MarkAll(Bm(B), nc, InUse), sp, Free), ib0, d3.blocks);
  }

  /** The inode written over the stamped one, then the modification stamp. */
  lemma FinishBlocks(d: Disk, v: nat, buffer: seq<byte>, now: int, nc: seq<nat>, e: seq<Block>, sp: seq<nat>, bm: seq<byte>, ib0: Block, B3: seq<Block>)
    requires d.open && 2 <= v < |d.blocks| <= MAX_NUM_BLOCKS && |buffer| < 0x8000_0000 && Room(d, v, buffer) && v !in nc
    requires UpdateTime(d, ToByte(v), Accessed, now) == d.(blocks := d.blocks[v := ib0])
    requires FreeList(d.(blocks := d.blocks[v := ib0])) == FreeList(d)
    requires forall i :: 0 <= i < |Extents(d.blocks, v)| ==> Extents(d.blocks, v)[i] < MAX_NUM_BLOCKS
    requires Rechain(d.(blocks := d.blocks[v := ib0]), Extents(d.blocks, v), buffer) == d.(blocks := B3)
    requires Rewritten(d.blocks, B3, bm, v, ib0, nc, e, sp)
    ensures var d' := WriteOnDisk(d, v, buffer, now);
      d' == d.(blocks := d'.blocks)
      && Rewritten(d.blocks, d'.blocks, bm, v, PutTime(SizedInode(d, v, buffer, now), Modified, now), nc, e, sp)
  {
    OnDiskIs(d, v, buffer, now, ib0, B3);
    RewrittenInode(d.blocks, B3, bm, v, ib0, PutTime(SizedInode(d, v, buffer, now), Modified, now), nc, e, sp);
  }

  lemma OnDiskIs(d: Disk, v: nat, buffer: seq<byte>, now: int, ib0: Block, B3: seq<Block>)
    requires d.open && 2 <= v < |d.blocks| <= MAX_NUM_BLOCKS && |buffer| < 0x8000_0000 && Room(d, v, buffer)
    requires UpdateTime(d, ToByte(v), Accessed, now) == d.(blocks := d.blocks[v := ib0])
    requires FreeList(d.(blocks := d.blocks[v := ib0])) == FreeList(d)
    requires forall i :: 0 <= i < |Extents(d.blocks, v)| ==> Extents(d.blocks, v)[i] < MAX_NUM_BLOCKS
    requires Rechain(d.(blocks := d.blocks[v := ib0]), Extents(d.blocks, v), buffer) == d.(blocks := B3)
    requires |B3| == |d.blocks|
    ensures WriteOnDisk(d, v, buffer, now) == d.(blocks := B3[v := PutTime(SizedInode(d, v, buffer, now), Modified, now)])
  {
    OnDiskUnfold(d, v, buffer, now, ib0, B3);
    StampWritten(d, B3, v, SizedInode(d, v, buffer, now), now);
  }

  lemma OnDiskUnfold(d: Disk, v: nat, buffer: seq<byte>, now: int, ib0: Block, B3: seq<Block>)
    requires d.open && 2 <= v < |d.blocks| <= MAX_NUM_BLOCKS && |buffer| < 0x8000_0000 && Room(d, v, buffer)
    requires UpdateTime(d, ToByte(v), Accessed, now) == d.(blocks := d.blocks[v := ib0])
    requires FreeList(d.(blocks := d.blocks[v := ib0])) == FreeList(d)
    requires forall i :: 0 <= i < |Extents(d.blocks, v)| ==> Extents(d.blocks, v)[i] < MAX_NUM_BLOCKS
    requires Rechain(d.(blocks := d.blocks[v := ib0]), Extents(d.blocks, v), buffer) == d.(blocks := B3)
    ensures WriteOnDisk(d, v, buffer, now) == UpdateTime(WriteOr(d.(blocks := B3), v, SizedInode(d, v, buffer, now)), ToByte(v), Modified, now)
  {
  }

  /** Stamping the inode just written at v stores the stamped inode there. */
  lemma StampWritten(d: Disk, B3: seq<Block>, v: nat, si: Block, now: int)
    requires d.open && v < |B3| && v < MAX_NUM_BLOCKS
    ensures UpdateTime(WriteOr(d.(blocks := B3), v, si), ToByte(v), Modified, now) == d.(blocks := B3[v := PutTime(si, Modified, now)])
  {
    ToByteValue(v);
    StampAt(WriteOr(d.(blocks := B3), v, si), v, ToByte(v), Modified, now);
  }

  /** What the corrected tfs_writeFile leaves, d', for the file at v in slot slot of
      the consistent volume d, writing the buffer over the chain nc: the volume is
      consistent; the file is live, holds exactly the buffer in the chain nc and keeps its
      name; every block it gave up is free with its bit clear; every other slot and
      every other file is as it was. */
  predicate Rewrote(d: Disk, d': Disk, v: nat, slot: nat, buffer: seq<byte>, nc: seq<nat>)
    requires Consistent(d) && slot < MAX_NUM_FILES && Live(d.blocks, v)
  {
    var B := d.blocks;
    var B' := d'.blocks;
    |B'| == |B| && 2 <= |B'| <= MAX_NUM_BLOCKS && Consistent(d') && Slot(B'[ROOT_ADDR], slot) == v && Live(B', v)
    && Contents(B', v) == buffer && NameBytes(B', v) == NameBytes(B, v) && Extents(B', v) == nc
    && (forall x :: x in Footprint(B, v) ==> x in Footprint(B', v) || (!Used(Bm(B'), x) && B'[x] == FREE))
    && forall j :: 0 <= j < MAX_NUM_FILES && j != slot ==>
         Slot(B'[ROOT_ADDR], j) == Slot(B[ROOT_ADDR], j)
         && (Slot(B[ROOT_ADDR], j) != 0 ==>
               Live(B', Slot(B[ROOT_ADDR], j)) && Contents(B', Slot(B[ROOT_ADDR], j)) == Contents(B, Slot(B[ROOT_ADDR], j)))
  }

  /** tfs_writeFile, corrected, on a consistent volume with room for the buffer, for the
      file in slot slot: WriteOnDisk leaves what Rewrote says, for the planned chain. */
  lemma WriteKeeps(d: Disk, v: nat, slot: nat, buffer: seq<byte>, now: int)
    requires Consistent(d) && slot < MAX_NUM_FILES && Slot(d.blocks[ROOT_ADDR], slot) == v && v != 0
    requires |buffer| < 0x8000_0000 && Room(d, v, buffer)
    ensures Live(d.blocks, v) && 2 <= v < |d.blocks|
    ensures Rewrote(d, WriteOnDisk(d, v, buffer, now), v, slot, buffer, Plan(Extents(d.blocks, v), FreeList(d), Needed(buffer)))
  {
    var B := d.blocks;
    assert Live(B, v);
    var oc := Extents(B, v);
    var n := Needed(buffer);
    var nc := Plan(oc, FreeList(d), n);
    var sp := Surplus(oc, n);
    WriteBlocks(d, v, buffer, now, nc, sp);
    SizedShape(d, v, buffer, now);
    PlanReplan(d, v, buffer);
    RebitsAll(B, nc, sp);
    ExtentsOfChain(nc, buffer);
    var d' := WriteOnDisk(d, v, buffer, now);
    var ib := PutTime(SizedInode(d, v, buffer, now), Modified, now);
    RewrittenKeeps(d, d'.blocks, MarkAll(MarkAll(Bm(B), nc, InUse), sp, Free), v, slot, ib, nc, ExtentsOf(nc, buffer), sp, buffer);
    assert d'.blocks[v][NAME_INDEX..NAME_INDEX + MAX_NAME_SIZE] == B[v][NAME_INDEX..NAME_INDEX + MAX_NAME_SIZE] by {
      assert d'.blocks[v] == ib;
    }
  }
}
