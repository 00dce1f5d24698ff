/** tfs_writeFile: the whole content of a file is replaced by a buffer, spread over a
    chain of extents of DATA_SIZE bytes each; the file pointer goes back to 0. */
module Write {
  import opened Layout
  import opened Errors
  import opened Blocks
  import opened Disks
  import opened Bitmap
  import opened Directory
  import opened Files
  import opened Inodes
  import opened Delete

  // ---- what each extent holds ----

  /** The payload of extent k: the next at most DATA_SIZE bytes of the buffer copied into
      the zeroed `towrite` array, so the last extent is padded with zeros. */
  function Chunk(buffer: seq<byte>, k: nat): (c: seq<byte>)
    ensures |c| == DATA_SIZE
  {
    var lo := Min(DATA_SIZE * k, |buffer|);
    var hi := Min(DATA_SIZE * k + DATA_SIZE, |buffer|);
    buffer[lo..hi] + Zeros(DATA_SIZE - (hi - lo))
  }

  /** Byte r of extent q is byte DATA_SIZE * q + r of the buffer. */
  lemma ChunkAt(buffer: seq<byte>, q: nat, r: nat, p: nat)
    requires r < DATA_SIZE && p == DATA_SIZE * q + r && p < |buffer|
    ensures Chunk(buffer, q)[r] == buffer[p]
  {
  }

  /** Extents whose payloads are the chunks of the buffer hold the buffer. */
  lemma DataOfChunks(B: seq<Block>, c: seq<nat>, buffer: seq<byte>)
    requires forall i :: 0 <= i < |c| ==> c[i] < |B|
    requires |buffer| <= DATA_SIZE * |c|
    requires forall k :: 0 <= k < |c| ==> Payload(B[c[k]]) == Chunk(buffer, k)
    ensures Data(B, c)[..|buffer|] == buffer
  {
    forall p | 0 <= p < |buffer|
      ensures Data(B, c)[p] == buffer[p]
    {
      DataAt(B, c, p);
      ChunkAt(buffer, p / DATA_SIZE, p % DATA_SIZE, p);
    }
  }

  // ---- the chain the write leaves ----

  /** The extents tfs_writeFile means to use for n extents: the file's own, in chain
      order, as far as they go, then the first free blocks nextFreeBlock hands out. */
  function Plan(oc: seq<nat>, fl: seq<nat>, n: nat): (nc: seq<nat>)
    requires n <= |oc| + |fl|
    ensures |nc| == n
    ensures forall i :: 0 <= i < n ==> if i < |oc| then nc[i] == oc[i] else nc[i] == fl[i - |oc|]
  {
    if n <= |oc| then oc[..n] else oc + fl[..n - |oc|]
  }

  /** Extent k of the chain nc as makedatablock builds it: linked to the next extent, the
      last one to NULL_ADDR, holding chunk k of the buffer. */
  function ExtentAt(nc: seq<nat>, buffer: seq<byte>, k: nat): (b: Block)
    requires k < |nc| && forall i :: 0 <= i < |nc| ==> nc[i] < MAX_NUM_BLOCKS
    ensures Kind(b) == FILE_EXTENT && b[1] == MAGIC_NUM
    ensures Link(b) == if k + 1 < |nc| then nc[k + 1] else NULL_ADDR
    ensures ExtentOk(b) && Payload(b) == Chunk(buffer, k)
  {
    var next := if k + 1 < |nc| then nc[k + 1] else NULL_ADDR;
    ToByteValue(next);
    MakeDataBlock(ToByte(next), Chunk(buffer, k))
  }

  /** The extents of the chain nc, in chain order. */
  function ExtentsOf(nc: seq<nat>, buffer: seq<byte>): (e: seq<Block>)
    requires forall i :: 0 <= i < |nc| ==> nc[i] < MAX_NUM_BLOCKS
    ensures |e| == |nc| && forall k :: 0 <= k < |nc| ==> e[k] == ExtentAt(nc, buffer, k)
  {
    seq(|nc|, k requires 0 <= k < |nc| => ExtentAt(nc, buffer, k))
  }

  /** The store after blocks e[0..k-1] have been written at addresses nc[0..k-1], in
      order. */
  function WriteAll(d: Disk, nc: seq<nat>, e: seq<Block>, k: nat): (r: Disk)
    requires k <= |nc| == |e|
    ensures r.open == d.open && r.name == d.name && r.size == d.size
    decreases k
  {
    if k == 0 then d else WriteOr(WriteAll(d, nc, e, k - 1), nc[k - 1], e[k - 1])
  }

  /** WriteAll keeps the number of blocks when every address is in range. */
  lemma {:induction false} WriteAllLength(d: Disk, nc: seq<nat>, e: seq<Block>, k: nat)
    requires d.open && k <= |nc| == |e|
    requires forall i :: 0 <= i < |nc| ==> nc[i] < |d.blocks|
    ensures |WriteAll(d, nc, e, k).blocks| == |d.blocks|
    decreases k
  {
    if k > 0 {
      WriteAllLength(d, nc, e, k - 1);
    }
  }

  /** A block none of the first k writes touch is as before. */
  lemma {:induction false} WriteAllMiss(d: Disk, nc: seq<nat>, e: seq<Block>, k: nat, x: nat)
    requires d.open && k <= |nc| == |e| && x < |d.blocks|
    requires forall i :: 0 <= i < |nc| ==> nc[i] < |d.blocks|
    requires forall i :: 0 <= i < k ==> nc[i] != x
    ensures |WriteAll(d, nc, e, k).blocks| == |d.blocks|
    ensures WriteAll(d, nc, e, k).blocks[x] == d.blocks[x]
    decreases k
  {
    WriteAllLength(d, nc, e, k);
    if k > 0 {
      WriteAllMiss(d, nc, e, k - 1, x);
      WriteAllLength(d, nc, e, k - 1);
    }
  }

  /** With distinct addresses, the block at nc[i] is the one written there. */
  lemma {:induction false} WriteAllHit(d: Disk, nc: seq<nat>, e: seq<Block>, k: nat, i: nat)
    requires d.open && k <= |nc| == |e| && Distinct(nc) && i < k
    requires forall j :: 0 <= j < |nc| ==> nc[j] < |d.blocks|
    ensures |WriteAll(d, nc, e, k).blocks| == |d.blocks|
    ensures WriteAll(d, nc, e, k).blocks[nc[i]] == e[i]
    decreases k
  {
    WriteAllLength(d, nc, e, k - 1);
    if i < k - 1 {
      WriteAllHit(d, nc, e, k - 1, i);
      WriteAllLength(d, nc, e, k - 1);
      assert nc[i] != nc[k - 1];
    }
  }

  /** The number of extents the buffer needs, as a nat. */
  function Needed(buffer: seq<byte>): (n: nat)
    ensures n >= 1 && (n - 1) * DATA_SIZE <= |buffer| <= n * DATA_SIZE
    ensures n == ExtentsFor(|buffer|)
  {
    ExtentsForBounds(|buffer|);
    ExtentsFor(|buffer|)
  }

  /** The check tfs_writeFile makes before writing: the free blocks the file must gain
      are there. */
  predicate Room(d: Disk, v: nat, buffer: seq<byte>) {
    Needed(buffer) <= |Extents(d.blocks, v)| + |FreeList(d)|
  }

  /** The inode tfs_writeFile writes: the one it read back after stamping the access
      time, with the block count (stored in an unsigned char) and the size rewritten. */
  function SizedInode(d: Disk, v: nat, buffer: seq<byte>, now: int): Block
    requires v < MAX_NUM_BLOCKS && |buffer| < 0x8000_0000
  {
    ToByteValue(v);
    ToByteValue(Needed(buffer) % 256);
    var d1 := UpdateTime(d, ToByte(v), Accessed, now);
    WithSize(ReadOr(d1, v, ZERO_BLOCK), ToByte(Needed(buffer) % 256), |buffer|)
  }

  /** The extents of the old chain the new content does not need. */
  function Surplus(oc: seq<nat>, n: nat): (sp: seq<nat>)
    ensures n < |oc| ==> sp == oc[n..]
    ensures |oc| <= n ==> sp == []
  {
    if n < |oc| then oc[n..] else []
  }

  /** The loop of tfs_writeFile on the volume d1 whose file has the chain oc, followed
      by the bitmap update: the extents of the new chain written in order, their bits
      set, and the surplus of the old chain freed as tfs_deleteFile frees a chain. */
  function Rechain(d1: Disk, oc: seq<nat>, buffer: seq<byte>): Disk
    requires forall i :: 0 <= i < |oc| ==> oc[i] < MAX_NUM_BLOCKS
    requires Needed(buffer) <= |oc| + |FreeList(d1)|
  {
    var n := Needed(buffer);
    var nc := Plan(oc, FreeList(d1), n);
    var bm := MarkAll(GetBitmap(d1), nc, InUse);
    var d2 := UpdateBitmap(WriteAll(d1, nc, ExtentsOf(nc, buffer), n), bm);
    if n < |oc| then UpdateBitmap(FreeAll(d2, oc[n..]), MarkAll(bm, oc[n..], Free)) else d2
  }

  /** What tfs_writeFile writes to the volume for the file whose inode is v, when there is
      room: the access time, the new chain, the inode with its new count and size, and
      the modification time. */
  function WriteOnDisk(d: Disk, v: nat, buffer: seq<byte>, now: int): Disk
    requires d.open && 2 <= v < |d.blocks| <= MAX_NUM_BLOCKS && |buffer| < 0x8000_0000 && Room(d, v, buffer)
  {
    Stamped(d, v, now);
    var d1 := UpdateTime(d, ToByte(v), Accessed, now);
    var d3 := Rechain(d1, Extents(d.blocks, v), buffer);
    UpdateTime(WriteOr(d3, v, SizedInode(d, v, buffer, now)), ToByte(v), Modified, now)
  }

  // ---- the loop of tfs_writeFile ----

  /** One copy step: `copy` bytes from position pos of the buffer, padded with zeros,
      are chunk k, and the position moves on to the start of chunk k + 1. */
  lemma ChunkStep(buffer: seq<byte>, k: nat, pos: nat, size: int, copy: int)
    requires pos == Min(DATA_SIZE * k, |buffer|) && size == |buffer| - pos
    requires copy == if size < DATA_SIZE then size else DATA_SIZE
    ensures 0 <= copy <= DATA_SIZE && pos + copy <= |buffer|
    ensures buffer[pos..pos + copy] + Zeros(DATA_SIZE - copy) == Chunk(buffer, k)
    ensures pos + copy == Min(DATA_SIZE * (k + 1), |buffer|)
  {
  }

  /** What the loop relies on about the volume it writes: an open disk, distinct new
      extents past the root, and the old chain linked in order. */
  predicate Prepared(d1: Disk, v: nat, oc: seq<nat>, nc: seq<nat>) {
    d1.open && 2 <= |d1.blocks| <= MAX_NUM_BLOCKS && Distinct(nc)
    && (forall i :: 0 <= i < |nc| ==> 2 <= nc[i] < |d1.blocks| && nc[i] != v)
    && (forall i :: 0 <= i < |oc| - 1 ==> oc[i] < |d1.blocks| && Link(d1.blocks[oc[i]]) == oc[i + 1])
  }

  /** Iteration k of the loop, about to write extent k at nc[k]: the block there is
      still the one before the loop, and the allocator still sees the bitmap it saw
      before the loop. */
  lemma WriteStep(d1: Disk, nc: seq<nat>, e: seq<Block>, k: nat)
    requires d1.open && 2 <= |d1.blocks| && Distinct(nc) && |e| == |nc| && k < |nc|
    requires forall i :: 0 <= i < |nc| ==> 2 <= nc[i] < |d1.blocks|
    ensures var dk := WriteAll(d1, nc, e, k);
      dk.open && |dk.blocks| == |d1.blocks| && FreeList(dk) == FreeList(d1)
      && dk.blocks[nc[k]] == d1.blocks[nc[k]]
      && WriteOr(dk, nc[k], e[k]) == WriteAll(d1, nc, e, k + 1)
      && nc[..k + 1] == nc[..k] + [nc[k]]
  {
    WriteAllLength(d1, nc, e, k);
    WriteAllMiss(d1, nc, e, k, nc[k]);
    WriteAllMiss(d1, nc, e, k, 0);
    var dk := WriteAll(d1, nc, e, k);
    assert GetBitmap(dk) == GetBitmap(d1);
    assert nc[..k + 1] == nc[..k] + [nc[k]];
  }

  /** The new chain lists each address once when the old chain and the free list do and
      share none. */
  lemma PlanDistinct(oc: seq<nat>, fl: seq<nat>, n: nat)
    requires n <= |oc| + |fl| && Distinct(oc) && Distinct(fl)
    requires forall i, j :: 0 <= i < |oc| && 0 <= j < |fl| ==> oc[i] != fl[j]
    ensures Distinct(Plan(oc, fl, n))
  {
  }

  /** The chain of a well-formed file, as the loop walks it. */
  lemma OldChain(B: seq<Block>, v: nat)
    requires FileOk(B, v)
    ensures var oc := Extents(B, v);
      |oc| == BlockCount(B[v]) && |oc| >= 1 && oc[0] == Link(B[v]) && Distinct(oc)
      && (forall i :: 0 <= i < |oc| ==> 2 <= oc[i] < |B| && oc[i] != v)
      && (forall i :: 0 <= i < |oc| - 1 ==> Link(B[oc[i]]) == oc[i + 1])
  {
    ChainLinks(B, Link(B[v]), BlockCount(B[v]));
  }

  /** The free blocks of a consistent volume lie past the root, once each, outside every
      file. */
  lemma FreeApart(d: Disk, v: nat)
    requires Consistent(d) && Live(d.blocks, v)
    ensures var oc := Extents(d.blocks, v);
      var fl := FreeList(d);
      Distinct(fl)
      && (forall j :: 0 <= j < |fl| ==> 2 <= fl[j] < |d.blocks| && fl[j] != v && !Used(Bm(d.blocks), fl[j]))
      && (forall i, j :: 0 <= i < |oc| && 0 <= j < |fl| ==> oc[i] != fl[j])
  {
    var B := d.blocks;
    var oc := Extents(B, v);
    var fl := FreeList(d);
    FreeListDistinct(d);
    forall j | 0 <= j < |fl|
      ensures 2 <= fl[j] < |B| && !Used(Bm(B), fl[j])
    {
      FreeListFree(d, fl[j]);
    }
    forall i | 0 <= i < |oc|
      ensures Used(Bm(B), oc[i])
    {
      assert oc[i] in Footprint(B, v);
    }
    assert v in Footprint(B, v);
  }

  /** Stamping the access time rewrites the inode and nothing the loop reads. */
  lemma Stamped(d: Disk, v: nat, now: int)
    requires d.open && 2 <= v < |d.blocks| <= MAX_NUM_BLOCKS
    ensures v < MAX_NUM_BLOCKS
    ensures var d1 := UpdateTime(d, ToByte(v), Accessed, now);
      d1 == d.(blocks := d.blocks[v := PutTime(d.blocks[v], Accessed, now)])
      && FreeList(d1) == FreeList(d)
      && BlockCount(d1.blocks[v]) == BlockCount(d.blocks[v]) && Link(d1.blocks[v]) == Link(d.blocks[v])
  {
    ToByteValue(v);
    StampedAt(d, v, ToByte(v), now);
  }

  lemma StampedAt(d: Disk, v: nat, b: byte, now: int)
    requires d.open && 2 <= v < |d.blocks| && b as int == v
    ensures var d1 := UpdateTime(d, b, Accessed, now);
      d1 == d.(blocks := d.blocks[v := PutTime(d.blocks[v], Accessed, now)])
      && FreeList(d1) == FreeList(d)
      && BlockCount(d1.blocks[v]) == BlockCount(d.blocks[v]) && Link(d1.blocks[v]) == Link(d.blocks[v])
  {
    var blk := PutTime(d.blocks[v], Accessed, now);
    FreeListAway(d, v, blk);
    PutTimeHeader(d.blocks[v], Accessed, now);
  }

  /** What the loop starts from: the access stamp leaves the free list as it was, and the
      planned chain and the old chain are what the loop needs on the stamped volume. */
  lemma Prepare(d: Disk, v: nat, buffer: seq<byte>, now: int)
    requires Consistent(d) && Live(d.blocks, v) && Room(d, v, buffer)
    ensures v < MAX_NUM_BLOCKS
    ensures var d1 := UpdateTime(d, ToByte(v), Accessed, now);
      var oc := Extents(d.blocks, v);
      FreeList(d1) == FreeList(d) && Prepared(d1, v, oc, Plan(oc, FreeList(d1), Needed(buffer)))
      && |oc| == BlockCount(d1.blocks[v]) && |oc| >= 1 && Link(d1.blocks[v]) == oc[0]
  {
    var B := d.blocks;
    Stamped(d, v, now);
    OldChain(B, v);
    FreeApart(d, v);
    var d1 := UpdateTime(d, ToByte(v), Accessed, now);
    PlanPrepared(d, d1, v, Extents(B, v), FreeList(d), Needed(buffer));
  }

  /** The planned chain is ready for the loop on a volume that differs from d only at the
      inode, when the old chain and the free list are disjoint runs of distinct data
      addresses. */
  lemma PlanPrepared(d: Disk, d1: Disk, v: nat, oc: seq<nat>, fl: seq<nat>, n: nat)
    requires d1.open && |d1.blocks| == |d.blocks| && 2 <= |d.blocks| <= MAX_NUM_BLOCKS
    requires n <= |oc| + |fl| && Distinct(oc) && Distinct(fl)
    requires forall i :: 0 <= i < |oc| ==> 2 <= oc[i] < |d.blocks| && oc[i] != v
    requires forall j :: 0 <= j < |fl| ==> 2 <= fl[j] < |d.blocks| && fl[j] != v
    requires forall i, j :: 0 <= i < |oc| && 0 <= j < |fl| ==> oc[i] != fl[j]
    requires forall i :: 0 <= i < |oc| - 1 ==> Link(d.blocks[oc[i]]) == oc[i + 1]
    requires forall x :: 0 <= x < |d.blocks| && x != v ==> d1.blocks[x] == d.blocks[x]
    ensures Prepared(d1, v, oc, Plan(oc, fl, n))
  {
    var nc := Plan(oc, fl, n);
    PlanDistinct(oc, fl, n);
    forall i | 0 <= i < |nc|
      ensures 2 <= nc[i] < |d1.blocks| && nc[i] != v
    {
      if i >= |oc| {
        assert nc[i] == fl[i - |oc|];
      }
    }
  }

  /** The blocks after the loop and the bitmap update: the new extents in place, the
      superblock holding the new bitmap, every other block as before. */
  lemma ChainWritten(d1: Disk, nc: seq<nat>, e: seq<Block>, bm: seq<byte>)
    requires d1.open && 2 <= |d1.blocks| && Distinct(nc) && |e| == |nc| && |bm| == BITMAP_SIZE
    requires forall i :: 0 <= i < |nc| ==> 2 <= nc[i] < |d1.blocks|
    ensures var d2 := UpdateBitmap(WriteAll(d1, nc, e, |nc|), bm);
      d2.open && |d2.blocks| == |d1.blocks| && GetBitmap(d2) == bm
      && d2.blocks[0] == d1.blocks[0][..4] + bm
      && (forall i :: 0 <= i < |nc| ==> d2.blocks[nc[i]] == e[i])
      && (forall x :: 0 < x < |d1.blocks| && x !in nc ==> d2.blocks[x] == d1.blocks[x])
  {
    var dn := WriteAll(d1, nc, e, |nc|);
    WriteAllLength(d1, nc, e, |nc|);
    WriteAllMiss(d1, nc, e, |nc|, 0);
    BitmapRoundTrip(dn, bm);
    forall i | 0 <= i < |nc|
      ensures dn.blocks[nc[i]] == e[i]
    {
      WriteAllHit(d1, nc, e, |nc|, i);
    }
    forall x | 0 < x < |d1.blocks| && x !in nc
      ensures dn.blocks[x] == d1.blocks[x]
    {
      WriteAllMiss(d1, nc, e, |nc|, x);
    }
  }

  /** The surplus of a chain shares no address with the part kept. */
  lemma SurplusApart(oc: seq<nat>, n: nat)
    requires Distinct(oc) && n < |oc|
    ensures forall x :: x in oc[n..] ==> x !in oc[..n]
  {
    forall x | x in oc[n..]
      ensures x !in oc[..n]
    {
      var j :| 0 <= j < |oc| - n && oc[n..][j] == x;
      assert oc[n + j] == x;
    }
  }

  /** The surplus of a file's chain, on blocks that still hold it, is a chain the walk of
      tfs_deleteFile frees. */
  lemma SurplusWalkable(B: seq<Block>, v: nat, B2: seq<Block>, n: nat)
    requires FileOk(B, v) && n < |Extents(B, v)| && |B2| == |B|
    requires forall k :: n <= k < |Extents(B, v)| ==> B2[Extents(B, v)[k]] == B[Extents(B, v)[k]]
    ensures Walkable(B2, Extents(B, v)[n..])
  {
    FileWalkable(B, v);
    var fp := Footprint(B, v);
    var oc := Extents(B, v);
    var sp := oc[n..];
    forall k | 0 <= k < |sp|
      ensures sp[k] == fp[n + 1 + k] && B2[sp[k]] == B[fp[n + 1 + k]]
    {
      assert sp[k] == oc[n + k];
    }
    forall k | 0 <= k < |sp| - 1
      ensures Link(B2[sp[k]]) == sp[k + 1] && Flag(B2[sp[k]]) == VALID
    {
      assert Link(B[fp[n + 1 + k]]) == fp[n + 1 + k + 1];
    }
    forall i, j | 0 <= i < j < |sp|
      ensures sp[i] != sp[j]
    {
      assert fp[n + 1 + i] != fp[n + 1 + j];
    }
    assert sp[|sp| - 1] == fp[|fp| - 1];
  }

  /** Everything the corrected loop needs of the volume and the new chain. */
  predicate Setting(d1: Disk, v: nat, oc: seq<nat>, nc: seq<nat>, buffer: seq<byte>) {
    Prepared(d1, v, oc, nc) && |oc| >= 1 && |nc| == Needed(buffer)
    && |nc| <= |oc| + |FreeList(d1)| && nc == Plan(oc, FreeList(d1), |nc|)
  }

  /** The loop's variables between iterations: writes left, the block to write next,
      old blocks left, free blocks taken, the buffer position, bytes left, and where the
      surplus of a longer old chain starts once it is known. */
  datatype Cursor = Cursor(writes: int, currentblock: nat, blocksused: nat, i: nat, pos: nat, size: int, rest: nat)

  /** The cursor before iteration k of the corrected loop. */
  function CursorAt(oc: seq<nat>, nc: seq<nat>, buffer: seq<byte>, k: nat): Cursor
    requires k <= |nc|
  {
    var u := |oc|;
    var pos := Min(DATA_SIZE * k, |buffer|);
    Cursor(|nc| - k,
           if k < |nc| then nc[k] else NULL_ADDR,
           if k < u then u - k else 0,
           if k < |nc| then (if k < u then 0 else k - u + 1) else (if |nc| < u then 0 else |nc| - u),
           pos, |buffer| - pos,
           if k == |nc| && |nc| < u then oc[|nc|] else NULL_ADDR)
  }

  /** The link the corrected loop gives the extent it writes at currentblock, where
      the old chain's surplus starts (NULL_ADDR unless this is the last write), and the
      new count of free blocks taken: NULL_ADDR for the last extent, the old link while
      the old chain has more blocks, and otherwise the next free block. */
  function Pick(disk: Disk, currentblock: nat, blocksused: nat, writes: int, i: nat): (r: (nat, nat, nat))
    ensures r.0 < MAX_NUM_BLOCKS
  {
    var link := Link(ReadOr(disk, currentblock, ZERO_BLOCK));
    if blocksused > 1 then
      if writes == 1 then (NULL_ADDR, link, i) else (link, NULL_ADDR, i)
    else if writes != 1 then (if i < |FreeList(disk)| then FreeList(disk)[i] else NULL_ADDR, NULL_ADDR, i + 1)
    else (NULL_ADDR, NULL_ADDR, i)
  }

  /** The choice of the link, as the loop body makes it. The C code asserts that the
      allocation succeeds; the room check before the loop guarantees it (LoopIsChain). */
  method PickNext(disk: Disk, currentblock: nat, blocksused: nat, writes: int, i: nat)
    returns (next: nat, rest: nat, i': nat)
    ensures (next, rest, i') == Pick(disk, currentblock, blocksused, writes, i)
  {
    next, rest, i' := NULL_ADDR, NULL_ADDR, i;
    if blocksused > 1 {
      var data := ReadOr(disk, currentblock, ZERO_BLOCK);
      if writes == 1 {
        rest := Link(data);
      } else {
        next := Link(data);
      }
    } else if writes != 1 {
      var a := NextFreeBlock(disk, i);
      next := if a.Ok? then a.value else NULL_ADDR;
      i' := i + 1;
    }
  }

  /** The bytes iteration c copies: what is left, at most DATA_SIZE. */
  function Copy(c: Cursor): int {
    if c.size < DATA_SIZE then c.size else DATA_SIZE
  }

  /** The cursor is one the loop can continue from. */
  predicate Sane(c: Cursor, buffer: seq<byte>) {
    c.currentblock < MAX_NUM_BLOCKS && c.pos + c.size == |buffer| && c.size >= 0
  }

  /** The data block iteration c writes: the link Pick chooses and the next chunk of
      the buffer, padded with zeros. */
  function StepBlock(disk: Disk, c: Cursor, buffer: seq<byte>): Block
    requires Sane(c, buffer)
  {
    var copy := Copy(c);
    MakeDataBlock(ToByte(Pick(disk, c.currentblock, c.blocksused, c.writes, c.i).0),
                  buffer[c.pos..c.pos + copy] + Zeros(DATA_SIZE - copy))
  }

  /** One iteration of the corrected loop on the disk: it picks the link, copies the
      next chunk of the buffer into a data block and writes it at currentblock. */
  function Step(disk: Disk, c: Cursor, buffer: seq<byte>): (r: (Disk, Cursor))
    requires Sane(c, buffer)
    ensures Sane(r.1, buffer) && r.1.writes == c.writes - 1
  {
    var (next, rest, i') := Pick(disk, c.currentblock, c.blocksused, c.writes, c.i);
    var copy := Copy(c);
    (WriteOr(disk, c.currentblock, StepBlock(disk, c, buffer)),
     Cursor(c.writes - 1, next, if c.blocksused > 0 then c.blocksused - 1 else 0, i', c.pos + copy, c.size - copy, rest))
  }

  /** The corrected loop, from cursor c on, until no writes are left; each iteration
      also sets the bit of the block it writes in the bitmap copy. The result is the
      disk, the bitmap copy and where the surplus of the old chain starts. */
  function LoopFrom(disk: Disk, bm: seq<byte>, c: Cursor, buffer: seq<byte>): (r: (Disk, seq<byte>, nat))
    requires |bm| == BITMAP_SIZE && Sane(c, buffer)
    decreases if c.writes > 0 then c.writes else 0
  {
    if c.writes <= 0 then (disk, bm, c.rest)
    else
      var s := Step(disk, c, buffer);
      LoopFrom(s.0, Mark(bm, c.currentblock, InUse), s.1, buffer)
  }

  /** At iteration k the link Pick returns is the one extent k of the new chain carries,
      and the surplus it reads off starts the rest of the old chain. */
  lemma PickStep(d1: Disk, v: nat, oc: seq<nat>, nc: seq<nat>, buffer: seq<byte>, e: seq<Block>, k: nat, disk: Disk)
    requires Prepared(d1, v, oc, nc) && |oc| >= 1 && |e| == |nc| && k < |nc|
    requires |nc| <= |oc| + |FreeList(d1)| && nc == Plan(oc, FreeList(d1), |nc|)
    requires disk == WriteAll(d1, nc, e, k)
    ensures var c := CursorAt(oc, nc, buffer, k);
      var (next, rest, i') := Pick(disk, nc[k], c.blocksused, c.writes, c.i);
      next == (if k + 1 < |nc| then nc[k + 1] else NULL_ADDR)
      && rest == (if k + 1 == |nc| && |nc| < |oc| then oc[|nc|] else NULL_ADDR)
      && i' == CursorAt(oc, nc, buffer, k + 1).i
  {
    WriteStep(d1, nc, e, k);
  }

  /** The extent the loop builds for iteration k is extent k of the chain. */
  lemma ExtentIs(nc: seq<nat>, buffer: seq<byte>, k: nat, next: nat, towrite: seq<byte>)
    requires k < |nc| && forall i :: 0 <= i < |nc| ==> nc[i] < MAX_NUM_BLOCKS
    requires next == (if k + 1 < |nc| then nc[k + 1] else NULL_ADDR) && towrite == Chunk(buffer, k)
    ensures next < MAX_NUM_BLOCKS && MakeDataBlock(ToByte(next), towrite) == ExtentAt(nc, buffer, k)
  {
  }

  /** The cursor an iteration leaves is the cursor of iteration k + 1 when the link,
      the surplus and the free-list position it picks are those of the chain. */
  lemma CursorMoves(oc: seq<nat>, nc: seq<nat>, buffer: seq<byte>, k: nat, next: nat, rest: nat, i': nat)
    requires k < |nc|
    requires next == (if k + 1 < |nc| then nc[k + 1] else NULL_ADDR)
    requires rest == (if k + 1 == |nc| && |nc| < |oc| then oc[|nc|] else NULL_ADDR)
    requires i' == CursorAt(oc, nc, buffer, k + 1).i
    ensures var c := CursorAt(oc, nc, buffer, k);
      Cursor(c.writes - 1, next, if c.blocksused > 0 then c.blocksused - 1 else 0, i', c.pos + Copy(c), c.size - Copy(c), rest)
      == CursorAt(oc, nc, buffer, k + 1)
  {
    var c := CursorAt(oc, nc, buffer, k);
    ChunkStep(buffer, k, c.pos, c.size, Copy(c));
  }

  /** Iteration k of the corrected loop moves the cursor on to iteration k + 1. */
  lemma CursorStep(d1: Disk, v: nat, oc: seq<nat>, nc: seq<nat>, buffer: seq<byte>, k: nat)
    requires Setting(d1, v, oc, nc, buffer) && k < |nc|
    ensures Sane(CursorAt(oc, nc, buffer, k), buffer)
    ensures Step(WriteAll(d1, nc, ExtentsOf(nc, buffer), k), CursorAt(oc, nc, buffer, k), buffer).1
      == CursorAt(oc, nc, buffer, k + 1)
  {
    var c := CursorAt(oc, nc, buffer, k);
    var disk := WriteAll(d1, nc, ExtentsOf(nc, buffer), k);
    PickStep(d1, v, oc, nc, buffer, ExtentsOf(nc, buffer), k, disk);
    var p := Pick(disk, c.currentblock, c.blocksused, c.writes, c.i);
    CursorMoves(oc, nc, buffer, k, p.0, p.1, p.2);
  }

  /** The block an iteration builds is extent k of the chain when the link it picks
      is the next address of the chain and the cursor stands at chunk k. */
  lemma BlockStep(disk: Disk, c: Cursor, buffer: seq<byte>, nc: seq<nat>, k: nat)
    requires Sane(c, buffer) && k < |nc| && forall i :: 0 <= i < |nc| ==> nc[i] < MAX_NUM_BLOCKS
    requires Pick(disk, c.currentblock, c.blocksused, c.writes, c.i).0 == if k + 1 < |nc| then nc[k + 1] else NULL_ADDR
    requires c.pos == Min(DATA_SIZE * k, |buffer|) && c.size == |buffer| - c.pos
    ensures StepBlock(disk, c, buffer) == ExtentAt(nc, buffer, k)
  {
    ChunkStep(buffer, k, c.pos, c.size, Copy(c));
    ExtentIs(nc, buffer, k, Pick(disk, c.currentblock, c.blocksused, c.writes, c.i).0,
             buffer[c.pos..c.pos + Copy(c)] + Zeros(DATA_SIZE - Copy(c)));
  }

  /** Iteration k of the corrected loop writes extent k at nc[k]. */
  lemma DiskStep(d1: Disk, v: nat, oc: seq<nat>, nc: seq<nat>, buffer: seq<byte>, k: nat)
    requires Setting(d1, v, oc, nc, buffer) && k < |nc|
    ensures Sane(CursorAt(oc, nc, buffer, k), buffer)
    ensures Step(WriteAll(d1, nc, ExtentsOf(nc, buffer), k), CursorAt(oc, nc, buffer, k), buffer).0
      == WriteAll(d1, nc, ExtentsOf(nc, buffer), k + 1)
  {
    var e := ExtentsOf(nc, buffer);
    var disk := WriteAll(d1, nc, e, k);
    PickStep(d1, v, oc, nc, buffer, e, k, disk);
    BlockStep(disk, CursorAt(oc, nc, buffer, k), buffer, nc, k);
    WriteStep(d1, nc, e, k);
  }

  lemma PrefixSnoc(s: seq<nat>, k: nat)
    requires k < |s|
    ensures s[..k + 1] == s[..k] + [s[k]]
  {
  }

  /** The loop from cursor c is the loop from the state its first iteration leaves. */
  lemma LoopUnfold(disk: Disk, bm: seq<byte>, c: Cursor, buffer: seq<byte>, disk': Disk, bm': seq<byte>, c': Cursor)
    requires |bm| == BITMAP_SIZE && Sane(c, buffer) && c.writes > 0
    requires Step(disk, c, buffer) == (disk', c') && bm' == Mark(bm, c.currentblock, InUse)
    ensures |bm'| == BITMAP_SIZE && Sane(c', buffer)
    ensures LoopFrom(disk, bm, c, buffer) == LoopFrom(disk', bm', c', buffer)
  {
  }

  /** Iteration k of the corrected loop writes extent k at nc[k], sets its bit, and moves
      the cursor on to iteration k + 1. */
  lemma Advance(d1: Disk, v: nat, oc: seq<nat>, nc: seq<nat>, buffer: seq<byte>, k: nat)
    requires Setting(d1, v, oc, nc, buffer) && k < |nc|
    ensures Sane(CursorAt(oc, nc, buffer, k), buffer) && Sane(CursorAt(oc, nc, buffer, k + 1), buffer)
    ensures var e := ExtentsOf(nc, buffer);
      var bm0 := GetBitmap(d1);
      LoopFrom(WriteAll(d1, nc, e, k), MarkAll(bm0, nc[..k], InUse), CursorAt(oc, nc, buffer, k), buffer)
      == LoopFrom(WriteAll(d1, nc, e, k + 1), MarkAll(bm0, nc[..k + 1], InUse), CursorAt(oc, nc, buffer, k + 1), buffer)
  {
    var e := ExtentsOf(nc, buffer);
    CursorStep(d1, v, oc, nc, buffer, k);
    DiskStep(d1, v, oc, nc, buffer, k);
    PrefixSnoc(nc, k);
    StepMarks(WriteAll(d1, nc, e, k), WriteAll(d1, nc, e, k + 1), GetBitmap(d1), nc[..k], nc[k],
              CursorAt(oc, nc, buffer, k), CursorAt(oc, nc, buffer, k + 1), buffer);
  }

  /** One iteration from cursor c, which writes block x, is the loop from the state it
      leaves, with x appended to the blocks whose bits are set. */
  lemma StepMarks(disk: Disk, disk': Disk, bm0: seq<byte>, pre: seq<nat>, x: nat, c: Cursor, c': Cursor, buffer: seq<byte>)
    requires |bm0| == BITMAP_SIZE && x < MAX_NUM_BLOCKS && forall i :: 0 <= i < |pre| ==> pre[i] < MAX_NUM_BLOCKS
    requires Sane(c, buffer) && c.writes > 0 && c.currentblock == x
    requires Step(disk, c, buffer) == (disk', c') && Sane(c', buffer)
    ensures LoopFrom(disk, MarkAll(bm0, pre, InUse), c, buffer) == LoopFrom(disk', MarkAll(bm0, pre + [x], InUse), c', buffer)
  {
    MarkAllSnoc(bm0, pre, x, InUse);
    LoopUnfold(disk, MarkAll(bm0, pre, InUse), c, buffer, disk', MarkAll(bm0, pre + [x], InUse), c');
  }

  /** One pass through the body of the while loop after its setBitmap: the link picked,
      the next chunk of the buffer copied into a data block written at currentblock,
      and the loop's variables moved on. */
  method Iterate(disk: Disk, c: Cursor, buffer: seq<byte>) returns (disk': Disk, c': Cursor)
    requires Sane(c, buffer)
    ensures (disk', c') == Step(disk, c, buffer)
  {
    var next, rest, i' := PickNext(disk, c.currentblock, c.blocksused, c.writes, c.i);
    var copy := if c.size < DATA_SIZE then c.size else DATA_SIZE;
    var towrite := buffer[c.pos..c.pos + copy] + Zeros(DATA_SIZE - copy);
    disk' := WriteOr(disk, c.currentblock, MakeDataBlock(ToByte(next), towrite));
    c' := Cursor(c.writes - 1, next, if c.blocksused > 0 then c.blocksused - 1 else 0, i', c.pos + copy, c.size - copy, rest);
  }

  /** From iteration k on, the corrected loop writes the rest of the chain nc, sets the
      bits of all of it, and reports where the surplus of the old chain starts. */
  lemma {:induction false} LoopIsChain(d1: Disk, v: nat, oc: seq<nat>, nc: seq<nat>, buffer: seq<byte>, k: nat)
    requires Setting(d1, v, oc, nc, buffer) && k <= |nc|
    ensures Sane(CursorAt(oc, nc, buffer, k), buffer)
    ensures var e := ExtentsOf(nc, buffer);
      var bm0 := GetBitmap(d1);
      LoopFrom(WriteAll(d1, nc, e, k), MarkAll(bm0, nc[..k], InUse), CursorAt(oc, nc, buffer, k), buffer)
      == (WriteAll(d1, nc, e, |nc|), MarkAll(bm0, nc, InUse), if |nc| < |oc| then oc[|nc|] else NULL_ADDR)
    decreases |nc| - k
  {
    if k == |nc| {
      assert nc[..k] == nc;
    } else {
      Advance(d1, v, oc, nc, buffer, k);
      LoopIsChain(d1, v, oc, nc, buffer, k + 1);
    }
  }

  /** The while loop of tfs_writeFile, corrected: from the inode's first block it writes
      `writes` extents, following the old chain while it lasts and then the free list,
      sets each written block's bit in a copy of the bitmap, and returns that copy and
      the first surplus block of the old chain. */
  method WriteExtents(d1: Disk, buffer: seq<byte>, writes: int, first: nat, blocksused: nat)
    returns (disk: Disk, bitmap: seq<byte>, rest: nat)
    requires first < MAX_NUM_BLOCKS
    ensures (disk, bitmap, rest) == LoopFrom(d1, GetBitmap(d1), Cursor(writes, first, blocksused, 0, 0, |buffer|, NULL_ADDR), buffer)
  {
    var bm0 := GetBitmap(d1);
    var bits := new byte[BITMAP_SIZE](j requires 0 <= j < BITMAP_SIZE => bm0[j]);
    assert bits[..] == bm0;
    var c := Cursor(writes, first, blocksused, 0, 0, |buffer|, NULL_ADDR);
    ghost var start := c;
    disk := d1;
    while c.writes > 0
      invariant Sane(c, buffer)
      invariant LoopFrom(disk, bits[..], c, buffer) == LoopFrom(d1, bm0, start, buffer)
      decreases c.writes
    {
      ghost var disk0, bm, c0 := disk, bits[..], c;
      SetBitmap(bits, c.currentblock, InUse);
      disk, c := Iterate(disk, c, buffer);
      LoopUnfold(disk0, bm, c0, buffer, disk, bits[..], c);
    }
    rest := c.rest;
    bitmap := bits[..];
  }

  // ---- tfs_writeFile on the volume ----

  /** Before the loop: the volume after the access stamp, the file's chain and the chain
      the write will leave are in the setting the loop needs, and the inode's count and
      first link start the loop's cursor at iteration 0. */
  lemma Launch(d: Disk, v: nat, buffer: seq<byte>, now: int)
    requires Consistent(d) && Live(d.blocks, v) && Room(d, v, buffer)
    ensures v < MAX_NUM_BLOCKS
    ensures var d1 := UpdateTime(d, ToByte(v), Accessed, now);
      var oc := Extents(d.blocks, v);
      FreeList(d1) == FreeList(d)
      && var nc := Plan(oc, FreeList(d1), Needed(buffer));
      Setting(d1, v, oc, nc, buffer)
      && CursorAt(oc, nc, buffer, 0) == Cursor(Needed(buffer), Link(d1.blocks[v]), BlockCount(d1.blocks[v]), 0, 0, |buffer|, NULL_ADDR)
  {
    Prepare(d, v, buffer, now);
    var d1 := UpdateTime(d, ToByte(v), Accessed, now);
    var oc := Extents(d.blocks, v);
    var nc := Plan(oc, FreeList(d1), Needed(buffer));
    CursorStart(oc, nc, buffer);
  }

  /** Iteration 0 of the corrected loop starts at the first old extent with all of the
      old chain still to reuse and all of the buffer to copy. */
  lemma CursorStart(oc: seq<nat>, nc: seq<nat>, buffer: seq<byte>)
    requires |oc| >= 1 && |nc| >= 1 && nc[0] == oc[0]
    ensures CursorAt(oc, nc, buffer, 0) == Cursor(|nc|, oc[0], |oc|, 0, 0, |buffer|, NULL_ADDR)
  {
  }

  /** The corrected loop, started at iteration 0, writes the chain nc, sets its bits, and
      hands back the first surplus block of the old chain. */
  lemma LoopResult(d1: Disk, v: nat, oc: seq<nat>, nc: seq<nat>, buffer: seq<byte>, disk: Disk, bitmap: seq<byte>, rest: nat)
    requires Setting(d1, v, oc, nc, buffer) && Sane(CursorAt(oc, nc, buffer, 0), buffer)
    requires (disk, bitmap, rest) == LoopFrom(d1, GetBitmap(d1), CursorAt(oc, nc, buffer, 0), buffer)
    ensures disk == WriteAll(d1, nc, ExtentsOf(nc, buffer), |nc|)
    ensures bitmap == MarkAll(GetBitmap(d1), nc, InUse)
    ensures rest == if |nc| < |oc| then oc[|nc|] else NULL_ADDR
  {
    LoopIsChain(d1, v, oc, nc, buffer, 0);
    assert nc[..0] == [];
  }

  /** A block of the surplus is none of the blocks the shorter chain keeps. */
  lemma SurplusOutside(oc: seq<nat>, nc: seq<nat>, k: nat)
    requires Distinct(oc) && |nc| <= k < |oc| && forall j :: 0 <= j < |nc| ==> nc[j] == oc[j]
    ensures forall j :: 0 <= j < |nc| ==> nc[j] != oc[k]
  {
  }

  /** The loop and the bitmap update leave the blocks of the surplus as they were. */
  lemma SurplusKept(d: Disk, v: nat, d1: Disk, nc: seq<nat>, e: seq<Block>, bm: seq<byte>)
    requires FileOk(d.blocks, v) && d1.open && |d1.blocks| == |d.blocks| && |e| == |nc| && |bm| == BITMAP_SIZE
    requires forall x :: 0 <= x < |d.blocks| && x != v ==> d1.blocks[x] == d.blocks[x]
    requires |nc| < |Extents(d.blocks, v)| && forall j :: 0 <= j < |nc| ==> nc[j] == Extents(d.blocks, v)[j]
    ensures var B2 := UpdateBitmap(WriteAll(d1, nc, e, |nc|), bm).blocks;
      |B2| == |d.blocks|
      && forall k :: |nc| <= k < |Extents(d.blocks, v)| ==> B2[Extents(d.blocks, v)[k]] == d.blocks[Extents(d.blocks, v)[k]]
  {
    var oc := Extents(d.blocks, v);
    OldChain(d.blocks, v);
    var dn := WriteAll(d1, nc, e, |nc|);
    WriteAllLength(d1, nc, e, |nc|);
    BitmapRoundTrip(dn, bm);
    forall k | |nc| <= k < |oc|
      ensures UpdateBitmap(dn, bm).blocks[oc[k]] == d.blocks[oc[k]]
    {
      SurplusOutside(oc, nc, k);
      WriteAllMiss(d1, nc, e, |nc|, oc[k]);
    }
  }

  /** After the loop and the bitmap update, the surplus of the old chain is still the
      chain it was, so the walk of tfs_deleteFile frees it, starting from the bitmap the
      loop wrote. */
  lemma SurplusReady(d: Disk, v: nat, d1: Disk, nc: seq<nat>, e: seq<Block>, bm: seq<byte>)
    requires FileOk(d.blocks, v) && |d.blocks| <= MAX_NUM_BLOCKS
    requires |nc| < |Extents(d.blocks, v)| && forall j :: 0 <= j < |nc| ==> nc[j] == Extents(d.blocks, v)[j]
    requires d1 == d.(blocks := d1.blocks) && d1.open && |d1.blocks| == |d.blocks| && d1.blocks == d.blocks[v := d1.blocks[v]]
    requires |e| == |nc| && |bm| == BITMAP_SIZE
    ensures var d2 := UpdateBitmap(WriteAll(d1, nc, e, |nc|), bm);
      d2.open && 2 <= |d2.blocks| <= MAX_NUM_BLOCKS && GetBitmap(d2) == bm
      && Walkable(d2.blocks, Extents(d.blocks, v)[|nc|..]) && Extents(d.blocks, v)[|nc|..][0] == Extents(d.blocks, v)[|nc|]
  {
    OldChain(d.blocks, v);
    WriteAllLength(d1, nc, e, |nc|);
    BitmapRoundTrip(WriteAll(d1, nc, e, |nc|), bm);
    SurplusKept(d, v, d1, nc, e, bm);
    SurplusWalkable(d.blocks, v, UpdateBitmap(WriteAll(d1, nc, e, |nc|), bm).blocks, |nc|);
  }

  /** The loop of tfs_writeFile and what follows it up to the inode write: the new chain
      nc written, the bitmap update, and the surplus of a longer old chain oc freed.
      disk is the volume d after the access stamp on the file's inode v, and inode that
      inode read back. */
  method RewriteChain(disk: Disk, buffer: seq<byte>, inode: Block, ghost d: Disk, ghost v: nat, ghost oc: seq<nat>, ghost nc: seq<nat>)
    returns (d3: Disk)
    requires Setting(disk, v, oc, nc, buffer) && FileOk(d.blocks, v) && oc == Extents(d.blocks, v)
    requires v < |d.blocks| == |disk.blocks| <= MAX_NUM_BLOCKS && disk == d.(blocks := disk.blocks) && disk.blocks == d.blocks[v := disk.blocks[v]]
    requires CursorAt(oc, nc, buffer, 0) == Cursor(Needed(buffer), Link(inode), BlockCount(inode), 0, 0, |buffer|, NULL_ADDR)
    requires |buffer| < 0x8000_0000 && forall i :: 0 <= i < |oc| ==> oc[i] < MAX_NUM_BLOCKS
    ensures d3 == Rechain(disk, oc, buffer)
  {
    var writes := CDiv(|buffer| - 1, DATA_SIZE) + 1;
    var blocksused := BlockCount(inode);
    assert writes == Needed(buffer) && blocksused == |oc| && |nc| == writes;
    var disk2, bitmap, rest := WriteExtents(disk, buffer, writes, Link(inode), blocksused);
    LoopResult(disk, v, oc, nc, buffer, disk2, bitmap, rest);
    d3 := UpdateBitmap(disk2, bitmap);
    if writes < blocksused {
      ShrinkPrefix(d, v, disk, oc, nc, buffer);
      SurplusReady(d, v, disk, nc, ExtentsOf(nc, buffer), bitmap);
      d3 := FreeSurplus(oc[|nc|..], bitmap, d3, rest);
    }
  }

  /** A shrinking write keeps a prefix of the file's chain. */
  lemma ShrinkPrefix(d: Disk, v: nat, disk: Disk, oc: seq<nat>, nc: seq<nat>, buffer: seq<byte>)
    requires Setting(disk, v, oc, nc, buffer) && FileOk(d.blocks, v) && oc == Extents(d.blocks, v)
    requires |d.blocks| == |disk.blocks| <= MAX_NUM_BLOCKS && disk == d.(blocks := disk.blocks) && disk.blocks == d.blocks[v := disk.blocks[v]]
    requires |nc| < |oc|
    ensures FileOk(d.blocks, v) && |d.blocks| <= MAX_NUM_BLOCKS
    ensures |nc| < |Extents(d.blocks, v)| && forall j :: 0 <= j < |nc| ==> nc[j] == Extents(d.blocks, v)[j]
    ensures disk == d.(blocks := disk.blocks) && disk.open && |disk.blocks| == |d.blocks| && disk.blocks == d.blocks[v := disk.blocks[v]]
    ensures |ExtentsOf(nc, buffer)| == |nc|
  {
  }

  /** After the loop of a shrinking write and its bitmap update (d2), the walk of
      tfs_deleteFile from the first surplus block frees the rest of the old chain, s. */
  method FreeSurplus(ghost s: seq<nat>, bm: seq<byte>, d2: Disk, rest: nat) returns (d3: Disk)
    requires d2.open && 2 <= |d2.blocks| <= MAX_NUM_BLOCKS && |bm| == BITMAP_SIZE && GetBitmap(d2) == bm
    requires Walkable(d2.blocks, s) && s[0] == rest
    ensures d3 == UpdateBitmap(FreeAll(d2, s), MarkAll(bm, s, Free))
  {
    var freed, bm2 := FreeChain(d2, rest, s);
    d3 := UpdateBitmap(freed, bm2);
  }

  /** tfs_writeFile past its room check: the chain rewritten, then the inode written with
      its new count and size and the modification time stamped. */
  method WriteChain(d: Disk, v: nat, buffer: seq<byte>, now: int, disk: Disk, inode: Block) returns (d': Disk)
    requires Consistent(d) && Live(d.blocks, v) && |buffer| < 0x8000_0000 && Room(d, v, buffer)
    requires disk == UpdateTime(d, ToByte(v), Accessed, now) && inode == ReadOr(disk, v, ZERO_BLOCK)
    ensures d' == WriteOnDisk(d, v, buffer, now)
  {
    var writes := CDiv(|buffer| - 1, DATA_SIZE) + 1;
    OldChain(d.blocks, v);
    Stamped(d, v, now);
    Launch(d, v, buffer, now);
    ghost var oc := Extents(d.blocks, v);
    var d3 := RewriteChain(disk, buffer, inode, d, v, oc, Plan(oc, FreeList(disk), Needed(buffer)));
    ToByteValue(Needed(buffer) % 256);
    assert writes == Needed(buffer);
    d' := WriteOr(d3, v, WithSize(inode, ToByte(writes % 256), |buffer|));
    d' := UpdateTime(d', ToByte(v), Modified, now);
  }

  /** tfs_writeFile on the volume, for the file whose inode is v, with the corrected
      loop: the access time is stamped; when the free blocks the file must gain are not
      there the write stops with ROOT_DIRECTORY_FULL; otherwise the chain is rewritten,
      the surplus of the old chain freed, the inode's count and size written and the
      modification time stamped. */
  method WriteOnVolume(d: Disk, v: nat, buffer: seq<byte>, now: int) returns (r: Outcome, d': Disk)
    requires Consistent(d) && Live(d.blocks, v) && |buffer| < 0x8000_0000
    ensures r == Pass <==> Room(d, v, buffer)
    ensures r != Pass ==> r == Fail(RootDirectoryFull) && d' == UpdateTime(d, ToByte(v), Accessed, now)
    ensures r == Pass ==> d' == WriteOnDisk(d, v, buffer, now)
  {
    OldChain(d.blocks, v);
    Stamped(d, v, now);
    var disk := UpdateTime(d, ToByte(v), Accessed, now);
    var writes := CDiv(|buffer| - 1, DATA_SIZE) + 1;
    var inode := ReadOr(disk, v, ZERO_BLOCK);
    var blocksused := BlockCount(inode);
    var freeblocksneeded := writes - blocksused;
    if freeblocksneeded > 0 {
      var probe := NextFreeBlock(disk, freeblocksneeded - 1);
      if probe.Err? {
        return Fail(RootDirectoryFull), disk;
      }
    }
    assert Room(d, v, buffer);
    d' := WriteChain(d, v, buffer, now, disk, inode);
    return Pass, d';
  }
}
