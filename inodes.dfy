/** The in-place inode rewrites of TinyFS.c: updateTime and getTime on a timestamp, and
    the name change of tfs_rename. Neither changes the shape of a file, so both keep a
    consistent volume consistent and every file's bytes as they were. */
module Inodes {
  import opened Layout
  import opened Blocks
  import opened Disks
  import opened Bitmap
  import opened Directory
  import opened Files

  /** updateTime(inodenum, ts) with `now` standing for time(NULL): the inode is read
      into a zeroed buffer, the timestamp stored at its index, the block written back. */
  function UpdateTime(d: Disk, inodenum: byte, ts: Timestamp, now: int): Disk {
    WriteOr(d, inodenum as int, PutTime(ReadOr(d, inodenum as int, ZERO_BLOCK), ts, now))
  }

  /** getTime(inodenum, ts). */
  function ReadTime(d: Disk, inodenum: byte, ts: Timestamp): int {
    GetTime(ReadOr(d, inodenum as int, ZERO_BLOCK), ts)
  }

  /** getTime after updateTime returns the time stored; the other timestamps and every
      other block are as they were. */
  lemma UpdateTimeRoundTrip(d: Disk, inodenum: byte, ts: Timestamp, now: int, other: Timestamp)
    requires d.open && (inodenum as int) < |d.blocks|
    requires -0x8000_0000_0000_0000 <= now < 0x8000_0000_0000_0000
    ensures ReadTime(UpdateTime(d, inodenum, ts, now), inodenum, ts) == now
    ensures other != ts ==> ReadTime(UpdateTime(d, inodenum, ts, now), inodenum, other) == ReadTime(d, inodenum, other)
    ensures forall a :: 0 <= a < |d.blocks| && a != inodenum as int ==> UpdateTime(d, inodenum, ts, now).blocks[a] == d.blocks[a]
  {
    var b := d.blocks[inodenum];
    assert ReadOr(d, inodenum as int, ZERO_BLOCK) == b;
    var b' := PutTime(b, ts, now);
    var d' := UpdateTime(d, inodenum, ts, now);
    assert d'.blocks == d.blocks[inodenum as int := b'];
    assert d'.open && ReadOr(d', inodenum as int, ZERO_BLOCK) == b';
    TimeRoundTrip(b, ts, now, other);
  }

  /** The name field of the inode at v. */
  function NameBytes(B: seq<Block>, v: nat): seq<byte>
    requires v < |B|
  {
    B[v][NAME_INDEX..NAME_INDEX + MAX_NAME_SIZE]
  }

  /** d' holds the same files as d: the same root, bitmap and fixed blocks, and every file
      of the directory with the same extents and the same bytes. */
  predicate SameFiles(d: Disk, d': Disk)
    requires Consistent(d) && Consistent(d')
  {
    var B := d.blocks;
    var B' := d'.blocks;
    |B'| == |B| && B'[ROOT_ADDR] == B[ROOT_ADDR] && B'[SUPERBLOCK_ADDR] == B[SUPERBLOCK_ADDR]
    && forall j :: 0 <= j < MAX_NUM_FILES && Slot(B[ROOT_ADDR], j) != 0 ==>
         Extents(B', Slot(B[ROOT_ADDR], j)) == Extents(B, Slot(B[ROOT_ADDR], j))
         && Contents(B', Slot(B[ROOT_ADDR], j)) == Contents(B, Slot(B[ROOT_ADDR], j))
  }

  /** Rewriting the inode of the file in slot s with a block of the same shape keeps
      the volume consistent and every file's extents and bytes. */
  lemma InodeRewrite(d: Disk, s: nat, b: Block)
    requires Consistent(d) && s < MAX_NUM_FILES && Slot(d.blocks[ROOT_ADDR], s) != 0
    requires SameShape(d.blocks[Slot(d.blocks[ROOT_ADDR], s)], b)
    ensures Consistent(d.(blocks := d.blocks[Slot(d.blocks[ROOT_ADDR], s) := b]))
    ensures SameFiles(d, d.(blocks := d.blocks[Slot(d.blocks[ROOT_ADDR], s) := b]))
  {
    var B := d.blocks;
    var v := Slot(B[ROOT_ADDR], s);
    var d' := d.(blocks := B[v := b]);
    RewriteConfined(d, s, b);
    RewriteNewFile(d, s, b);
    Reshape(d, d', s, {v});
    RewriteSameFiles(d, s, b);
  }

  lemma RewriteConfined(d: Disk, s: nat, b: Block)
    requires Consistent(d) && s < MAX_NUM_FILES && Slot(d.blocks[ROOT_ADDR], s) != 0
    requires SameShape(d.blocks[Slot(d.blocks[ROOT_ADDR], s)], b)
    ensures Confined(d, d.(blocks := d.blocks[Slot(d.blocks[ROOT_ADDR], s) := b]), s, {Slot(d.blocks[ROOT_ADDR], s)})
    ensures Formatted(d.(blocks := d.blocks[Slot(d.blocks[ROOT_ADDR], s) := b]))
    ensures Agrees(d.blocks[Slot(d.blocks[ROOT_ADDR], s) := b], Slot(d.blocks[ROOT_ADDR], s))
  {
    var B := d.blocks;
    var v := Slot(B[ROOT_ADDR], s);
    var B' := B[v := b];
    assert Live(B, v);
    assert v in Footprint(B, v);
    assert B'[SUPERBLOCK_ADDR] == B[SUPERBLOCK_ADDR] && B'[ROOT_ADDR] == B[ROOT_ADDR];
    assert Bm(B') == Bm(B);
  }

  lemma RewriteNewFile(d: Disk, s: nat, b: Block)
    requires Consistent(d) && s < MAX_NUM_FILES && Slot(d.blocks[ROOT_ADDR], s) != 0
    requires SameShape(d.blocks[Slot(d.blocks[ROOT_ADDR], s)], b)
    requires Confined(d, d.(blocks := d.blocks[Slot(d.blocks[ROOT_ADDR], s) := b]), s, {Slot(d.blocks[ROOT_ADDR], s)})
    requires Formatted(d.(blocks := d.blocks[Slot(d.blocks[ROOT_ADDR], s) := b]))
    ensures NewFileOk(d, d.(blocks := d.blocks[Slot(d.blocks[ROOT_ADDR], s) := b]), s, {Slot(d.blocks[ROOT_ADDR], s)})
    ensures NewCovers(d, d.(blocks := d.blocks[Slot(d.blocks[ROOT_ADDR], s) := b]), s, {Slot(d.blocks[ROOT_ADDR], s)})
  {
    var B := d.blocks;
    var v := Slot(B[ROOT_ADDR], s);
    var B' := B[v := b];
    assert Live(B, v);
    assert B'[SUPERBLOCK_ADDR] == B[SUPERBLOCK_ADDR] && B'[ROOT_ADDR] == B[ROOT_ADDR];
    InodeFrame(B, B', v);
    assert Slot(B'[ROOT_ADDR], s) == v && Owned(B, s) == Footprint(B, v);
    assert Bm(B') == Bm(B);
    assert Live(B', v);
  }

  lemma RewriteSameFiles(d: Disk, s: nat, b: Block)
    requires Consistent(d) && s < MAX_NUM_FILES && Slot(d.blocks[ROOT_ADDR], s) != 0
    requires SameShape(d.blocks[Slot(d.blocks[ROOT_ADDR], s)], b)
    requires Consistent(d.(blocks := d.blocks[Slot(d.blocks[ROOT_ADDR], s) := b]))
    requires forall j :: 0 <= j < MAX_NUM_FILES && j != s && Slot(d.blocks[ROOT_ADDR], j) != 0 ==>
               Extents(d.blocks[Slot(d.blocks[ROOT_ADDR], s) := b], Slot(d.blocks[ROOT_ADDR], j)) == Extents(d.blocks, Slot(d.blocks[ROOT_ADDR], j))
               && Contents(d.blocks[Slot(d.blocks[ROOT_ADDR], s) := b], Slot(d.blocks[ROOT_ADDR], j)) == Contents(d.blocks, Slot(d.blocks[ROOT_ADDR], j))
    ensures SameFiles(d, d.(blocks := d.blocks[Slot(d.blocks[ROOT_ADDR], s) := b]))
  {
    var B := d.blocks;
    var v := Slot(B[ROOT_ADDR], s);
    var B' := B[v := b];
    assert Live(B, v);
    InodeFrame(B, B', v);
    assert B'[SUPERBLOCK_ADDR] == B[SUPERBLOCK_ADDR] && B'[ROOT_ADDR] == B[ROOT_ADDR];
    SlotsSame(B, B', s);
  }

  /** Every file is the same in B' as in B when the file in slot s is and every other
      file is. */
  lemma SlotsSame(B: seq<Block>, B': seq<Block>, s: nat)
    requires 2 <= |B| && s < MAX_NUM_FILES && Slot(B[ROOT_ADDR], s) != 0
    requires forall j :: 0 <= j < MAX_NUM_FILES && Slot(B[ROOT_ADDR], j) != 0 ==>
               FileOk(B, Slot(B[ROOT_ADDR], j)) && FileOk(B', Slot(B[ROOT_ADDR], j))
    requires forall j :: 0 <= j < MAX_NUM_FILES && j != s && Slot(B[ROOT_ADDR], j) != 0 ==>
               Extents(B', Slot(B[ROOT_ADDR], j)) == Extents(B, Slot(B[ROOT_ADDR], j))
               && Contents(B', Slot(B[ROOT_ADDR], j)) == Contents(B, Slot(B[ROOT_ADDR], j))
    requires Extents(B', Slot(B[ROOT_ADDR], s)) == Extents(B, Slot(B[ROOT_ADDR], s))
    requires Contents(B', Slot(B[ROOT_ADDR], s)) == Contents(B, Slot(B[ROOT_ADDR], s))
    ensures forall j :: 0 <= j < MAX_NUM_FILES && Slot(B[ROOT_ADDR], j) != 0 ==>
              Extents(B', Slot(B[ROOT_ADDR], j)) == Extents(B, Slot(B[ROOT_ADDR], j))
              && Contents(B', Slot(B[ROOT_ADDR], j)) == Contents(B, Slot(B[ROOT_ADDR], j))
  {
  }

  /** An updateTime on a file's inode keeps the volume consistent and every file as it
      was, and keeps every name, so every lookup by name finds what it found before. */
  lemma UpdateTimeKeeps(d: Disk, s: nat, inodenum: byte, ts: Timestamp, now: int)
    requires Consistent(d) && s < MAX_NUM_FILES && Slot(d.blocks[ROOT_ADDR], s) != 0
    requires inodenum as int == Slot(d.blocks[ROOT_ADDR], s)
    ensures Consistent(UpdateTime(d, inodenum, ts, now))
    ensures SameFiles(d, UpdateTime(d, inodenum, ts, now))
    ensures forall j :: 0 <= j < MAX_NUM_FILES && Slot(d.blocks[ROOT_ADDR], j) != 0 ==>
              NameBytes(UpdateTime(d, inodenum, ts, now).blocks, Slot(d.blocks[ROOT_ADDR], j))
              == NameBytes(d.blocks, Slot(d.blocks[ROOT_ADDR], j))
  {
    var B := d.blocks;
    var v := Slot(B[ROOT_ADDR], s);
    assert Live(B, v);
    var b := PutTime(B[v], ts, now);
    PutTimeShape(B[v], ts, now);
    InodeRewrite(d, s, b);
    StampIs(d, v, inodenum, ts, now);
    NamesKept(d, v, b);
  }

  /** updateTime changes neither the header, the count, the size nor the name. */
  lemma PutTimeShape(b: Block, ts: Timestamp, now: int)
    ensures SameShape(b, PutTime(b, ts, now))
    ensures PutTime(b, ts, now)[NAME_INDEX..NAME_INDEX + MAX_NAME_SIZE] == b[NAME_INDEX..NAME_INDEX + MAX_NAME_SIZE]
  {
    var r := PutTime(b, ts, now);
    assert r[13..17] == b[13..17];
    assert r[NAME_INDEX..NAME_INDEX + MAX_NAME_SIZE] == b[NAME_INDEX..NAME_INDEX + MAX_NAME_SIZE];
  }

  /** Rewriting one inode with its name unchanged keeps every file's name. */
  lemma NamesKept(d: Disk, v: nat, b: Block)
    requires 2 <= |d.blocks| <= MAX_NUM_BLOCKS && FilesOk(d.blocks) && ROOT_ADDR < v < |d.blocks|
    requires b[NAME_INDEX..NAME_INDEX + MAX_NAME_SIZE] == d.blocks[v][NAME_INDEX..NAME_INDEX + MAX_NAME_SIZE]
    ensures forall j :: 0 <= j < MAX_NUM_FILES && Slot(d.blocks[ROOT_ADDR], j) != 0 ==>
              Slot(d.blocks[ROOT_ADDR], j) < |d.blocks|
              && NameBytes(d.blocks[v := b], Slot(d.blocks[ROOT_ADDR], j)) == NameBytes(d.blocks, Slot(d.blocks[ROOT_ADDR], j))
  {
  }

  /** updateTime on an open disk rewrites the one block it names. */
  lemma StampIs(d: Disk, v: nat, inodenum: byte, ts: Timestamp, now: int)
    requires d.open && v < |d.blocks| && inodenum as int == v
    ensures UpdateTime(d, inodenum, ts, now) == d.(blocks := d.blocks[v := PutTime(d.blocks[v], ts, now)])
  {
  }

  // ---- tfs_rename ----

  /** The inode tfs_rename writes: the name field replaced by the first eight bytes of
      the new name, NUL padded, and nothing else changed. */
  function Renamed(b: Block, name: seq<byte>): (r: Block)
    ensures r[NAME_INDEX..NAME_INDEX + MAX_NAME_SIZE] == NameField(name)
    ensures SameShape(b, r)
    ensures forall i :: 0 <= i < BLOCKSIZE && !(NAME_INDEX <= i < NAME_INDEX + MAX_NAME_SIZE) ==> r[i] == b[i]
  {
    var r := WithName(b, name);
    assert r[13..17] == b[13..17];
    r
  }

  /** Renaming a file keeps the volume consistent and every file's bytes; only the
      renamed inode's name field changes. */
  lemma RenameKeeps(d: Disk, s: nat, name: seq<byte>)
    requires Consistent(d) && s < MAX_NUM_FILES && Slot(d.blocks[ROOT_ADDR], s) != 0
    ensures Consistent(d.(blocks := d.blocks[Slot(d.blocks[ROOT_ADDR], s) := Renamed(d.blocks[Slot(d.blocks[ROOT_ADDR], s)], name)]))
    ensures SameFiles(d, d.(blocks := d.blocks[Slot(d.blocks[ROOT_ADDR], s) := Renamed(d.blocks[Slot(d.blocks[ROOT_ADDR], s)], name)]))
  {
    var v := Slot(d.blocks[ROOT_ADDR], s);
    assert Live(d.blocks, v);
    InodeRewrite(d, s, Renamed(d.blocks[v], name));
  }

  // ---- lookups ----

  /** getInodeBlock depends only on the root and on the names of the inodes the root
      points at. */
  lemma {:induction false} FindSlotKept(d: Disk, d': Disk, name: seq<byte>, k: nat)
    requires Consistent(d) && Consistent(d') && |d'.blocks| == |d.blocks|
    requires d'.blocks[ROOT_ADDR] == d.blocks[ROOT_ADDR]
    requires forall j :: 0 <= j < MAX_NUM_FILES && Slot(d.blocks[ROOT_ADDR], j) != 0 ==>
               NameBytes(d'.blocks, Slot(d.blocks[ROOT_ADDR], j)) == NameBytes(d.blocks, Slot(d.blocks[ROOT_ADDR], j))
    ensures FindSlotFrom(d', d.blocks[ROOT_ADDR], name, k) == FindSlotFrom(d, d.blocks[ROOT_ADDR], name, k)
    decreases MAX_NUM_FILES - k
  {
    var R := d.blocks[ROOT_ADDR];
    if k < MAX_NUM_FILES {
      if Slot(R, k) != 0 {
        assert Live(d.blocks, Slot(R, k));
        assert NameBytes(d'.blocks, Slot(R, k)) == NameBytes(d.blocks, Slot(R, k));
      }
      FindSlotKept(d, d', name, k + 1);
    }
  }

  /** So every name resolves to the same inode before and after. */
  lemma InodeOfKept(d: Disk, d': Disk, name: seq<byte>)
    requires Consistent(d) && Consistent(d') && |d'.blocks| == |d.blocks|
    requires d'.blocks[ROOT_ADDR] == d.blocks[ROOT_ADDR]
    requires forall j :: 0 <= j < MAX_NUM_FILES && Slot(d.blocks[ROOT_ADDR], j) != 0 ==>
               NameBytes(d'.blocks, Slot(d.blocks[ROOT_ADDR], j)) == NameBytes(d.blocks, Slot(d.blocks[ROOT_ADDR], j))
    ensures InodeOf(d', name) == InodeOf(d, name)
  {
    FindSlotKept(d, d', name, 0);
  }
}
