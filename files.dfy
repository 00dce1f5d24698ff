/** The shape of a well-formed TinyFS volume: the chain of extents an inode heads, the
    bytes a file holds, and the invariant the file operations of TinyFS.c keep. */
module Files {
  import opened Layout
  import opened Errors
  import opened Blocks
  import opened Disks
  import opened Bitmap
  import opened Directory
  import opened Checker

  /** (size - 1) / DATA_SIZE + 1 in C arithmetic (tfs_writeFile): the extents a file
      of `size` bytes occupies, 1 for an empty file. */
  function ExtentsFor(size: int): int {
    CDiv(size - 1, DATA_SIZE) + 1
  }

  /** The extents hold the bytes with less than one extent to spare; an empty file
      still has one. */
  lemma ExtentsForBounds(size: int)
    requires size >= 0
    ensures ExtentsFor(size) >= 1
    ensures (ExtentsFor(size) - 1) * DATA_SIZE <= size <= ExtentsFor(size) * DATA_SIZE
    ensures size > 0 ==> (ExtentsFor(size) - 1) * DATA_SIZE < size
  {
    if size > 0 {
      var q := (size - 1) / DATA_SIZE;
      assert q * DATA_SIZE <= size - 1 < (q + 1) * DATA_SIZE;
    }
  }

  /** An empty file occupies one extent. */
  lemma EmptyFileExtents()
    ensures ExtentsFor(0) == 1
  {
    assert CDiv(-1, DATA_SIZE) == 0;
  }

  // ---- chains of extents ----

  /** The addresses met following links from address a, at most k of them; the walk
      stops early at an address the disk does not hold. */
  function Chain(B: seq<Block>, a: nat, k: nat): (c: seq<nat>)
    ensures |c| <= k
    ensures forall i :: 0 <= i < |c| ==> c[i] < |B|
    ensures |c| > 0 ==> c[0] == a
    decreases k
  {
    if k == 0 || a >= |B| then [] else [a] + Chain(B, Link(B[a]), k - 1)
  }

  /** Each address of a chain is the link of the one before. */
  lemma {:induction false} ChainLinks(B: seq<Block>, a: nat, k: nat)
    ensures forall i :: 0 <= i < |Chain(B, a, k)| - 1 ==> Chain(B, a, k)[i + 1] == Link(B[Chain(B, a, k)[i]])
    decreases k
  {
    if k > 0 && a < |B| {
      ChainLinks(B, Link(B[a]), k - 1);
    }
  }

  /** A sequence of addresses each linked to the next is the chain from its first. */
  lemma {:induction false} ChainOf(B: seq<Block>, c: seq<nat>)
    requires |c| > 0
    requires forall i :: 0 <= i < |c| ==> c[i] < |B|
    requires forall i :: 0 <= i < |c| - 1 ==> Link(B[c[i]]) == c[i + 1]
    ensures Chain(B, c[0], |c|) == c
    decreases |c|
  {
    if |c| > 1 {
      ChainOf(B, c[1..]);
    }
  }

  /** A chain depends only on the blocks at its own addresses. */
  lemma {:induction false} ChainFrame(B: seq<Block>, B': seq<Block>, a: nat, k: nat)
    requires |B'| == |B|
    requires forall x :: x in Chain(B, a, k) ==> B'[x] == B[x]
    ensures Chain(B', a, k) == Chain(B, a, k)
    decreases k
  {
    if k > 0 && a < |B| {
      var c := Chain(B, a, k);
      assert c[0] == a;
      assert c == [a] + Chain(B, Link(B[a]), k - 1);
      ChainFrame(B, B', Link(B[a]), k - 1);
    }
  }

  /** The extents of the file whose inode is at ino: BlockCount(inode) links followed
      from the inode's link byte. */
  function Extents(B: seq<Block>, ino: nat): (c: seq<nat>)
    ensures forall i :: 0 <= i < |c| ==> c[i] < |B|
  {
    if ino < |B| then Chain(B, Link(B[ino]), BlockCount(B[ino])) else []
  }

  /** The blocks a file occupies: its inode, then its extents in chain order (the
      order in which tfs_deleteFile visits them). */
  function Footprint(B: seq<Block>, ino: nat): (f: seq<nat>)
    requires ino < |B|
    ensures forall x :: x in f ==> x < |B|
  {
    [ino] + Extents(B, ino)
  }

  predicate Distinct(s: seq<nat>) {
    forall i, j :: 0 <= i < j < |s| ==> s[i] != s[j]
  }

  /** An extent as makedatablock leaves it: its flag says whether it links on. */
  predicate ExtentOk(b: Block) {
    Kind(b) == FILE_EXTENT && b[1] == MAGIC_NUM && Flag(b) == FlagFor(b[2])
  }

  /** A well-formed file: an inode flagged VALID heading exactly BlockCount distinct
      extents, none of them address 0, 1 or the inode itself; the last ends the chain
      with NULL_ADDR, and the size recorded in the inode needs exactly that many
      extents. */
  predicate FileOk(B: seq<Block>, ino: nat) {
    2 <= ino < |B| && Kind(B[ino]) == INODE && B[ino][1] == MAGIC_NUM && Flag(B[ino]) == VALID
    && var c := Extents(B, ino);
    |c| == BlockCount(B[ino]) && |c| >= 1
    && (forall i :: 0 <= i < |c| ==> 2 <= c[i] && c[i] != ino && ExtentOk(B[c[i]]))
    && Link(B[c[|c| - 1]]) == NULL_ADDR
    && Distinct(c)
    && 0 <= GetFileSize(B[ino]) && ExtentsFor(GetFileSize(B[ino])) == |c|
  }

  /** The payloads of the blocks at the addresses of c, one after the other. */
  function Data(B: seq<Block>, c: seq<nat>): (s: seq<byte>)
    requires forall i :: 0 <= i < |c| ==> c[i] < |B|
    ensures |s| == DATA_SIZE * |c|
  {
    if c == [] then [] else Payload(B[c[0]]) + Data(B, c[1..])
  }

  /** Byte p of the data sits in extent p / DATA_SIZE at offset p % DATA_SIZE. */
  lemma {:induction false} DataAt(B: seq<Block>, c: seq<nat>, p: nat)
    requires forall i :: 0 <= i < |c| ==> c[i] < |B|
    requires p < DATA_SIZE * |c|
    ensures p / DATA_SIZE < |c|
    ensures Data(B, c)[p] == Payload(B[c[p / DATA_SIZE]])[p % DATA_SIZE]
    decreases |c|
  {
    if p >= DATA_SIZE {
      assert (p - DATA_SIZE) / DATA_SIZE == p / DATA_SIZE - 1;
      assert (p - DATA_SIZE) % DATA_SIZE == p % DATA_SIZE;
      DataAt(B, c[1..], p - DATA_SIZE);
    }
  }

  /** Data depends only on the blocks at the addresses of c. */
  lemma {:induction false} DataFrame(B: seq<Block>, B': seq<Block>, c: seq<nat>)
    requires |B'| == |B| && forall i :: 0 <= i < |c| ==> c[i] < |B|
    requires forall i :: 0 <= i < |c| ==> B'[c[i]] == B[c[i]]
    ensures Data(B', c) == Data(B, c)
    decreases |c|
  {
    if c != [] {
      DataFrame(B, B', c[1..]);
    }
  }

  /** The bytes of a well-formed file: its extents' payloads cut to the recorded size. */
  function Contents(B: seq<Block>, ino: nat): (s: seq<byte>)
    requires FileOk(B, ino)
    ensures |s| == GetFileSize(B[ino])
  {
    ExtentsForBounds(GetFileSize(B[ino]));
    Data(B, Extents(B, ino))[..GetFileSize(B[ino])]
  }

  // ---- the volume invariant ----

  /** The bitmap of the superblock of B. */
  function Bm(B: seq<Block>): (bm: seq<byte>)
    requires |B| > 0
    ensures |bm| == BITMAP_SIZE
  {
    Payload(B[SUPERBLOCK_ADDR])
  }

  /** The fixed part of a volume: an open disk of 2..256 blocks whose superblock and root
      inode pass checksuperblock and checkroot and carry MAGIC_NUM, and whose bitmap
      marks both as used. */
  predicate Formatted(d: Disk) {
    d.open && 2 <= |d.blocks| <= MAX_NUM_BLOCKS
    && Kind(d.blocks[0]) == SUPERBLOCK && d.blocks[0][1] == MAGIC_NUM
    && Link(d.blocks[0]) == ROOT_ADDR && Flag(d.blocks[0]) == VALID
    && RootOk(d.blocks[1]) && d.blocks[1][1] == MAGIC_NUM
    && Used(Bm(d.blocks), 0) && Used(Bm(d.blocks), 1)
  }

  /** Block x is what its bitmap bit says: an inode or an extent when used, a free block
      as makefreeblock builds it when not. */
  predicate Agrees(B: seq<Block>, x: nat)
    requires x < |B| <= MAX_NUM_BLOCKS
  {
    if Used(Bm(B), x) then (Kind(B[x]) == INODE || Kind(B[x]) == FILE_EXTENT) && B[x][1] == MAGIC_NUM
    else B[x] == FREE
  }

  predicate BlocksAgree(B: seq<Block>)
    requires |B| <= MAX_NUM_BLOCKS
  {
    forall x :: 2 <= x < |B| ==> Agrees(B, x)
  }

  /** A file the directory may point at: well-formed, and every block of it marked used. */
  predicate Live(B: seq<Block>, v: nat)
    requires 0 < |B| <= MAX_NUM_BLOCKS
  {
    FileOk(B, v) && forall x :: x in Footprint(B, v) ==> Used(Bm(B), x)
  }

  /** Every used slot of the root directory points at a live file. */
  predicate FilesOk(B: seq<Block>)
    requires 2 <= |B| <= MAX_NUM_BLOCKS
  {
    forall i :: 0 <= i < MAX_NUM_FILES && Slot(B[ROOT_ADDR], i) != 0 ==> Live(B, Slot(B[ROOT_ADDR], i))
  }

  /** Two files share no block. */
  predicate Apart(B: seq<Block>, v: nat, w: nat)
    requires v < |B| && w < |B|
  {
    forall x :: x in Footprint(B, v) ==> x !in Footprint(B, w)
  }

  /** Files in different slots share no block (so no inode is in two slots). */
  predicate Separate(B: seq<Block>)
    requires 2 <= |B| <= MAX_NUM_BLOCKS && FilesOk(B)
  {
    forall i, j :: 0 <= i < MAX_NUM_FILES && 0 <= j < MAX_NUM_FILES && i != j
                   && Slot(B[ROOT_ADDR], i) != 0 && Slot(B[ROOT_ADDR], j) != 0 ==>
                   Apart(B, Slot(B[ROOT_ADDR], i), Slot(B[ROOT_ADDR], j))
  }

  /** The blocks of the file in slot s, none when the slot is unused. */
  function Owned(B: seq<Block>, s: nat): seq<nat>
    requires 2 <= |B| <= MAX_NUM_BLOCKS && s < MAX_NUM_FILES && FilesOk(B)
  {
    if Slot(B[ROOT_ADDR], s) != 0 then Footprint(B, Slot(B[ROOT_ADDR], s)) else []
  }

  /** Block x belongs to the file of some slot of the root directory. */
  predicate Claimed(B: seq<Block>, x: nat)
    requires 2 <= |B| <= MAX_NUM_BLOCKS && FilesOk(B)
  {
    exists j :: 0 <= j < MAX_NUM_FILES && x in Owned(B, j)
  }

  /** Allocation conservation: every block the bitmap marks used, past the superblock
      and the root, belongs to a file of the directory. With Live, the used blocks are
      exactly the superblock, the root and the files' blocks: none leaks. */
  predicate Conserved(B: seq<Block>)
    requires 2 <= |B| <= MAX_NUM_BLOCKS && FilesOk(B)
  {
    forall x {:trigger Claimed(B, x)} :: 2 <= x < |B| && Used(Bm(B), x) ==> Claimed(B, x)
  }

  /** The invariant of a volume tfs_mkfs formats and the file operations keep. */
  predicate Consistent(d: Disk) {
    Formatted(d) && BlocksAgree(d.blocks) && FilesOk(d.blocks) && Separate(d.blocks)
    && Conserved(d.blocks)
  }

  // ---- frames ----

  /** The inode bytes a file's shape depends on: the header, the block count and the
      size. The name and the timestamps may differ. */
  predicate SameShape(a: Block, b: Block) {
    a[0] == b[0] && a[1] == b[1] && a[2] == b[2] && a[3] == b[3]
    && a[COUNT_INDEX] == b[COUNT_INDEX] && a[13..17] == b[13..17]
  }

  /** A file keeps its shape and its bytes when its inode keeps its shape and its
      extents are untouched. */
  lemma InodeFrame(B: seq<Block>, B': seq<Block>, v: nat)
    requires FileOk(B, v) && |B'| == |B|
    requires SameShape(B[v], B'[v])
    requires forall x :: x in Extents(B, v) ==> B'[x] == B[x]
    ensures FileOk(B', v)
    ensures Extents(B', v) == Extents(B, v) && Footprint(B', v) == Footprint(B, v)
    ensures Contents(B', v) == Contents(B, v)
  {
    ExtentsFrame(B, B', v);
    SameExtentsOk(B, B', v);
    ContentsFrame(B, B', v);
  }

  lemma ExtentsFrame(B: seq<Block>, B': seq<Block>, v: nat)
    requires v < |B| == |B'| && SameShape(B[v], B'[v])
    requires forall x :: x in Extents(B, v) ==> B'[x] == B[x]
    ensures Extents(B', v) == Extents(B, v)
  {
    assert Link(B'[v]) == Link(B[v]) && BlockCount(B'[v]) == BlockCount(B[v]);
    ChainFrame(B, B', Link(B[v]), BlockCount(B[v]));
  }

  lemma ContentsFrame(B: seq<Block>, B': seq<Block>, v: nat)
    requires FileOk(B, v) && FileOk(B', v) && |B'| == |B|
    requires GetFileSize(B'[v]) == GetFileSize(B[v]) && Extents(B', v) == Extents(B, v)
    requires forall i :: 0 <= i < |Extents(B, v)| ==> B'[Extents(B, v)[i]] == B[Extents(B, v)[i]]
    ensures Contents(B', v) == Contents(B, v)
  {
    DataFrame(B, B', Extents(B, v));
  }

  lemma SameExtentsOk(B: seq<Block>, B': seq<Block>, v: nat)
    requires FileOk(B, v) && |B'| == |B|
    requires SameShape(B[v], B'[v]) && Extents(B', v) == Extents(B, v)
    requires forall i :: 0 <= i < |Extents(B, v)| ==> B'[Extents(B, v)[i]] == B[Extents(B, v)[i]]
    ensures FileOk(B', v) && GetFileSize(B'[v]) == GetFileSize(B[v])
  {
    assert GetFileSize(B'[v]) == GetFileSize(B[v]);
  }

  /** A file whose blocks are all untouched is the same file. */
  lemma FileFrame(B: seq<Block>, B': seq<Block>, v: nat)
    requires FileOk(B, v) && |B'| == |B|
    requires forall x :: x in Footprint(B, v) ==> B'[x] == B[x]
    ensures FileOk(B', v)
    ensures Extents(B', v) == Extents(B, v) && Footprint(B', v) == Footprint(B, v)
    ensures Contents(B', v) == Contents(B, v)
  {
    assert v in Footprint(B, v);
    InodeFrame(B, B', v);
  }

  /** d' differs from the consistent d only in slot s of the root and at the addresses
      of C (past the superblock and the root), each of which was free or belonged to
      the file in slot s; no other block and no other bit changed. */
  predicate Confined(d: Disk, d': Disk, s: nat, C: set<nat>)
    requires Consistent(d) && s < MAX_NUM_FILES
  {
    var B := d.blocks;
    d'.open && |d'.blocks| == |B|
    && (forall j :: 0 <= j < MAX_NUM_FILES && j != s ==> Slot(d'.blocks[ROOT_ADDR], j) == Slot(B[ROOT_ADDR], j))
    && (forall x :: x in C ==> 2 <= x < |B| && (!Used(Bm(B), x) || x in Owned(B, s)))
    && (forall x :: 2 <= x < |B| && x !in C ==>
          d'.blocks[x] == B[x] && (Used(Bm(d'.blocks), x) <==> Used(Bm(B), x)))
  }

  /** The blocks of a file in a slot other than s avoid C. */
  lemma ConfinedMisses(d: Disk, d': Disk, s: nat, C: set<nat>, j: nat)
    requires Consistent(d) && s < MAX_NUM_FILES && Confined(d, d', s, C)
    requires j < MAX_NUM_FILES && j != s && Slot(d.blocks[ROOT_ADDR], j) != 0
    ensures forall x :: x in Footprint(d.blocks, Slot(d.blocks[ROOT_ADDR], j)) ==> x !in C && 2 <= x
  {
    var B := d.blocks;
    var w := Slot(B[ROOT_ADDR], j);
    assert Live(B, w);
    forall x | x in Footprint(B, w)
      ensures x !in C && 2 <= x
    {
      assert Used(Bm(B), x);
      assert x !in Owned(B, s) by {
        if Slot(B[ROOT_ADDR], s) != 0 {
          assert Apart(B, Slot(B[ROOT_ADDR], s), w);
        }
      }
      assert x == w || x in Extents(B, w);
    }
  }

  /** A file in a slot other than s is the same file after a confined change. */
  lemma ConfinedKeeps(d: Disk, d': Disk, s: nat, C: set<nat>, j: nat)
    requires Consistent(d) && s < MAX_NUM_FILES && Confined(d, d', s, C)
    requires j < MAX_NUM_FILES && j != s && Slot(d.blocks[ROOT_ADDR], j) != 0
    ensures Slot(d'.blocks[ROOT_ADDR], j) == Slot(d.blocks[ROOT_ADDR], j)
    ensures Live(d'.blocks, Slot(d.blocks[ROOT_ADDR], j))
    ensures Footprint(d'.blocks, Slot(d.blocks[ROOT_ADDR], j)) == Footprint(d.blocks, Slot(d.blocks[ROOT_ADDR], j))
    ensures Extents(d'.blocks, Slot(d.blocks[ROOT_ADDR], j)) == Extents(d.blocks, Slot(d.blocks[ROOT_ADDR], j))
    ensures Contents(d'.blocks, Slot(d.blocks[ROOT_ADDR], j)) == Contents(d.blocks, Slot(d.blocks[ROOT_ADDR], j))
    ensures d'.blocks[Slot(d.blocks[ROOT_ADDR], j)] == d.blocks[Slot(d.blocks[ROOT_ADDR], j)]
  {
    var B := d.blocks;
    var w := Slot(B[ROOT_ADDR], j);
    assert Live(B, w);
    ConfinedMisses(d, d', s, C, j);
    FileFrame(B, d'.blocks, w);
    assert w in Footprint(B, w);
  }

  /** The new file in slot s, if any, is live and made of blocks of C or blocks the
      slot's file already had. */
  predicate NewFileOk(d: Disk, d': Disk, s: nat, C: set<nat>)
    requires Consistent(d) && s < MAX_NUM_FILES && Confined(d, d', s, C) && Formatted(d')
  {
    var v := Slot(d'.blocks[ROOT_ADDR], s);
    v != 0 ==>
      Live(d'.blocks, v)
      && forall x :: x in Footprint(d'.blocks, v) ==> x in C || x in Owned(d.blocks, s)
  }

  /** Every block of C or of slot s's old file that d' marks used belongs to the file
      slot s holds in d'. */
  predicate NewCovers(d: Disk, d': Disk, s: nat, C: set<nat>)
    requires Consistent(d) && s < MAX_NUM_FILES && Confined(d, d', s, C) && Formatted(d')
    requires NewFileOk(d, d', s, C)
  {
    forall x :: 0 <= x < |d'.blocks| && (x in C || x in Owned(d.blocks, s)) && Used(Bm(d'.blocks), x) ==>
      Slot(d'.blocks[ROOT_ADDR], s) != 0 && x in Footprint(d'.blocks, Slot(d'.blocks[ROOT_ADDR], s))
  }

  /** A confined change that leaves the fixed part formatted, makes every changed block
      agree with its bit, leaves a live file in slot s, if any, and leaves every used
      block it touched to that file, keeps the volume consistent, and every file in
      another slot as it was. */
  lemma Reshape(d: Disk, d': Disk, s: nat, C: set<nat>)
    requires Consistent(d) && s < MAX_NUM_FILES && Confined(d, d', s, C)
    requires Formatted(d')
    requires forall x :: x in C ==> Agrees(d'.blocks, x)
    requires NewFileOk(d, d', s, C)
    requires NewCovers(d, d', s, C)
    ensures Consistent(d')
    ensures forall j :: 0 <= j < MAX_NUM_FILES && j != s && Slot(d.blocks[ROOT_ADDR], j) != 0 ==>
              Live(d'.blocks, Slot(d.blocks[ROOT_ADDR], j))
              && Extents(d'.blocks, Slot(d.blocks[ROOT_ADDR], j)) == Extents(d.blocks, Slot(d.blocks[ROOT_ADDR], j))
              && Contents(d'.blocks, Slot(d.blocks[ROOT_ADDR], j)) == Contents(d.blocks, Slot(d.blocks[ROOT_ADDR], j))
              && d'.blocks[Slot(d.blocks[ROOT_ADDR], j)] == d.blocks[Slot(d.blocks[ROOT_ADDR], j)]
  {
    ReshapeAgree(d, d', s, C);
    forall j | 0 <= j < MAX_NUM_FILES && j != s && Slot(d.blocks[ROOT_ADDR], j) != 0
      ensures Live(d'.blocks, Slot(d.blocks[ROOT_ADDR], j))
      ensures Extents(d'.blocks, Slot(d.blocks[ROOT_ADDR], j)) == Extents(d.blocks, Slot(d.blocks[ROOT_ADDR], j))
      ensures Contents(d'.blocks, Slot(d.blocks[ROOT_ADDR], j)) == Contents(d.blocks, Slot(d.blocks[ROOT_ADDR], j))
      ensures d'.blocks[Slot(d.blocks[ROOT_ADDR], j)] == d.blocks[Slot(d.blocks[ROOT_ADDR], j)]
    {
      ConfinedKeeps(d, d', s, C, j);
    }
    ReshapeFiles(d, d', s, C);
    ReshapeSeparate(d, d', s, C);
    ReshapeConserved(d, d', s, C);
  }

  /** A used block is claimed after the change: by slot s when the change touched it or
      the old file of slot s held it, otherwise by the slot that claimed it before. */
  lemma ReshapeConserved(d: Disk, d': Disk, s: nat, C: set<nat>)
    requires Consistent(d) && s < MAX_NUM_FILES && Confined(d, d', s, C)
    requires Formatted(d') && NewFileOk(d, d', s, C) && FilesOk(d'.blocks)
    requires NewCovers(d, d', s, C)
    ensures Conserved(d'.blocks)
  {
    var B := d.blocks;
    var B' := d'.blocks;
    forall x | 2 <= x < |B'| && Used(Bm(B'), x)
      ensures Claimed(B', x)
    {
      if x in C || x in Owned(B, s) {
        assert x in Owned(B', s);
      } else {
        assert Used(Bm(B), x);
        assert Claimed(B, x);
        var j :| 0 <= j < MAX_NUM_FILES && x in Owned(B, j);
        assert j != s;
        ConfinedKeeps(d, d', s, C, j);
        assert x in Owned(B', j);
      }
    }
  }

  lemma ReshapeAgree(d: Disk, d': Disk, s: nat, C: set<nat>)
    requires Consistent(d) && s < MAX_NUM_FILES && Confined(d, d', s, C)
    requires Formatted(d')
    requires forall x :: x in C ==> Agrees(d'.blocks, x)
    ensures BlocksAgree(d'.blocks)
  {
    forall x | 2 <= x < |d'.blocks|
      ensures Agrees(d'.blocks, x)
    {
      if x !in C {
        assert Agrees(d.blocks, x);
      }
    }
  }

  lemma ReshapeFiles(d: Disk, d': Disk, s: nat, C: set<nat>)
    requires Consistent(d) && s < MAX_NUM_FILES && Confined(d, d', s, C)
    requires Formatted(d')
    requires NewFileOk(d, d', s, C)
    ensures FilesOk(d'.blocks)
  {
    forall j | 0 <= j < MAX_NUM_FILES && Slot(d'.blocks[ROOT_ADDR], j) != 0
      ensures Live(d'.blocks, Slot(d'.blocks[ROOT_ADDR], j))
    {
      if j != s {
        ConfinedKeeps(d, d', s, C, j);
      }
    }
  }

  lemma ReshapeSeparate(d: Disk, d': Disk, s: nat, C: set<nat>)
    requires Consistent(d) && s < MAX_NUM_FILES && Confined(d, d', s, C)
    requires Formatted(d')
    requires NewFileOk(d, d', s, C)
    requires FilesOk(d'.blocks)
    ensures Separate(d'.blocks)
  {
    var B := d.blocks;
    var B' := d'.blocks;
    forall i, j | 0 <= i < MAX_NUM_FILES && 0 <= j < MAX_NUM_FILES && i != j
                  && Slot(B'[ROOT_ADDR], i) != 0 && Slot(B'[ROOT_ADDR], j) != 0
      ensures Apart(B', Slot(B'[ROOT_ADDR], i), Slot(B'[ROOT_ADDR], j))
    {
      if i != s && j != s {
        OldApart(d, d', s, C, i, j);
      } else if i == s {
        NewApart(d, d', s, C, j);
      } else {
        NewApart(d, d', s, C, i);
      }
    }
  }

  /** Two files of other slots than s stay apart. */
  lemma OldApart(d: Disk, d': Disk, s: nat, C: set<nat>, i: nat, j: nat)
    requires Consistent(d) && s < MAX_NUM_FILES && Confined(d, d', s, C)
    requires i < MAX_NUM_FILES && j < MAX_NUM_FILES && i != j && i != s && j != s
    requires Slot(d'.blocks[ROOT_ADDR], i) != 0 && Slot(d'.blocks[ROOT_ADDR], j) != 0
    ensures Slot(d'.blocks[ROOT_ADDR], i) < |d'.blocks| && Slot(d'.blocks[ROOT_ADDR], j) < |d'.blocks|
    ensures Apart(d'.blocks, Slot(d'.blocks[ROOT_ADDR], i), Slot(d'.blocks[ROOT_ADDR], j))
  {
    var B := d.blocks;
    ConfinedKeeps(d, d', s, C, i);
    ConfinedKeeps(d, d', s, C, j);
    assert Apart(B, Slot(B[ROOT_ADDR], i), Slot(B[ROOT_ADDR], j));
  }

  /** The file in slot s shares no block with the file of another slot j. */
  lemma NewApart(d: Disk, d': Disk, s: nat, C: set<nat>, j: nat)
    requires Consistent(d) && s < MAX_NUM_FILES && Confined(d, d', s, C)
    requires Formatted(d') && NewFileOk(d, d', s, C) && FilesOk(d'.blocks)
    requires j < MAX_NUM_FILES && j != s
    requires Slot(d'.blocks[ROOT_ADDR], s) != 0 && Slot(d'.blocks[ROOT_ADDR], j) != 0
    ensures Apart(d'.blocks, Slot(d'.blocks[ROOT_ADDR], s), Slot(d'.blocks[ROOT_ADDR], j))
    ensures Apart(d'.blocks, Slot(d'.blocks[ROOT_ADDR], j), Slot(d'.blocks[ROOT_ADDR], s))
  {
    var B := d.blocks;
    var B' := d'.blocks;
    var v := Slot(B'[ROOT_ADDR], s);
    var w := Slot(B[ROOT_ADDR], j);
    ConfinedKeeps(d, d', s, C, j);
    ConfinedMisses(d, d', s, C, j);
    assert forall x :: x in Owned(B, s) ==> x !in Footprint(B, w) by {
      if Slot(B[ROOT_ADDR], s) != 0 {
        assert Apart(B, Slot(B[ROOT_ADDR], s), w);
      }
    }
    ApartBy(Footprint(B', v), Footprint(B', w), C, Owned(B, s));
  }

  /** A footprint fv inside C and o is apart from a footprint fw that avoids both. */
  lemma ApartBy(fv: seq<nat>, fw: seq<nat>, C: set<nat>, o: seq<nat>)
    requires forall x :: x in fv ==> x in C || x in o
    requires forall x :: x in fw ==> x !in C
    requires forall x :: x in o ==> x !in fw
    ensures forall x :: x in fv ==> x !in fw
    ensures forall x :: x in fw ==> x !in fv
  {
  }

  // ---- what a consistent volume implies ----

  /** On an open disk getBitmap and the directory functions see the stored blocks. */
  lemma Reads(d: Disk)
    requires Formatted(d)
    ensures GetBitmap(d) == Bm(d.blocks) && Root(d) == d.blocks[ROOT_ADDR]
    ensures Limit(d) == |d.blocks|
  {
  }

  /** Every address nextFreeBlock can hand out on a consistent volume is past the root,
      holds a free block and belongs to no file. */
  lemma FreeListFree(d: Disk, x: nat)
    requires Consistent(d) && x in FreeList(d)
    ensures 2 <= x < |d.blocks| && !Used(Bm(d.blocks), x) && d.blocks[x] == FREE
    ensures forall j :: 0 <= j < MAX_NUM_FILES && Slot(d.blocks[ROOT_ADDR], j) != 0 ==>
              x !in Footprint(d.blocks, Slot(d.blocks[ROOT_ADDR], j))
  {
    Reads(d);
    FreeBelowMembers(GetBitmap(d), Limit(d), x);
    assert Agrees(d.blocks, x);
    forall j | 0 <= j < MAX_NUM_FILES && Slot(d.blocks[ROOT_ADDR], j) != 0
      ensures x !in Footprint(d.blocks, Slot(d.blocks[ROOT_ADDR], j))
    {
      assert Live(d.blocks, Slot(d.blocks[ROOT_ADDR], j));
    }
  }

  /** The free list lists distinct addresses in ascending order. */
  lemma FreeListDistinct(d: Disk)
    ensures Distinct(FreeList(d))
  {
    FreeBelowIncreasing(GetBitmap(d), Limit(d));
  }

  /** A consistent volume whose recorded size needs no more blocks than it holds passes
      checkfs, and the corrected checkbitmap too. */
  lemma ConsistentPassesChecks(d: Disk)
    requires Consistent(d) && NumBlocks(d.size) <= |d.blocks|
    ensures FsCheck(d) == Pass
    ensures BitmapOk(d)
  {
    var B := d.blocks;
    forall j | 0 <= j < NumBlocks(d.size)
      ensures B[j][1] == MAGIC_NUM
    {
      if j >= 2 {
        assert Agrees(B, j);
      }
    }
    MagicCheckPasses(d);
    Reads(d);
    forall a | 0 <= a < CheckedBlocks(d)
      ensures BitAgrees(d, GetBitmap(d), a, a)
    {
      if a >= 2 {
        assert Agrees(B, a);
      }
    }
  }

  // ---- counting ----

  /** The addresses of a sequence as a set. */
  function Members(s: seq<nat>): set<nat> {
    set x | x in s
  }

  lemma {:induction false} MembersOfDistinct(s: seq<nat>)
    requires Distinct(s)
    ensures |Members(s)| == |s|
    decreases |s|
  {
    if s != [] {
      MembersOfDistinct(s[1..]);
      assert Members(s) == {s[0]} + Members(s[1..]);
      assert s[0] !in Members(s[1..]);
    }
  }

  /** The addresses below n. */
  function Range(n: nat): (r: set<nat>)
    ensures |r| == n
    ensures forall x :: x in r ==> x < n
    decreases n
  {
    if n == 0 then {} else Range(n - 1) + {n - 1}
  }

  lemma {:induction false} InRange(n: nat, x: nat)
    requires x < n
    ensures x in Range(n)
    decreases n
  {
    if x < n - 1 {
      InRange(n - 1, x);
    }
  }

  lemma SubsetSize(a: set<nat>, b: set<nat>)
    requires a <= b
    ensures |a| <= |b|
  {
    assert b == a + (b - a);
    assert a * (b - a) == {};
  }

  /** Distinct addresses below n number at most n. */
  lemma DistinctBound(s: seq<nat>, n: nat)
    requires Distinct(s) && forall i :: 0 <= i < |s| ==> s[i] < n
    ensures |s| <= n
  {
    MembersOfDistinct(s);
    forall x | x in Members(s)
      ensures x in Range(n)
    {
      InRange(n, x);
    }
    SubsetSize(Members(s), Range(n));
  }
}
