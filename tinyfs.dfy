/** The public operations of TinyFS.c over the program's static state: the stores
    libDisk has registered, the number of the mounted one (`mount`, INVALID when none is)
    and the open-file table. The class keeps that state; the functions and lemmas around
    it say what each operation does to a volume and which properties it keeps. */
module TinyFs {
  import opened Layout
  import opened Errors
  import opened Blocks
  import opened Disks
  import opened Bitmap
  import opened Directory
  import opened Checker
  import opened Files
  import opened Inodes
  import opened Create
  import opened Delete
  import opened Write
  import opened Rewrite
  import opened Access
  import opened Format

  /** The value of `mount` while no file system is mounted. */
  const UNMOUNTED: int := INVALID as int

  /** A table entry before the first initFD: the static array is zeroed, so even its
      `valid` byte is 0. */
  const ZERO_ENTRY: Entry := Entry(0, 0, 0, Zeros(MAX_NAME_SIZE), 0)

  // ---- the open-file table ----

  /** The first INVALID entry of the table from k on, the one createFile takes. */
  function FirstClosed(t: seq<Entry>, k: nat): (r: Option<nat>)
    ensures r.Some? ==> k <= r.value < |t| && t[r.value].valid == INVALID
                        && forall j :: k <= j < r.value ==> t[j].valid != INVALID
    ensures r.None? ==> forall j :: k <= j < |t| ==> t[j].valid != INVALID
    decreases |t| - k
  {
    if k >= |t| then None
    else if t[k].valid == INVALID then Some(k)
    else FirstClosed(t, k + 1)
  }

  /** The entry createFile fills for a file whose first extent is data. */
  function NewEntry(name: seq<byte>, data: nat): Entry
    requires data < MAX_NUM_BLOCKS
  {
    Entry(ToByte(data), 0, VALID, NameField(name), ToByte(data))
  }

  // ---- tfs_openFile ----

  /** The three stamps tfs_openFile puts on the inode number c. */
  function Stamp3(d: Disk, c: byte, now: int): Disk {
    UpdateTime(UpdateTime(UpdateTime(d, c, Created, now), c, Modified, now), c, Accessed, now)
  }

  /** tfs_openFile's stamps as written: on the block getInodeBlock names, taken as an
      unsigned char, whether or not the name was found. */
  function OpenedAsWritten(d: Disk, name: seq<byte>, now: int): Disk {
    Stamp3(d, CByte(InodeCode(d, name)), now)
  }

  /** tfs_openFile's stamps corrected: none when the name resolves to no inode. */
  function Opened(d: Disk, name: seq<byte>, now: int): Disk {
    if InodeOf(d, name).Err? then d else OpenedAsWritten(d, name, now)
  }

  /** Three stamps in a row are the three Touch steps. */
  lemma OpenedIsTouches(d: Disk, name: seq<byte>, now: int)
    requires Consistent(d) && InodeOf(d, name).Ok?
    ensures var d1 := Touch(d, name, Created, now);
            var d2 := Touch(d1, name, Modified, now);
            Consistent(d1) && Consistent(d2) && SameFiles(d, d1) && SameFiles(d1, d2)
            && InodeOf(d1, name) == InodeOf(d, name) && InodeOf(d2, name) == InodeOf(d, name)
            && Opened(d, name, now) == Touch(d2, name, Accessed, now)
  {
    TouchKeeps(d, name, Created, now);
    var d1 := Touch(d, name, Created, now);
    TouchKeeps(d1, name, Modified, now);
  }

  /** Stamping a volume twice keeps the files of the first as they were. */
  lemma SameFilesChain(d1: Disk, d2: Disk, d3: Disk)
    requires Consistent(d1) && Consistent(d2) && Consistent(d3)
    requires SameFiles(d1, d2) && SameFiles(d2, d3)
    ensures SameFiles(d1, d3)
  {
  }

  /** tfs_openFile's stamps keep a consistent volume consistent, every file as it was
      and every name resolving as before. */
  lemma OpenedKeeps(d: Disk, name: seq<byte>, now: int)
    requires Consistent(d)
    ensures Consistent(Opened(d, name, now)) && SameFiles(d, Opened(d, name, now))
    ensures forall n :: InodeOf(Opened(d, name, now), n) == InodeOf(d, n)
  {
    if InodeOf(d, name).Ok? {
      OpenedIsTouches(d, name, now);
      var d1 := Touch(d, name, Created, now);
      var d2 := Touch(d1, name, Modified, now);
      TouchKeeps(d, name, Created, now);
      TouchKeeps(d1, name, Modified, now);
      TouchKeeps(d2, name, Accessed, now);
      SameFilesChain(d, d1, d2);
      SameFilesChain(d, d2, Opened(d, name, now));
    }
  }

  /** As written, opening a name that resolves to no inode (createFile failed, or the
      name is longer than the eight bytes an inode keeps) stamps block 250: a store of
      fewer blocks grows to 251. The corrected stamps leave the store as it is. */
  lemma OpenedAsWrittenGrows(d: Disk, name: seq<byte>, now: int)
    requires d.open && InodeOf(d, name).Err? && |d.blocks| < 250
    ensures |OpenedAsWritten(d, name, now).blocks| == 251
    ensures Opened(d, name, now) == d
  {
    TouchMissingAsWritten(d, name, Created, now);
    var c := CByte(InodeCode(d, name));
    var d1 := UpdateTime(d, c, Created, now);
    assert d1 == Touch(d, name, Created, now);
    var d2 := UpdateTime(d1, c, Modified, now);
    assert |d2.blocks| == 251;
  }

  /** A name longer than eight bytes never resolves to the inode createFile writes for
      it: the inode keeps only the first eight. */
  lemma LongNameLost(name: seq<byte>, data: nat)
    requires IsCString(name) && |name| > MAX_NAME_SIZE && 0 < data < MAX_NUM_BLOCKS
    ensures !NameMatches(name, MakeInode(ToByte(data), name, 0, 1))
  {
    var b := MakeInode(ToByte(data), name, 0, 1);
    assert b[NAME_INDEX..NAME_INDEX + MAX_NAME_SIZE] == NameField(name);
    CPrefixOfCString(name, []);
    assert name + [] == name;
    assert |CPrefix(NameField(name))| <= MAX_NAME_SIZE;
  }

  /** The file at inode is the empty file createFile makes, its one extent at data, and
      e heads it at position 0. */
  predicate EmptyFileAt(B: seq<Block>, inode: nat, data: nat, e: Entry) {
    FileOk(B, inode) && Extents(B, inode) == [data] && Contents(B, inode) == []
    && Anchored(B, inode, e) && Positioned(B, inode, e)
  }

  /** Every slot of d' but `slot` holds what it held in d, its file with the same
      contents. */
  predicate OthersKept(d: Disk, d': Disk, slot: nat)
    requires Consistent(d) && Consistent(d')
  {
    forall j :: 0 <= j < MAX_NUM_FILES && j != slot ==>
      Slot(d'.blocks[ROOT_ADDR], j) == Slot(d.blocks[ROOT_ADDR], j)
      && (Slot(d.blocks[ROOT_ADDR], j) != 0 ==>
            Contents(d'.blocks, Slot(d.blocks[ROOT_ADDR], j)) == Contents(d.blocks, Slot(d.blocks[ROOT_ADDR], j)))
  }

  /** createFile on a consistent volume with two free blocks: the first free block
      becomes the inode in the first free slot, the second its only extent, the file is
      empty, the entry createFile fills heads it, and every other file is as it was. */
  lemma CreatedFileOpens(d: Disk, name: seq<byte>)
    requires Consistent(d) && |FreeList(d)| >= 2
    ensures FirstZeroFrom(Root(d), 0).Ok?
    ensures FreeList(d)[0] != FreeList(d)[1] && FreeList(d)[0] < MAX_NUM_BLOCKS && FreeList(d)[1] < MAX_NUM_BLOCKS
    ensures var inode := FreeList(d)[0];
            var data := FreeList(d)[1];
            var slot := FirstZeroFrom(Root(d), 0).value;
            var d1 := CreateOnDisk(d, name, inode, data, slot);
            Consistent(d1) && Slot(d1.blocks[ROOT_ADDR], slot) == inode
            && EmptyFileAt(d1.blocks, inode, data, NewEntry(name, data)) && OthersKept(d, d1, slot)
  {
    RootNeverFull(d);
    Reads(d);
    FreeListDistinct(d);
    var inode := FreeList(d)[0];
    var data := FreeList(d)[1];
    assert inode in FreeList(d) && data in FreeList(d);
    var slot := FirstZeroFrom(Root(d), 0).value;
    CreateKeeps(d, name, inode, data, slot);
    var bm := Mark(Mark(Bm(d.blocks), inode, InUse), data, InUse);
    var ib := MakeInode(ToByte(data), name, 0, 1);
    var db := MakeDataBlock(0, Zeros(DATA_SIZE));
    CreatedKeeps(d, bm, inode, ib, slot, data, db, name);
    ToByteValue(data);
  }

  /** The stamps after createFile keep the new file, its entry and every other file. */
  lemma OpenedKeepsFile(d1: Disk, name: seq<byte>, now: int, inode: nat, data: nat, slot: nat, e: Entry)
    requires Consistent(d1) && slot < MAX_NUM_FILES && Slot(d1.blocks[ROOT_ADDR], slot) == inode
    requires EmptyFileAt(d1.blocks, inode, data, e)
    ensures var d2 := Opened(d1, name, now);
            Consistent(d2) && Slot(d2.blocks[ROOT_ADDR], slot) == inode
            && EmptyFileAt(d2.blocks, inode, data, e) && OthersKept(d1, d2, slot)
  {
    OpenedKeeps(d1, name, now);
    var d2 := Opened(d1, name, now);
    PositionedKept(d1.blocks, d2.blocks, inode, e);
  }

  /** The file tfs_openFile creates on a consistent volume with two free blocks, after
      the stamps: in the first free slot, empty, with one extent, headed by the entry
      createFile fills; every other file is as it was. */
  lemma OpenedNewFile(d: Disk, name: seq<byte>, now: int)
    requires Consistent(d) && |FreeList(d)| >= 2
    ensures FirstZeroFrom(Root(d), 0).Ok?
    ensures FreeList(d)[0] != FreeList(d)[1] && FreeList(d)[0] < MAX_NUM_BLOCKS && FreeList(d)[1] < MAX_NUM_BLOCKS
    ensures var inode := FreeList(d)[0];
            var data := FreeList(d)[1];
            var slot := FirstZeroFrom(Root(d), 0).value;
            var d' := Opened(CreateOnDisk(d, name, inode, data, slot), name, now);
            Consistent(d') && Slot(d'.blocks[ROOT_ADDR], slot) == inode
            && EmptyFileAt(d'.blocks, inode, data, NewEntry(name, data)) && OthersKept(d, d', slot)
  {
    CreatedFileOpens(d, name);
    var inode := FreeList(d)[0];
    var data := FreeList(d)[1];
    var slot := FirstZeroFrom(Root(d), 0).value;
    var d1 := CreateOnDisk(d, name, inode, data, slot);
    OpenedKeepsFile(d1, name, now, inode, data, slot, NewEntry(name, data));
  }

  // ---- tfs_writeFile ----

  /** As written, tfs_writeFile sets the position to 0 and leaves current_block where a
      seek or a read moved it: the entry no longer points into the right extent. The
      corrected write puts the cursor back on the first extent. */
  lemma WriteCursorAsWritten(B: seq<Block>, v: nat, e: Entry)
    requires Anchored(B, v, e) && e.current != e.blocknum
    ensures !Positioned(B, v, e.(pos := 0))
    ensures Positioned(B, v, e.(pos := 0, current := e.blocknum))
  {
  }

  /** A successful write keeps the file's first extent, so an entry that headed the file
      still heads it, and the reset entry reads from the start of the new contents. */
  lemma WriteAnchors(d: Disk, v: nat, slot: nat, buffer: seq<byte>, now: int, e: Entry)
    requires Consistent(d) && slot < MAX_NUM_FILES && Slot(d.blocks[ROOT_ADDR], slot) == v && v != 0
    requires |buffer| < 0x8000_0000 && Room(d, v, buffer) && Anchored(d.blocks, v, e)
    ensures 2 <= v < |d.blocks|
    ensures Anchored(WriteOnDisk(d, v, buffer, now).blocks, v, e)
    ensures Positioned(WriteOnDisk(d, v, buffer, now).blocks, v, e.(pos := 0, current := e.blocknum))
  {
    WriteKeeps(d, v, slot, buffer, now);
    var oc := Extents(d.blocks, v);
    var nc := Plan(oc, FreeList(d), Needed(buffer));
    assert nc[0] == oc[0];
  }

  // ---- tfs_rename ----

  /** tfs_rename's work on the inode v: the name field rewritten, then the modification
      and access times stamped. */
  function RenameOnDisk(d: Disk, v: nat, name: seq<byte>, now: int): Disk
    requires v < MAX_NUM_BLOCKS
  {
    var c := ToByte(v);
    UpdateTime(UpdateTime(WriteOr(d, v, Renamed(ReadOr(d, v, ZERO_BLOCK), name)), c, Modified, now), c, Accessed, now)
  }

  /** A block's bytes outside the name field and the two stamped times. */
  predicate OnlyNameAndTimes(a: Block, b: Block) {
    forall i :: 0 <= i < BLOCKSIZE && !(NAME_INDEX <= i < NAME_INDEX + MAX_NAME_SIZE)
                && !(TimeIndex(Modified) <= i < TimeIndex(Modified) + TIME_SIZE)
                && !(TimeIndex(Accessed) <= i < TimeIndex(Accessed) + TIME_SIZE)
                ==> a[i] == b[i]
  }

  /** The inode tfs_rename leaves: the name rewritten, then the two times stamped. */
  function RenamedInode(b: Block, name: seq<byte>, now: int): Block {
    PutTime(PutTime(Renamed(b, name), Modified, now), Accessed, now)
  }

  /** On an open disk tfs_rename rewrites the one inode block. */
  lemma RenameOnDiskIs(d: Disk, v: nat, name: seq<byte>, now: int)
    requires d.open && v < |d.blocks| && v < MAX_NUM_BLOCKS
    ensures RenameOnDisk(d, v, name, now) == d.(blocks := d.blocks[v := RenamedInode(d.blocks[v], name, now)])
  {
    ToByteValue(v);
    var c := ToByte(v);
    var b := Renamed(d.blocks[v], name);
    var d1 := WriteOr(d, v, b);
    assert d1 == d.(blocks := d.blocks[v := b]);
    StampIs(d1, v, c, Modified, now);
    var d2 := UpdateTime(d1, c, Modified, now);
    StampIs(d2, v, c, Accessed, now);
  }

  /** The renamed inode keeps its shape, holds the new name and differs from the old one
      only in the name and the two times. */
  lemma RenamedInodeShape(b: Block, name: seq<byte>, now: int)
    ensures SameShape(b, RenamedInode(b, name, now))
    ensures RenamedInode(b, name, now)[NAME_INDEX..NAME_INDEX + MAX_NAME_SIZE] == NameField(name)
    ensures OnlyNameAndTimes(b, RenamedInode(b, name, now))
  {
    var r := RenamedInode(b, name, now);
    assert TimeIndex(Modified) == MOD_INDEX && TimeIndex(Accessed) == ACCESS_INDEX;
    assert r[13..17] == b[13..17];
    assert r[NAME_INDEX..NAME_INDEX + MAX_NAME_SIZE] == Renamed(b, name)[NAME_INDEX..NAME_INDEX + MAX_NAME_SIZE];
  }

  /** tfs_rename changes only the inode's name field and its two times: every other block
      and every other byte stays, the name field holds the new name, the volume stays
      consistent with every file's contents as they were. */
  lemma RenameOnDiskKeeps(d: Disk, v: nat, s: nat, name: seq<byte>, now: int)
    requires Consistent(d) && s < MAX_NUM_FILES && Slot(d.blocks[ROOT_ADDR], s) == v && v != 0
    ensures 2 <= v < |d.blocks| && v < MAX_NUM_BLOCKS
    ensures var d' := RenameOnDisk(d, v, name, now);
            Consistent(d') && SameFiles(d, d') && |d'.blocks| == |d.blocks|
            && NameBytes(d'.blocks, v) == NameField(name)
            && OnlyNameAndTimes(d.blocks[v], d'.blocks[v])
            && forall a :: 0 <= a < |d.blocks| && a != v ==> d'.blocks[a] == d.blocks[a]
  {
    SlotLive(d, s);
    RenameOnDiskIs(d, v, name, now);
    RenamedInodeShape(d.blocks[v], name, now);
    InodeReplaced(d, s, v, RenamedInode(d.blocks[v], name, now), RenameOnDisk(d, v, name, now));
  }

  /** Replacing the inode of the file in slot s by a block of the same shape keeps the
      volume consistent and its files, and changes no other block. */
  lemma InodeReplaced(d: Disk, s: nat, v: nat, b: Block, d': Disk)
    requires Consistent(d) && s < MAX_NUM_FILES && Slot(d.blocks[ROOT_ADDR], s) == v && v != 0
    requires v < |d.blocks| && SameShape(d.blocks[v], b) && d' == d.(blocks := d.blocks[v := b])
    ensures Consistent(d') && SameFiles(d, d') && |d'.blocks| == |d.blocks| && d'.blocks[v] == b
    ensures forall a :: 0 <= a < |d.blocks| && a != v ==> d'.blocks[a] == d.blocks[a]
  {
    InodeRewrite(d, s, b);
  }

  // ---- tfs_readdir ----

  /** On a consistent volume every file's name appears in the listing from slot k on. */
  lemma {:induction false} ListFromFiles(d: Disk, k: nat)
    requires Consistent(d) && k <= MAX_NUM_FILES
    ensures ListFrom(d, d.blocks[ROOT_ADDR], k).Ok?
    ensures forall j :: k <= j < MAX_NUM_FILES && Slot(d.blocks[ROOT_ADDR], j) != 0 ==>
              CPrefix(NameBytes(d.blocks, Slot(d.blocks[ROOT_ADDR], j))) in ListFrom(d, d.blocks[ROOT_ADDR], k).value
    ensures forall n :: n in ListFrom(d, d.blocks[ROOT_ADDR], k).value ==>
              exists j :: k <= j < MAX_NUM_FILES && Slot(d.blocks[ROOT_ADDR], j) != 0
                          && n == CPrefix(NameBytes(d.blocks, Slot(d.blocks[ROOT_ADDR], j)))
    decreases MAX_NUM_FILES - k
  {
    if k < MAX_NUM_FILES {
      ListFromFiles(d, k + 1);
      var root := d.blocks[ROOT_ADDR];
      var w := Slot(root, k);
      if w != 0 {
        SlotLive(d, k);
        assert ReadBlock(d, w) == Ok(d.blocks[w]);
        var rest := ListFrom(d, root, k + 1).value;
        assert ListFrom(d, root, k).value == [CPrefix(NameBytes(d.blocks, w))] + rest;
        forall n | n in ListFrom(d, root, k).value
          ensures exists j :: k <= j < MAX_NUM_FILES && Slot(root, j) != 0
                              && n == CPrefix(NameBytes(d.blocks, Slot(root, j)))
        {
          if n !in rest {
            assert n == CPrefix(NameBytes(d.blocks, Slot(root, k)));
          }
        }
      }
    }
  }

  /** tfs_readdir on a consistent volume succeeds and lists exactly the files: every
      file's name is listed, every listed name is some file's, and the listing is empty
      exactly when no slot is used. */
  lemma ListingFiles(d: Disk)
    requires Consistent(d)
    ensures Listing(d).Ok?
    ensures forall j :: 0 <= j < MAX_NUM_FILES && Slot(d.blocks[ROOT_ADDR], j) != 0 ==>
              CPrefix(NameBytes(d.blocks, Slot(d.blocks[ROOT_ADDR], j))) in Listing(d).value
    ensures forall n :: n in Listing(d).value ==>
              exists j :: 0 <= j < MAX_NUM_FILES && Slot(d.blocks[ROOT_ADDR], j) != 0
                          && n == CPrefix(NameBytes(d.blocks, Slot(d.blocks[ROOT_ADDR], j)))
    ensures Listing(d).value == [] <==> forall j :: 0 <= j < MAX_NUM_FILES ==> Slot(d.blocks[ROOT_ADDR], j) == 0
  {
    assert ReadBlock(d, ROOT_ADDR) == Ok(d.blocks[ROOT_ADDR]);
    ListFromFiles(d, 0);
    if Listing(d).value != [] {
      var n := Listing(d).value[0];
      assert n in Listing(d).value;
    }
  }

  // ---- tfs_mount ----

  /** What tfs_mount returns and leaves in `mount`. */
  datatype MountStep = MountStep(code: int, mount: int)

  /** tfs_mount as written: a store that fails checkfs is reported CORRUPT_FS but stays
      mounted. */
  function MountAsWritten(disks: seq<Disk>, mount: int, filename: string): (s: MountStep)
    ensures mount != UNMOUNTED ==> s == MountStep(Code(OpenFailure), mount)
  {
    if mount != UNMOUNTED then MountStep(Code(OpenFailure), mount)
    else match FindFile(disks, filename)
      case Err(_) => MountStep(Code(OpenFailure), UNMOUNTED)
      case Ok(i) =>
        if FsCheck(disks[i]) != Pass then MountStep(Code(CorruptFs), i) else MountStep(i, i)
  }

  /** As written, a mount that is reported CORRUPT_FS still counts as a mount: the next
      tfs_mount of any name is refused with OPEN_FAILURE. */
  lemma CorruptMountSticks(disks: seq<Disk>, filename: string, other: string)
    requires FindFile(disks, filename).Ok? && FindFile(disks, filename).value != UNMOUNTED
    requires FsCheck(disks[FindFile(disks, filename).value]) != Pass
    ensures MountAsWritten(disks, UNMOUNTED, filename) == MountStep(Code(CorruptFs), FindFile(disks, filename).value)
    ensures MountAsWritten(disks, MountAsWritten(disks, UNMOUNTED, filename).mount, other).code == Code(OpenFailure)
  {
  }

  /** A store tfs_unmount has closed fails checkfs, so it can never be mounted again:
      findFile still finds it by name. */
  lemma RemountFails(disks: seq<Disk>, i: nat, filename: string)
    requires i < |disks| && FindFile(disks, filename) == Ok(i)
    ensures FindFile(disks[i := CloseDisk(disks[i])], filename) == Ok(i)
    ensures FsCheck(disks[i := CloseDisk(disks[i])][i]) == Fail(CorruptFs)
  {
    var disks' := disks[i := CloseDisk(disks[i])];
    FindFileRenamed(disks, disks', filename);
    ClosedDiskFailsCheck(CloseDisk(disks[i]));
  }

  /** findFile depends only on the names of the stores. */
  lemma {:induction false} FindFileRenamed(disks: seq<Disk>, disks': seq<Disk>, filename: string)
    requires |disks'| == |disks| && forall j :: 0 <= j < |disks| ==> disks'[j].name == disks[j].name
    ensures FindFile(disks', filename) == FindFile(disks, filename)
    decreases |disks|
  {
    if disks != [] && disks[0].name != filename {
      FindFileRenamed(disks[1..], disks'[1..], filename);
    }
  }

  /** createFile's work on the volume: the new file when two blocks are free and a slot
      is, otherwise the volume untouched. */
  function Creation(d: Disk, name: seq<byte>): Disk {
    if |FreeList(d)| >= 2 && FirstZeroFrom(Root(d), 0).Ok? then
      CreateOnDisk(d, name, FreeList(d)[0], FreeList(d)[1], FirstZeroFrom(Root(d), 0).value)
    else d
  }

  /** createFile's change to the table: the first INVALID entry t held filled for the
      new file and its number returned, or ROOT_DIRECTORY_FULL and t unchanged. */
  predicate TableAfterCreate(t: seq<Entry>, t': seq<Entry>, fd: int, name: seq<byte>, data: nat)
    requires data < MAX_NUM_BLOCKS
  {
    if FirstClosed(t, 0).None? then fd == Code(RootDirectoryFull) && t' == t
    else fd == FirstClosed(t, 0).value && t' == t[fd := NewEntry(name, data)]
  }

  /** tfs_openFile keeps a consistent volume consistent. */
  lemma CreationKeeps(d: Disk, name: seq<byte>, now: int)
    requires Consistent(d)
    ensures Consistent(Opened(Creation(d, name), name, now))
  {
    if |FreeList(d)| >= 2 {
      OpenedNewFile(d, name, now);
    } else {
      OpenedKeeps(d, name, now);
    }
  }

  /** The state TinyFS.c keeps in its statics and libDisk in its list of stores. */
  // ---- steps of the operations on one volume ----

  /** The end of tfs_openFile, corrected: the creation, modification and access times
      stamped on the inode the name resolves to, when it resolves to one. */
  method StampOpened(d: Disk, name: seq<byte>, now: int) returns (d': Disk)
    ensures d' == Opened(d, name, now)
  {
    d' := d;
    var inodenum := GetInodeBlock(name, d);
    if inodenum.Ok? {
      var c := CByte(inodenum.value);
      d' := UpdateTime(d', c, Created, now);
      d' := UpdateTime(d', c, Modified, now);
      d' := UpdateTime(d', c, Accessed, now);
    }
  }

  /** tfs_readByte's reads, corrected: the inode found by name, its size compared with
      the position, the current block read and the byte taken from it. */
  method ReadAt(d: Disk, e: Entry) returns (r: Result<Read>)
    ensures r == Access.ReadByte(d, e)
  {
    var inode := GetInodeBlock(e.name, d);
    if inode.Err? {
      return Err(FileNotFound);
    }
    var size := GetFileSize(ReadOr(d, inode.value, ZERO_BLOCK));
    if e.pos < 0 || e.pos >= size {
      return Err(ReadError);
    }
    var block := ReadBlock(d, e.current as int);
    if block.Err? {
      return Err(ReadError);
    }
    var b := block.value;
    var next := if (e.pos + 1) % DATA_SIZE == 0 then b[2] else e.current;
    return Ok(Read(b[e.pos % DATA_SIZE + 4], e.(pos := e.pos + 1, current := next)));
  }

  /** tfs_seek's checks and loop, corrected: the size read from the inode found by name,
      then one pass per DATA_SIZE bytes of the offset, each reading the current extent
      and following its link. */
  method SeekOn(d: Disk, e: Entry, offset: int) returns (r: Result<Entry>)
    ensures r == Access.Seek(d, e, offset)
  {
    var inode := GetInodeBlock(e.name, d);
    var filesize := 0;
    if inode.Ok? {
      filesize := GetFileSize(ReadOr(d, inode.value, ZERO_BLOCK));
    }
    if e.valid == INVALID || offset < 0 || offset >= filesize {
      return Err(SeekError);
    }
    var cur := e.blocknum;
    var off := offset;
    ghost var n: nat := 0;
    while off >= DATA_SIZE
      invariant off == offset - n * DATA_SIZE && 0 <= off && n <= Passes(offset)
      invariant Hops(d, e.blocknum, Passes(offset), 2) == Hops(d, cur, Passes(offset) - n, 2)
    {
      off := off - DATA_SIZE;
      var block := ReadBlock(d, cur as int);
      if block.Err? {
        return Err(ReadError);
      }
      cur := block.value[2];
      n := n + 1;
    }
    return Ok(e.(pos := offset, current := cur));
  }

  // ---- what the class's operations keep ----

  /** Every open store of the list is a consistent volume. */
  predicate AllConsistent(disks: seq<Disk>) {
    forall i :: 0 <= i < |disks| && disks[i].open ==> Consistent(disks[i])
  }

  /** Putting a consistent volume in place of one store keeps every open store consistent. */
  lemma ReplaceConsistent(disks: seq<Disk>, m: nat, d: Disk)
    requires AllConsistent(disks) && m < |disks| && Consistent(d)
    ensures AllConsistent(disks[m := d]) && disks[m := d][m].open
  {
  }

  /** tfs_writeFile on the file a name resolves to keeps a consistent volume consistent,
      whether it stops for want of room after the access stamp or rewrites the file. */
  lemma WriteConsistent(d: Disk, name: seq<byte>, v: nat, buffer: seq<byte>, now: int)
    requires Consistent(d) && InodeOf(d, name) == Ok(v) && |buffer| < 0x8000_0000
    ensures 2 <= v < |d.blocks|
    ensures Consistent(UpdateTime(d, ToByte(v), Accessed, now)) && SameFiles(d, UpdateTime(d, ToByte(v), Accessed, now))
    ensures Room(d, v, buffer) ==> Consistent(WriteOnDisk(d, v, buffer, now))
  {
    Found(d, name, v);
    var slot := FindSlot(d, name).value;
    ToByteValue(v);
    UpdateTimeKeeps(d, slot, ToByte(v), Accessed, now);
    if Room(d, v, buffer) {
      WriteKeeps(d, v, slot, buffer, now);
    }
  }

  /** A write with room leaves the file holding exactly the buffer. */
  lemma WrittenHolds(d: Disk, name: seq<byte>, v: nat, buffer: seq<byte>, now: int)
    requires Consistent(d) && InodeOf(d, name) == Ok(v) && |buffer| < 0x8000_0000 && Room(d, v, buffer)
    ensures 2 <= v < |d.blocks|
    ensures FileOk(WriteOnDisk(d, v, buffer, now).blocks, v) && Contents(WriteOnDisk(d, v, buffer, now).blocks, v) == buffer
  {
    Found(d, name, v);
    WriteKeeps(d, v, FindSlot(d, name).value, buffer, now);
  }

  /** tfs_deleteFile on the file a name resolves to keeps a consistent volume consistent. */
  lemma DeleteConsistent(d: Disk, name: seq<byte>, v: nat)
    requires Consistent(d) && InodeOf(d, name) == Ok(v)
    ensures FindSlot(d, name).Some? && v < |d.blocks|
    ensures Consistent(DeleteOnDisk(d, v, FindSlot(d, name).value))
  {
    Found(d, name, v);
    DeleteKeeps(d, v, FindSlot(d, name).value);
  }

  /** tfs_rename on the file a name resolves to keeps a consistent volume consistent. */
  lemma RenameConsistent(d: Disk, name: seq<byte>, v: nat, newName: seq<byte>, now: int)
    requires Consistent(d) && InodeOf(d, name) == Ok(v)
    ensures Consistent(RenameOnDisk(d, v, newName, now))
  {
    Found(d, name, v);
    RenameOnDiskKeeps(d, v, FindSlot(d, name).value, newName, now);
  }

  // ---- the operations on one open file ----

  /** What an operation on an open file leaves: the code it returns, the mounted volume
      and the file's table entry. */
  datatype Effect = Effect(code: int, vol: Disk, entry: Entry)

  /** tfs_writeFile, corrected, on the mounted volume d for the entry e: WRITE_ERROR for an
      INVALID entry, FILE_NOT_FOUND for a name no inode carries, ROOT_DIRECTORY_FULL after
      the access stamp when the free blocks the file must gain are not there; otherwise
      the file holds exactly the buffer and the entry is back at its start. */
  function Written(d: Disk, e: Entry, buffer: seq<byte>, now: int): (s: Effect)
    requires Consistent(d) && |buffer| < 0x8000_0000
    ensures Consistent(s.vol)
    ensures e.valid == INVALID ==> s == Effect(Code(WriteError), d, e)
    ensures e.valid != INVALID && InodeOf(d, e.name).Err? ==> s == Effect(Code(FileNotFound), d, e)
    ensures e.valid != INVALID && InodeOf(d, e.name).Ok? && !Room(d, InodeOf(d, e.name).value, buffer) ==>
              s.code == Code(RootDirectoryFull) && s.entry == e && SameFiles(d, s.vol)
    ensures s.code == 0 <==> e.valid != INVALID && InodeOf(d, e.name).Ok? && Room(d, InodeOf(d, e.name).value, buffer)
    ensures s.code == 0 ==> FileOk(s.vol.blocks, InodeOf(d, e.name).value)
                            && Contents(s.vol.blocks, InodeOf(d, e.name).value) == buffer
                            && s.entry == e.(pos := 0, current := e.blocknum)
  {
    if e.valid == INVALID then Effect(Code(WriteError), d, e)
    else match InodeOf(d, e.name)
      case Err(x) => Effect(Code(x), d, e)
      case Ok(v) =>
        WriteConsistent(d, e.name, v, buffer, now);
        if Room(d, v, buffer) then
          WrittenHolds(d, e.name, v, buffer, now);
          Effect(0, WriteOnDisk(d, v, buffer, now), e.(pos := 0, current := e.blocknum))
        else
          Effect(Code(RootDirectoryFull), UpdateTime(d, ToByte(v), Accessed, now), e)
  }

  /** tfs_writeFile's steps on the volume for the entry: the lookup by name, the check
      of the entry, then the write. */
  method WriteOn(d: Disk, e: Entry, buffer: seq<byte>, now: int) returns (s: Effect)
    requires Consistent(d) && |buffer| < 0x8000_0000
    ensures s == Written(d, e, buffer, now)
  {
    var inodeblock := GetInodeBlock(e.name, d);
    if e.valid == INVALID {
      return Effect(Code(WriteError), d, e);
    }
    if inodeblock.Err? {
      return Effect(Code(FileNotFound), d, e);
    }
    var v := inodeblock.value;
    Found(d, e.name, v);
    var outcome, d' := WriteOnVolume(d, v, buffer, now);
    if outcome.Fail? {
      return Effect(Code(RootDirectoryFull), d', e);
    }
    return Effect(0, d', e.(pos := 0, current := e.blocknum));
  }

  /** tfs_deleteFile on the mounted volume d for the entry e: FILE_NOT_FOUND for a name
      no inode carries; otherwise the file's slot is cleared, every block of the file is
      free, and the entry is CLOSED. */
  function Deleted(d: Disk, e: Entry): (s: Effect)
    requires Consistent(d)
    ensures Consistent(s.vol)
    ensures InodeOf(d, e.name).Err? ==> s == Effect(Code(FileNotFound), d, e)
    ensures InodeOf(d, e.name).Ok? ==>
              var v := InodeOf(d, e.name).value;
              s.code == 0 && s.entry == CLOSED && FindSlot(d, e.name).Some?
              && Slot(s.vol.blocks[ROOT_ADDR], FindSlot(d, e.name).value) == 0
              && forall x :: x in Footprint(d.blocks, v) ==> x < |s.vol.blocks| && !Used(Bm(s.vol.blocks), x)
  {
    match InodeOf(d, e.name)
    case Err(x) => Effect(Code(x), d, e)
    case Ok(v) =>
      DeleteConsistent(d, e.name, v);
      DeleteKeeps(d, v, FindSlot(d, e.name).value);
      Effect(0, DeleteOnDisk(d, v, FindSlot(d, e.name).value), CLOSED)
  }

  /** tfs_deleteFile's steps. */
  method DeleteOn(d: Disk, e: Entry) returns (s: Effect)
    requires Consistent(d)
    ensures s == Deleted(d, e)
  {
    var deleted := DeleteOnVolume(d, e.name);
    if deleted.Err? {
      return Effect(Code(FileNotFound), d, e);
    }
    return Effect(0, deleted.value, CLOSED);
  }

  /** tfs_rename on the mounted volume d for the entry e: FILE_NOT_FOUND for an INVALID
      entry, READ_ERROR for a name no inode carries; otherwise the inode and the entry
      carry the new name, and every file keeps its contents. */
  function RenamedIn(d: Disk, e: Entry, name: seq<byte>, now: int): (s: Effect)
    requires Consistent(d)
    ensures Consistent(s.vol) && SameFiles(d, s.vol)
    ensures e.valid == INVALID ==> s == Effect(Code(FileNotFound), d, e)
    ensures e.valid != INVALID && InodeOf(d, e.name).Err? ==> s == Effect(Code(ReadError), d, e)
    ensures e.valid != INVALID && InodeOf(d, e.name).Ok? ==>
              s.code == 0 && s.entry == e.(name := NameField(name))
              && NameBytes(s.vol.blocks, InodeOf(d, e.name).value) == NameField(name)
  {
    if e.valid == INVALID then Effect(Code(FileNotFound), d, e)
    else match InodeOf(d, e.name)
      case Err(_) => Effect(Code(ReadError), d, e)
      case Ok(v) =>
        Found(d, e.name, v);
        RenameOnDiskKeeps(d, v, FindSlot(d, e.name).value, name, now);
        Effect(0, RenameOnDisk(d, v, name, now), e.(name := NameField(name)))
  }

  /** tfs_rename's steps: the entry checked, the inode found by name and read, its name
      field and the entry's name rewritten, the inode written back and stamped. */
  method RenameOn(d: Disk, e: Entry, name: seq<byte>, now: int) returns (s: Effect)
    requires Consistent(d)
    ensures s == RenamedIn(d, e, name, now)
  {
    if e.valid == INVALID {
      return Effect(Code(FileNotFound), d, e);
    }
    var inode := GetInodeBlock(e.name, d);
    if inode.Err? {
      return Effect(Code(ReadError), d, e);
    }
    var v := inode.value;
    var c := ToByte(v);
    var block := ReadOr(d, v, ZERO_BLOCK);
    var d' := WriteOr(d, v, Renamed(block, name));
    var e' := e.(name := NameField(name));
    d' := UpdateTime(d', c, Modified, now);
    d' := UpdateTime(d', c, Accessed, now);
    return Effect(0, d', e');
  }

  class FileSystem {
    /** The stores openDisk has registered, in the order findFile searches them. */
    var disks: seq<Disk>
    /** The number of the mounted store, or UNMOUNTED. */
    var mount: int
    /** The open-file table, one entry per file descriptor. */
    const table: array<Entry>

    /** Every open store is a consistent volume (tfs_mkfs makes them, the operations
        keep them), and `mount` names an open store when it is set. */
    predicate Valid()
      reads this, table
    {
      table.Length == MAX_NUM_FILES && AllConsistent(disks)
      && (mount != UNMOUNTED ==> 0 <= mount < |disks| && disks[mount].open)
    }

    predicate Mounted()
      reads this
    {
      mount != UNMOUNTED
    }

    /** The mounted volume. */
    function Vol(): Disk
      reads this
      requires 0 <= mount < |disks|
    {
      disks[mount]
    }

    /** The program at start: no store, nothing mounted, the table zeroed. */
    constructor ()
      ensures Valid() && !Mounted() && disks == []
      ensures table[..] == seq(MAX_NUM_FILES, _ => ZERO_ENTRY)
    {
      disks := [];
      mount := UNMOUNTED;
      table := new Entry[MAX_NUM_FILES](_ => ZERO_ENTRY);
    }

    /** initFD(): every entry zeroed and INVALID. */
    method InitFd()
      requires table.Length == MAX_NUM_FILES
      modifies table
      ensures table[..] == seq(MAX_NUM_FILES, _ => CLOSED)
    {
      var loop := 0;
      while loop < MAX_NUM_FILES
        invariant 0 <= loop <= MAX_NUM_FILES
        invariant forall j :: 0 <= j < loop ==> table[j] == CLOSED
      {
        table[loop] := CLOSED;
        loop := loop + 1;
      }
    }

    /** tfs_mkfs(filename, nBytes): a new store under the name (the default one for an
        empty name), formatted. */
    method Mkfs(filename: string, nBytes: int) returns (r: int)
      requires Valid() && nBytes > 0
      modifies this
      ensures Valid() && r == 0 && mount == old(mount)
      ensures disks == old(disks) + [Fresh(DiskName(filename), nBytes)]
    {
      var d := FormatDisk(DiskName(filename), nBytes);
      FreshConsistent(DiskName(filename), nBytes);
      disks := disks + [d];
      return 0;
    }

    /** tfs_mount(filename), corrected: a store that fails checkfs is CORRUPT_FS and is
        not mounted. A mounted store passed checkfs and the table is reset. */
    method Mount(filename: string) returns (r: int)
      requires Valid()
      modifies this, table
      ensures Valid() && disks == old(disks)
      ensures old(mount) != UNMOUNTED ==> r == Code(OpenFailure) && mount == old(mount) && table[..] == old(table[..])
      ensures old(mount) == UNMOUNTED && FindFile(disks, filename).Err? ==>
                r == Code(OpenFailure) && mount == UNMOUNTED && table[..] == old(table[..])
      ensures old(mount) == UNMOUNTED && FindFile(disks, filename).Ok? ==>
                var i := FindFile(disks, filename).value;
                if FsCheck(disks[i]) == Pass then r == i && mount == i && table[..] == seq(MAX_NUM_FILES, _ => CLOSED)
                else r == Code(CorruptFs) && mount == UNMOUNTED && table[..] == old(table[..])
    {
      if mount != UNMOUNTED {
        return Code(OpenFailure);
      }
      var found := FindFile(disks, filename);
      if found.Err? {
        mount := UNMOUNTED;
        return Code(OpenFailure);
      }
      var i := found.value;
      var check := CheckFs(disks[i]);
      if check == Fail(CorruptFs) {
        return Code(CorruptFs);
      }
      InitFd();
      mount := i;
      return i;
    }

    /** tfs_unmount(): DISK_CLOSE_FAILURE when nothing is mounted; otherwise the store is
        closed and nothing is mounted. */
    method Unmount() returns (r: int)
      requires Valid()
      modifies this
      ensures Valid()
      ensures old(mount) == UNMOUNTED ==> r == Code(DiskCloseFailure) && disks == old(disks) && mount == UNMOUNTED
      ensures old(mount) != UNMOUNTED ==>
                r == 0 && mount == UNMOUNTED && disks == old(disks)[old(mount) := CloseDisk(old(disks)[old(mount)])]
    {
      if mount == UNMOUNTED {
        return Code(DiskCloseFailure);
      }
      disks := disks[mount := CloseDisk(disks[mount])];
      mount := UNMOUNTED;
      return 0;
    }

    /** createFile's search of the table: the first INVALID entry. */
    method FindClosed() returns (r: Option<nat>)
      requires table.Length == MAX_NUM_FILES
      ensures r == FirstClosed(table[..], 0)
    {
      var i := 0;
      while i < MAX_NUM_FILES
        invariant 0 <= i <= MAX_NUM_FILES
        invariant FirstClosed(table[..], i) == FirstClosed(table[..], 0)
      {
        if table[i].valid == INVALID {
          return Some(i);
        }
        i := i + 1;
      }
      return None;
    }

    /** createFile(name): the file on the volume (nothing written when fewer than two
        blocks are free), then the first INVALID entry filled for it. The volume the
        file is written to is returned. */
    method CreateFile(name: seq<byte>) returns (fd: int, d1: Disk)
      requires Valid() && Mounted()
      modifies table
      ensures d1 == Creation(Vol(), name)
      ensures |FreeList(Vol())| < 2 ==> fd == Code(RootDirectoryFull) && table[..] == old(table[..])
      ensures |FreeList(Vol())| >= 2 ==> TableAfterCreate(old(table[..]), table[..], fd, name, FreeList(Vol())[1])
    {
      var d := disks[mount];
      RootNeverFull(d);
      var created, inodeblock, datablock := CreateOnVolume(d, name);
      if created.Err? {
        return Code(RootDirectoryFull), d;
      }
      d1 := created.value;
      var free := FindClosed();
      if free.None? {
        fd := Code(RootDirectoryFull);
      } else {
        fd := free.value;
        table[fd] := NewEntry(name, datablock);
      }
    }

    /** tfs_openFile(name): createFile, then the three stamps on the inode the name
        resolves to (corrected: none when it resolves to none). The loop that looks for
        an open entry compares pointers and never matches, so a new file is always
        created. */
    method OpenFile(name: seq<byte>, now: int) returns (fd: int)
      requires Valid() && Mounted()
      modifies this, table
      ensures Valid() && mount == old(mount)
      ensures disks == old(disks)[mount := Opened(Creation(old(Vol()), name), name, now)]
      ensures |FreeList(old(Vol()))| < 2 ==> fd == Code(RootDirectoryFull) && table[..] == old(table[..])
      ensures |FreeList(old(Vol()))| >= 2 ==> TableAfterCreate(old(table[..]), table[..], fd, name, FreeList(old(Vol()))[1])
    {
      var d;
      fd, d := CreateFile(name);
      CreationKeeps(disks[mount], name, now);
      d := StampOpened(d, name, now);
      ReplaceConsistent(disks, mount, d);
      disks := disks[mount := d];
    }

    /** tfs_closeFile(FD): the entry becomes INVALID. */
    method CloseFile(fd: int) returns (r: int)
      requires Valid() && 0 <= fd < MAX_NUM_FILES
      modifies table
      ensures Valid() && r == 0
      ensures table[..] == old(table[..])[fd := old(table[fd]).(valid := INVALID)]
    {
      table[fd] := table[fd].(valid := INVALID);
      return 0;
    }

    /** tfs_writeFile(FD, buffer, size), corrected: what Written says for the entry on the
        mounted volume. */
    method WriteFile(fd: int, buffer: seq<byte>, now: int) returns (r: int)
      requires Valid() && Mounted() && 0 <= fd < MAX_NUM_FILES && |buffer| < 0x8000_0000
      modifies this, table
      ensures Valid() && mount == old(mount)
      ensures var s := Written(old(Vol()), old(table[fd]), buffer, now);
              r == s.code && disks == old(disks)[mount := s.vol] && table[..] == old(table[..])[fd := s.entry]
    {
      var s := WriteOn(disks[mount], table[fd], buffer, now);
      ReplaceConsistent(disks, mount, s.vol);
      disks := disks[mount := s.vol];
      table[fd] := s.entry;
      return s.code;
    }

    /** tfs_deleteFile(FD): what Deleted says for the entry on the mounted volume. */
    method DeleteFile(fd: int) returns (r: int)
      requires Valid() && Mounted() && 0 <= fd < MAX_NUM_FILES
      modifies this, table
      ensures Valid() && mount == old(mount)
      ensures var s := Deleted(old(Vol()), old(table[fd]));
              r == s.code && disks == old(disks)[mount := s.vol] && table[..] == old(table[..])[fd := s.entry]
    {
      var s := DeleteOn(disks[mount], table[fd]);
      ReplaceConsistent(disks, mount, s.vol);
      disks := disks[mount := s.vol];
      table[fd] := s.entry;
      return s.code;
    }

    /** tfs_readByte(FD, buffer), corrected: the byte at the entry's position and the
        entry moved past it, then the access time stamped on the file's inode; an error
        leaves everything as it was. */
    method ReadByte(fd: int, now: int) returns (r: int, c: byte)
      requires Valid() && Mounted() && 0 <= fd < MAX_NUM_FILES
      modifies this, table
      ensures Valid() && mount == old(mount)
      ensures Access.ReadByte(old(Vol()), old(table[fd])).Err? ==>
                r == Code(Access.ReadByte(old(Vol()), old(table[fd])).error) && c == 0
                && disks == old(disks) && table[..] == old(table[..])
      ensures Access.ReadByte(old(Vol()), old(table[fd])).Ok? ==>
                r == 0 && c == Access.ReadByte(old(Vol()), old(table[fd])).value.value
                && disks == old(disks)[mount := Touch(old(Vol()), old(table[fd]).name, Accessed, now)]
                && table[..] == old(table[..])[fd := Access.ReadByte(old(Vol()), old(table[fd])).value.entry]
    {
      var d := disks[mount];
      var e := table[fd];
      var read := ReadAt(d, e);
      if read.Err? {
        return Code(read.error), 0;
      }
      table[fd] := read.value.entry;
      TouchKeeps(d, e.name, Accessed, now);
      ReplaceConsistent(disks, mount, Touch(d, e.name, Accessed, now));
      disks := disks[mount := Touch(d, e.name, Accessed, now)];
      return 0, read.value.value;
    }

    /** tfs_seek(FD, offset), corrected: the loop that walks the chain one extent per
        DATA_SIZE bytes of the offset, following each extent's link; the entry ends
        where Access.Seek puts it, and nothing else changes. */
    method Seek(fd: int, offset: int) returns (r: int)
      requires Valid() && Mounted() && 0 <= fd < MAX_NUM_FILES
      modifies table
      ensures Valid()
      ensures Access.Seek(Vol(), old(table[fd]), offset).Err? ==>
                r == Code(Access.Seek(Vol(), old(table[fd]), offset).error) && table[..] == old(table[..])
      ensures Access.Seek(Vol(), old(table[fd]), offset).Ok? ==>
                r == 0 && table[..] == old(table[..])[fd := Access.Seek(Vol(), old(table[fd]), offset).value]
    {
      var sought := SeekOn(disks[mount], table[fd], offset);
      if sought.Err? {
        return Code(sought.error);
      }
      table[fd] := sought.value;
      return 0;
    }

    /** tfs_rename(file, name): what RenamedIn says for the entry on the mounted volume. */
    method Rename(fd: int, name: seq<byte>, now: int) returns (r: int)
      requires Valid() && Mounted() && 0 <= fd < MAX_NUM_FILES
      modifies this, table
      ensures Valid() && mount == old(mount)
      ensures var s := RenamedIn(old(Vol()), old(table[fd]), name, now);
              r == s.code && disks == old(disks)[mount := s.vol] && table[..] == old(table[..])[fd := s.entry]
    {
      var s := RenameOn(disks[mount], table[fd], name, now);
      ReplaceConsistent(disks, mount, s.vol);
      disks := disks[mount := s.vol];
      table[fd] := s.entry;
      return s.code;
    }

    /** tfs_readdir(): the names of the mounted volume's files, in slot order, or
        READ_ERROR. */
    method ReadDir() returns (r: int, names: seq<seq<byte>>)
      requires Valid() && Mounted()
      ensures Listing(Vol()).Ok? ==> r == 0 && names == Listing(Vol()).value
      ensures Listing(Vol()).Err? ==> r == Code(ReadError) && names == []
    {
      var listing := Directory.ReadDir(disks[mount]);
      if listing.Err? {
        return Code(ReadError), [];
      }
      return 0, listing.value;
    }
  }
}
