/** The root directory: the root inode at address 1 holds one byte per file, the
    address of its inode, in slots 12..255 (getrootindex, updateroot,
    nextRootAddrIndex, getInodeBlock with namecmp, and the scan of tfs_readdir). A
    slot holding 0 is unused. */
module Directory {
  import opened Layout
  import opened Errors
  import opened Blocks
  import opened Disks

  /** The root inode as the directory functions read it. Their buffers start zeroed
      (nextRootAddrIndex, tfs_readdir) or uninitialised (getrootindex, updateroot,
      getInodeBlock); the model reads an unread buffer as zeros in every case. */
  function Root(d: Disk): Block {
    ReadOr(d, ROOT_ADDR, ZERO_BLOCK)
  }

  /** Slot i of the directory: root byte 12 + i. Index 0 is the first inode pointer. */
  function Slot(root: Block, i: nat): nat
    requires i < MAX_NUM_FILES
  {
    root[ROOT_FIRST_ADDR + i] as nat
  }

  // ---- nextRootAddrIndex ----

  /** The first unused slot at index k or later. */
  function FirstZeroFrom(root: Block, k: nat): (r: Result<nat>)
    ensures r.Ok? ==> k <= r.value < MAX_NUM_FILES && Slot(root, r.value) == 0
                      && forall j :: k <= j < r.value ==> Slot(root, j) != 0
    ensures r.Err? ==> r.error == RootDirectoryFull
                       && forall j :: k <= j < MAX_NUM_FILES ==> Slot(root, j) != 0
    decreases MAX_NUM_FILES - k
  {
    if k >= MAX_NUM_FILES then Err(RootDirectoryFull)
    else if Slot(root, k) == 0 then Ok(k)
    else FirstZeroFrom(root, k + 1)
  }

  /** nextRootAddrIndex(disknum): the least index whose slot is unused, or
      ROOT_DIRECTORY_FULL when all 244 slots are in use. */
  method NextRootAddrIndex(d: Disk) returns (r: Result<nat>)
    ensures r == FirstZeroFrom(Root(d), 0)
    ensures r.Ok? ==> r.value < MAX_NUM_FILES && Slot(Root(d), r.value) == 0
                      && forall j :: 0 <= j < r.value ==> Slot(Root(d), j) != 0
    ensures r.Err? ==> r.error == RootDirectoryFull
                       && forall j :: 0 <= j < MAX_NUM_FILES ==> Slot(Root(d), j) != 0
  {
    var block := Root(d);
    var loop := ROOT_FIRST_ADDR;
    while loop < BLOCKSIZE
      invariant ROOT_FIRST_ADDR <= loop <= BLOCKSIZE
      invariant FirstZeroFrom(block, loop - ROOT_FIRST_ADDR) == FirstZeroFrom(block, 0)
    {
      if block[loop] == 0 {
        return Ok(loop - ROOT_FIRST_ADDR);
      }
      loop := loop + 1;
    }
    return Err(RootDirectoryFull);
  }

  // ---- getrootindex ----

  /** The first slot at index k or later that holds blocknum. */
  function SlotOfFrom(root: Block, blocknum: nat, k: nat): (r: Result<nat>)
    ensures r.Ok? ==> k <= r.value < MAX_NUM_FILES && Slot(root, r.value) == blocknum
                      && forall j :: k <= j < r.value ==> Slot(root, j) != blocknum
    ensures r.Err? ==> r.error == FileNotFound
                       && forall j :: k <= j < MAX_NUM_FILES ==> Slot(root, j) != blocknum
    decreases MAX_NUM_FILES - k
  {
    if k >= MAX_NUM_FILES then Err(FileNotFound)
    else if Slot(root, k) == blocknum then Ok(k)
    else SlotOfFrom(root, blocknum, k + 1)
  }

  /** getrootindex(blocknum): the index of the first slot holding blocknum, or
      FILE_NOT_FOUND. */
  method GetRootIndex(d: Disk, blocknum: nat) returns (r: Result<nat>)
    requires blocknum < MAX_NUM_BLOCKS
    ensures r == SlotOfFrom(Root(d), blocknum, 0)
  {
    var block := Root(d);
    var index := 0;
    while index + ROOT_FIRST_ADDR < BLOCKSIZE
      invariant 0 <= index <= MAX_NUM_FILES
      invariant SlotOfFrom(block, blocknum, index) == SlotOfFrom(block, blocknum, 0)
    {
      if block[index + ROOT_FIRST_ADDR] as nat == blocknum {
        return Ok(index);
      }
      index := index + 1;
    }
    return Err(FileNotFound);
  }

  // ---- updateroot ----

  /** updateroot(blocknum, index): store blocknum in the root at byte index + 12, the
      sum taken in unsigned char arithmetic as the source does. */
  function UpdateRoot(d: Disk, blocknum: byte, index: nat): Disk
    requires index < MAX_NUM_BLOCKS
  {
    var root := Root(d);
    WriteOr(d, ROOT_ADDR, root[(index + ROOT_FIRST_ADDR) % 256 := blocknum])
  }

  /** For an index below 244 updateroot sets that slot and changes no other byte of
      the root and no other block. */
  lemma UpdateRootSlot(d: Disk, blocknum: byte, index: nat)
    requires d.open && ROOT_ADDR < |d.blocks| && index < MAX_NUM_FILES
    ensures |UpdateRoot(d, blocknum, index).blocks| == |d.blocks|
    ensures Slot(UpdateRoot(d, blocknum, index).blocks[ROOT_ADDR], index) == blocknum as nat
    ensures forall j :: 0 <= j < MAX_NUM_FILES && j != index ==>
              Slot(UpdateRoot(d, blocknum, index).blocks[ROOT_ADDR], j) == Slot(d.blocks[ROOT_ADDR], j)
    ensures UpdateRoot(d, blocknum, index).blocks[ROOT_ADDR][..ROOT_FIRST_ADDR] == d.blocks[ROOT_ADDR][..ROOT_FIRST_ADDR]
    ensures forall a :: 0 <= a < |d.blocks| && a != ROOT_ADDR ==> UpdateRoot(d, blocknum, index).blocks[a] == d.blocks[a]
  {
  }

  // ---- getInodeBlock and namecmp ----

  /** namecmp(name, disknum, blocknum) == 0: strcmp finds the name equal to the eight
      name bytes of the block, both read up to their first NUL. */
  predicate NameMatches(name: seq<byte>, block: Block) {
    CPrefix(name) == CPrefix(block[NAME_INDEX..NAME_INDEX + MAX_NAME_SIZE])
  }

  /** The first slot at index k or later that is in use and whose inode carries name. */
  function FindSlotFrom(d: Disk, root: Block, name: seq<byte>, k: nat): (r: Option<nat>)
    ensures r.Some? ==> k <= r.value < MAX_NUM_FILES && Slot(root, r.value) != 0
                        && NameMatches(name, ReadOr(d, Slot(root, r.value), ZERO_BLOCK))
    ensures forall j :: k <= j < MAX_NUM_FILES && (r.None? || j < r.value) && Slot(root, j) != 0 ==>
              !NameMatches(name, ReadOr(d, Slot(root, j), ZERO_BLOCK))
    decreases MAX_NUM_FILES - k
  {
    if k >= MAX_NUM_FILES then None
    else if Slot(root, k) != 0 && NameMatches(name, ReadOr(d, Slot(root, k), ZERO_BLOCK)) then Some(k)
    else FindSlotFrom(d, root, name, k + 1)
  }

  /** The slot getInodeBlock stops at. */
  function FindSlot(d: Disk, name: seq<byte>): Option<nat> {
    FindSlotFrom(d, Root(d), name, 0)
  }

  /** The address getInodeBlock returns: the inode of the first slot whose inode
      carries the name, or FILE_NOT_FOUND. */
  function InodeOf(d: Disk, name: seq<byte>): (r: Result<nat>)
    ensures r.Ok? ==> 0 < r.value < MAX_NUM_BLOCKS
    ensures r.Err? ==> r.error == FileNotFound
  {
    match FindSlot(d, name)
    case Some(i) => Ok(Slot(Root(d), i))
    case None => Err(FileNotFound)
  }

  /** getInodeBlock(name, disknum). */
  method GetInodeBlock(name: seq<byte>, d: Disk) returns (r: Result<nat>)
    ensures r == InodeOf(d, name)
  {
    var block := Root(d);
    var loop := ROOT_FIRST_ADDR;
    while loop < BLOCKSIZE
      invariant ROOT_FIRST_ADDR <= loop <= BLOCKSIZE
      invariant FindSlotFrom(d, block, name, loop - ROOT_FIRST_ADDR) == FindSlotFrom(d, block, name, 0)
    {
      ghost var k := loop - ROOT_FIRST_ADDR;
      var addr := block[loop] as nat;
      assert addr == Slot(block, k);
      if addr != 0 {
        var inode := ReadOr(d, addr, ZERO_BLOCK);
        if NameMatches(name, inode) {
          assert FindSlotFrom(d, block, name, k) == Some(k);
          return Ok(addr);
        }
      }
      assert FindSlotFrom(d, block, name, k) == FindSlotFrom(d, block, name, k + 1);
      loop := loop + 1;
    }
    assert FindSlotFrom(d, block, name, MAX_NUM_FILES) == None;
    return Err(FileNotFound);
  }

  // ---- tfs_readdir ----

  /** What tfs_readdir lists from slot k on: the name of each used slot's inode, or
      READ_ERROR when one of those inodes cannot be read. */
  function ListFrom(d: Disk, root: Block, k: nat): (r: Result<seq<seq<byte>>>)
    ensures r.Err? ==> r.error == ReadError
    ensures r.Ok? && k <= MAX_NUM_FILES ==> |r.value| <= MAX_NUM_FILES - k
    decreases MAX_NUM_FILES - k
  {
    if k >= MAX_NUM_FILES then Ok([])
    else if Slot(root, k) == 0 then ListFrom(d, root, k + 1)
    else match ReadBlock(d, Slot(root, k))
      case Err(_) => Err(ReadError)
      case Ok(inode) =>
        match ListFrom(d, root, k + 1)
        case Err(e) => Err(e)
        case Ok(rest) => Ok([CPrefix(inode[NAME_INDEX..NAME_INDEX + MAX_NAME_SIZE])] + rest)
  }

  /** The listing of tfs_readdir: READ_ERROR when the root cannot be read. */
  function Listing(d: Disk): Result<seq<seq<byte>>> {
    match ReadBlock(d, ROOT_ADDR)
    case Err(_) => Err(ReadError)
    case Ok(root) => ListFrom(d, root, 0)
  }

  function Prepend(names: seq<seq<byte>>, r: Result<seq<seq<byte>>>): Result<seq<seq<byte>>> {
    match r
    case Ok(rest) => Ok(names + rest)
    case Err(e) => Err(e)
  }

  lemma PrependNames(a: seq<seq<byte>>, b: seq<seq<byte>>, r: Result<seq<seq<byte>>>)
    ensures Prepend([], r) == r
    ensures Prepend(a, Prepend(b, r)) == Prepend(a + b, r)
  {
    match r
    case Ok(rest) =>
      assert [] + rest == rest;
      assert a + (b + rest) == (a + b) + rest;
    case Err(_) =>
  }

  /** tfs_readdir(): the scan over the root directory, returning the names it would
      print in slot order. */
  method ReadDir(d: Disk) returns (r: Result<seq<seq<byte>>>)
    ensures r == Listing(d)
  {
    var rb := ReadBlock(d, ROOT_ADDR);
    if rb.Err? {
      return Err(ReadError);
    }
    var block := rb.value;
    var names: seq<seq<byte>> := [];
    var loop := ROOT_FIRST_ADDR;
    PrependNames([], [], ListFrom(d, block, 0));
    while loop < BLOCKSIZE
      invariant ROOT_FIRST_ADDR <= loop <= BLOCKSIZE
      invariant Prepend(names, ListFrom(d, block, loop - ROOT_FIRST_ADDR)) == ListFrom(d, block, 0)
    {
      var inode := block[loop] as nat;
      if inode != 0 {
        var ib := ReadBlock(d, inode);
        if ib.Err? {
          return Err(ReadError);
        }
        var name := CPrefix(ib.value[NAME_INDEX..NAME_INDEX + MAX_NAME_SIZE]);
        PrependNames(names, [name], ListFrom(d, block, loop + 1 - ROOT_FIRST_ADDR));
        names := names + [name];
      }
      loop := loop + 1;
    }
    assert names + [] == names;
    return Ok(names);
  }
}
