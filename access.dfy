/** The open-file table of TinyFS.c and the two operations that move through a file's
    bytes with it: tfs_seek, which places an entry's cursor, and tfs_readByte, which
    reads the byte under it. Each comes as written and corrected. */
module Access {
  import opened Layout
  import opened Errors
  import opened Blocks
  import opened Disks
  import opened Directory
  import opened Files
  import opened Inodes

  /** One entry of the file table (struct tfile): the address of the file's first
      extent, the byte position, VALID or INVALID, the eight name bytes (the ninth is
      always NUL) and the extent the position lies in. */
  datatype Entry = Entry(blocknum: byte, pos: int, valid: byte, name: seq<byte>, current: byte)

  /** The entry initFD and tfs_deleteFile leave: everything zero and the entry INVALID. */
  const CLOSED: Entry := Entry(0, 0, INVALID, Zeros(MAX_NAME_SIZE), 0)

  /** The int getInodeBlock returns: the inode address, or the error code. */
  function InodeCode(d: Disk, name: seq<byte>): (c: int)
    ensures InodeOf(d, name).Ok? ==> c == InodeOf(d, name).value
    ensures InodeOf(d, name).Err? ==> c == Code(FileNotFound)
  {
    match InodeOf(d, name)
    case Ok(v) => v
    case Err(x) => Code(x)
  }

  // ---- tfs_seek ----

  /** The block reached from cur after n passes of tfs_seek's loop, each reading the
      block at cur and taking its byte `at` as the next address; READ_ERROR when a read
      fails. */
  function Hops(d: Disk, cur: byte, n: nat, at: nat): (r: Result<byte>)
    requires at < BLOCKSIZE
    ensures r.Err? ==> r.error == ReadError
    decreases n
  {
    if n == 0 then Ok(cur)
    else match ReadBlock(d, cur as int)
      case Err(_) => Err(ReadError)
      case Ok(b) => Hops(d, b[at], n - 1, at)
  }

  /** How often tfs_seek's loop subtracts DATA_SIZE from the offset. */
  function Passes(offset: int): (n: nat)
    ensures offset >= 0 ==> n * DATA_SIZE <= offset < (n + 1) * DATA_SIZE
    ensures offset < DATA_SIZE ==> n == 0
  {
    if offset < DATA_SIZE then 0 else offset / DATA_SIZE
  }

  /** The size tfs_seek reads from the inode of the entry's name. A name no inode carries
      leaves its buffer unread; the model reads that buffer as zeros. */
  function SizeOf(d: Disk, name: seq<byte>): int {
    match InodeOf(d, name)
    case Ok(v) => GetFileSize(ReadOr(d, v, ZERO_BLOCK))
    case Err(_) => 0
  }

  /** tfs_seek with the next extent taken from byte `at` of each block passed. */
  function SeekVia(d: Disk, e: Entry, offset: int, at: nat): (r: Result<Entry>)
    requires at < BLOCKSIZE
  {
    if e.valid == INVALID || offset >= SizeOf(d, e.name) then Err(SeekError)
    else match Hops(d, e.blocknum, Passes(offset), at)
      case Err(x) => Err(x)
      case Ok(c) => Ok(e.(pos := offset, current := c))
  }

  /** tfs_seek as written: the loop follows byte 3 of each extent, which is its flag,
      and a negative offset passes the check. */
  function SeekAsWritten(d: Disk, e: Entry, offset: int): Result<Entry> {
    SeekVia(d, e, offset, 3)
  }

  /** tfs_seek corrected: the loop follows byte 2, the link, and a negative offset is a
      SEEK_ERROR. Only an entry's position and cursor change. */
  function Seek(d: Disk, e: Entry, offset: int): (r: Result<Entry>)
    ensures offset < 0 ==> r == Err(SeekError)
    ensures r.Ok? ==> r.value == e.(pos := offset, current := r.value.current)
  {
    if offset < 0 then Err(SeekError) else SeekVia(d, e, offset, 2)
  }

  // ---- tfs_readByte ----

  /** The index into the block tfs_readByte reads: pos % DATA_SIZE + 4, with C's `%`. */
  function ReadIndex(pos: int): (i: int)
    ensures i < BLOCKSIZE
    ensures pos >= 0 ==> i == pos % DATA_SIZE + 4
  {
    CRem(pos, DATA_SIZE) + 4
  }

  /** tfs_readByte as written, up to its updateTime: the byte of the current block at
      the position. The position does not advance and is not compared with the file
      size. An index below the block would read outside the buffer. */
  function ReadByteAsWritten(d: Disk, e: Entry): (r: Result<byte>)
    requires 0 <= ReadIndex(e.pos)
    ensures r.Err? <==> ReadBlock(d, e.current as int).Err?
    ensures r.Err? ==> r.error == ReadError
  {
    match ReadBlock(d, e.current as int)
    case Err(_) => Err(ReadError)
    case Ok(b) => Ok(b[ReadIndex(e.pos)])
  }

  /** updateTime(getInodeBlock(name), ts), as tfs_readByte ends and tfs_openFile and
      tfs_writeFile stamp: the time stamped on the block getInodeBlock names, its
      result taken as an unsigned char (so the code FILE_NOT_FOUND becomes block 250). */
  function Touch(d: Disk, name: seq<byte>, ts: Timestamp, now: int): Disk {
    UpdateTime(d, CByte(InodeCode(d, name)), ts, now)
  }

  /** What a read hands back: the byte and the entry moved past it. */
  datatype Read = Read(value: byte, entry: Entry)

  /** tfs_readByte corrected, up to its updateTime: a position outside the file is
      READ_ERROR; otherwise the byte at the position, the position one further and the
      cursor moved on to the next extent when the byte was the last of its extent. A name
      no inode carries is FILE_NOT_FOUND. */
  function ReadByte(d: Disk, e: Entry): (r: Result<Read>)
    ensures InodeOf(d, e.name).Err? ==> r == Err(FileNotFound)
    ensures r.Ok? ==> r.value.entry == e.(pos := e.pos + 1, current := r.value.entry.current)
  {
    match InodeOf(d, e.name)
    case Err(x) => Err(x)
    case Ok(v) =>
      if e.pos < 0 || e.pos >= GetFileSize(ReadOr(d, v, ZERO_BLOCK)) then Err(ReadError)
      else match ReadBlock(d, e.current as int)
        case Err(_) => Err(ReadError)
        case Ok(b) =>
          var next := if (e.pos + 1) % DATA_SIZE == 0 then b[2] else e.current;
          Ok(Read(b[e.pos % DATA_SIZE + 4], e.(pos := e.pos + 1, current := next)))
  }

  // ---- where an entry's cursor should be ----

  /** The entry heads the file at v: its blocknum is the file's first extent. */
  predicate Anchored(B: seq<Block>, v: nat, e: Entry) {
    FileOk(B, v) && e.blocknum as int == Extents(B, v)[0]
  }

  /** The entry's cursor agrees with its position in the file at v: the position is not
      negative, and a position inside the extents lies in the extent `current` names. */
  predicate Positioned(B: seq<Block>, v: nat, e: Entry) {
    FileOk(B, v) && 0 <= e.pos
    && (e.pos / DATA_SIZE < |Extents(B, v)| ==> e.current as int == Extents(B, v)[e.pos / DATA_SIZE])
  }

  /** The file getInodeBlock finds on a consistent volume is live and sits in the slot
      getInodeBlock stopped at. */
  lemma Found(d: Disk, name: seq<byte>, v: nat)
    requires Consistent(d) && InodeOf(d, name) == Ok(v)
    ensures FindSlot(d, name).Some? && Slot(d.blocks[ROOT_ADDR], FindSlot(d, name).value) == v
    ensures Live(d.blocks, v)
  {
    Reads(d);
    assert Live(d.blocks, v);
  }

  /** Every file the directory points at on a consistent volume is live. */
  lemma SlotLive(d: Disk, s: nat)
    requires Consistent(d) && s < MAX_NUM_FILES && Slot(d.blocks[ROOT_ADDR], s) != 0
    ensures Live(d.blocks, Slot(d.blocks[ROOT_ADDR], s))
  {
  }

  /** The size read from the inode of a well-formed file on an open disk is the length
      of its contents, and fits in its extents. */
  lemma Sized(d: Disk, name: seq<byte>, v: nat)
    requires d.open && FileOk(d.blocks, v) && InodeOf(d, name) == Ok(v)
    ensures SizeOf(d, name) == GetFileSize(ReadOr(d, v, ZERO_BLOCK)) == |Contents(d.blocks, v)|
    ensures |Contents(d.blocks, v)| <= DATA_SIZE * |Extents(d.blocks, v)|
  {
    ExtentsForBounds(GetFileSize(d.blocks[v]));
  }

  /** Following links from extent k of a file for n steps reaches extent k + n. */
  lemma {:induction false} HopsWalk(d: Disk, v: nat, b: byte, k: nat, n: nat)
    requires d.open && FileOk(d.blocks, v) && k + n < |Extents(d.blocks, v)|
    requires b as int == Extents(d.blocks, v)[k]
    ensures Hops(d, b, n, 2).Ok? && Hops(d, b, n, 2).value as int == Extents(d.blocks, v)[k + n]
    decreases n
  {
    if n > 0 {
      var B := d.blocks;
      ChainLinks(B, Link(B[v]), BlockCount(B[v]));
      assert Extents(B, v)[k + 1] == Link(B[Extents(B, v)[k]]);
      HopsWalk(d, v, B[b][2], k + 1, n - 1);
    }
  }

  /** The corrected seek on an entry heading a file succeeds exactly when the entry is
      open and the offset is inside the file, and then puts the cursor on the extent
      holding the byte at the offset. */
  lemma SeekPositions(d: Disk, e: Entry, v: nat, offset: int)
    requires d.open && InodeOf(d, e.name) == Ok(v) && Anchored(d.blocks, v, e)
    ensures Seek(d, e, offset).Ok? <==> e.valid != INVALID && 0 <= offset < |Contents(d.blocks, v)|
    ensures Seek(d, e, offset).Err? ==> Seek(d, e, offset).error == SeekError
    ensures Seek(d, e, offset).Ok? ==>
              Seek(d, e, offset).value.pos == offset && Positioned(d.blocks, v, Seek(d, e, offset).value)
  {
    Sized(d, e.name, v);
    SeekCases(d, e, v, offset, |Contents(d.blocks, v)|);
  }

  lemma SeekCases(d: Disk, e: Entry, v: nat, offset: int, size: int)
    requires d.open && Anchored(d.blocks, v, e)
    requires SizeOf(d, e.name) == size <= DATA_SIZE * |Extents(d.blocks, v)|
    ensures Seek(d, e, offset).Ok? <==> e.valid != INVALID && 0 <= offset < size
    ensures Seek(d, e, offset).Err? ==> Seek(d, e, offset).error == SeekError
    ensures Seek(d, e, offset).Ok? ==>
              Seek(d, e, offset).value.pos == offset && Positioned(d.blocks, v, Seek(d, e, offset).value)
  {
    if e.valid != INVALID && 0 <= offset < size {
      var n := Passes(offset);
      assert n == offset / DATA_SIZE;
      HopsWalk(d, v, e.blocknum, 0, n);
      var c := Hops(d, e.blocknum, n, 2).value;
      assert Seek(d, e, offset) == Ok(e.(pos := offset, current := c));
      Lands(d.blocks, v, e, offset, c);
    } else {
      assert Seek(d, e, offset) == Err(SeekError);
    }
  }

  lemma Lands(B: seq<Block>, v: nat, e: Entry, offset: int, c: byte)
    requires FileOk(B, v) && 0 <= offset && offset / DATA_SIZE < |Extents(B, v)|
    requires c as int == Extents(B, v)[offset / DATA_SIZE]
    ensures Positioned(B, v, e.(pos := offset, current := c))
  {
  }

  /** The byte a positioned entry's cursor block holds at the position is the file's
      byte there. */
  lemma ByteAt(B: seq<Block>, v: nat, e: Entry)
    requires Positioned(B, v, e) && e.pos < GetFileSize(B[v])
    ensures e.pos / DATA_SIZE < |Extents(B, v)| && e.current as int < |B|
    ensures B[e.current as int][e.pos % DATA_SIZE + 4] == Contents(B, v)[e.pos]
  {
    var c := Extents(B, v);
    ExtentsForBounds(GetFileSize(B[v]));
    DataAt(B, c, e.pos);
  }

  /** The cursor after a read: one position on it names the same extent, or the next one
      when the byte read was the last of its extent. */
  lemma CursorMoves(B: seq<Block>, v: nat, p: nat, cur: byte, e': Entry)
    requires FileOk(B, v) && p / DATA_SIZE < |Extents(B, v)| && cur as int == Extents(B, v)[p / DATA_SIZE]
    requires e'.pos == p + 1 && e'.current == if (p + 1) % DATA_SIZE == 0 then B[cur as int][2] else cur
    ensures Positioned(B, v, e')
  {
    if (p + 1) % DATA_SIZE == 0 {
      assert (p + 1) / DATA_SIZE == p / DATA_SIZE + 1;
      ChainLinks(B, Link(B[v]), BlockCount(B[v]));
    } else {
      assert (p + 1) / DATA_SIZE == p / DATA_SIZE;
    }
  }

  /** A stamp on the inode a name resolves to keeps a consistent volume consistent,
      every file as it was, and every name resolving to the inode it resolved to. */
  lemma TouchKeeps(d: Disk, name: seq<byte>, ts: Timestamp, now: int)
    requires Consistent(d) && InodeOf(d, name).Ok?
    ensures Consistent(Touch(d, name, ts, now)) && SameFiles(d, Touch(d, name, ts, now))
    ensures forall n :: InodeOf(Touch(d, name, ts, now), n) == InodeOf(d, n)
  {
    var v := InodeOf(d, name).value;
    Found(d, name, v);
    var s := FindSlot(d, name).value;
    var c := CByte(InodeCode(d, name));
    UpdateTimeKeeps(d, s, c, ts, now);
    var d' := Touch(d, name, ts, now);
    forall n
      ensures InodeOf(d', n) == InodeOf(d, n)
    {
      InodeOfKept(d, d', n);
    }
  }

  /** A positioned entry stays positioned on a volume where its file has the same
      extents. */
  lemma PositionedKept(B: seq<Block>, B': seq<Block>, v: nat, e: Entry)
    requires Positioned(B, v, e) && FileOk(B', v) && Extents(B', v) == Extents(B, v)
    ensures Positioned(B', v, e)
  {
  }

  /** What a read at a position inside the file hands back: the file's byte there and
      the entry positioned one byte on. */
  predicate ReadsOn(B: seq<Block>, v: nat, e: Entry, r: Read)
    requires FileOk(B, v) && 0 <= e.pos < |Contents(B, v)|
  {
    r.value == Contents(B, v)[e.pos] && r.entry.pos == e.pos + 1 && Positioned(B, v, r.entry)
  }

  /** The read's result when the position is inside the file. */
  lemma ReadByteIs(d: Disk, e: Entry, v: nat)
    requires d.open && InodeOf(d, e.name) == Ok(v) && v < |d.blocks| && e.current as int < |d.blocks|
    requires 0 <= e.pos < GetFileSize(d.blocks[v])
    ensures var b := d.blocks[e.current as int];
            ReadByte(d, e) == Ok(Read(b[e.pos % DATA_SIZE + 4],
                                      e.(pos := e.pos + 1, current := if (e.pos + 1) % DATA_SIZE == 0 then b[2] else e.current)))
  {
  }

  /** The byte and the moved entry, described block by block, are what ReadsOn says. */
  lemma NextRead(B: seq<Block>, v: nat, e: Entry, r: Read)
    requires Positioned(B, v, e) && e.pos < |Contents(B, v)| && e.current as int < |B|
    requires r.value == B[e.current as int][e.pos % DATA_SIZE + 4]
    requires r.entry.pos == e.pos + 1
    requires r.entry.current == if (e.pos + 1) % DATA_SIZE == 0 then B[e.current as int][2] else e.current
    ensures ReadsOn(B, v, e, r)
  {
    ByteAt(B, v, e);
    CursorMoves(B, v, e.pos, e.current, r.entry);
  }

  /** The corrected read on a positioned entry succeeds exactly for a position inside the
      file, and then hands back what ReadsOn says. */
  lemma ReadByteReads(d: Disk, e: Entry, v: nat)
    requires d.open && InodeOf(d, e.name) == Ok(v) && Positioned(d.blocks, v, e)
    ensures ReadByte(d, e).Ok? <==> e.pos < |Contents(d.blocks, v)|
    ensures ReadByte(d, e).Err? ==> ReadByte(d, e).error == ReadError
    ensures ReadByte(d, e).Ok? ==> ReadsOn(d.blocks, v, e, ReadByte(d, e).value)
  {
    var B := d.blocks;
    Sized(d, e.name, v);
    if e.pos < |Contents(B, v)| {
      ByteAt(B, v, e);
      ReadByteIs(d, e, v);
      NextRead(B, v, e, ReadByte(d, e).value);
    }
  }

  /** A corrected seek to an offset followed by a corrected read returns the file's byte
      at that offset. */
  lemma SeekThenRead(d: Disk, e: Entry, v: nat, offset: int)
    requires d.open && InodeOf(d, e.name) == Ok(v) && Anchored(d.blocks, v, e)
    requires e.valid != INVALID && 0 <= offset < |Contents(d.blocks, v)|
    ensures Seek(d, e, offset).Ok? && ReadByte(d, Seek(d, e, offset).value).Ok?
    ensures ReadByte(d, Seek(d, e, offset).value).value.value == Contents(d.blocks, v)[offset]
  {
    SeekPositions(d, e, v, offset);
    ReadByteReads(d, Seek(d, e, offset).value, v);
  }

  // ---- the seek and read as written ----

  /** As written, a seek into the second extent of a file leaves the cursor at the
      address VALID (0x50), the first extent's flag, which is the second extent only if
      that lives at 0x50. */
  lemma SeekAsWrittenStrays(d: Disk, e: Entry, v: nat, offset: int)
    requires d.open && InodeOf(d, e.name) == Ok(v) && Anchored(d.blocks, v, e)
    requires e.valid != INVALID && DATA_SIZE <= offset < 2 * DATA_SIZE && offset < |Contents(d.blocks, v)|
    ensures |Extents(d.blocks, v)| >= 2
    ensures SeekAsWritten(d, e, offset) == Ok(e.(pos := offset, current := VALID))
    ensures Positioned(d.blocks, v, SeekAsWritten(d, e, offset).value) <==> Extents(d.blocks, v)[1] == VALID as int
  {
    var B := d.blocks;
    Sized(d, e.name, v);
    var c := Extents(B, v);
    ChainLinks(B, Link(B[v]), BlockCount(B[v]));
    assert Link(B[c[0]]) == c[1];
    assert ExtentOk(B[c[0]]);
  }

  /** As written, a seek to an offset from -4 to -1 is accepted, and the read after it
      returns a header byte of the first extent, not a byte of the file; the corrected
      seek refuses the offset. */
  lemma NegativeSeekAsWritten(d: Disk, e: Entry, v: nat, offset: int)
    requires d.open && InodeOf(d, e.name) == Ok(v) && Anchored(d.blocks, v, e)
    requires e.valid != INVALID && -4 <= offset < 0
    ensures SeekAsWritten(d, e, offset) == Ok(e.(pos := offset, current := e.blocknum))
    ensures !Positioned(d.blocks, v, e.(pos := offset, current := e.blocknum))
    ensures ReadIndex(offset) == offset + 4
    ensures ReadByteAsWritten(d, e.(pos := offset, current := e.blocknum))
            == Ok(d.blocks[Extents(d.blocks, v)[0]][offset + 4])
    ensures Seek(d, e, offset) == Err(SeekError)
  {
    Sized(d, e.name, v);
    assert CRem(offset, DATA_SIZE) == offset;
  }

  /** As written, a read at the end of the file (an empty file read at 0, say) still
      returns a byte, where the corrected read reports READ_ERROR. */
  lemma ReadPastEndAsWritten(d: Disk, e: Entry, v: nat)
    requires d.open && InodeOf(d, e.name) == Ok(v) && Positioned(d.blocks, v, e)
    requires e.pos == |Contents(d.blocks, v)| && e.pos / DATA_SIZE < |Extents(d.blocks, v)|
    ensures ReadByteAsWritten(d, e).Ok?
    ensures ReadByte(d, e) == Err(ReadError)
  {
    Sized(d, e.name, v);
  }

  /** As written, two reads in a row return the same byte: the first does not move the
      position, and its access stamp rewrites only the inode. */
  lemma ReadTwiceAsWritten(d: Disk, e: Entry, v: nat, now: int)
    requires d.open && InodeOf(d, e.name) == Ok(v) && Positioned(d.blocks, v, e)
    requires e.pos < |Contents(d.blocks, v)|
    ensures ReadByteAsWritten(d, e) == Ok(Contents(d.blocks, v)[e.pos])
    ensures ReadByteAsWritten(Touch(d, e.name, Accessed, now), e) == Ok(Contents(d.blocks, v)[e.pos])
  {
    var B := d.blocks;
    Sized(d, e.name, v);
    ByteAt(B, v, e);
    var c := CByte(InodeCode(d, e.name));
    assert c as int == v;
    assert e.current as int != v;
    StampIs(d, v, c, Accessed, now);
  }

  /** As written, the stamp after reading through an entry whose name no inode carries
      lands on block 250: a disk of fewer blocks grows to 251, the new block holding
      only the time. */
  lemma TouchMissingAsWritten(d: Disk, name: seq<byte>, ts: Timestamp, now: int)
    requires d.open && InodeOf(d, name).Err? && |d.blocks| < 250
    ensures CByte(InodeCode(d, name)) as int == 250
    ensures |Touch(d, name, ts, now).blocks| == 251
    ensures Touch(d, name, ts, now).blocks[250] == PutTime(ZERO_BLOCK, ts, now)
  {
    var c := CByte(InodeCode(d, name));
    assert c == ToByte(250);
    ToByteValue(250);
    var blk := PutTime(ReadOr(d, 250, ZERO_BLOCK), ts, now);
    assert WriteBlock(d, 250, blk) == Ok(d.(blocks := Store(d.blocks, 250, blk)));
  }
}
