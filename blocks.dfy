/** The block builders of TinyFS.c (makeinode, makedatablock, makefreeblock,
    makesuperblock, initsuperblock), the inode field accessors (getFileSize, the
    byte layout of getTime/updateTime) and the names strncpy leaves in an inode. */
module Blocks {
  import opened Layout
  import opened Endian

  /** A C string's bytes: no NUL inside. */
  predicate IsCString(s: seq<byte>) {
    forall i :: 0 <= i < |s| ==> s[i] != 0
  }

  /** The C string stored at the start of s: everything before the first NUL. */
  function CPrefix(s: seq<byte>): (r: seq<byte>)
    ensures IsCString(r) && r <= s
    ensures |r| < |s| ==> s[|r|] == 0
  {
    if s == [] || s[0] == 0 then [] else [s[0]] + CPrefix(s[1..])
  }

  lemma {:induction false} CPrefixOfCString(s: seq<byte>, pad: seq<byte>)
    requires IsCString(s)
    requires pad == [] || pad[0] == 0
    ensures CPrefix(s + pad) == s
  {
    if s != [] {
      assert (s + pad)[1..] == s[1..] + pad;
      CPrefixOfCString(s[1..], pad);
    }
  }

  function Min(a: nat, b: nat): nat { if a < b then a else b }

  /** The eight name bytes strncpy(field, name, MAX_NAME_SIZE) writes: the name's first
      (at most) eight characters, padded with NULs. */
  function NameField(name: seq<byte>): (f: seq<byte>)
    ensures |f| == MAX_NAME_SIZE
  {
    var p := CPrefix(name);
    var k := Min(|p|, MAX_NAME_SIZE);
    p[..k] + Zeros(MAX_NAME_SIZE - k)
  }

  /** Names the file system accepts: C strings of at most MAX_NAME_SIZE bytes. */
  predicate ValidName(name: seq<byte>) {
    IsCString(name) && |name| <= MAX_NAME_SIZE
  }

  /** A valid name is read back from its field unchanged. */
  lemma NameFieldRoundTrip(name: seq<byte>)
    requires ValidName(name)
    ensures CPrefix(NameField(name)) == name
  {
    CPrefixOfCString(name, []);
    assert name + [] == name;
    var pad := Zeros(MAX_NAME_SIZE - |name|);
    CPrefixOfCString(name, pad);
  }

  /** Two valid names give the same field exactly when they are the same name. */
  lemma NameFieldInjective(m: seq<byte>, n: seq<byte>)
    requires ValidName(m) && ValidName(n)
    ensures NameField(m) == NameField(n) <==> m == n
  {
    NameFieldRoundTrip(m);
    NameFieldRoundTrip(n);
  }

  // ---- header bytes 0..3: type, magic number, link, flag ----

  function Kind(b: Block): byte { b[0] }
  function Link(b: Block): nat { b[2] as int }
  function Flag(b: Block): byte { b[3] }
  /** Bytes 4..255: the data of an extent, the bitmap of the superblock. */
  function Payload(b: Block): (p: seq<byte>)
    ensures |p| == DATA_SIZE
  {
    b[4..]
  }

  /** The flag that goes with a link: VALID iff the link is not NULL_ADDR. */
  function FlagFor(link: byte): byte {
    if link == 0 then INVALID else VALID
  }

  function Header(kind: byte, link: byte, flag: byte): seq<byte> {
    [kind, MAGIC_NUM, link, flag]
  }

  /** makeinode(fileaddr, filename, block, size, usedblocks). */
  function MakeInode(fileaddr: byte, filename: seq<byte>, size: int, usedblocks: byte): (b: Block)
    ensures Kind(b) == INODE && b[1] == MAGIC_NUM && Link(b) == fileaddr as int
    ensures Flag(b) == VALID <==> fileaddr != 0
    ensures Flag(b) == INVALID <==> fileaddr == 0
    ensures b[4..12] == NameField(filename)
    ensures b[COUNT_INDEX] == usedblocks
    ensures b[13..17] == EncodeInt32(size)
    ensures forall i :: 17 <= i < BLOCKSIZE ==> b[i] == 0
  {
    Header(INODE, fileaddr, FlagFor(fileaddr)) + NameField(filename) + [usedblocks]
      + EncodeInt32(size) + Zeros(BLOCKSIZE - 17)
  }

  /** makedatablock(nextblockaddr, data, block): one extent of a file's chain. */
  function MakeDataBlock(nextblockaddr: byte, data: seq<byte>): (b: Block)
    requires |data| == DATA_SIZE
    ensures Kind(b) == FILE_EXTENT && b[1] == MAGIC_NUM && Link(b) == nextblockaddr as int
    ensures Flag(b) == VALID <==> nextblockaddr != 0
    ensures Flag(b) == INVALID <==> nextblockaddr == 0
    ensures Payload(b) == data
  {
    Header(FILE_EXTENT, nextblockaddr, FlagFor(nextblockaddr)) + data
  }

  /** makefreeblock(block): all zero except the type, the magic number and INVALID. */
  function MakeFreeBlock(): (b: Block)
    ensures Kind(b) == FREE_BLOCK && b[1] == MAGIC_NUM && Flag(b) == INVALID
    ensures forall i :: 0 <= i < BLOCKSIZE && i != 0 && i != 1 && i != 3 ==> b[i] == 0
  {
    Header(FREE_BLOCK, 0, INVALID) + Zeros(DATA_SIZE)
  }

  const FREE: Block := MakeFreeBlock()

  /** makesuperblock(bitmap, block). */
  function MakeSuperblock(bitmap: seq<byte>): (b: Block)
    requires |bitmap| == BITMAP_SIZE
    ensures Kind(b) == SUPERBLOCK && b[1] == MAGIC_NUM && Link(b) == ROOT_ADDR && Flag(b) == VALID
    ensures Payload(b) == bitmap
  {
    Header(SUPERBLOCK, 1, VALID) + bitmap
  }

  /** The bitmap of a fresh file system: DEFAULT_FIRST_BITMAP_BYTE, then zeros. */
  const DEFAULT_BITMAP: seq<byte> := [DEFAULT_FIRST_BITMAP_BYTE] + Zeros(BITMAP_SIZE - 1)

  /** initsuperblock(block). */
  function InitSuperblock(): (b: Block)
    ensures Kind(b) == SUPERBLOCK && Payload(b) == DEFAULT_BITMAP
  {
    MakeSuperblock(DEFAULT_BITMAP)
  }

  // ---- inode fields ----

  /** Byte 12: the number of extents in the file's chain. */
  function BlockCount(b: Block): nat { b[COUNT_INDEX] as int }

  /** getFileSize(buffer): bytes 13..16 as a big-endian C int. */
  function GetFileSize(b: Block): (size: int)
    ensures -0x8000_0000 <= size < 0x8000_0000
  {
    DecodeInt32(b[13..17])
  }

  /** Every size makeinode records is the size getFileSize reads back. */
  lemma FileSizeOfMakeInode(fileaddr: byte, filename: seq<byte>, size: int, usedblocks: byte)
    requires -0x8000_0000 <= size < 0x8000_0000
    ensures GetFileSize(MakeInode(fileaddr, filename, size, usedblocks)) == size
  {
    Int32RoundTrip(size);
  }

  /** The inode with its block count and size fields rewritten (what tfs_writeFile
      stores in inode[12] and inode[13..16]). */
  function WithSize(b: Block, count: byte, size: int): (r: Block)
    requires -0x8000_0000 <= size < 0x8000_0000
    ensures r[..COUNT_INDEX] == b[..COUNT_INDEX] && r[17..] == b[17..]
    ensures BlockCount(r) == count as int
    ensures GetFileSize(r) == size
  {
    var r := b[..COUNT_INDEX] + [count] + EncodeInt32(size) + b[17..];
    assert r[13..17] == EncodeInt32(size);
    Int32RoundTrip(size);
    r
  }

  /** The inode with its name field rewritten, as tfs_rename's strncpy leaves it. */
  function WithName(b: Block, name: seq<byte>): (r: Block)
    ensures r[..4] == b[..4] && r[4..12] == NameField(name) && r[12..] == b[12..]
  {
    b[..4] + NameField(name) + b[12..]
  }

  datatype Timestamp = Created | Modified | Accessed

  /** CREATION_INDEX, MOD_INDEX, ACCESS_INDEX. */
  function TimeIndex(ts: Timestamp): (i: nat)
    ensures CREATION_INDEX <= i && i + TIME_SIZE <= ACCESS_INDEX + TIME_SIZE
  {
    match ts
    case Created => CREATION_INDEX
    case Modified => MOD_INDEX
    case Accessed => ACCESS_INDEX
  }

  /** getTime(inodenum, ts): the 8-byte big-endian time_t at the timestamp's index. */
  function GetTime(b: Block, ts: Timestamp): int {
    var i := TimeIndex(ts);
    DecodeInt64(b[i..i + TIME_SIZE])
  }

  /** The block updateTime(inodenum, ts) writes back, with `now` standing for time(NULL). */
  function PutTime(b: Block, ts: Timestamp, now: int): (r: Block)
    ensures forall j :: 0 <= j < BLOCKSIZE && !(TimeIndex(ts) <= j < TimeIndex(ts) + TIME_SIZE) ==> r[j] == b[j]
  {
    var i := TimeIndex(ts);
    b[..i] + EncodeInt64(now) + b[i + TIME_SIZE..]
  }

  /** updateTime keeps a block's header and its block count. */
  lemma PutTimeHeader(b: Block, ts: Timestamp, now: int)
    ensures Link(PutTime(b, ts, now)) == Link(b) && BlockCount(PutTime(b, ts, now)) == BlockCount(b)
  {
    assert TimeIndex(ts) > COUNT_INDEX;
  }

  /** A timestamp written by updateTime is read back by getTime, and the other two
      timestamps are left as they were. */
  lemma TimeRoundTrip(b: Block, ts: Timestamp, now: int, other: Timestamp)
    requires -0x8000_0000_0000_0000 <= now < 0x8000_0000_0000_0000
    ensures GetTime(PutTime(b, ts, now), ts) == now
    ensures other != ts ==> GetTime(PutTime(b, ts, now), other) == GetTime(b, other)
  {
    PutTimeSlices(b, ts, now, other);
    Int64RoundTrip(now);
  }

  /** The eight bytes updateTime writes hold the encoded time; another timestamp's eight
      bytes are unchanged. */
  lemma PutTimeSlices(b: Block, ts: Timestamp, now: int, other: Timestamp)
    ensures PutTime(b, ts, now)[TimeIndex(ts)..TimeIndex(ts) + TIME_SIZE] == EncodeInt64(now)
    ensures other != ts ==>
              PutTime(b, ts, now)[TimeIndex(other)..TimeIndex(other) + TIME_SIZE]
              == b[TimeIndex(other)..TimeIndex(other) + TIME_SIZE]
  {
    var i := TimeIndex(ts);
    var r := PutTime(b, ts, now);
    assert r[i..i + TIME_SIZE] == EncodeInt64(now);
    if other != ts {
      var k := TimeIndex(other);
      assert r[k..k + TIME_SIZE] == b[k..k + TIME_SIZE];
    }
  }
}
