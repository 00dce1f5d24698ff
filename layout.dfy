/** The fixed on-disk layout of TinyFS.h. */
module Layout {

  /** One byte of a block. */
  type byte = bv8

  const BLOCKSIZE: nat := 256
  const DEFAULT_DISK_SIZE: nat := 10240
  const DEFAULT_DISK_NAME: string := "tinyFSDisk"
  const MAX_DISK_SIZE: nat := 65536

  // block types (byte 0 of every block)
  const SUPERBLOCK: byte := 0x01
  const INODE: byte := 0x02
  const FILE_EXTENT: byte := 0x03
  const FREE_BLOCK: byte := 0x04

  const SUPERBLOCK_ADDR: nat := 0
  const ROOT_ADDR: nat := 1
  const NULL_ADDR: nat := 0
  const MAGIC_NUM: byte := 0x45

  // flag values (byte 3 of every block)
  const INVALID: byte := 0xAF
  const VALID: byte := 0x50

  const MAX_NUM_BLOCKS: nat := 256
  const MAX_NUM_FREE_BLOCKS: nat := 254
  const MAX_NUM_FILES: nat := 244
  const DATA_SIZE: nat := 252
  const BITMAP_SIZE: nat := 252
  const MAX_NAME_SIZE: nat := 8
  const DEFAULT_FIRST_BITMAP_BYTE: byte := 0xC0
  const ROOT_FIRST_ADDR: nat := 12
  const BITMAP_FIRST_ADDR: nat := 4
  const BITS_PER_BYTE: nat := 8

  // inode fields
  const NAME_INDEX: nat := 4
  const COUNT_INDEX: nat := 12
  const SIZE_INDEX: nat := 13
  const CREATION_INDEX: nat := 17
  const MOD_INDEX: nat := 25
  const ACCESS_INDEX: nat := 33
  const TIME_SIZE: nat := 8

  /** The byte holding a number below 256 (the C conversion to `unsigned char`),
      built by counting up so that the solver never converts an integer to bits. */
  function ToByte(k: int): byte
    requires 0 <= k < 256
  {
    if k == 0 then 0 else ToByte(k - 1) + 1
  }

  lemma ByteSucc(x: byte)
    requires x as int < 255
    ensures (x + 1) as int == x as int + 1
  {
  }

  /** A number below 256 read back from the byte that holds it. */
  lemma {:induction false} ToByteValue(k: int)
    requires 0 <= k < 256
    ensures ToByte(k) as int == k
  {
    if k > 0 {
      ToByteValue(k - 1);
      ByteSucc(ToByte(k - 1));
    }
  }

  /** Reading a byte as a number and storing the number again gives the same byte. */
  lemma ToByteOfValue(b: byte)
    ensures ToByte(b as int) == b
  {
    ToByteValue(b as int);
  }

  /** The conversion of an int to `unsigned char`: its value modulo 256. */
  function CByte(x: int): (b: byte)
    ensures 0 <= x < 256 ==> b as int == x
  {
    ToByteValue(x % 256);
    ToByte(x % 256)
  }

  type Block = b: seq<byte> | |b| == BLOCKSIZE witness seq(256, _ => 0 as bv8)

  function Zeros(n: nat): (z: seq<byte>)
    ensures |z| == n && forall i :: 0 <= i < n ==> z[i] == 0
  {
    seq(n, _ => 0 as bv8)
  }

  /** The all-zero block, which is what the C code's zero-initialised buffers hold. */
  const ZERO_BLOCK: Block := Zeros(BLOCKSIZE)

  /** The header-derived sizes agree with the block size, and the inode fields
      (name, block count, size, three timestamps) are disjoint and inside a block. */
  lemma LayoutConsistent()
    ensures DATA_SIZE == BLOCKSIZE - 4
    ensures BITMAP_SIZE == BLOCKSIZE - BITMAP_FIRST_ADDR
    ensures MAX_NUM_FILES == BLOCKSIZE - ROOT_FIRST_ADDR
    ensures MAX_NUM_FREE_BLOCKS == MAX_NUM_BLOCKS - 2
    ensures NAME_INDEX + MAX_NAME_SIZE == COUNT_INDEX
    ensures COUNT_INDEX + 1 == SIZE_INDEX
    ensures SIZE_INDEX + 4 == CREATION_INDEX
    ensures CREATION_INDEX + TIME_SIZE == MOD_INDEX
    ensures MOD_INDEX + TIME_SIZE == ACCESS_INDEX
    ensures ACCESS_INDEX + TIME_SIZE <= BLOCKSIZE
    ensures MAX_NUM_BLOCKS <= BITMAP_SIZE * BITS_PER_BYTE
  {
  }
}
