# TinyFS in Dafny

TinyFS is a small file system that lives on an emulated disk: a host file cut into
256-byte blocks, at most 256 of them. This project models its core and proves
properties of that model:
- the block formats;
- the bitmap allocator;
- the root directory;
- the integrity checker;
- the `tfs_*` operations over the open-file table.

The layout the model follows:

- **Block 0, the superblock.** It has a 4-byte header and then a 252-byte bitmap (one
  bit per address, most significant bit first). A set bit means the block is in use.
- **Block 1, the root inode "root".** Bytes 12..255 are 244 directory slots. Each slot
  holds the address of a file's inode, or 0 for an unused slot.
- **Block header.** Every block starts with four bytes: its type (superblock, inode,
  file extent, free block), the magic number 0x45, a link to the next block, and a
  flag (VALID 0x50 when the link leads on, INVALID 0xAF otherwise).
- **A file.** It is an inode followed by a chain of file extents of 252 data bytes
  each. The inode holds:
  - the name, up to 8 bytes, at 4..11;
  - the number of extents at byte 12;
  - the size as a big-endian C `int` at 13..16;
  - three big-endian `time_t` stamps (creation, modification, access) at 17, 25 and 33.
- **The open-file table.** It has 244 entries. Each records a name, the first extent,
  a byte position, the extent that position lies in, and a VALID/INVALID mark.

The modules follow that structure:
- `Errors`: the library's error codes.
- `Layout`: header constants and `unsigned char`.
- `Bits`: the GETBIT/SETBIT/CLRBIT macros.
- `Endian`: the byte swaps and the big-endian field encodings.
- `Blocks`: the block builders and the inode fields.
- `Disks`: the emulated disk library as TinyFS uses it.
- `Bitmap`: setBitmap, getBitmap, updateBitmap, nextFreeBlock.
- `Directory`: root slots, name lookup, the listing.
- `Checker`: checkfs and its parts, and checkbitmap.
- `Files`: the volume invariant `Consistent`, files as chains, their contents, and
  frame lemmas.
- `Inodes`: updateTime and rename on the inode.
- `Create`, `Delete`, `Write` and `Rewrite`: createFile, tfs_deleteFile and tfs_writeFile
  on a volume.
- `WriteAsWritten`: tfs_writeFile's loop as written, with the corrected nextFreeBlock as its
  allocator, and what it breaks.
- `Access`: tfs_seek and tfs_readByte.
- `Format`: tfs_mkfs.
- `TinyFs`: the program state as the class `FileSystem`, with fields:
  - the registered stores;
  - the mounted store number;
  - the open-file table as an `array`.

The model's central invariant is `Files.Consistent`. A volume is consistent when:
- its superblock and root pass the checker;
- every block agrees with its bitmap bit (a free block exactly when the bit is clear);
- every used slot points at a well-formed file, all of whose blocks are marked used;
- files in different slots share no block;
- every used block from address 2 on belongs to some file (`Conserved`: no block is leaked).

Each operation is proved to keep this invariant and to do what it is for:
- a write leaves the file holding exactly the buffer;
- a delete frees every block the file held;
- a rename changes only the name;
- every stamp and every other file stays as it was.

The source has several defects. For each, the model carries two members:
- one that follows the code as written, with a lemma naming an input that goes wrong;
- a corrected member that the class methods use.

Both are listed under "## Findings". Where a header comment promises more than the
code does (tfs_readByte's end-of-file check, TinyFS.h lines 107-109), the model follows
the code in its as-written member and the header's promise in the corrected one.

Modelling choices:
- The clock `time(NULL)` is the parameter `now`.
- The host is taken to be little-endian (`isLEndian` is true), as the byte-swap code
  expects.
- A block a caller reads into an uninitialised buffer, when that read fails, is
  modelled as zeros.

## Model

| member | source | states |
|---|---|---|
| Errors.Code | tinyFS/TinyFS_errno.h:4-12 | each error is reported as its own negative code, OPEN_FAILURE -1 through SEEK_ERROR -9 |
| Errors.CodeInjective | tinyFS/TinyFS_errno.h:4-12 | no two errors share a code |
| Layout.LayoutConsistent | tinyFS/TinyFS.h:28-41 | the header constants fit together: header plus bitmap or data fill a block, the 244 root slots fill the root from byte 12, the inode fields do not overlap, and the bitmap has a bit for every one of the 256 addresses |
| Layout.ToByteValue | tinyFS/TinyFS.h:61 | a number below 256 stored in an `unsigned char` reads back as that number |
| Layout.ToByteOfValue | tinyFS/TinyFS.h:61 | every `unsigned char` is the conversion of its own value |
| Layout.CByte | tinyFS/TinyFS.c:412 | conversion to `unsigned char` keeps every value below 256 (the others wrap modulo 256) |
| Bits.GetBit | tinyFS/libTinyFS.h:8-9 | GETBIT yields 0 or 1 |
| Bits.SetBit | tinyFS/libTinyFS.h:11-12 | SETBIT turns the bit on and leaves every other bit as it was |
| Bits.ClrBit | tinyFS/libTinyFS.h:14-15 | CLRBIT turns the bit off and leaves every other bit as it was |
| Bits.MasksAreShifts | tinyFS/libTinyFS.h:11-15 | the masks used are `1 << bit` and its complement |
| Bits.GetBitIsMacro | tinyFS/libTinyFS.h:8-9 | GetBit is `(value >> bit) & 1` |
| Bits.SetBitIsMacro | tinyFS/libTinyFS.h:11-12 | SetBit is `value \| (1 << bit)` |
| Bits.ClrBitIsMacro | tinyFS/libTinyFS.h:14-15 | ClrBit is `value & ~(1 << bit)` |
| Bits.BitsDetermineByte | tinyFS/libTinyFS.h:8-9 | two bytes whose eight GETBITs agree are the same byte |
| Bits.SetClrIdempotent | tinyFS/libTinyFS.h:11-15 | setting or clearing twice is doing it once, and the later of a set and a clear wins |
| Bits.SetClrNoop | tinyFS/libTinyFS.h:11-15 | setting a bit that is on, or clearing one that is off, changes nothing |
| Endian.HostBytes32 | tinyFS/TinyFS.c:23 | memcpy of a 32-bit word on a little-endian host yields its bytes least significant first |
| Endian.HostBytes64 | tinyFS/TinyFS.c:195 | the same for a 64-bit `time_t` |
| Endian.SwapEndianIntInvolution | tinyFS/TinyFS.h:43-47 | SWAP_ENDIAN_INT applied twice gives back the word |
| Endian.SwapEndianLongInvolution | tinyFS/TinyFS.h:49-57 | SWAP_ENDIAN_LONG applied twice gives back the word |
| Endian.SwapEndianIntBytes | tinyFS/TinyFS.h:43-47 | byte i of the swapped word is byte 3 - i of the word |
| Endian.SwapEndianLongLowBytes | tinyFS/TinyFS.h:49-57 | bytes 0..3 of the swapped long are bytes 7..4 of the long |
| Endian.SwapEndianLongHighBytes | tinyFS/TinyFS.h:49-57 | bytes 4..7 of the swapped long are bytes 3..0 of the long |
| Endian.SwapEndianIntReverses | tinyFS/TinyFS.c:86-88 | on a little-endian host, swapping then copying stores the word most significant byte first |
| Endian.SwapEndianLongReverses | tinyFS/TinyFS.c:208-209 | likewise for the 8-byte time stamps |
| Endian.DecodeEncodeBE | tinyFS/TinyFS.c:86-88 | decoding the big-endian bytes of any number that fits gives the number back |
| Endian.DecodeInt32 | tinyFS/TinyFS.c:20-28 | four bytes read as a big-endian C `int` give a value in the 32-bit signed range |
| Endian.Int32RoundTrip | tinyFS/TinyFS.c:20-28 | every C `int` survives the 4-byte big-endian store and load |
| Endian.Int64RoundTrip | tinyFS/TinyFS.c:181-226 | every 64-bit `time_t` survives the 8-byte store and load |
| Blocks.CPrefix | tinyFS/libTinyFS.c:113 | the C string at the start of a buffer is NUL-free, is a prefix of the buffer, and is followed by a NUL when shorter than it |
| Blocks.NameField | tinyFS/TinyFS.c:84 | strncpy into the 8-byte name field always fills exactly 8 bytes |
| Blocks.NameFieldRoundTrip | tinyFS/TinyFS.c:84 | a name of at most 8 bytes is read back from its field unchanged |
| Blocks.NameFieldInjective | tinyFS/TinyFS.c:84 | two valid names give the same field exactly when they are the same name |
| Blocks.Payload | tinyFS/TinyFS.c:102 | a block's data part is its 252 bytes after the header |
| Blocks.MakeInode | tinyFS/TinyFS.c:73-90 | makeinode: type INODE, magic, link, the flag VALID exactly when the link is nonzero, the name field, the count, the size in bytes 13..16, zeros elsewhere |
| Blocks.MakeDataBlock | tinyFS/TinyFS.c:93-104 | makedatablock: type FILE_EXTENT, magic, link, the flag VALID exactly when the link is not NULL_ADDR, and the data |
| Blocks.MakeFreeBlock | tinyFS/TinyFS.c:106-112 | makefreeblock: type FREE_BLOCK, magic, flag INVALID, zeros elsewhere |
| Blocks.MakeSuperblock | tinyFS/TinyFS.c:114-122 | makesuperblock: type SUPERBLOCK, magic, link ROOT_ADDR, flag VALID, and the bitmap at byte 4 |
| Blocks.InitSuperblock | tinyFS/TinyFS.c:173-179 | the superblock mkfs writes carries the default bitmap 0xC0 then zeros |
| Blocks.GetFileSize | tinyFS/TinyFS.c:20-28 | the recorded size is a C `int` |
| Blocks.FileSizeOfMakeInode | tinyFS/TinyFS.c:20-28 | getFileSize returns the size that makeinode recorded |
| Blocks.WithSize | tinyFS/TinyFS.c:343-346 | the inode rewritten by tfs_writeFile has the new count and a size that getFileSize reads back; every other byte is kept |
| Blocks.WithName | tinyFS/TinyFS.c:504 | tfs_rename's strncpy changes the name field and nothing else |
| Blocks.TimeIndex | tinyFS/TinyFS.c:213-218 | each stamp lies within the inode's three time fields |
| Blocks.PutTime | tinyFS/TinyFS.c:203-226 | updateTime changes only the 8 bytes of its own stamp |
| Blocks.PutTimeHeader | tinyFS/TinyFS.c:203-226 | updateTime keeps the link and the extent count |
| Blocks.TimeRoundTrip | tinyFS/TinyFS.c:181-226 | getTime after updateTime returns the time stored, and the other two stamps are unchanged |
| Disks.CRem | tinyFS/TinyFS.c:454 | C's `%` stays strictly between -b and b, and is the usual remainder for a non-negative dividend |
| Disks.NumBlocksCovers | tinyFS/TinyFS.c:231 | `(nBytes - 1) / BLOCKSIZE + 1` is the number of blocks that positive nBytes fill, and is 1 for 0 bytes |
| Disks.ReadBlock | tinyFS/libDisk.c:25-51 | readBlock succeeds exactly for an open store and an address it holds, and yields that block; otherwise CLOSED_DISK_FAILURE or READ_ERROR |
| Disks.ReadOr | tinyFS/libDisk.c:25-51 | after a readBlock the caller's buffer holds the block, or what it held when the read failed |
| Disks.Store | tinyFS/libDisk.c:64-65 | fwrite inside the file replaces the block; past its end it grows the file, zero-filling the gap |
| Disks.WriteBlock | tinyFS/libDisk.c:53-70 | writeBlock fails with CLOSED_DISK_FAILURE on a closed store and with WRITE_ERROR at a negative address; otherwise it succeeds and keeps the name and size |
| Disks.WriteOr | tinyFS/libDisk.c:53-70 | a writeBlock whose result is ignored replaces the block on an open store and changes nothing when it fails |
| Disks.ReadAfterWrite | tinyFS/libDisk.c:25-70 | reading back a block that was written returns it, and other blocks read as before |
| Disks.CloseDisk | tinyFS/libDisk.c:72-85 | closeDisk keeps the store registered with its blocks, but marks it closed |
| Disks.ClosedDiskFails | tinyFS/libDisk.c:37-38 | every read and write on a closed store fails with CLOSED_DISK_FAILURE |
| Disks.FindFile | tinyFS/libDisk.c:87-98 | findFile gives the first store registered under the name, or OPEN_FAILURE when no store has that name |
| Bitmap.Mark | tinyFS/TinyFS.c:30-39 | setBitmap makes the block's bit record the new state and leaves every other bit and every other byte as it was |
| Bitmap.SetBitmap | tinyFS/TinyFS.c:30-39 | setBitmap on the caller's array does what Mark says |
| Bitmap.MarkAll | tinyFS/TinyFS.c:361 | repeated setBitmap keeps the bitmap's length |
| Bitmap.MarkAllUsed | tinyFS/TinyFS.c:423-430 | after marking a list of addresses, those addresses record the state and every other address is as it was |
| Bitmap.MarkAllSnoc | tinyFS/TinyFS.c:423-430 | marking one more address is one more setBitmap |
| Bitmap.MarkAllBytes | tinyFS/TinyFS.c:30-39 | bitmap bytes that hold none of the marked addresses are untouched |
| Bitmap.GetBitmap | tinyFS/libTinyFS.c:177-182 | getBitmap yields BITMAP_SIZE bytes |
| Bitmap.BitmapRoundTrip | tinyFS/TinyFS.c:42-48 | getBitmap after updateBitmap returns the bitmap written; the superblock header and every other block are kept |
| Bitmap.DefaultBitmapMarks | tinyFS/TinyFS.c:174 | the default bitmap marks exactly addresses 0 and 1 as used |
| Bitmap.FreeBelow | tinyFS/libTinyFS.c:131-140 | the free addresses below a limit, at most that many |
| Bitmap.FreeBelowMembers | tinyFS/libTinyFS.c:131-140 | a number is listed exactly when it is a free address below the limit |
| Bitmap.FreeBelowIncreasing | tinyFS/libTinyFS.c:131-140 | the list is strictly increasing, so every free address appears once, in scan order |
| Bitmap.FreeBelowPrefix | tinyFS/libTinyFS.c:131-140 | scanning further only appends |
| Bitmap.Limit | tinyFS/libTinyFS.c:131 | the allocator hands out only addresses the disk holds, below 256 |
| Bitmap.FreeList | tinyFS/libTinyFS.c:124-142 | every address the allocator lists is within the limit |
| Bitmap.FreeListAway | tinyFS/libTinyFS.c:130 | writing a block other than the superblock leaves the free list as it was |
| Bitmap.UsedAt | tinyFS/libTinyFS.c:132-134 | bit 7 - r of bitmap byte q records address 8q + r |
| Bitmap.ScanStep | tinyFS/libTinyFS.c:133-137 | one step of the scan counts one more free address exactly when the bit is clear |
| Bitmap.ScanFound | tinyFS/libTinyFS.c:135-136 | the clear bit the scan stops at, after skipping skip others, is element skip of the free list |
| Bitmap.ScanDone | tinyFS/libTinyFS.c:139-141 | a scan past every bit has counted the whole free list |
| Bitmap.BitmapByte | tinyFS/libTinyFS.c:130-132 | superblock byte 4 + q is bitmap byte q |
| Bitmap.ScanByte | tinyFS/libTinyFS.c:133-138 | the inner loop over one byte either finds the element of the free list asked for, or counts down skip by the byte's free bits |
| Bitmap.NextFreeBlock | tinyFS/libTinyFS.c:124-142 | nextFreeBlock(skip) returns free-list element skip, or ROOT_DIRECTORY_FULL when there are not that many free blocks |
| Bitmap.NextFreeAsWritten | tinyFS/libTinyFS.c:124-142 | as written, the function succeeds exactly when enough clear bits exist anywhere in the bitmap |
| Bitmap.DefaultFreeStart | tinyFS/TinyFS.c:174 | on a fresh bitmap the clear positions below 9 are 2 through 8 |
| Bitmap.NextFreeAsWrittenHitsRoot | tinyFS/libTinyFS.c:136 | on a fresh file system nextFreeBlock(6) as written returns address 1, the root, instead of address 8 |
| Directory.FirstZeroFrom | tinyFS/libTinyFS.c:150-156 | the first unused slot at or after k, or ROOT_DIRECTORY_FULL |
| Directory.NextRootAddrIndex | tinyFS/libTinyFS.c:144-157 | nextRootAddrIndex returns the least unused slot, or ROOT_DIRECTORY_FULL |
| Directory.SlotOfFrom | tinyFS/TinyFS.c:55-60 | the first slot at or after k holding the address, or FILE_NOT_FOUND |
| Directory.GetRootIndex | tinyFS/TinyFS.c:50-61 | getrootindex returns the first slot holding the address |
| Directory.UpdateRootSlot | tinyFS/TinyFS.c:64-71 | updateroot sets that one slot; the root header, every other slot and every other block are kept |
| Directory.FindSlotFrom | tinyFS/libTinyFS.c:159-174 | the first used slot at or after k whose inode carries the name; no earlier used slot's inode does |
| Directory.InodeOf | tinyFS/libTinyFS.c:159-174 | getInodeBlock returns an inode address between 1 and 255, or FILE_NOT_FOUND |
| Directory.GetInodeBlock | tinyFS/libTinyFS.c:159-174 | the loop returns what InodeOf says |
| Directory.ListFrom | tinyFS/TinyFS.c:527-536 | the listing either fails with READ_ERROR or has at most one name for each remaining slot |
| Directory.ReadDir | tinyFS/TinyFS.c:514-539 | tfs_readdir's scan returns the listing |
| Checker.CheckSuperblock | tinyFS/libTinyFS.c:3-17 | checksuperblock passes exactly for a readable block 0 with type SUPERBLOCK, link ROOT_ADDR and flag VALID; otherwise READ_ERROR or CORRUPT_FS |
| Checker.CheckRoot | tinyFS/libTinyFS.c:19-39 | checkroot passes exactly for a readable block 1 that is the root inode: type INODE, link NULL_ADDR, flag INVALID, and name "root" padded with NULs |
| Checker.MagicFrom | tinyFS/libTinyFS.c:46-56 | the loop passes exactly when every block in the range is readable and carries MAGIC_NUM |
| Checker.MagicCheckPasses | tinyFS/libTinyFS.c:41-58 | checkmagicnum accepts exactly the open stores that hold every block up to the one their size ends in, each with MAGIC_NUM |
| Checker.CheckMagicNum | tinyFS/libTinyFS.c:41-58 | the loop gives that outcome |
| Checker.FsCheck | tinyFS/libTinyFS.c:117-122 | checkfs passes exactly when all three checks pass, and otherwise reports CORRUPT_FS |
| Checker.CheckFs | tinyFS/libTinyFS.c:117-122 | the short-circuit evaluation gives that outcome |
| Checker.ClosedDiskFailsCheck | tinyFS/libTinyFS.c:117-122 | a closed store always fails checkfs |
| Checker.CheckUsedBlock | tinyFS/libTinyFS.c:60-67 | checkusedblock passes exactly for a superblock, an inode or an extent |
| Checker.CheckFreeBlock | tinyFS/libTinyFS.c:69-76 | checkfreeblock passes exactly for a free block |
| Checker.CheckedBlocks | tinyFS/libTinyFS.c:82 | the corrected check looks at no more than 256 addresses |
| Checker.BitmapFrom | tinyFS/libTinyFS.c:87-101 | passes exactly when every address in the range agrees with its bit |
| Checker.CheckBitmap | tinyFS/libTinyFS.c:78-104 | the corrected checkbitmap passes exactly when every address of the disk agrees with its bit |
| Checker.CheckBitmapAsWritten | tinyFS/libTinyFS.c:78-104 | the nested loops as written: the check passes exactly when each bitmap position below 8·min(252, numblocks) agrees with the block its `unsigned char` names, and fails with CORRUPT_FS otherwise |
| Checker.CheckByteAsWritten | tinyFS/libTinyFS.c:88-98 | the inner loop as written, over bit 7 - inner of one bitmap byte: it passes exactly when the eight positions of that byte agree with the blocks their `unsigned char` names |
| Files.ExtentsForBounds | tinyFS/TinyFS.c:324 | `(size - 1) / DATA_SIZE + 1` extents hold the size with less than one extent to spare, and never fewer than one |
| Files.EmptyFileExtents | tinyFS/TinyFS.c:324 | an empty file occupies one extent |
| Files.Chain | tinyFS/TinyFS.c:423-430 | following links from a gives at most k addresses, all on the disk, starting at a |
| Files.ChainLinks | tinyFS/TinyFS.c:425 | each address of a chain is the link of the one before it |
| Files.ChainOf | tinyFS/TinyFS.c:423-430 | a sequence of addresses, each linked to the next, is the chain from its first address |
| Files.ChainFrame | tinyFS/TinyFS.c:423-430 | a chain depends only on the blocks at its own addresses |
| Files.Extents | tinyFS/TinyFS.c:341 | a file's extents are addresses on the disk |
| Files.Footprint | tinyFS/TinyFS.c:423-430 | a file's blocks are addresses on the disk |
| Files.DataAt | tinyFS/TinyFS.c:454 | byte p of a file sits in extent p / 252, at offset p % 252 |
| Files.DataFrame | tinyFS/TinyFS.c:380-388 | a file's data depends only on its extents |
| Files.Contents | tinyFS/TinyFS.c:20-28 | a well-formed file holds exactly as many bytes as its inode records |
| Files.Bm | tinyFS/libTinyFS.c:177-182 | the bitmap is BITMAP_SIZE bytes |
| Files.InodeFrame | tinyFS/TinyFS.c:203-226 | a file keeps its shape and its bytes when its inode keeps its header, count and size and its extents are untouched |
| Files.FileFrame | tinyFS/TinyFS.c:408-443 | a file none of whose blocks changed is the same file |
| Files.ConfinedMisses | tinyFS/TinyFS.c:124-171 | when a change is confined to one slot's file and to free blocks, the blocks of every other file escape it |
| Files.ConfinedKeeps | tinyFS/TinyFS.c:124-171 | such a change keeps every other file: its slot, its blocks, its extents and its bytes |
| Files.ReshapeConserved | tinyFS/TinyFS.c:124-443 | a confined change whose changed file covers every used block it touches keeps every used block owned by some file |
| Files.Reshape | tinyFS/TinyFS.c:124-443 | a confined change that keeps the fixed blocks and leaves each changed block agreeing with its bit keeps the volume consistent and every other file as it was |
| Files.Reads | tinyFS/libTinyFS.c:177-182 | on a formatted volume getBitmap and the directory read the stored blocks |
| Files.FreeListFree | tinyFS/libTinyFS.c:124-142 | every address the allocator can hand out on a consistent volume is past the root, is a free block, and belongs to no file |
| Files.FreeListDistinct | tinyFS/libTinyFS.c:124-142 | the allocator never hands out the same address twice |
| Files.ConsistentPassesChecks | tinyFS/libTinyFS.c:78-122 | a consistent volume whose size needs no more blocks than it holds passes checkfs and the corrected checkbitmap |
| Inodes.UpdateTimeRoundTrip | tinyFS/TinyFS.c:181-226 | getTime after updateTime returns the time stored; the other stamps and every other block are unchanged |
| Inodes.InodeRewrite | tinyFS/TinyFS.c:203-226 | rewriting a file's inode with a block of the same shape keeps the volume consistent and every file as it was |
| Inodes.UpdateTimeKeeps | tinyFS/TinyFS.c:203-226 | a stamp on a file's inode keeps the volume consistent, every file as it was, and every name |
| Inodes.StampIs | tinyFS/TinyFS.c:203-226 | on an open disk, updateTime rewrites the one block it names |
| Inodes.Renamed | tinyFS/TinyFS.c:504 | the renamed inode holds the new name field, keeps its shape, and changes no other byte |
| Inodes.RenameKeeps | tinyFS/TinyFS.c:504-506 | renaming keeps the volume consistent and every file's bytes |
| Inodes.FindSlotKept | tinyFS/libTinyFS.c:159-174 | getInodeBlock depends only on the root and on the names of the inodes the root points at |
| Inodes.InodeOfKept | tinyFS/libTinyFS.c:159-174 | so every name resolves to the same inode on a volume that keeps both |
| Create.CreateOnVolume | tinyFS/TinyFS.c:124-156 | createFile succeeds exactly when two blocks and a slot are free, and then writes its file on free-list elements 0 and 1 in the first free slot; otherwise it reports ROOT_DIRECTORY_FULL |
| Create.CreatedBlocksShape | tinyFS/TinyFS.c:149-154 | the inode createFile builds is VALID, links to its data block, counts one extent, and has size 0 and the name; the data block ends the chain |
| Create.MarkedTwice | tinyFS/TinyFS.c:134-137 | the two setBitmap calls mark both blocks used and change no other bit |
| Create.CreateBlocks | tinyFS/TinyFS.c:134-155 | createFile's four writes leave exactly the bitmap, the inode, the slot and the extent |
| Create.CreatedFile | tinyFS/TinyFS.c:149-155 | the new file is live and empty, with one extent (the data block) and the name field of the name |
| Create.CreatedKeeps | tinyFS/TinyFS.c:124-156 | createFile keeps the volume consistent and puts the new empty file in the slot; every other slot and file is as it was |
| Create.CreateKeeps | tinyFS/TinyFS.c:124-156 | the same for two distinct free blocks and any unused slot |
| Create.CreateRootFullLeaks | tinyFS/TinyFS.c:134-143 | as written, the early ROOT_DIRECTORY_FULL return leaves the inode block marked used although it is still a free block, so checkbitmap's rule fails there |
| Create.CreateRootFullBreaks | tinyFS/TinyFS.c:134-143 | as written, the same return leaves every file well-formed but the inode block used and owned by none, so the no-leak invariant `Conserved` fails |
| Create.RootFullBitmap | tinyFS/TinyFS.c:134-137 | the bitmap write before that return changes only the superblock, keeps every used bit and marks the inode block |
| Create.MarkedFilesOk | tinyFS/TinyFS.c:134-137 | a change to the superblock that clears no used bit keeps every file well-formed and owning the same blocks |
| Create.FileHoldsTwo | tinyFS/TinyFS.c:149-155 | a well-formed file holds at least two blocks |
| Create.SlotBlocksApart | tinyFS/TinyFS.c:141 | the file in a slot shares no block with the files of earlier slots |
| Create.SlotBlocksSize | tinyFS/TinyFS.c:141 | k such files hold at least 2k blocks between them |
| Create.SlotsNeedBlocks | tinyFS/TinyFS.c:141 | k used slots need 2k of the volume's blocks |
| Create.SlotLeft | tinyFS/TinyFS.c:141 | files that are live and share no block always leave an unused slot |
| Create.RootNeverFull | tinyFS/TinyFS.c:141-143 | on a consistent volume nextRootAddrIndex never reports a full directory, because 244 files would need 488 blocks |
| Delete.FreeAll | tinyFS/TinyFS.c:428 | writing free blocks keeps the store's name, size and open state |
| Delete.FreeAllBlocks | tinyFS/TinyFS.c:423-430 | after the walk, the visited addresses hold free blocks and every other block is unchanged |
| Delete.FileWalkable | tinyFS/TinyFS.c:423-430 | a well-formed file's blocks, inode first, are distinct, each linked to the next and flagged VALID, with the last block linked to NULL_ADDR |
| Delete.FreeStep | tinyFS/TinyFS.c:424-429 | each step reads the block before freeing it, and that block's link and flag direct the walk |
| Delete.FreeChain | tinyFS/TinyFS.c:420-430 | the walk frees exactly the file's blocks and clears exactly their bits |
| Delete.WipeBlocks | tinyFS/TinyFS.c:420-434 | deleteFile's writes leave free blocks over the file, the cleared bitmap, and a zero in the slot |
| Delete.ClearedAll | tinyFS/TinyFS.c:427 | the bitmap after the walk has the file's bits clear |
| Delete.WipedKeeps | tinyFS/TinyFS.c:408-443 | deleting keeps the volume consistent; the slot ends unused and every block of the file is free with its bit clear; every other file is unchanged |
| Delete.SlotOfInode | tinyFS/TinyFS.c:412-415 | on a consistent volume, getrootindex finds the very slot that getInodeBlock stopped at |
| Delete.DeleteOnVolume | tinyFS/TinyFS.c:408-434 | deleteFile fails with FILE_NOT_FOUND exactly when the name resolves to no inode, and otherwise performs DeleteOnDisk on that inode's slot |
| Delete.DeleteKeeps | tinyFS/TinyFS.c:408-434 | deleteFile's writes keep the volume consistent, free the file, and keep every other file |
| Delete.DeleteStartAsWritten | tinyFS/TinyFS.c:412 | as written, the first block is getInodeBlock's result stored in an `unsigned char` |
| Delete.DeleteAsWrittenHitsOther | tinyFS/TinyFS.c:412-418 | as written, a name found in no slot becomes address 250, and when a slot holds inode 250 getrootindex finds that slot instead of returning FILE_NOT_FOUND |
| Delete.SlotOnDisk | tinyFS/TinyFS.c:412-415 | on a consistent volume every root slot names a block the store holds, so the walk can start from it |
| Delete.OnlySlotHolding | tinyFS/TinyFS.c:415 | on a consistent volume getrootindex of a used slot's inode finds exactly that slot |
| Delete.DeleteAsWrittenRemovesOther | tinyFS/TinyFS.c:412-433 | as written, on a consistent volume whose slot j holds inode 250, a delete through a name no inode carries succeeds and removes that other file: slot j becomes unused, every block of the file is freed with its bit clear, and the volume stays consistent |
| Write.Chunk | tinyFS/TinyFS.c:380-386 | each extent's payload is 252 bytes, zero-padded |
| Write.ChunkAt | tinyFS/TinyFS.c:380-388 | byte p of chunk k is byte 252k + p of the buffer, or 0 past its end |
| Write.DataOfChunks | tinyFS/TinyFS.c:380-388 | extents holding the chunks in order hold the buffer |
| Write.Plan | tinyFS/TinyFS.c:363-378 | the new chain is the file's own extents as far as they go, then free-list elements in order |
| Write.ExtentAt | tinyFS/TinyFS.c:385 | each extent written is a FILE_EXTENT with magic, is linked to the next (the last to NULL_ADDR), is well-formed and holds its chunk |
| Write.Needed | tinyFS/TinyFS.c:324 | the extent count needed holds the buffer with less than one extent to spare |
| Write.Surplus | tinyFS/TinyFS.c:363-378 | the old extents beyond the new count, if any |
| Write.WriteAllMiss | tinyFS/TinyFS.c:390 | writing the chain leaves blocks outside it alone |
| Write.WriteAllHit | tinyFS/TinyFS.c:390 | writing the chain puts its own extent at each of its addresses |
| Write.ChunkStep | tinyFS/TinyFS.c:380-388 | each pass's copy length and buffer advance give the next chunk |
| Write.PlanDistinct | tinyFS/TinyFS.c:363-378 | the planned chain has no repeated address |
| Write.OldChain | tinyFS/TinyFS.c:341-357 | the loop starts at the inode's link and with its count |
| Write.FreeApart | tinyFS/TinyFS.c:365-377 | the free blocks taken are apart from the file's own blocks |
| Write.Stamped | tinyFS/TinyFS.c:338 | the access stamp before the write keeps the volume and the file |
| Write.Prepare | tinyFS/TinyFS.c:338-359 | what the loop starts from: the stamped volume, the old chain, and the planned chain |
| Write.ChainWritten | tinyFS/TinyFS.c:390-398 | the loop and updateBitmap leave the planned chain on disk with its bits set |
| Write.SurplusApart | tinyFS/TinyFS.c:363-378 | the surplus is disjoint from the new chain |
| Write.SurplusWalkable | tinyFS/TinyFS.c:423-430 | the surplus can be freed by the walk deleteFile uses |
| Write.Pick | tinyFS/TinyFS.c:363-378 | the link chosen is always an address below 256 |
| Write.PickNext | tinyFS/TinyFS.c:363-378 | the loop body's choice of the next link is what Pick says |
| Write.Step | tinyFS/TinyFS.c:361-396 | one pass of the loop |
| Write.PickStep | tinyFS/TinyFS.c:363-378 | at pass k the corrected body picks the link to planned extent k + 1, or NULL_ADDR at the end |
| Write.ExtentIs | tinyFS/TinyFS.c:384-385 | the block a pass builds is planned extent k |
| Write.CursorMoves | tinyFS/TinyFS.c:395-396 | after pass k the loop stands on planned extent k + 1 |
| Write.CursorStep | tinyFS/TinyFS.c:360-396 | each pass keeps the loop's variables in step with the plan |
| Write.BlockStep | tinyFS/TinyFS.c:385-390 | the pass writes planned extent k at planned address k |
| Write.DiskStep | tinyFS/TinyFS.c:390 | after pass k the disk holds the first k + 1 planned extents |
| Write.LoopUnfold | tinyFS/TinyFS.c:360-397 | the loop is one pass followed by the loop |
| Write.Advance | tinyFS/TinyFS.c:360-397 | an invariant kept by each pass: planned extents 0..k-1 are written and their bits set |
| Write.Iterate | tinyFS/TinyFS.c:363-396 | one pass of the loop body, as a method, does what Step says |
| Write.LoopIsChain | tinyFS/TinyFS.c:360-397 | the corrected loop writes exactly the planned chain and sets exactly its bits |
| Write.WriteExtents | tinyFS/TinyFS.c:357-397 | the while loop, as a method with its invariant, ends as the loop function says |
| Write.Launch | tinyFS/TinyFS.c:338-359 | once the room check passes, the loop has everything it needs |
| Write.LoopResult | tinyFS/TinyFS.c:398 | the loop's result: the planned chain, its bitmap, and the first surplus block |
| Write.SurplusOutside | tinyFS/TinyFS.c:363-378 | surplus addresses are not in the new chain |
| Write.SurplusKept | tinyFS/TinyFS.c:390-398 | the loop leaves the surplus blocks as they were |
| Write.SurplusReady | tinyFS/TinyFS.c:398 | the surplus can then be freed |
| Write.FreeSurplus | tinyFS/TinyFS.c:420-432 | after a shrinking write, tfs_deleteFile's walk and bitmap update from the first surplus block free exactly the rest of the old chain and clear exactly their bits |
| Write.RewriteChain | tinyFS/TinyFS.c:357-398 | the loop plus updateBitmap, and the freeing of the surplus, give the corrected chain rewrite |
| Write.WriteChain | tinyFS/TinyFS.c:357-403 | past the room check, tfs_writeFile's writes are exactly WriteOnDisk |
| Write.WriteOnVolume | tinyFS/TinyFS.c:338-403 | the write succeeds exactly when the free blocks the file must gain are there; otherwise it stops with ROOT_DIRECTORY_FULL after the access stamp |
| Rewrite.ExtentsOfChain | tinyFS/TinyFS.c:385 | the extents written form a chain along the plan |
| Rewrite.RebitsAll | tinyFS/TinyFS.c:361-398 | after the rewrite, the new chain's bits are set, the surplus bits are clear, and every other bit is kept |
| Rewrite.NewChain | tinyFS/TinyFS.c:380-402 | the rewritten file is well-formed, with the planned chain as its extents and the buffer as its contents |
| Rewrite.RewrittenKeeps | tinyFS/TinyFS.c:317-406 | the rewrite keeps the volume consistent and every other file |
| Rewrite.NothingLeaks | tinyFS/TinyFS.c:317-406 | every block the file held stays in the file or becomes a free block with its bit clear |
| Rewrite.PlanReplan | tinyFS/TinyFS.c:348-378 | the planned chain has the needed length, reuses the old extents first, and takes only free blocks |
| Rewrite.PlanShape | tinyFS/TinyFS.c:363-378 | the plan's addresses are distinct, lie past the root, and avoid the inode |
| Rewrite.GrownBlocks | tinyFS/TinyFS.c:363-378 | a file that grows frees nothing |
| Rewrite.TrimmedBlocks | tinyFS/TinyFS.c:363-378 | a file that shrinks frees exactly its surplus |
| Rewrite.RechainBlocks | tinyFS/TinyFS.c:357-398 | the blocks after the chain rewrite |
| Rewrite.InodeShape | tinyFS/TinyFS.c:343-403 | the inode written back keeps its header and name and records the new count and size |
| Rewrite.ChainBound | tinyFS/TinyFS.c:343 | a chain of distinct addresses below 256 is short enough for the count byte |
| Rewrite.SizedShape | tinyFS/TinyFS.c:340-346 | the inode read after the stamp and resized is well-shaped for the new chain |
| Rewrite.NewInodeOf | tinyFS/TinyFS.c:343-346 | the resized inode's count and size describe the buffer |
| Rewrite.WriteBlocks | tinyFS/TinyFS.c:338-403 | all of tfs_writeFile's writes, block by block |
| Rewrite.OnDiskIs | tinyFS/TinyFS.c:338-403 | WriteOnDisk, unfolded into the steps the source takes |
| Rewrite.StampWritten | tinyFS/TinyFS.c:402-403 | the final inode write and stamp touch only the inode |
| Rewrite.WriteKeeps | tinyFS/TinyFS.c:317-406 | the corrected write keeps the volume consistent; the file holds exactly the buffer on the planned chain and keeps its name; its dropped blocks are freed; every other file is unchanged |
| WriteAsWritten.LoopAsWritten | tinyFS/TinyFS.c:360-397 | the loop as written, when it finishes, leaves a full-size bitmap |
| WriteAsWritten.Unroll | tinyFS/TinyFS.c:360-397 | each pass as written writes the block it builds and moves on |
| WriteAsWritten.Finish | tinyFS/TinyFS.c:398-403 | after the loop, the bitmap, inode and stamp touch only blocks 0 and the inode |
| WriteAsWritten.NewCount | tinyFS/TinyFS.c:343 | the inode written back counts the needed extents and keeps its link |
| WriteAsWritten.OneExtentInode | tinyFS/TinyFS.c:343 | a buffer of at most one extent gives an inode counting one extent |
| WriteAsWritten.StepOld | tinyFS/TinyFS.c:371-375 | while the old chain lasts, a pass follows its link |
| WriteAsWritten.StepLast | tinyFS/TinyFS.c:371-377 | the pass that uses up the old chain links to the next free block even when it is the last write |
| WriteAsWritten.StepFree | tinyFS/TinyFS.c:363-367 | a pass with blocksused at 0 takes a free block and sends blocksused to -1 |
| WriteAsWritten.LastLinkAsWritten | tinyFS/TinyFS.c:363-377 | as written, rewriting a one-extent file with one extent's worth of data links its only extent to a still-free block, so the file is no longer well-formed |
| WriteAsWritten.ShrinkAsWritten | tinyFS/TinyFS.c:363-377 | as written, shrinking a file to one extent keeps the old link, and the rest of the old chain stays marked used but unowned |
| WriteAsWritten.ZeroAsWritten | tinyFS/TinyFS.c:363-377 | as written, growing a one-extent file to four extents writes an extent over the superblock, so checksuperblock fails |
| WriteAsWritten.GrowLoop | tinyFS/TinyFS.c:360-397 | in that growth, the fourth pass of the loop writes at address 0 |
| WriteAsWritten.WriteUnfoundHitsSuperblock | tinyFS/TinyFS.c:322-403 | as written, a write through an entry whose name no inode carries reads inode -6 as zeros, takes current block 0, writes an extent over the superblock and reports success; checkfs then fails |
| WriteAsWritten.UnfoundStart | tinyFS/TinyFS.c:322-341 | the access stamp lands on block 250 and leaves the superblock; the read at -6 fails and leaves the inode buffer zero |
| WriteAsWritten.UnfoundLoop | tinyFS/TinyFS.c:357-397 | from current block 0 with no old chain, a one-extent write ends with a file extent at address 0 |
| WriteAsWritten.UnfoundFinish | tinyFS/TinyFS.c:398-403 | the bitmap write, the failed inode write at -6 and the stamp on block 250 leave the kind of block 0 as the loop left it |
| Access.InodeCode | tinyFS/libTinyFS.c:159-174 | getInodeBlock's `int` is the inode address, or FILE_NOT_FOUND |
| Access.Hops | tinyFS/TinyFS.c:483-488 | the loop's reads fail only with READ_ERROR |
| Access.Passes | tinyFS/TinyFS.c:483-484 | the loop runs offset / 252 times for a non-negative offset |
| Access.Seek | tinyFS/TinyFS.c:464-492 | the corrected seek refuses a negative offset and changes only the entry's position and cursor |
| Access.ReadIndex | tinyFS/TinyFS.c:454 | the byte index is below 256, and is pos % 252 + 4 for a non-negative pos |
| Access.ReadByteAsWritten | tinyFS/TinyFS.c:445-457 | as written, the read fails exactly when the current block cannot be read, with READ_ERROR |
| Access.ReadByte | tinyFS/TinyFS.c:445-462 | the corrected read reports FILE_NOT_FOUND for an unknown name, and advances the position by exactly one |
| Access.Found | tinyFS/libTinyFS.c:159-174 | the file that getInodeBlock finds on a consistent volume is live and sits in the slot the lookup stopped at |
| Access.SlotLive | tinyFS/libTinyFS.c:159-174 | every file the directory points at is live |
| Access.Sized | tinyFS/TinyFS.c:472-474 | the size tfs_seek reads is the file's length, and fits in its extents |
| Access.HopsWalk | tinyFS/TinyFS.c:483-488 | following links for n steps from extent k reaches extent k + n |
| Access.SeekPositions | tinyFS/TinyFS.c:464-492 | the corrected seek succeeds exactly for an open entry and an offset inside the file, and then places the cursor on the extent holding that byte |
| Access.ByteAt | tinyFS/TinyFS.c:454-457 | the byte at a positioned entry's cursor is the file's byte at the position |
| Access.CursorMoves | tinyFS/TinyFS.c:454 | after a read, the cursor names the extent of the next position |
| Access.TouchKeeps | tinyFS/TinyFS.c:459 | the access stamp keeps the volume consistent, every file, and every lookup by name |
| Access.PositionedKept | tinyFS/TinyFS.c:445-462 | a positioned entry stays positioned while its file keeps its extents |
| Access.ReadByteIs | tinyFS/TinyFS.c:445-457 | the corrected read inside the file returns the byte at the cursor block, and moves on to the next extent after the last byte of one |
| Access.NextRead | tinyFS/TinyFS.c:445-457 | that result is the file's byte, with the entry positioned one byte on |
| Access.ReadByteReads | tinyFS/TinyFS.h:107-109 | the corrected read succeeds exactly for a position inside the file, returns the file's byte there, and advances by one; otherwise READ_ERROR |
| Access.SeekThenRead | tinyFS/TinyFS.c:464-492 | a seek to an offset followed by a read returns the file's byte at that offset |
| Access.SeekAsWrittenStrays | tinyFS/TinyFS.c:487 | as written, a seek into the second extent leaves the cursor at address 0x50, the first extent's flag |
| Access.NegativeSeekAsWritten | tinyFS/TinyFS.c:477 | as written, offsets -4..-1 are accepted, and the next read returns a header byte; the corrected seek refuses them |
| Access.ReadPastEndAsWritten | tinyFS/TinyFS.c:445-457 | as written, a read at the end of the file still returns a byte; the corrected read reports READ_ERROR |
| Access.ReadTwiceAsWritten | tinyFS/TinyFS.c:445-462 | as written, two reads in a row return the same byte |
| Access.TouchMissingAsWritten | tinyFS/TinyFS.c:459 | as written, the stamp for an unknown name lands on block 250 and grows a smaller store to 251 blocks |
| Format.DiskName | tinyFS/TinyFS.c:235-236 | an empty name becomes DEFAULT_DISK_NAME, and any other name is kept |
| Format.FreeCount | tinyFS/TinyFS.c:251 | mkfs writes at most 254 free blocks |
| Format.FormatDisk | tinyFS/TinyFS.c:228-256 | mkfs writes the default superblock, the empty root, and free blocks up to the smaller of the disk's block count and 256 |
| Format.RootInodeEmpty | tinyFS/TinyFS.c:246 | the root inode mkfs writes passes checkroot and has every slot unused |
| Format.FreshConsistent | tinyFS/TinyFS.c:228-256 | a freshly formatted volume is consistent and holds no file |
| Format.FreshChecks | tinyFS/TinyFS.c:228-256 | a fresh volume passes checkfs exactly when nBytes is at most MAX_DISK_SIZE |
| Format.CheckBitmapAsWrittenRejectsFresh | tinyFS/libTinyFS.c:87-96 | as written, checkbitmap rejects every freshly formatted volume, whatever its size, which the corrected check accepts |
| TinyFs.FirstClosed | tinyFS/TinyFS.c:158-168 | the first INVALID entry at or after k, or none |
| TinyFs.OpenedIsTouches | tinyFS/TinyFS.c:303-306 | the three stamps of openFile, one after the other, each keep the volume and the lookup |
| TinyFs.OpenedKeeps | tinyFS/TinyFS.c:303-306 | openFile's stamps keep a consistent volume consistent, with every file and every lookup as before |
| TinyFs.OpenedAsWrittenGrows | tinyFS/TinyFS.c:303-306 | as written, opening a name that resolves to no inode stamps block 250 |
| TinyFs.LongNameLost | tinyFS/TinyFS.c:84 | a name longer than 8 bytes never matches the inode createFile writes for it |
| TinyFs.CreatedFileOpens | tinyFS/TinyFS.c:124-168 | createFile on a consistent volume with two free blocks makes the empty file, headed by the entry it fills, and keeps every other file |
| TinyFs.OpenedKeepsFile | tinyFS/TinyFS.c:303-306 | the stamps keep the new file and its entry |
| TinyFs.OpenedNewFile | tinyFS/TinyFS.c:287-308 | tfs_openFile leaves the new empty file in the first free slot, with every other file unchanged |
| TinyFs.WriteCursorAsWritten | tinyFS/TinyFS.c:400 | as written, after resetting the position to 0 the cursor stays where a seek or a read moved it, so it no longer matches the position |
| TinyFs.WriteAnchors | tinyFS/TinyFS.c:399-400 | a write keeps the file's first extent, so the reset entry reads from the start |
| TinyFs.RenameOnDiskIs | tinyFS/TinyFS.c:501-509 | tfs_rename rewrites just the one inode |
| TinyFs.RenamedInodeShape | tinyFS/TinyFS.c:504-509 | the renamed inode keeps its shape, holds the new name, and differs only in the name and two stamps |
| TinyFs.RenameOnDiskKeeps | tinyFS/TinyFS.c:494-512 | rename changes only the inode's name and two stamps, and keeps the volume consistent and its files |
| TinyFs.ListFromFiles | tinyFS/TinyFS.c:527-536 | on a consistent volume the scan succeeds, lists every file's name, and lists no name that is not some file's |
| TinyFs.ListingFiles | tinyFS/TinyFS.c:514-539 | tfs_readdir on a consistent volume lists exactly the files' names, and lists nothing exactly when no slot is used |
| TinyFs.MountAsWritten | tinyFS/TinyFS.c:258-276 | as written, a mount while something is mounted gives OPEN_FAILURE and changes nothing |
| TinyFs.CorruptMountSticks | tinyFS/TinyFS.c:263-271 | as written, a store that fails checkfs stays mounted, so every later mount is refused |
| TinyFs.RemountFails | tinyFS/TinyFS.c:278-285 | an unmounted store stays registered but is closed, so it always fails checkfs |
| TinyFs.FindFileRenamed | tinyFS/libDisk.c:87-98 | findFile depends only on the stores' names |
| TinyFs.CreationKeeps | tinyFS/TinyFS.c:287-308 | tfs_openFile keeps a consistent volume consistent |
| TinyFs.StampOpened | tinyFS/TinyFS.c:303-306 | the stamps of the corrected openFile |
| TinyFs.ReadAt | tinyFS/TinyFS.c:445-457 | tfs_readByte's reads give the corrected read |
| TinyFs.SeekOn | tinyFS/TinyFS.c:464-492 | tfs_seek's checks and loop give the corrected seek |
| TinyFs.WriteConsistent | tinyFS/TinyFS.c:317-406 | a write keeps the volume consistent, whether it stops for want of room or rewrites the file |
| TinyFs.WrittenHolds | tinyFS/TinyFS.c:317-406 | a write with room leaves the file holding exactly the buffer |
| TinyFs.DeleteConsistent | tinyFS/TinyFS.c:408-443 | a delete keeps the volume consistent |
| TinyFs.RenameConsistent | tinyFS/TinyFS.c:494-512 | a rename keeps the volume consistent |
| TinyFs.Written | tinyFS/TinyFS.c:317-406 | tfs_writeFile gives WRITE_ERROR for an INVALID entry and FILE_NOT_FOUND for an unknown name, and ROOT_DIRECTORY_FULL without room; otherwise the file holds exactly the buffer and the entry is back at its start; the volume always stays consistent |
| TinyFs.WriteOn | tinyFS/TinyFS.c:317-406 | the lookup, the entry check and the write give what Written says |
| TinyFs.Deleted | tinyFS/TinyFS.c:408-443 | tfs_deleteFile gives FILE_NOT_FOUND for an unknown name; otherwise it clears the slot, frees every block of the file, and closes the entry; the volume stays consistent |
| TinyFs.DeleteOn | tinyFS/TinyFS.c:408-443 | tfs_deleteFile's steps give what Deleted says |
| TinyFs.RenamedIn | tinyFS/TinyFS.c:494-512 | tfs_rename gives FILE_NOT_FOUND for an INVALID entry and READ_ERROR for an unknown name; otherwise the inode and the entry carry the new name; the volume stays consistent with every file's bytes |
| TinyFs.RenameOn | tinyFS/TinyFS.c:494-512 | tfs_rename's steps give what RenamedIn says |
| TinyFs.FileSystem.constructor | tinyFS/TinyFS.c:3-4 | at start nothing is mounted, no store exists, and the table is zeroed |
| TinyFs.FileSystem.InitFd | tinyFS/TinyFS.c:11-18 | initFD makes every entry zeroed and INVALID |
| TinyFs.FileSystem.Mkfs | tinyFS/TinyFS.c:228-256 | tfs_mkfs registers one new formatted store under the name, and keeps everything else |
| TinyFs.FileSystem.Mount | tinyFS/TinyFS.c:258-276 | the corrected mount: OPEN_FAILURE when something is mounted or the name is unknown; CORRUPT_FS and nothing mounted when checkfs fails; otherwise the store is mounted and the table reset |
| TinyFs.FileSystem.Unmount | tinyFS/TinyFS.c:278-285 | DISK_CLOSE_FAILURE when nothing is mounted; otherwise the store is closed and nothing is mounted |
| TinyFs.FileSystem.FindClosed | tinyFS/TinyFS.c:158-168 | the table search finds the first INVALID entry |
| TinyFs.FileSystem.CreateFile | tinyFS/TinyFS.c:124-171 | createFile writes the new file and fills the first INVALID entry, or reports ROOT_DIRECTORY_FULL leaving the table unchanged |
| TinyFs.FileSystem.OpenFile | tinyFS/TinyFS.c:287-308 | tfs_openFile creates the file, fills an entry and stamps the inode; the volume stays consistent |
| TinyFs.FileSystem.CloseFile | tinyFS/TinyFS.c:312-315 | the entry becomes INVALID and nothing else changes |
| TinyFs.FileSystem.WriteFile | tinyFS/TinyFS.c:317-406 | the code, volume and entry are what Written says; the other stores and entries are kept |
| TinyFs.FileSystem.DeleteFile | tinyFS/TinyFS.c:408-443 | the code, volume and entry are what Deleted says |
| TinyFs.FileSystem.ReadByte | tinyFS/TinyFS.c:445-462 | the corrected read returns the byte and the advanced entry, then stamps the access time; an error changes nothing |
| TinyFs.FileSystem.Seek | tinyFS/TinyFS.c:464-492 | the entry ends where the corrected seek puts it; an error changes nothing |
| TinyFs.FileSystem.Rename | tinyFS/TinyFS.c:494-512 | the code, volume and entry are what RenamedIn says |
| TinyFs.FileSystem.ReadDir | tinyFS/TinyFS.c:514-539 | tfs_readdir returns the listing of the mounted volume, or READ_ERROR |

## Left out

- The host-file I/O of the emulated disk library (`fopen`, `fseek`, `fread`, `fwrite`, `fflush`,
  `fclose`). A store is a sequence of blocks whose size grows as `fwrite` past the end would grow it.
- TinyFs.FileSystem.Mkfs: models `openDisk` only for `nBytes > 0`, so it requires that. With
  `nBytes <= 0`, openDisk reopens an existing host file read-only, and this model holds no host file.
- TinyFs.FileSystem.Mkfs: the new store is appended to the list and is found by its position there.
  In libDisk.c, `createDisk` returns `open_disks++` and `closeDisk` decrements `open_disks`. After an
  unmount, tfs_mkfs therefore gets a number that already indexes an earlier store, and its writes go
  to that store. The model does not carry this mismatch.
- Stores written by other programs: every store in the model is one that tfs_mkfs formatted.
  `TinyFs.FileSystem.Valid` keeps every open store consistent (`Files.Consistent`), a stronger
  invariant than checkfs certifies at mount.
- `findDisk` returning NULL (readBlock and writeBlock return OPEN_FAILURE). The model's store numbers
  always index the list.
- The clock `time(NULL)`: it is the parameter `now`.
- `printf`/`fprintf` output, and `tfs_readFileInfo` (TinyFS.c:541-564), which only prints with
  `localtime`.
- `isLEndian`: a little-endian host is assumed.
- `updateTime`'s `fprintf`/`close(-1)` branch for a timestamp outside the enum: it cannot be
  reached with the enum's three values.
- tinyFsDemo.c, a sample driver, is not part of this model.
- TinyFs.FileSystem: every operation that needs a mounted volume requires one (`Mounted()`). Every
  operation that takes a descriptor requires `0 <= fd < 244`. The source calls into a store numbered
  INVALID (175), or indexes outside the table, in these cases.
- TinyFs.FileSystem.WriteFile: requires `size < 2^31`, the C `int` range of `size`. The buffer is a
  sequence, so `size` is its length.
- TinyFs.Written: does not model the early return on a failing `writeBlock` inside the loop
  (TinyFS.c:390-393). On a mounted, consistent volume every write in the loop is in range and cannot fail.
- TinyFs.FileSystem.OpenFile: the loop at TinyFS.c:292-298 compares pointers (`table[i].name == name`).
  It never finds an open entry for a name passed anew, so the model always takes the createFile path.
- Create.CreateOnVolume: when fewer than two blocks are free, the source goes on with the error code as
  a block number. setBitmap and updateroot receive ROOT_DIRECTORY_FULL (-7) as the
  `unsigned char` 249, and writeBlock at -7 fails. The model
  checks first, reports ROOT_DIRECTORY_FULL and writes nothing.
- Directory.FindSlotFrom: namecmp copies the 8-byte name field into an 8-byte array without a
  terminator, and strcmp may read past it when all 8 bytes are set. The model compares the field as if
  it were NUL-terminated.
- Access.ReadByteAsWritten: requires a non-negative byte index. A position below -4 makes the source
  read before the start of its buffer, which the model does not represent.
- WriteAsWritten.LoopAsWritten: takes its free blocks from the corrected nextFreeBlock
  (`Bitmap.FreeList`), not from libTinyFS.c:124-142 as written, whose defect is a finding of its own
  (Bitmap.NextFreeAsWrittenHitsRoot). The loop's lemmas therefore show only the loop's defects.
- Write.WriteOnVolume: the `assert(nextblockaddr != ROOT_DIRECTORY_FULL)` at TinyFS.c:366 is not
  modelled as an abort. The room check before the loop makes it hold (Write.LoopIsChain).

## Findings

| source | as written | input that shows it | evidently intended | confidence | as-written member | corrected member |
|---|---|---|---|---|---|---|
| tinyFS/libTinyFS.c:136 | nextFreeBlock returns `(outer - 4) * sizeof(uchar) + (7 - inner)`, the byte index plus the bit offset. It also scans all 252 bitmap bytes, whatever the disk's size | a freshly formatted disk, `nextFreeBlock(disk, 6)`: returns 1, the root, instead of 8 | the address is `8 * (outer - 4) + (7 - inner)`, and only addresses the disk holds are handed out | not executed | Bitmap.NextFreeAsWritten, Bitmap.NextFreeAsWrittenHitsRoot | Bitmap.NextFreeBlock |
| tinyFS/TinyFS.c:487 | tfs_seek follows `block[3]`, the flag, to find the next extent | a seek to an offset from 252 to 503 in a file of two or more extents: the cursor becomes 0x50 | follow `block[2]`, the link | not executed | Access.SeekAsWrittenStrays | Access.Seek, Access.SeekPositions |
| tinyFS/TinyFS.c:477 | tfs_seek accepts a negative offset | `tfs_seek(fd, -1)`, then `tfs_readByte`: returns header byte 3 of the first extent | SEEK_ERROR for a negative offset | not executed | Access.NegativeSeekAsWritten | Access.Seek |
| tinyFS/TinyFS.c:445-462 | tfs_readByte neither compares the position with the size nor advances it, against the promise at TinyFS.h:107-109 | reading an empty file at position 0 returns a byte; two reads in a row return the same byte | READ_ERROR at the end of the file; otherwise the position advances by one | not executed | Access.ReadPastEndAsWritten, Access.ReadTwiceAsWritten | Access.ReadByte, Access.ReadByteReads, Access.SeekThenRead |
| tinyFS/TinyFS.c:363-377 | `blocksused--` treats the pass that uses up the old chain as one that still follows it, and lets `blocksused` go negative | rewriting a one-extent file with at most 252 bytes links the extent to a free block. Shrinking a two-extent file to one keeps the old link and loses the second extent. Growing a one-extent file to four extents writes over the superblock | follow the old chain while it lasts, take free blocks after it, link the last extent to NULL_ADDR, and free the surplus | not executed | WriteAsWritten.LastLinkAsWritten, WriteAsWritten.ShrinkAsWritten, WriteAsWritten.ZeroAsWritten | Rewrite.WriteKeeps, Write.WriteOnVolume |
| tinyFS/TinyFS.c:270-271 | tfs_mount returns CORRUPT_FS but leaves `mount` set | mounting a store that fails checkfs, then mounting any other store: OPEN_FAILURE | a store that fails checkfs is not mounted | not executed | TinyFs.MountAsWritten, TinyFs.CorruptMountSticks | TinyFs.FileSystem.Mount |
| tinyFS/TinyFS.c:134-143 | createFile writes the bitmap, with both blocks marked, before it checks for a full directory | a full root directory: the inode block stays marked used but free, and no file owns it | check for a slot before writing anything | not executed | Create.CreateRootFullLeaks, Create.CreateRootFullBreaks | Create.CreateOnVolume |
| tinyFS/libTinyFS.c:87 | checkbitmap's outer loop is bounded by `numblocks` instead of `numbytes`, and passes `outer * 8 + inner` as an `unsigned char` | any freshly formatted disk: the first position past its blocks, or position 256 (clear) checked against block 0, the superblock, fails | inspect the bits of the addresses the disk holds | not executed | Checker.CheckBitmapAsWritten, Format.CheckBitmapAsWrittenRejectsFresh | Checker.CheckBitmap |
| tinyFS/TinyFS.c:412-418 | tfs_deleteFile stores getInodeBlock's result in an `unsigned char`, so FILE_NOT_FOUND becomes address 250 | deleting the same descriptor twice, when some file's inode is block 250: the second call deletes that file | FILE_NOT_FOUND when the name resolves to no inode | not executed | Delete.DeleteStartAsWritten, Delete.DeleteAsWrittenHitsOther, Delete.DeleteAsWrittenRemovesOther | Delete.DeleteOnVolume, Delete.DeleteKeeps |
| tinyFS/TinyFS.c:400 | tfs_writeFile resets `pos` but not `current_block` | a seek into the second extent, then a write, then a read: it reads from the wrong extent | the header's "sets the file pointer to 0" covers the cursor too, so it returns to the first extent | not executed | TinyFs.WriteCursorAsWritten | TinyFs.WriteAnchors, TinyFs.FileSystem.WriteFile |
| tinyFS/TinyFS.c:303-306 | tfs_openFile stamps whatever getInodeBlock returns, as an `unsigned char` | opening a name longer than 8 bytes, or a name no file carries when createFile wrote nothing: block 250 is stamped, and a smaller store grows to 251 blocks | no stamp when the name resolves to no inode | not executed | TinyFs.OpenedAsWrittenGrows, TinyFs.LongNameLost | TinyFs.OpenedKeeps, TinyFs.FileSystem.OpenFile |
| tinyFS/TinyFS.c:459 | tfs_readByte stamps getInodeBlock's result as an `unsigned char` without checking it | reading through an entry whose name no inode carries: block 250 is stamped | no stamp when the lookup fails, and FILE_NOT_FOUND with no byte returned | not executed | Access.TouchMissingAsWritten | TinyFs.FileSystem.ReadByte |
| tinyFS/TinyFS.c:322-340 | tfs_writeFile does not check getInodeBlock's result: FILE_NOT_FOUND (-6) is stamped as block 250, `readBlock` at -6 fails and leaves the inode zeros, so `blocksused` is 0 and `currentblock` is 0 | open "x", rename it to "" (the entry and the inode both become ""), open "y", delete the second descriptor twice, then write one byte through the first: the extent is written over the superblock and the call returns 0 | FILE_NOT_FOUND when the name resolves to no inode, with the volume unchanged | not executed | WriteAsWritten.WriteUnfoundHitsSuperblock | TinyFs.Written, TinyFs.FileSystem.WriteFile |
