/** The block bitmap kept in superblock bytes 4..255 (setBitmap, getBitmap,
    updateBitmap) and the free-block allocator nextFreeBlock. Address a is recorded
    in bit 7 - a % 8 of bitmap byte a / 8: the most significant bit comes first. */
module Bitmap {
  import opened Layout
  import opened Bits
  import opened Errors
  import opened Blocks
  import opened Disks

  /** The enum blockstate {FREE, USED}. */
  datatype BlockState = Free | InUse

  /** Whether the bitmap marks address a as used. */
  predicate Used(bm: seq<byte>, a: nat)
    requires a < 8 * |bm|
  {
    GetBit(bm[a / 8], 7 - a % 8) == 1
  }

  /** Address a lies in byte a / 8 at bit 7 - a % 8, and address 8 * q + r is the one
      found in byte q at bit 7 - r. */
  lemma AddressParts(q: nat, r: nat)
    requires r < 8
    ensures (8 * q + r) / 8 == q && (8 * q + r) % 8 == r
  {
  }

  /** setBitmap on a copy of the bitmap: the bit of address a records the new state and
      no other bit, and no other byte, changes. */
  function Mark(bm: seq<byte>, a: nat, state: BlockState): (r: seq<byte>)
    requires a < 8 * |bm|
    ensures |r| == |bm|
    ensures Used(r, a) <==> state == InUse
    ensures forall c :: 0 <= c < 8 * |bm| && c != a ==> (Used(r, c) <==> Used(bm, c))
    ensures forall i :: 0 <= i < |bm| && i != a / 8 ==> r[i] == bm[i]
  {
    var index := a / 8;
    var bit := 7 - a % 8;
    var r := bm[index := if state == InUse then SetBit(bm[index], bit) else ClrBit(bm[index], bit)];
    assert forall c :: 0 <= c < 8 * |bm| && c != a && c / 8 == index ==> 7 - c % 8 != bit;
    r
  }

  /** setBitmap(bitmap, blocknum, state), in place on the caller's BITMAP_SIZE-byte buffer. */
  method SetBitmap(bitmap: array<byte>, blocknum: nat, state: BlockState)
    requires bitmap.Length == BITMAP_SIZE && blocknum < MAX_NUM_BLOCKS
    modifies bitmap
    ensures bitmap[..] == Mark(old(bitmap[..]), blocknum, state)
  {
    var index := blocknum / BITS_PER_BYTE;
    var bit := 7 - blocknum % BITS_PER_BYTE;
    if state == InUse {
      bitmap[index] := SetBit(bitmap[index], bit);
    } else {
      bitmap[index] := ClrBit(bitmap[index], bit);
    }
  }

  /** Marking every address of s, one after the other. */
  function MarkAll(bm: seq<byte>, s: seq<nat>, state: BlockState): (r: seq<byte>)
    requires forall k :: 0 <= k < |s| ==> s[k] < 8 * |bm|
    ensures |r| == |bm|
    decreases |s|
  {
    if s == [] then bm else MarkAll(Mark(bm, s[0], state), s[1..], state)
  }

  /** After MarkAll an address of s records the state, and every other address is as
      before. */
  lemma {:induction false} MarkAllUsed(bm: seq<byte>, s: seq<nat>, state: BlockState, c: nat)
    requires forall k :: 0 <= k < |s| ==> s[k] < 8 * |bm|
    requires c < 8 * |bm|
    ensures Used(MarkAll(bm, s, state), c) <==> if c in s then state == InUse else Used(bm, c)
    decreases |s|
  {
    if s != [] {
      MarkAllUsed(Mark(bm, s[0], state), s[1..], state, c);
      assert c in s <==> c == s[0] || c in s[1..];
    }
  }

  /** Marking one more address after the addresses of s. */
  lemma {:induction false} MarkAllSnoc(bm: seq<byte>, s: seq<nat>, x: nat, state: BlockState)
    requires forall k :: 0 <= k < |s| ==> s[k] < 8 * |bm|
    requires x < 8 * |bm|
    ensures MarkAll(bm, s + [x], state) == Mark(MarkAll(bm, s, state), x, state)
    decreases |s|
  {
    if s == [] {
      assert [] + [x] == [x];
    } else {
      assert (s + [x])[1..] == s[1..] + [x];
      MarkAllSnoc(Mark(bm, s[0], state), s[1..], x, state);
    }
  }

  /** Marking addresses of s leaves bitmap bytes alone that hold none of them. */
  lemma {:induction false} MarkAllBytes(bm: seq<byte>, s: seq<nat>, state: BlockState, i: nat)
    requires forall k :: 0 <= k < |s| ==> s[k] < 8 * |bm|
    requires i < |bm| && forall k :: 0 <= k < |s| ==> s[k] / 8 != i
    ensures MarkAll(bm, s, state)[i] == bm[i]
    decreases |s|
  {
    if s != [] {
      MarkAllBytes(Mark(bm, s[0], state), s[1..], state, i);
    }
  }

  /** getBitmap(disknum, bitmap): the bytes after the superblock header, read into a
      zeroed buffer. */
  function GetBitmap(d: Disk): (bm: seq<byte>)
    ensures |bm| == BITMAP_SIZE
  {
    Payload(ReadOr(d, SUPERBLOCK_ADDR, ZERO_BLOCK))
  }

  /** updateBitmap(bitmap): rewrite the superblock with the bitmap replaced. */
  function UpdateBitmap(d: Disk, bm: seq<byte>): (r: Disk)
    requires |bm| == BITMAP_SIZE
  {
    var block := ReadOr(d, SUPERBLOCK_ADDR, ZERO_BLOCK);
    WriteOr(d, SUPERBLOCK_ADDR, block[..4] + bm)
  }

  /** getBitmap after updateBitmap(bm) returns bm; the superblock header and every
      other block are as they were. */
  lemma BitmapRoundTrip(d: Disk, bm: seq<byte>)
    requires d.open && |bm| == BITMAP_SIZE
    ensures GetBitmap(UpdateBitmap(d, bm)) == bm
    ensures |d.blocks| > 0 ==> |UpdateBitmap(d, bm).blocks| == |d.blocks|
    ensures |d.blocks| > 0 ==> UpdateBitmap(d, bm).blocks[0][..4] == d.blocks[0][..4]
    ensures forall a :: 0 < a < |d.blocks| ==> UpdateBitmap(d, bm).blocks[a] == d.blocks[a]
  {
    var block := ReadOr(d, SUPERBLOCK_ADDR, ZERO_BLOCK);
    assert (block[..4] + bm)[4..] == bm;
  }

  /** DEFAULT_FIRST_BITMAP_BYTE 0xC0 followed by zeros marks exactly addresses 0 (the
      superblock) and 1 (the root inode) as used. */
  lemma DefaultBitmapMarks(a: nat)
    requires a < 8 * BITMAP_SIZE
    ensures Used(DEFAULT_BITMAP, a) <==> a < 2
  {
    if a >= 8 {
      assert DEFAULT_BITMAP[a / 8] == 0;
    } else {
      assert DEFAULT_BITMAP[a / 8] == 0xC0;
    }
  }

  // ---- the allocator ----

  /** The addresses below lim whose bit is clear, in ascending order: the order in
      which nextFreeBlock meets them. */
  function FreeBelow(bm: seq<byte>, lim: nat): (f: seq<nat>)
    requires lim <= 8 * |bm|
    ensures |f| <= lim
    decreases lim
  {
    if lim == 0 then [] else FreeBelow(bm, lim - 1) + (if Used(bm, lim - 1) then [] else [lim - 1])
  }

  /** A number is in FreeBelow(bm, lim) exactly when it is a free address below lim. */
  lemma {:induction false} FreeBelowMembers(bm: seq<byte>, lim: nat, x: nat)
    requires lim <= 8 * |bm|
    ensures x in FreeBelow(bm, lim) <==> x < lim && !Used(bm, x)
    decreases lim
  {
    if lim > 0 {
      FreeBelowMembers(bm, lim - 1, x);
      MemberStep(FreeBelow(bm, lim - 1), FreeBelow(bm, lim), lim - 1, Used(bm, lim - 1), x, x < lim && Used(bm, x));
    }
  }

  /** The members of f extended by y unless skip, where ux stands for "x is used". */
  lemma MemberStep(f: seq<nat>, g: seq<nat>, y: nat, skip: bool, x: nat, ux: bool)
    requires g == f + (if skip then [] else [y])
    requires x in f <==> x < y && !ux
    requires x == y ==> ux == skip
    ensures x in g <==> x < y + 1 && !ux
  {
  }

  /** FreeBelow is strictly increasing, so it lists each free address once. */
  lemma {:induction false} FreeBelowIncreasing(bm: seq<byte>, lim: nat)
    requires lim <= 8 * |bm|
    ensures forall i, j :: 0 <= i < j < |FreeBelow(bm, lim)| ==> FreeBelow(bm, lim)[i] < FreeBelow(bm, lim)[j]
    ensures forall i :: 0 <= i < |FreeBelow(bm, lim)| ==> FreeBelow(bm, lim)[i] < lim
    decreases lim
  {
    if lim > 0 {
      FreeBelowIncreasing(bm, lim - 1);
    }
  }

  /** Scanning further only appends: FreeBelow(bm, m) is a prefix of FreeBelow(bm, n). */
  lemma {:induction false} FreeBelowPrefix(bm: seq<byte>, m: nat, n: nat)
    requires m <= n <= 8 * |bm|
    ensures FreeBelow(bm, m) <= FreeBelow(bm, n)
    decreases n
  {
    if m < n {
      FreeBelowPrefix(bm, m, n - 1);
    }
  }

  /** The number of addresses the allocator may hand out: those the disk holds, and no
      more than one byte of link can name. */
  function Limit(d: Disk): (lim: nat)
    ensures lim <= |d.blocks| && lim <= MAX_NUM_BLOCKS && lim <= 8 * BITMAP_SIZE
  {
    Min(|d.blocks|, MAX_NUM_BLOCKS)
  }

  /** The free addresses of the disk in the order nextFreeBlock finds them. */
  function FreeList(d: Disk): (f: seq<nat>)
    ensures forall i :: 0 <= i < |f| ==> f[i] < Limit(d)
  {
    FreeBelowIncreasing(GetBitmap(d), Limit(d));
    FreeBelow(GetBitmap(d), Limit(d))
  }

  /** Writing a block other than the superblock leaves the free list as it was. */
  lemma FreeListAway(d: Disk, a: nat, b: Block)
    requires d.open && SUPERBLOCK_ADDR < a < |d.blocks|
    ensures FreeList(d.(blocks := d.blocks[a := b])) == FreeList(d)
  {
    var d' := d.(blocks := d.blocks[a := b]);
    assert ReadOr(d', SUPERBLOCK_ADDR, ZERO_BLOCK) == ReadOr(d, SUPERBLOCK_ADDR, ZERO_BLOCK);
  }

  /** Bit 7 - r of bitmap byte q records address 8 * q + r. */
  lemma UsedAt(bm: seq<byte>, q: nat, r: nat)
    requires q < |bm| && r < 8
    ensures 8 * q + r < 8 * |bm|
    ensures Used(bm, 8 * q + r) <==> GetBit(bm[q], 7 - r) == 1
  {
    AddressParts(q, r);
  }

  /** How many free addresses below lim a scan has met by position pos. */
  function Met(bm: seq<byte>, pos: nat, lim: nat): nat
    requires lim <= 8 * |bm|
  {
    |FreeBelow(bm, Min(pos, lim))|
  }

  /** One scan step over position pos = 8 * q + r, which bit 7 - r of byte q records: it
      is counted exactly when it lies below lim and its bit is clear. */
  lemma ScanStep(bm: seq<byte>, q: nat, r: nat, pos: nat, lim: nat)
    requires q < |bm| && r < 8 && pos == 8 * q + r && lim <= 8 * |bm|
    ensures Met(bm, pos + 1, lim)
            == Met(bm, pos, lim) + if pos < lim && GetBit(bm[q], 7 - r) == 0 then 1 else 0
  {
    AddressParts(q, r);
  }

  /** The free address met after skip others is element skip of the free list. */
  lemma ScanFound(bm: seq<byte>, q: nat, r: nat, pos: nat, lim: nat, skip: nat)
    requires q < |bm| && r < 8 && pos == 8 * q + r && pos < lim <= 8 * |bm|
    requires GetBit(bm[q], 7 - r) == 0 && Met(bm, pos, lim) == skip
    ensures skip < |FreeBelow(bm, lim)| && FreeBelow(bm, lim)[skip] == pos
  {
    UsedAt(bm, q, r);
    assert Min(pos, lim) == pos;
    FreeAt(bm, pos, lim, skip);
  }

  /** A free address with skip free addresses below it is element skip of the list. */
  lemma {:induction false} FreeAt(bm: seq<byte>, pos: nat, lim: nat, skip: nat)
    requires pos < lim <= 8 * |bm| && !Used(bm, pos) && |FreeBelow(bm, pos)| == skip
    ensures skip < |FreeBelow(bm, lim)| && FreeBelow(bm, lim)[skip] == pos
    decreases lim
  {
    if lim == pos + 1 {
      FreeLast(bm, pos);
    } else {
      FreeAt(bm, pos, lim - 1, skip);
      FreeKeeps(bm, lim, skip);
    }
  }

  /** Scanning one address further keeps every element already listed. */
  lemma FreeKeeps(bm: seq<byte>, n: nat, i: nat)
    requires 0 < n <= 8 * |bm| && i < |FreeBelow(bm, n - 1)|
    ensures i < |FreeBelow(bm, n)| && FreeBelow(bm, n)[i] == FreeBelow(bm, n - 1)[i]
  {
  }

  /** A free address is the last element of the free list that stops just above it. */
  lemma FreeLast(bm: seq<byte>, pos: nat)
    requires pos < 8 * |bm| && !Used(bm, pos)
    ensures |FreeBelow(bm, pos + 1)| == |FreeBelow(bm, pos)| + 1
    ensures FreeBelow(bm, pos + 1)[|FreeBelow(bm, pos)|] == pos
  {
    assert FreeBelow(bm, pos + 1) == FreeBelow(bm, pos) + [pos];
  }

  /** A scan past every position has met all of the free list. */
  lemma ScanDone(bm: seq<byte>, lim: nat)
    requires lim <= 8 * |bm|
    ensures Met(bm, 8 * |bm|, lim) == |FreeBelow(bm, lim)|
  {
  }

  /** Byte 4 + q of the superblock read by getBitmap is byte q of the bitmap. */
  lemma BitmapByte(d: Disk, q: nat)
    requires q < BITMAP_SIZE
    ensures ReadOr(d, SUPERBLOCK_ADDR, ZERO_BLOCK)[BITMAP_FIRST_ADDR + q] == GetBitmap(d)[q]
  {
  }

  /** The inner loop of nextFreeBlock over bitmap byte q, from bit 7 down to bit 0.
      It stops at the free address below lim met when `left` more are to be skipped;
      otherwise it returns the count still to skip. */
  method ScanByte(ghost bm: seq<byte>, value: byte, q: nat, lim: nat, left: int, ghost skip: int)
    returns (found: Option<nat>, rest: int)
    requires q < |bm| && bm[q] == value && lim <= 8 * |bm|
    requires left == skip - Met(bm, 8 * q, lim) && (skip < 0 || left >= 0)
    ensures found.Some? ==> 0 <= skip < |FreeBelow(bm, lim)| && FreeBelow(bm, lim)[skip] == found.value
    ensures found.None? ==> rest == skip - Met(bm, 8 * q + 8, lim) && (skip < 0 || rest >= 0)
  {
    rest := left;
    var inner := 7;
    ghost var pos := 8 * q;
    while inner >= 0
      invariant -1 <= inner <= 7 && pos == 8 * q + (7 - inner)
      invariant rest == skip - Met(bm, pos, lim)
      invariant skip < 0 || rest >= 0
    {
      var a := q * BITS_PER_BYTE + (7 - inner);
      ScanStep(bm, q, 7 - inner, pos, lim);
      if a < lim && GetBit(value, inner) == 0 {
        if rest == 0 {
          ScanFound(bm, q, 7 - inner, pos, lim, skip);
          return Some(a), rest;
        }
        rest := rest - 1;
      }
      inner := inner - 1;
      pos := pos + 1;
    }
    assert pos == 8 * q + 8;
    return None, rest;
  }

  /** nextFreeBlock(disknum, skip): the address of the free block that follows skip
      other free blocks, or ROOT_DIRECTORY_FULL. The scan is the source's, with the
      address computed as 8 * byte index + bit offset and addresses the disk does not
      hold passed over. */
  method NextFreeBlock(d: Disk, skip: int) returns (r: Result<nat>)
    ensures 0 <= skip < |FreeList(d)| ==> r == Ok(FreeList(d)[skip])
    ensures !(0 <= skip < |FreeList(d)|) ==> r == Err(RootDirectoryFull)
  {
    var block := ReadOr(d, SUPERBLOCK_ADDR, ZERO_BLOCK);
    ghost var bm := GetBitmap(d);
    var lim := Limit(d);
    var left := skip;
    var outer := BITMAP_FIRST_ADDR;
    while outer < BLOCKSIZE
      invariant BITMAP_FIRST_ADDR <= outer <= BLOCKSIZE
      invariant left == skip - Met(bm, 8 * (outer - BITMAP_FIRST_ADDR), lim)
      invariant skip < 0 || left >= 0
    {
      BitmapByte(d, outer - BITMAP_FIRST_ADDR);
      var found;
      found, left := ScanByte(bm, block[outer], outer - BITMAP_FIRST_ADDR, lim, left, skip);
      if found.Some? {
        return Ok(found.value);
      }
      outer := outer + 1;
    }
    ScanDone(bm, lim);
    return Err(RootDirectoryFull);
  }

  /** The address line 136 of nextFreeBlock computes for the free bit at scan position
      a: the byte index times sizeof(uchar), which is 1, plus the bit offset. */
  function AsWrittenAddress(a: nat): nat {
    a / 8 + a % 8
  }

  /** nextFreeBlock as written: it scans all 8 * BITMAP_SIZE bits, whether or not the
      disk holds the address, and returns AsWrittenAddress of the position it stops at. */
  function NextFreeAsWritten(bm: seq<byte>, skip: int): (r: Result<nat>)
    requires |bm| == BITMAP_SIZE
    ensures r.Ok? <==> 0 <= skip < |FreeBelow(bm, 8 * BITMAP_SIZE)|
  {
    var f := FreeBelow(bm, 8 * BITMAP_SIZE);
    if 0 <= skip < |f| then Ok(AsWrittenAddress(f[skip])) else Err(RootDirectoryFull)
  }

  /** The positions of the first nine bits of a fresh bitmap that are clear. */
  lemma DefaultFreeStart()
    ensures FreeBelow(DEFAULT_BITMAP, 9) == [2, 3, 4, 5, 6, 7, 8]
  {
    forall a | 0 <= a < 9 { DefaultBitmapMarks(a); }
    assert FreeBelow(DEFAULT_BITMAP, 2) == [];
  }

  /** On a fresh file system the seventh free block is address 8, but nextFreeBlock as
      written hands out address 1, the root inode. */
  lemma NextFreeAsWrittenHitsRoot()
    ensures |FreeBelow(DEFAULT_BITMAP, 8 * BITMAP_SIZE)| > 6
    ensures FreeBelow(DEFAULT_BITMAP, 8 * BITMAP_SIZE)[6] == 8
    ensures NextFreeAsWritten(DEFAULT_BITMAP, 6) == Ok(ROOT_ADDR)
  {
    DefaultFreeStart();
    FreeBelowPrefix(DEFAULT_BITMAP, 9, 8 * BITMAP_SIZE);
  }
}
