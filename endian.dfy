/** Byte order: the SWAP_ENDIAN_INT and SWAP_ENDIAN_LONG macros of TinyFS.h, and the
    big-endian encoding the disk uses for the inode's size and timestamp fields. */
module Endian {
  import opened Layout

  /** SWAP_ENDIAN_INT: reverse the four bytes of a 32-bit word. */
  function SwapEndianInt(x: bv32): bv32 {
    ((x & 0xFF000000) >> 24) |
    ((x & 0x00FF0000) >> 8) |
    ((x & 0x0000FF00) << 8) |
    ((x & 0x000000FF) << 24)
  }

  /** SWAP_ENDIAN_LONG: reverse the eight bytes of a 64-bit word. */
  function SwapEndianLong(x: bv64): bv64 {
    ((x & 0xFF00000000000000) >> 56) |
    ((x & 0x00FF000000000000) >> 40) |
    ((x & 0x0000FF0000000000) >> 24) |
    ((x & 0x000000FF00000000) >> 8) |
    ((x & 0x00000000FF000000) << 8) |
    ((x & 0x0000000000FF0000) << 24) |
    ((x & 0x000000000000FF00) << 40) |
    ((x & 0x00000000000000FF) << 56)
  }

  /** Byte i of a 32-bit word, byte 0 being the least significant. */
  function ByteOf32(x: bv32, i: nat): byte
    requires i < 4
  {
    if i == 0 then (x & 0xFF) as bv8
    else if i == 1 then ((x >> 8) & 0xFF) as bv8
    else if i == 2 then ((x >> 16) & 0xFF) as bv8
    else (x >> 24) as bv8
  }

  /** Byte i of a 64-bit word, byte 0 being the least significant. */
  function ByteOf64(x: bv64, i: nat): byte
    requires i < 8
  {
    if i == 0 then (x & 0xFF) as bv8
    else if i == 1 then ((x >> 8) & 0xFF) as bv8
    else if i == 2 then ((x >> 16) & 0xFF) as bv8
    else if i == 3 then ((x >> 24) & 0xFF) as bv8
    else if i == 4 then ((x >> 32) & 0xFF) as bv8
    else if i == 5 then ((x >> 40) & 0xFF) as bv8
    else if i == 6 then ((x >> 48) & 0xFF) as bv8
    else (x >> 56) as bv8
  }

  /** The bytes of a 32-bit word in memory on a little-endian host (what memcpy copies). */
  function HostBytes32(x: bv32): (s: seq<byte>)
    ensures |s| == 4 && forall i :: 0 <= i < 4 ==> s[i] == ByteOf32(x, i)
  {
    [ByteOf32(x, 0), ByteOf32(x, 1), ByteOf32(x, 2), ByteOf32(x, 3)]
  }

  /** The bytes of a 64-bit word in memory on a little-endian host. */
  function HostBytes64(x: bv64): (s: seq<byte>)
    ensures |s| == 8 && forall i :: 0 <= i < 8 ==> s[i] == ByteOf64(x, i)
  {
    [ByteOf64(x, 0), ByteOf64(x, 1), ByteOf64(x, 2), ByteOf64(x, 3),
     ByteOf64(x, 4), ByteOf64(x, 5), ByteOf64(x, 6), ByteOf64(x, 7)]
  }

  /** s back to front. */
  function Reverse(s: seq<byte>): seq<byte> {
    seq(|s|, i requires 0 <= i < |s| => s[|s| - 1 - i])
  }

  /** SWAP_ENDIAN_INT undoes itself. */
  lemma SwapEndianIntInvolution(x: bv32)
    ensures SwapEndianInt(SwapEndianInt(x)) == x
  {
  }

  /** SWAP_ENDIAN_LONG undoes itself. */
  lemma SwapEndianLongInvolution(x: bv64)
    ensures SwapEndianLong(SwapEndianLong(x)) == x
  {
  }

  /** SWAP_ENDIAN_INT moves byte i to byte 3 - i. */
  lemma SwapEndianIntBytes(x: bv32)
    ensures var y := SwapEndianInt(x);
            ByteOf32(y, 0) == ByteOf32(x, 3) && ByteOf32(y, 1) == ByteOf32(x, 2) &&
            ByteOf32(y, 2) == ByteOf32(x, 1) && ByteOf32(y, 3) == ByteOf32(x, 0)
  {
  }

  /** SWAP_ENDIAN_LONG moves byte i to byte 7 - i: the low half ... */
  lemma SwapEndianLongLowBytes(x: bv64)
    ensures var y := SwapEndianLong(x);
            ByteOf64(y, 0) == ByteOf64(x, 7) && ByteOf64(y, 1) == ByteOf64(x, 6) &&
            ByteOf64(y, 2) == ByteOf64(x, 5) && ByteOf64(y, 3) == ByteOf64(x, 4)
  {
  }

  /** ... and the high half. */
  lemma SwapEndianLongHighBytes(x: bv64)
    ensures var y := SwapEndianLong(x);
            ByteOf64(y, 4) == ByteOf64(x, 3) && ByteOf64(y, 5) == ByteOf64(x, 2) &&
            ByteOf64(y, 6) == ByteOf64(x, 1) && ByteOf64(y, 7) == ByteOf64(x, 0)
  {
  }

  /** Copying the swapped word out of memory on a little-endian host lays the bytes
      down most significant first: the swap turns host order into disk order. */
  lemma SwapEndianIntReverses(x: bv32)
    ensures HostBytes32(SwapEndianInt(x)) == Reverse(HostBytes32(x))
  {
    SwapEndianIntBytes(x);
  }

  lemma SwapEndianLongReverses(x: bv64)
    ensures HostBytes64(SwapEndianLong(x)) == Reverse(HostBytes64(x))
  {
    SwapEndianLongLowBytes(x);
    SwapEndianLongHighBytes(x);
    ReversedBytes64(x, SwapEndianLong(x));
  }

  /** A word whose byte i is byte 7 - i of x lies in memory as x's bytes reversed. */
  lemma ReversedBytes64(x: bv64, y: bv64)
    requires ByteOf64(y, 0) == ByteOf64(x, 7) && ByteOf64(y, 1) == ByteOf64(x, 6) &&
             ByteOf64(y, 2) == ByteOf64(x, 5) && ByteOf64(y, 3) == ByteOf64(x, 4)
    requires ByteOf64(y, 4) == ByteOf64(x, 3) && ByteOf64(y, 5) == ByteOf64(x, 2) &&
             ByteOf64(y, 6) == ByteOf64(x, 1) && ByteOf64(y, 7) == ByteOf64(x, 0)
    ensures HostBytes64(y) == Reverse(HostBytes64(x))
  {
  }

  function Pow256(w: nat): (p: nat)
    ensures p >= 1
  {
    if w == 0 then 1 else 256 * Pow256(w - 1)
  }

  lemma Pow256Values()
    ensures Pow256(4) == 0x1_0000_0000
    ensures Pow256(8) == 0x1_0000_0000_0000_0000
  {
    assert Pow256(2) == 0x1_0000;
    assert Pow256(4) == 0x1_0000_0000;
    assert Pow256(6) == 0x1_0000_0000_0000;
  }

  /** The `width` low-order bytes of n, most significant first (n taken modulo 256^width,
      which is the two's-complement pattern when n is negative). */
  function EncodeBE(n: int, width: nat): (s: seq<byte>)
    ensures |s| == width
    decreases width
  {
    if width == 0 then [] else EncodeBE(n / 256, width - 1) + [ToByte(n % 256)]
  }

  /** The unsigned value of a big-endian byte string. */
  function DecodeBE(s: seq<byte>): (n: nat)
    ensures n < Pow256(|s|)
  {
    if s == [] then 0 else DecodeBE(s[..|s| - 1]) * 256 + s[|s| - 1] as int
  }

  lemma DivBound(n: nat, p: nat)
    requires n < 256 * p
    ensures n / 256 < p
  {
  }

  lemma {:induction false} DecodeEncodeBE(n: nat, width: nat)
    requires n < Pow256(width)
    ensures DecodeBE(EncodeBE(n, width)) == n
  {
    if width > 0 {
      var s := EncodeBE(n, width);
      assert s[..width - 1] == EncodeBE(n / 256, width - 1);
      DivBound(n, Pow256(width - 1));
      DecodeEncodeBE(n / 256, width - 1);
      var low := n % 256;
      ToByteValue(low);
      assert s[width - 1] as int == low;
      assert DecodeBE(s) == DecodeBE(s[..width - 1]) * 256 + low;
    }
  }

  /** A C `int` (32 bits, two's complement) as four big-endian bytes. */
  function EncodeInt32(n: int): (s: seq<byte>)
    ensures |s| == 4
  {
    EncodeBE(n % 0x1_0000_0000, 4)
  }

  /** Four big-endian bytes read back as a C `int`. */
  function DecodeInt32(s: seq<byte>): (n: int)
    requires |s| == 4
    ensures -0x8000_0000 <= n < 0x8000_0000
  {
    var u := DecodeBE(s);
    Pow256Values();
    if u < 0x8000_0000 then u else u - 0x1_0000_0000
  }

  /** A 64-bit `time_t` as eight big-endian bytes. */
  function EncodeInt64(t: int): (s: seq<byte>)
    ensures |s| == 8
  {
    EncodeBE(t % 0x1_0000_0000_0000_0000, 8)
  }

  function DecodeInt64(s: seq<byte>): (t: int)
    requires |s| == 8
    ensures -0x8000_0000_0000_0000 <= t < 0x8000_0000_0000_0000
  {
    var u := DecodeBE(s);
    Pow256Values();
    if u < 0x8000_0000_0000_0000 then u else u - 0x1_0000_0000_0000_0000
  }

  /** Every C `int` survives the trip through the four disk bytes. */
  lemma Int32RoundTrip(n: int)
    requires -0x8000_0000 <= n < 0x8000_0000
    ensures DecodeInt32(EncodeInt32(n)) == n
  {
    Pow256Values();
    var u := n % 0x1_0000_0000;
    DecodeEncodeBE(u, 4);
    assert DecodeBE(EncodeInt32(n)) == u;
    assert n >= 0 ==> u == n;
    assert n < 0 ==> u == n + 0x1_0000_0000;
  }

  /** Every 64-bit timestamp survives the trip through the eight disk bytes. */
  lemma Int64RoundTrip(t: int)
    requires -0x8000_0000_0000_0000 <= t < 0x8000_0000_0000_0000
    ensures DecodeInt64(EncodeInt64(t)) == t
  {
    Pow256Values();
    var u := t % 0x1_0000_0000_0000_0000;
    DecodeEncodeBE(u, 8);
    assert DecodeBE(EncodeInt64(t)) == u;
    assert t >= 0 ==> u == t;
    assert t < 0 ==> u == t + 0x1_0000_0000_0000_0000;
  }
}
