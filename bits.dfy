/** The single-bit macros GETBIT, SETBIT and CLRBIT of libTinyFS.h, on one byte.
    Bit 0 is the least significant bit. */
module Bits {
  import opened Layout

  /** 1 << bit, written out for each of the eight bit positions. */
  function Mask(bit: nat): byte
    requires bit < 8
  {
    if bit == 0 then 0x01 else if bit == 1 then 0x02 else if bit == 2 then 0x04
    else if bit == 3 then 0x08 else if bit == 4 then 0x10 else if bit == 5 then 0x20
    else if bit == 6 then 0x40 else 0x80
  }

  /** ~(1 << bit), written out likewise. */
  function Unmask(bit: nat): byte
    requires bit < 8
  {
    if bit == 0 then 0xFE else if bit == 1 then 0xFD else if bit == 2 then 0xFB
    else if bit == 3 then 0xF7 else if bit == 4 then 0xEF else if bit == 5 then 0xDF
    else if bit == 6 then 0xBF else 0x7F
  }

  /** The tables are the shifts the macros compute. */
  lemma MasksAreShifts(bit: nat)
    requires bit < 8
    ensures Mask(bit) == 1 << bit
    ensures Unmask(bit) == !(1 << bit)
  {
  }

  /** GETBIT(value, bit): the value of bit `bit`, 0 or 1. */
  function GetBit(value: byte, bit: nat): (r: byte)
    requires bit < 8
    ensures r == 0 || r == 1
  {
    if value & Mask(bit) == 0 then 0 else 1
  }

  /** SETBIT(value, bit): bit `bit` becomes 1 and every other bit keeps its value. */
  function SetBit(value: byte, bit: nat): (r: byte)
    requires bit < 8
    ensures GetBit(r, bit) == 1
    ensures forall c: nat :: c < 8 && c != bit ==> GetBit(r, c) == GetBit(value, c)
  {
    value | Mask(bit)
  }

  /** CLRBIT(value, bit): bit `bit` becomes 0 and every other bit keeps its value. */
  function ClrBit(value: byte, bit: nat): (r: byte)
    requires bit < 8
    ensures GetBit(r, bit) == 0
    ensures forall c: nat :: c < 8 && c != bit ==> GetBit(r, c) == GetBit(value, c)
  {
    value & Unmask(bit)
  }

  /** GetBit computes the shift expression of the GETBIT macro. */
  lemma GetBitIsMacro(value: byte, bit: nat)
    requires bit < 8
    ensures GetBit(value, bit) == (value >> bit) & 0x01
  {
  }

  /** SetBit computes the expression of the SETBIT macro. */
  lemma SetBitIsMacro(value: byte, bit: nat)
    requires bit < 8
    ensures SetBit(value, bit) == value | (1 << bit)
  {
    MasksAreShifts(bit);
  }

  /** ClrBit computes the expression of the CLRBIT macro. */
  lemma ClrBitIsMacro(value: byte, bit: nat)
    requires bit < 8
    ensures ClrBit(value, bit) == value & !(1 << bit)
  {
    MasksAreShifts(bit);
  }

  /** A byte is determined by its eight bits. */
  lemma BitsDetermineByte(x: byte, y: byte)
    requires forall c: nat :: c < 8 ==> GetBit(x, c) == GetBit(y, c)
    ensures x == y
  {
    assert GetBit(x, 0) == GetBit(y, 0) && GetBit(x, 1) == GetBit(y, 1);
    assert GetBit(x, 2) == GetBit(y, 2) && GetBit(x, 3) == GetBit(y, 3);
    assert GetBit(x, 4) == GetBit(y, 4) && GetBit(x, 5) == GetBit(y, 5);
    assert GetBit(x, 6) == GetBit(y, 6) && GetBit(x, 7) == GetBit(y, 7);
  }

  /** Setting or clearing a bit twice is the same as doing it once, and clearing a
      bit that was just set is the same as clearing it. */
  lemma SetClrIdempotent(value: byte, bit: nat)
    requires bit < 8
    ensures SetBit(SetBit(value, bit), bit) == SetBit(value, bit)
    ensures ClrBit(ClrBit(value, bit), bit) == ClrBit(value, bit)
    ensures ClrBit(SetBit(value, bit), bit) == ClrBit(value, bit)
    ensures SetBit(ClrBit(value, bit), bit) == SetBit(value, bit)
  {
  }

  /** A bit that is already 1 is left alone by SETBIT, one that is 0 by CLRBIT. */
  lemma SetClrNoop(value: byte, bit: nat)
    requires bit < 8
    ensures GetBit(value, bit) == 1 ==> SetBit(value, bit) == value
    ensures GetBit(value, bit) == 0 ==> ClrBit(value, bit) == value
  {
  }
}
