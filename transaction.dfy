/**
 * The encoded transaction word: the 32-bit snapshot of the bus pins that the
 * bus sampler hands over once per completed read or write, and the field
 * extraction the dispatch loop applies to it (bit 0 is the least significant).
 *
 *   bits 0-1   reserved
 *   bit  2     /R    clear for a read, set for a write
 *   bit  3     /W    write strobe (informational)
 *   bit  4     /CS   chip select (informational)
 *   bits 5-7   reserved
 *   bits 8-22  address, 15 bits
 *   bits 23-30 data, 8 bits
 *   bit  31    reserved
 */
module Transaction {

  /** Number of byte cells of the emulated memory: a 15-bit address space. */
  const Size: nat := 32768

  /** A cell index of the memory. */
  type Address = i: nat | i < Size

  /** A decoded transaction: the address, the data byte and the direction. */
  datatype Access = Access(adr: Address, data: bv8, write: bool)

  /** OPADR: the 15-bit address field of the word (0x007f_ff00 is that field in place). */
  function OpAddress(op: bv32): (a: bv32)
    ensures a < 0x8000
    ensures a << 8 == op & 0x007f_ff00
  {
    (op >> 8) & 0x7fff
  }

  /** OPDATA: the 8-bit data field of the word (0x7f80_0000 is that field in place). */
  function OpData(op: bv32): (d: bv32)
    ensures d < 0x100
    ensures d << 23 == op & 0x7f80_0000
  {
    (op >> 23) & 0xff
  }

  /**
   * The address field as an index into the memory. It is always in range, so
   * the access needs no check; it also fits the loop's 16-bit variable.
   */
  function Adr(op: bv32): (i: nat)
    ensures i < Size
  {
    var a := OpAddress(op) as bv15;
    a as int
  }

  /** The data field as the byte stored into a memory cell. */
  function DataByte(op: bv32): (b: bv8)
    ensures b as bv32 == OpData(op)
  {
    OpData(op) as bv8
  }

  /** The /R test: the transaction is a write exactly when bit 2 is set. */
  function IsWrite(op: bv32): (w: bool)
    ensures w <==> (op >> 2) & 1 == 1
  {
    op & 0x04 != 0
  }

  /**
   * The decoder: the triple the dispatch loop acts on. Any word decodes, to
   * the fields the macros and the /R test extract.
   */
  function Decode(op: bv32): Access
  {
    Access(Adr(op), DataByte(op), IsWrite(op))
  }

  /** /W as the debug trace reports it: bit 3. */
  function WriteStrobe(op: bv32): (s: bool)
    ensures s <==> (op >> 3) & 1 == 1
  {
    op & 0x08 != 0
  }

  /** /CS as the debug trace reports it: bit 4. */
  function ChipSelect(op: bv32): (s: bool)
    ensures s <==> (op >> 4) & 1 == 1
  {
    op & 0x10 != 0
  }

  /**
   * The sampler's side of the contract: the word carrying an address, a data
   * value and the direction. Each field is cut to its width first, so an
   * over-wide value is reduced modulo the field width and never spills into
   * a neighbouring field; every bit outside /R, the address and the data
   * (the mask 0x7fff_ff04) is left clear.
   */
  function Encode(adr: bv32, data: bv32, write: bool): (op: bv32)
    ensures op & 0x7fff_ff04 == op
  {
    ((adr & 0x7fff) << 8) | ((data & 0xff) << 23) | (if write then 0x04 else 0)
  }

  /** Field masking: an over-wide address or data value decodes to its low 15 or 8 bits. */
  lemma EncodeMasksFields(adr: bv32, data: bv32, write: bool)
    ensures OpAddress(Encode(adr, data, write)) == adr & 0x7fff
    ensures OpData(Encode(adr, data, write)) == data & 0xff
    ensures IsWrite(Encode(adr, data, write)) == write
  {
  }

  /** Decoding recovers exactly the fields a word was built from. */
  lemma DecodeEncode(adr: bv32, data: bv32, write: bool)
    requires adr < 0x8000 && data < 0x100
    ensures OpAddress(Encode(adr, data, write)) == adr
    ensures OpData(Encode(adr, data, write)) == data
    ensures IsWrite(Encode(adr, data, write)) == write
  {
  }

  /** Re-encoding the decoded fields gives back the word without its ignored bits. */
  lemma EncodeDecode(op: bv32)
    ensures Encode(OpAddress(op), OpData(op), IsWrite(op)) == op & 0x7fff_ff04
  {
  }

  /**
   * With in-range fields the plain pin placement (adr << 8) | (data << 23) | (w << 2)
   * is the same word as Encode.
   */
  lemma EncodeIsPinPlacement(adr: bv32, data: bv32, w: bv32)
    requires adr < 0x8000 && data < 0x100 && w <= 1
    ensures Encode(adr, data, w == 1) == (adr << 8) | (data << 23) | (w << 2)
  {
  }

  /**
   * The decoded fields depend on the bits under 0x7fff_ff04 alone: /W, /CS and the
   * reserved bits 0, 1, 5-7 and 31 have no influence.
   */
  lemma DecodeIgnoresOtherBits(op1: bv32, op2: bv32)
    requires op1 & 0x7fff_ff04 == op2 & 0x7fff_ff04
    ensures OpAddress(op1) == OpAddress(op2)
    ensures OpData(op1) == OpData(op2)
    ensures IsWrite(op1) == IsWrite(op2)
  {
  }
}
