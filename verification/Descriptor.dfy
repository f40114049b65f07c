/** The 64-bit stage-2 descriptor and the accessors of `Descriptor`.

    Every mask of the source either covers bits 12 to 49 exactly (the output address and the
    next-level table address) or lies inside bits 0 to 11 (type, attributes, permission,
    shareability, access flag). A descriptor word is therefore kept split at those two boundaries:
    the address field as a page number and the bits below and above it as bit vectors. */
module Descriptor {
  const PAGE_SIZE: nat := 0x1000
  /** Output and table addresses occupy bits 12 to 49. */
  const ADDRESS_LIMIT: nat := 0x4_0000_0000_0000

  const AF: bv12 := 0x400
  const SH: bv12 := 0x300
  const S2AP: bv12 := 0x0C0
  const ATTR_INDEX: bv12 := 0x03C
  const INNER_SHAREABLE: bv12 := 0x300
  const ATTR_WRITE_BACK: bv12 := 0x03C

  datatype Word = Word(high: bv14, page: nat, low: bv12)

  const ZERO := Word(0, 0, 0)

  /** `self.0 & OUTPUT_ADDRESS_MASK`; the table-address mask is the same field. */
  function OutputAddress(w: Word): (a: nat)
    ensures a % PAGE_SIZE == 0
  {
    w.page * PAGE_SIZE
  }

  /** The 64-bit word in memory. */
  function Value(w: Word): nat {
    (w.high as nat) * 0x4_0000_0000_0000 + w.page * 0x1000 + w.low as nat
  }

  /** Bit 0 makes a descriptor valid; bit 1 makes it a table, or a page at level 3, and not a block. */
  predicate IsTable(w: Word): (b: bool)
    ensures b <==> w.low & 1 == 1 && w.low & 2 == 2
  {
    w.low & 3 == 3
  }

  predicate IsBlock(w: Word): (b: bool)
    ensures b <==> w.low & 1 == 1 && w.low & 2 == 0
  {
    w.low & 3 == 1
  }

  // ------------------------------------------------------------------ a leaf as the MMU reads it

  datatype Rights = Rights(read: bool, write: bool, execute: bool)

  /** S2AP is bits 7 and 6; memory is executable at EL1 and EL0 when XN, bits 54 and 53, is clear. */
  function RightsOf(w: Word): Rights {
    Rights(w.low & 0x040 != 0, w.low & 0x080 != 0, w.high & 0x18 == 0)
  }

  /** The access flag, bit 10: without it a leaf faults. */
  predicate Accessible(w: Word) { w.low & 0x400 != 0 }

  /** Every other bit that means something in a leaf: memory type and shareability in bits 5 to 2 and 9 to 8, and the
      bits 11, 50 to 52 and 55 to 63. */
  datatype Attributes = Attributes(high: bv14, low: bv12)

  function AttributesOf(w: Word): Attributes { Attributes(w.high & 0x3FE7, w.low & 0xB3C) }

  /** Inner shareable, write-back inside and outside, and nothing else. */
  const NORMAL_MEMORY := Attributes(0, 0x33C)

  /** An address that lies wholly inside the output-address field. */
  predicate IsPageAddress(a: nat) { a % PAGE_SIZE == 0 && a < ADDRESS_LIMIT }

  function SetOutputAddress(w: Word, a: nat): Word
    requires IsPageAddress(a)
  {
    w.(page := a / PAGE_SIZE, low := w.low | AF)
  }

  function SetPermission(w: Word, permission: bv2): Word {
    w.(low := (w.low & !S2AP) | ((permission as bv12) << 6))
  }

  function SetWriteBack(w: Word): Word {
    w.(low := (w.low & !ATTR_INDEX) | ATTR_WRITE_BACK)
  }

  function SetInnerShareable(w: Word): Word {
    w.(low := (w.low & !SH) | INNER_SHAREABLE)
  }

  function ValidateAsPageOrTable(w: Word): Word { w.(low := w.low | 3) }

  function ValidateAsBlock(w: Word): Word { w.(low := w.low | 1) }

  /** The chain of setters that both leaf branches of the table writer apply to a zeroed descriptor. */
  function LeafFields(a: nat, permission: bv2): Word
    requires IsPageAddress(a)
  {
    SetInnerShareable(SetWriteBack(SetPermission(SetOutputAddress(ZERO, a), permission)))
  }

  /** Address, permission, access flag, inner shareable write-back memory, page; every other bit is zero. */
  function PageDescriptor(a: nat, permission: bv2): (w: Word)
    requires IsPageAddress(a)
    ensures Value(w) == a + 0x73F + 0x40 * (permission as nat) < 0x4_0000_0000_0000
    ensures IsTable(w) && OutputAddress(w) == a && Accessible(w) && AttributesOf(w) == NORMAL_MEMORY
    ensures RightsOf(w) == Rights(permission & 1 == 1, permission & 2 == 2, true)
  {
    ValidateAsPageOrTable(LeafFields(a, permission))
  }

  /** The same as a block. */
  function BlockDescriptor(a: nat, permission: bv2): (w: Word)
    requires IsPageAddress(a)
    ensures Value(w) == a + 0x73D + 0x40 * (permission as nat) < 0x4_0000_0000_0000
    ensures IsBlock(w) && OutputAddress(w) == a && Accessible(w) && AttributesOf(w) == NORMAL_MEMORY
    ensures RightsOf(w) == Rights(permission & 1 == 1, permission & 2 == 2, true)
  {
    ValidateAsBlock(LeafFields(a, permission))
  }

  function TableDescriptor(a: nat): (w: Word)
    requires IsPageAddress(a)
    ensures IsTable(w) && OutputAddress(w) == a && Value(w) == a + 0x403
  {
    ValidateAsPageOrTable(SetOutputAddress(ZERO, a))
  }
}
