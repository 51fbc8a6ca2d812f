/**
 * The 64-bit encoded offset: a 3-bit flag on top, a 48-bit payload at the bottom.  Shifts
 * and masks are written as multiplication, division and remainder by powers of two.
 */
module Offset {
  import opened Base

  const FLAG_UNIT: nat := 0x2000_0000_0000_0000 // 2^61
  const SLOT_UNIT: nat := 0x1000_0000           // 2^28
  const SEGMENT_UNIT: nat := 0x10_0000          // 2^20
  const PAYLOAD_UNIT: nat := 0x1_0000_0000_0000 // 2^48

  const FILE_OFFSET: nat := 0
  const SEGMENT_SLOT: nat := 1
  const MEMORY: nat := 2

  type SegId = n: nat | n < SEGMENT_UNIT
  type SlotId = n: nat | n < SLOT_UNIT

  function EncodeSlot(seg: SegId, slot: SlotId): (e: U64) {
    SEGMENT_SLOT * FLAG_UNIT + (seg * SLOT_UNIT + slot)
  }

  function EncodeFile(offset: nat): (e: U64)
    requires offset < PAYLOAD_UNIT
  {
    FILE_OFFSET * FLAG_UNIT + offset
  }

  function EncodeMemory(address: nat): (e: U64)
    requires address < PAYLOAD_UNIT
  {
    MEMORY * FLAG_UNIT + address
  }

  function Flag(e: U64): nat {
    e / FLAG_UNIT % 8
  }

  function SegmentOf(e: U64): SegId {
    e / SLOT_UNIT % SEGMENT_UNIT
  }

  function SlotOf(e: U64): SlotId {
    e % SLOT_UNIT
  }

  function PayloadOf(e: U64): nat {
    e % PAYLOAD_UNIT
  }

  /** Whether an encoded offset is exactly what some segment and slot encode to. */
  predicate IsSlot(e: U64) {
    Flag(e) == SEGMENT_SLOT && e == EncodeSlot(SegmentOf(e), SlotOf(e))
  }

  /** Decoding recovers flag, segment and slot. */
  lemma SlotRoundTrip(seg: SegId, slot: SlotId)
    ensures Flag(EncodeSlot(seg, slot)) == SEGMENT_SLOT
    ensures SegmentOf(EncodeSlot(seg, slot)) == seg
    ensures SlotOf(EncodeSlot(seg, slot)) == slot
    ensures IsSlot(EncodeSlot(seg, slot))
  {
  }

  /** The three tiers never share an encoding, and each keeps its payload. */
  lemma TiersAreDisjoint(seg: SegId, slot: SlotId, offset: nat, address: nat)
    requires offset < PAYLOAD_UNIT && address < PAYLOAD_UNIT
    ensures Flag(EncodeFile(offset)) == FILE_OFFSET && PayloadOf(EncodeFile(offset)) == offset
    ensures Flag(EncodeMemory(address)) == MEMORY && PayloadOf(EncodeMemory(address)) == address
    ensures EncodeSlot(seg, slot) != EncodeFile(offset)
    ensures EncodeSlot(seg, slot) != EncodeMemory(address)
    ensures EncodeFile(offset) != EncodeMemory(address)
  {
  }
}
