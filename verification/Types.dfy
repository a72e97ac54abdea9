/** Keys, values and addresses (include/Types.h, include/GlobalAddress.h). */
module Types {
  const KEY_MAX: nat := 0xFFFF_FFFF_FFFF_FFFF
  const PAGE_SIZE: nat := 1024

  /** uint64_t keys and values; std::numeric_limits<Key>::min() is 0 and ::max() is KEY_MAX. */
  type Key = k: nat | k <= KEY_MAX
  type Value = v: nat | v <= KEY_MAX

  /** A backend address: a 16-bit node number and a 48-bit byte offset. */
  datatype GlobalAddress = GlobalAddress(nodeID: nat, offset: nat)

  /** The number of a page-sized slot in the buffer pool, standing for the slot's address. */
  type FrameId = nat

  datatype Entry = Entry(key: Key, value: Value)

  datatype Option<+T> = None | Some(value: T)

  const TWO_16: nat := 0x1_0000
  const TWO_47: nat := 0x8000_0000_0000
  const TWO_48: nat := 0x1_0000_0000_0000
  const TWO_63: nat := 0x8000_0000_0000_0000

  const TWO_64: nat := TWO_48 * TWO_16

  /** What std::_Hash_bytes returns; which value it gives an address is left open. */
  type Hash = h: nat | h < TWO_64

  /** GlobalAddress::val: nodeID in the low 16 bits, offset in the high 48. */
  function Val(a: GlobalAddress): nat {
    a.offset * TWO_16 + a.nodeID
  }

  /** A child slot holds either a backend address or SWIZZLE_TAG | the address of a pool frame. */
  datatype Slot = Untagged(addr: GlobalAddress) | Tagged(frame: FrameId)

  /** The 64-bit word stored for a slot. */
  function Encode(s: Slot): nat {
    match s
    case Untagged(a) => Val(a)
    case Tagged(f) => TWO_63 + f
  }

  /** Reading the word back: bit 63 is SWIZZLE_TAG, the rest is SWIZZLE_HIDE. */
  function Decode(w: nat): Slot {
    if w >= TWO_63 then Tagged(w - TWO_63) else Untagged(GlobalAddress(w % TWO_16, w / TWO_16))
  }

  /** Offsets below 2^47 never set bit 63, and pool addresses never reach it. */
  predicate Encodable(s: Slot) {
    match s
    case Untagged(a) => a.nodeID < TWO_16 && a.offset < TWO_47
    case Tagged(f) => f < TWO_63
  }

  /** The tag bit separates the two kinds of slot, and neither kind loses a bit. */
  lemma SlotRoundTrip(s: Slot)
    requires Encodable(s)
    ensures Encode(s) < 2 * TWO_63
    ensures Encode(s) >= TWO_63 <==> s.Tagged?
    ensures Decode(Encode(s)) == s
  {
    if s.Untagged? {
      assert Val(s.addr) / TWO_16 == s.addr.offset && Val(s.addr) % TWO_16 == s.addr.nodeID;
    }
  }

  /** An offset of 2^47 or more is taken for a swizzled pointer, so the bound is exact. */
  lemma TagNeedsSmallOffsets(a: GlobalAddress)
    requires a.nodeID < TWO_16 && a.offset < TWO_48
    ensures Decode(Val(a)) == Untagged(a) <==> a.offset < TWO_47
  {
    if a.offset < TWO_47 {
      SlotRoundTrip(Untagged(a));
    }
  }
}
