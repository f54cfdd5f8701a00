/** The hash-slot space and the immutable near-cache record
    (Beleriand.Core.LocalCacheEntry). */
module LocalCacheEntry {

  /** Number of slots of the freshness table. */
  const HashSlotCount: int := 16384

  /** A slot index: the range of `HashSlotCalculator.CalculateHashSlot`. */
  type Slot = s: int | 0 <= s < HashSlotCount

  /** `HashSlotCalculator.CalculateHashSlot`, left uninterpreted: any pure
      function from keys to slots. */
  type HashSlotCalculator = string -> Slot

  /** The runtime generic argument of a stored `LocalCacheEntry<T>`:
      `Typed` when it is the `T` a read asks for, `Untyped` when it is
      `object` (what batch `Set` stores). Reads are taken to be at a type
      other than `object`, so they trust `Typed` entries only. */
  datatype TypeArgument = Typed | Untyped

  /** `LocalCacheEntry<T>`: slot, write timestamp and data, fixed at
      construction (every property has a private setter and no member
      mutates one). */
  datatype Entry<T> = Entry(keyHashSlot: Slot, timestamp: int, data: T, typeArgument: TypeArgument)

}
