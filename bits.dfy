/** Bit access on port bytes, shared by the key scan and the display. */
module Bits {

  /** Bit j of the byte v is set (the line is driven or reads high). */
  predicate Bit(v: bv8, j: nat)
    requires j < 8
  {
    (v >> j) & 1 == 1
  }
}
