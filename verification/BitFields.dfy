/** Parts of 32-bit words. */
module BitFields {

  function Masked(w: bv32, mask: bv32): bv32 {
    w & mask
  }

  function Without(w: bv32, mask: bv32): bv32 {
    w & !mask
  }

  /** `bits`, which lie under `mask`, in place of what `w` has there. */
  function Replaced(w: bv32, mask: bv32, bits: bv32): bv32 {
    Without(w, mask) | bits
  }
}
