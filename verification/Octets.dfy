/** Bytes, as numbers and as parts of words. */
module Octets {
  type Byte = b: int | 0 <= b < 256
  type Bytes = seq<Byte>

  lemma Assoc(a: Bytes, b: Bytes, c: Bytes)
    ensures a + (b + c) == a + b + c
  {
  }

  /** The word whose bytes are these, least significant first. */
  function Join(a: bv8, b: bv8, c: bv8, d: bv8): bv32 {
    (a as bv32) | ((b as bv32) << 8) | ((c as bv32) << 16) | ((d as bv32) << 24)
  }

  function ByteOf(x: bv32, shift: bv32): bv8
    requires shift <= 24
  {
    ((x >> shift) & 0xFF) as bv8
  }
}
