/**
 * Single-bit reads and masked writes on the 32-bit flag word and the 8-bit
 * NIC supplement words of an aircraft record. Bit positions are bit-vectors
 * themselves (`bv5` for a 32-bit word, `bv3` for a byte), so every shift is
 * in range by its type. "Every other bit stays" is stated as one masked
 * equation, `r & ~(1 << i) == w & ~(1 << i)`.
 */
module Bits {

  /** Bit `i` of a 32-bit word: `w & (1 << i)` is non-zero. */
  predicate Bit32(w: bv32, i: bv5)
  {
    w & (1 << i) != 0
  }

  /** `value ? w | (1 << i) : w & ~(1 << i)`: bit `i` becomes `value`. */
  function WriteBit32(w: bv32, i: bv5, value: bool): (r: bv32)
    ensures Bit32(r, i) == value
  {
    if value then w | (1 << i) else w & !(1 << i)
  }

  /** Writing a bit the value it already holds leaves the word as it is, and only then. */
  lemma WriteBit32Unchanged(w: bv32, i: bv5, value: bool)
    ensures WriteBit32(w, i, value) == w <==> Bit32(w, i) == value
  {
    if value {
    } else {
    }
  }

  /** `WriteBit32` changes no bit other than bit `i`. */
  lemma WriteBit32KeepsOthers(w: bv32, i: bv5, value: bool)
    ensures WriteBit32(w, i, value) & !(1 << i) == w & !(1 << i)
  {
    if value {
    } else {
    }
  }

  /** `w & ~(~0 << k)`: bit `k` and every bit above it are cleared. */
  function KeepBelow32(w: bv32, k: bv5): (r: bv32)
    ensures r & (0xFFFF_FFFF << k) == 0
  {
    w & !(0xFFFF_FFFF << k)
  }

  /** `KeepBelow32` changes no bit below `k`. */
  lemma KeepBelow32KeepsLow(w: bv32, k: bv5)
    ensures KeepBelow32(w, k) & !(0xFFFF_FFFF << k) == w & !(0xFFFF_FFFF << k)
  {
  }

  /** Bit `i` of a byte. */
  predicate Bit8(w: bv8, i: bv3)
  {
    w & (1 << i) != 0
  }

  /** `value ? w | (1 << i) : w & ~(1 << i)` on a byte: bit `i` becomes `value`. */
  function WriteBit8(w: bv8, i: bv3, value: bool): (r: bv8)
    ensures Bit8(r, i) == value
  {
    if value then w | (1 << i) else w & !(1 << i)
  }

  /** `WriteBit8` leaves every bit `j != i` as it was. */
  lemma WriteBit8KeepsOther(w: bv8, i: bv3, value: bool, j: bv3)
    requires j != i
    ensures Bit8(WriteBit8(w, i, value), j) == Bit8(w, j)
  {
  }

  /** The latching write `w | (1 << i)`: bit `i` becomes set. */
  function SetBit8(w: bv8, i: bv3): (r: bv8)
    ensures Bit8(r, i)
  {
    w | (1 << i)
  }

  /** `SetBit8` leaves every bit `j != i` as it was. */
  lemma SetBit8KeepsOther(w: bv8, i: bv3, j: bv3)
    requires j != i
    ensures Bit8(SetBit8(w, i), j) == Bit8(w, j)
  {
  }

  /** `SetBit8` never clears a bit. */
  lemma SetBit8Monotone(w: bv8, i: bv3)
    ensures SetBit8(w, i) & w == w
  {
  }
}
