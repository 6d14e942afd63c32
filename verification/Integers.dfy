/** The ranges of the fixed-width integers that occur in the source. */
module Integers {

  predicate FitsI8(n: int) { -0x80 <= n < 0x80 }

  predicate FitsU32(n: int) { 0 <= n < 0x1_0000_0000 }

  predicate FitsI64(n: int) { -0x8000_0000_0000_0000 <= n < 0x8000_0000_0000_0000 }

  predicate FitsU64(n: int) { 0 <= n < 0x1_0000_0000_0000_0000 }
}
