/** Bits, bytes and bit strings. A code word is a sequence of bits; the
    character strings of '0' and '1' the program builds are modelled as
    sequences of the digits 0 and 1. */
module Bits {

  type Bit = b: int | 0 <= b <= 1

  type Byte = b: int | 0 <= b < 256

  type Code = seq<Bit>

  /** `p` is a (not necessarily proper) prefix of `s`. */
  predicate IsPrefix<T(==)>(p: seq<T>, s: seq<T>) {
    |p| <= |s| && s[..|p|] == p
  }
}
