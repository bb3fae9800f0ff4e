/** UTF-16 text, as C# strings hold it, and 32-bit bitmasks. */
module Utf16 {

  /** One UTF-16 code unit (a C# `char`). */
  type CodeUnit = x: int | 0 <= x < 0x1_0000

  /** A C# string: a sequence of code units, surrogate pairs not combined. */
  type Text16 = seq<CodeUnit>

  predicate IsHighSurrogate(u: CodeUnit) { 0xD800 <= u <= 0xDBFF }
  predicate IsLowSurrogate(u: CodeUnit) { 0xDC00 <= u <= 0xDFFF }

  /** A bit position of a 32-bit integer. */
  type BitIndex = k: int | 0 <= k < 32

  /** A 32-bit integer used as a bitmask is modelled by the set of its set
      bits: `a | b` is union, `a & b` intersection, `1 << k` is `{k}`. */
  type Mask = set<BitIndex>
}
