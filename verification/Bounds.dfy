/** The bounds of the program's machine integers. */
module Bounds {
  const U8_MAX: nat := 255
  const I64_MAX: nat := 0x7FFF_FFFF_FFFF_FFFF
  const U64_MAX: nat := 0xFFFF_FFFF_FFFF_FFFF
  /** `usize` on 64-bit machines. */
  const USIZE_MAX: nat := U64_MAX
}
