/** Machine integers: `usize` on a 64-bit platform. */
module Integers {
  const USIZE_MAX := 0xFFFF_FFFF_FFFF_FFFF

  type Usize = n: int | 0 <= n <= USIZE_MAX

  function SaturatingAdd(a: Usize, b: nat): Usize {
    if a + b > USIZE_MAX then USIZE_MAX else a + b
  }

  /** `Saturated(n)` is what repeated saturating additions make of the sum `n`. */
  function Saturated(n: nat): Usize {
    if n > USIZE_MAX then USIZE_MAX else n
  }
}
