/** Two's-complement wrap-around of 64-bit integers. */
module Int64 {
  const MIN: int := -0x8000_0000_0000_0000
  const MAX: int := 0x7fff_ffff_ffff_ffff

  predicate Fits(x: int) {
    MIN <= x <= MAX
  }

  function Wrap(x: int): int {
    if Fits(x) then x else (x - MIN) % 0x1_0000_0000_0000_0000 + MIN
  }
}
