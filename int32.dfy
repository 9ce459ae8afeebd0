/** The C++ `int` of the `Calculator<int>` instantiation, taken to be a 32-bit
    two's-complement signed integer (C++ only requires at least 16 bits; the ILP32,
    LP64 and LLP64 data models all use 32). Signed overflow is undefined behaviour
    in C++, so the model never wraps: every operation demands that its exact result
    lies in this range. */
module Int32 {

  const MIN: int := -0x8000_0000
  const MAX: int := 0x7FFF_FFFF

  predicate InRange(x: int) {
    MIN <= x <= MAX
  }

  type Int32 = x: int | InRange(x)
}
