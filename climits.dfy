/** The limits of the 32-bit C++ `int` (the values of `std::numeric_limits<int>`)
    and the conversion `static_cast<int>` applies to an in-range value. */
module CLimits {

  /** std::numeric_limits<int>::max() */
  const IntMax: int := 0x7FFF_FFFF

  /** std::numeric_limits<int>::min() */
  const IntMin: int := -0x8000_0000

  predicate IsInt32(x: int) {
    IntMin <= x <= IntMax
  }

  /** The values a C++ `int` can hold. */
  type Int32 = x: int | IsInt32(x)

  /** What `static_cast<int>` does to a value whose truncation is representable:
      it drops the fractional part, rounding toward zero. */
  function TruncateTowardZero(x: real): (r: int)
    ensures 0.0 <= x ==> 0 <= r && r as real <= x < r as real + 1.0
    ensures x < 0.0 ==> r <= 0 && r as real - 1.0 < x <= r as real
  {
    if x >= 0.0 then x.Floor else -((-x).Floor)
  }
}
