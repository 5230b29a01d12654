/** The checked narrowing conversions of ch3.cpp: a real number to a 32-bit int
    by clamping, and an int to a printable ASCII character. */
module TypeConversions {
  import opened CLimits

  /** is_valid_char(c): c lies in the printable ASCII range 32..126, which is
      part of the 7-bit range 0..127. */
  predicate IsValidChar(c: char)
    ensures IsValidChar(c) ==> 0 <= c as int <= 127
  {
    c as int >= 32 && c as int <= 126
  }

  /** safe_convert_to_int(value): INT_MAX above the range, INT_MIN below it,
      otherwise the value truncated toward zero. The double is modelled as an
      exact real. */
  function SafeConvertToInt(value: real): (r: int)
    ensures IsInt32(r)
    ensures value > IntMax as real ==> r == IntMax
    ensures value < IntMin as real ==> r == IntMin
    ensures IntMin as real <= value <= IntMax as real && 0.0 <= value ==> r as real <= value < r as real + 1.0
    ensures IntMin as real <= value <= IntMax as real && value < 0.0 ==> r as real - 1.0 < value <= r as real
  {
    if value > IntMax as real then IntMax
    else if value < IntMin as real then IntMin
    else TruncateTowardZero(value)
  }

  /** An int converted to double and back is returned unchanged. */
  lemma SafeConvertToIntKeepsInts(n: int)
    requires IsInt32(n)
    ensures SafeConvertToInt(n as real) == n
  {
  }

  /** Converting an already converted value again changes nothing. */
  lemma SafeConvertToIntIdempotent(value: real)
    ensures SafeConvertToInt(SafeConvertToInt(value) as real) == SafeConvertToInt(value)
  {
    SafeConvertToIntKeepsInts(SafeConvertToInt(value));
  }

  /** The conversion never reverses the order of two values. */
  lemma SafeConvertToIntMonotone(x: real, y: real)
    requires x <= y
    ensures SafeConvertToInt(x) <= SafeConvertToInt(y)
  {
  }

  /** safe_convert_to_char(value): the character with code value when that code is
      in 0..127 and printable, otherwise '?'. */
  function SafeConvertToChar(value: int): (r: char)
    ensures IsValidChar(r)
    ensures 32 <= value <= 126 ==> r as int == value
    ensures value < 32 || 126 < value ==> r == '?'
  {
    if value >= 0 && value <= 127 && IsValidChar(value as char) then value as char else '?'
  }

  /** Every printable character survives the trip through its code. */
  lemma SafeConvertToCharKeepsValidChars(c: char)
    requires IsValidChar(c)
    ensures SafeConvertToChar(c as int) == c
  {
  }

  /** Converting the code of a converted character again is a no-op. */
  lemma SafeConvertToCharIdempotent(value: int)
    ensures SafeConvertToChar(SafeConvertToChar(value) as int) == SafeConvertToChar(value)
  {
    SafeConvertToCharKeepsValidChars(SafeConvertToChar(value));
  }
}
