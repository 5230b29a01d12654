# Verified model of the cpp-dsa-progression utility functions

The repository holds three single-file C++ tutorial programs. This project models
the small functions in them that have a contract, and proves those contracts:

- `ch2.cpp`: the `MathUtils` namespace (`factorial`, `isPrime`), the `StringUtils`
  namespace (`toUpperCase`, `isPalindrome`) and the global utilities (`swapValues`,
  `isInRange`, `reverseArray`, `findMax`, `countOccurrences`, `add(int, int)`,
  `recursiveSum`). Modules `MathUtils`, `StringUtils` and `Utils` in `ch2_utils.dfy`.
- `ch3.cpp`: the checked narrowing conversions `is_valid_char`, `safe_convert_to_int`
  and `safe_convert_to_char`. Module `TypeConversions` in `ch3_conversions.dfy`.
- `ch1.cpp`: the name check `isValidName` and the retry-until-valid readers
  `getValidStringInput` and `getValidIntegerInput`. Module `ConsoleInput` in `ch1_input.dfy`.

Shared modules:
- `CLimits` (`climits.dfy`): the 32-bit `int` bounds and truncation toward zero.
- `CCtype` (`cctype.dfy`): `isalpha`, `toupper` and `tolower` in the "C" locale.
- `Sequences` (`sequences.dfy`): sequence reversal, the reference for `reverseArray`
  and for palindromes.

Modelling decisions:
- Functions that only compute are Dafny functions. Functions that loop are methods,
  each proved against a specification function or a property stated outright.
  These are `isPrime`, `toUpperCase`, `isPalindrome`, `reverseArray`, `findMax`,
  `countOccurrences` and the readers.
- `reverseArray` works in place on an `array<T>`. `findMax` and `countOccurrences`
  read an array. `findMax` takes `real` elements: it only compares doubles, and NaN is
  not modelled. `countOccurrences` and `reverseArray` are generic in the element type,
  because they only compare or move elements.
- `recursiveSum` is pure recursion. The pointer `arr + 1` becomes the suffix `arr[1..]`
  of a sequence.
- `swapValues` takes two `int&` parameters. They are modelled as two `IntRef` objects,
  which may be the same object.
- `isPrime` loops while `i <= std::sqrt(n)`. The model reads this as `i * i <= n`.
  The two agree for every 32-bit `n`, because the double square root of such an `n` is
  accurate enough.
- The console is replaced by the sequence of inputs it would deliver. For
  `getValidStringInput`, that is one string per `std::getline`. For
  `getValidIntegerInput`, it is one `Extraction` per `std::cin >> value`, either the
  int stored or a failure. A reader that runs out of input returns `None` together with
  the number of prompts shown. The program would instead keep prompting.
- Characters are Dafny `char`s, each standing for one C++ `char` (a byte).
  `isalpha`, `toupper` and `tolower` follow the "C" locale:
  - only `A`-`Z` and `a`-`z` are letters;
  - only letters change case.

## Model

| member | source | states |
|---|---|---|
| `CLimits.TruncateTowardZero` | ch3.cpp:348 | the result is the integer part of x, rounded toward zero (bounds for x >= 0 and for x < 0) |
| `CCtype.IsAlpha` | ch1.cpp:155 | isalpha in the "C" locale: true for the 52 ASCII letters, so a letter always lies in 'A'..'z' and below code 128 |
| `CCtype.ToUpper` | ch2.cpp:100 | a lower-case letter becomes the capital 32 codes below it; every other character is returned unchanged; the result is never lower case and is a letter exactly when the input is |
| `CCtype.ToLower` | ch2.cpp:115 | a capital becomes the lower-case letter 32 codes above it; every other character is returned unchanged; the result is never a capital and is a letter exactly when the input is |
| `Sequences.ReversedIndex` | ch2.cpp:226-240 | the reversal has the same length, and position k holds element length-1-k |
| `Sequences.ReversedMultiset` | ch2.cpp:226-240 | reversal is a permutation: the multiset of elements is unchanged |
| `MathUtils.Factorial` | ch2.cpp:75-82 | -1 exactly for negative n; at least 1 for n >= 0 and at least n for n >= 1; defined for n <= 12, the range where the 32-bit product does not overflow |
| `MathUtils.FactorialIsProduct` | ch2.cpp:75-82 | for 0 <= n <= 12 factorial(n) equals the product 1 * 2 * ... * n (1 for n = 0) |
| `MathUtils.FactorialFitsInt` | ch2.cpp:75-82 | every defined result lies in [INT_MIN, INT_MAX], and 13! would exceed INT_MAX |
| `MathUtils.PrimeIffNoDivisorUpToRoot` | ch2.cpp:86-88 | for n > 1, no divisor d with d * d <= n is the same as no divisor in [2, n) |
| `MathUtils.IsPrime` | ch2.cpp:85-91 | true exactly when n > 1 and no d in [2, n) divides n |
| `StringUtils.ToUpperCase` | ch2.cpp:97-103 | same length as the input, and character i is toupper of input character i |
| `StringUtils.UpperStringIdempotent` | ch2.cpp:97-103 | upper-casing twice gives the same string as upper-casing once |
| `StringUtils.IsPalindrome` | ch2.cpp:111-122 | true exactly when tolower(s[i]) == tolower(s[\|s\|-1-i]) for all i < \|s\|/2; the empty string and one-character strings are palindromes |
| `StringUtils.PalindromicIffLowerReversed` | ch2.cpp:111-122 | a string passes the palindrome test exactly when its lower-cased form equals its own reversal |
| `StringUtils.PalindromicUpperString` | ch2.cpp:111-122 | upper-casing a string does not change whether it is a palindrome (the test ignores case) |
| `Utils.IntRef.constructor` | ch2.cpp:136 | an `int&` is a mutable int location; a new one holds the given value |
| `Utils.SwapValues` | ch2.cpp:136-140 | the two referenced ints exchange values; when both references name one location its value is kept |
| `Utils.IsInRange` | ch2.cpp:208-210 | true when min <= value <= max; a true answer implies min <= max |
| `Utils.AddDefinedIff` | ch2.cpp:267-269 | add(a, b) of two 32-bit ints is defined (does not overflow) exactly when a <= INT_MAX - b for b >= 0, or INT_MIN - b <= a for b < 0, a test that itself cannot overflow |
| `Utils.SwapsMetIsReversal` | ch2.cpp:231-239 | once the left and right indices have met, every exchanged pair and the untouched middle make the first size cells the reversal of the old ones, and the array is a permutation of the old one |
| `Utils.ReverseArray` | ch2.cpp:226-240 | for size > 0 the first size cells hold their old contents reversed, cells from size on are unchanged, and the array is a permutation of the old one; for size <= 0 nothing changes |
| `Utils.StdMax` | ch2.cpp:250 | std::max returns one of its two arguments, and it is at least both |
| `Utils.FindMax` | ch2.cpp:243-253 | for size > 0 the result occurs in arr[0..size) and is at least every element there; for size <= 0 it is 0.0 |
| `Utils.CountOccurrences` | ch2.cpp:256-264 | the count of positions in arr[0..size) holding target, equal to target's multiplicity there, and between 0 and max(size, 0) |
| `Utils.CountIsMultiplicity` | ch2.cpp:256-264 | counting matches of x in a sequence gives x's multiplicity in its multiset |
| `Utils.RecursiveSum` | ch2.cpp:283-286 | recursiveSum(arr, size) is the sum of arr[0..size), and 0 when size <= 0 |
| `TypeConversions.IsValidChar` | ch3.cpp:327-329 | true for codes 32..126; every printable character lies in the 7-bit range 0..127 |
| `TypeConversions.SafeConvertToInt` | ch3.cpp:336-349 | the result always lies in [INT_MIN, INT_MAX]; INT_MAX above the range, INT_MIN below it; inside the range, the value truncated toward zero |
| `TypeConversions.SafeConvertToIntKeepsInts` | ch3.cpp:348 | an integer-valued input inside the range is returned unchanged |
| `TypeConversions.SafeConvertToIntIdempotent` | ch3.cpp:336-349 | converting an already converted value again gives the same int |
| `TypeConversions.SafeConvertToIntMonotone` | ch3.cpp:336-349 | x <= y implies convert(x) <= convert(y) |
| `TypeConversions.SafeConvertToChar` | ch3.cpp:356-362 | the result always satisfies is_valid_char (code 32..126, and '?' is 63); for 32 <= v <= 126 it is the character with code v; for v < 0, v in 0..31, v == 127 and v > 127 it is '?' |
| `TypeConversions.SafeConvertToCharKeepsValidChars` | ch3.cpp:356-358 | a printable character is returned unchanged when its code is converted |
| `TypeConversions.SafeConvertToCharIdempotent` | ch3.cpp:356-362 | converting the code of a converted character again changes nothing |
| `ConsoleInput.IsValidName` | ch1.cpp:152-160 | false for the empty string; an accepted name is non-empty and starts with a letter, space or hyphen (the full characterisation is IsValidNameIff) |
| `ConsoleInput.IsValidNameIff` | ch1.cpp:152-160 | a name is accepted exactly when it is non-empty and every character is a letter, ' ' or '-' |
| `ConsoleInput.BadCharRejects` | ch1.cpp:154-156 | any string with a character outside that set is rejected |
| `ConsoleInput.ValidNameConcat` | ch1.cpp:154-159 | the concatenation of two valid names is a valid name |
| `ConsoleInput.NameExamples` | ch1.cpp:152-160 | "" and "John3" are rejected, and "Mary-Jane O" is accepted |
| `ConsoleInput.GetValidStringInput` | ch1.cpp:134-150 | returns the first line that isValidName accepts, so the result always satisfies isValidName; every earlier line was rejected, and the prompt count is that line's position plus one; if no line is valid, every line was rejected |
| `ConsoleInput.GetValidIntegerInput` | ch1.cpp:118-132 | skips failed extractions and returns the first extracted 32-bit int; every earlier attempt failed, and the prompt count is that attempt's position plus one; if none succeeds, every attempt failed |

## Left out

- Console output is not modelled: the printed warnings and error messages, `printGreeting`, `printArray`, `printMessage`, `displayWelcomeMessage` and the `main` drivers only print.
- `clearInputBuffer` (ch1.cpp:163-166) is not modelled: it manipulates the stream. The effect of discarding the rest of the line is folded into the model: one failed `Extraction` stands for one prompt.
- Parsing decimal text into an int is not modelled: each extraction's outcome is an input of `GetValidIntegerInput`.
- `getValidDoubleInput` (ch1.cpp:169-183) is not modelled: it is the integer reader's loop over floating-point values.
- End of input is not modelled as the source behaves: the program would keep prompting forever, while the readers return `None`.
- `print_type_info` and `display_type_properties` only print `sizeof` and `numeric_limits` values of the platform.
- Floating-point arithmetic is not modelled: `calculateAverage`, `power`, `add(double, double)`, the precision and scientific-notation demonstrations, and NaN and IEEE rounding in `safe_convert_to_int`.
- The undefined-behaviour demonstrations (`max_int + 1`, unsigned wrap-around) are not modelled.
- The pointer and address demonstrations (`incrementByPointer`, `printMemoryAddresses`, the void-pointer demo) are not modelled.
- The preprocessor and the namespace "header" structure have no run-time behaviour. They appear only as the module layout.
- `Factorial`: requires n <= 12. For larger n the 32-bit multiplication overflows, which is undefined behaviour in C++.
- `Add`: requires the sum to fit in 32 bits, because signed overflow is undefined behaviour. `AddDefinedIff` states that condition.
- `RecursiveSum`: the sum is an unbounded integer. The 32-bit overflow of a large sum, also undefined behaviour, is not modelled.
- `FindMax`: the doubles are exact reals, so NaN is not modelled. In the source a NaN in `arr[0]` is returned whatever follows, and a later NaN is skipped, because every comparison with NaN is false.
- `CountOccurrences`: equality is Dafny's `==` on the element type, which is reflexive. IEEE `==` is not: a NaN `target` counts 0 in the source. IEEE `==` also treats +0.0 and -0.0 as equal, and the model does not distinguish them. The same holds for `FindMax`.
- `SafeConvertToInt`: its input is an exact real. The model does not cover NaN or double rounding.
- `IsPalindrome`: strings longer than INT_MAX are not modelled. For those the `int` indices of the source would overflow.
- `CCtype.ToUpper`: characters above code 127 are not letters and keep their case. Where `char` is unsigned this is what the "C" locale does. Where `char` is signed, the source passes such a `char` to `toupper`, `tolower` or `isalpha` as a negative value, which is undefined behaviour. The same holds for `CCtype.ToLower` and for `CCtype.IsAlpha`.
- `IsPalindrome`: one Dafny `char` stands for one C++ `char`, a byte. The model is exact for strings whose characters are bytes, codes 0..255. A multi-byte character, such as UTF-8 "é" (bytes C3 A9), is one `char` here and is not split into its bytes. So "éé" passes the palindrome test in the model, while the source compares C3 with A9 and rejects it.
- `ToUpperCase`: the same byte reading applies. The source's result has one `char` per byte of the input, so `toUpperCase("é")` has length 2 in UTF-8. The model's result has one `char` per Dafny character.
- `IsValidName`: the same byte reading applies. The model scans one `char` per Dafny character, the source one per byte.
