/** The MathUtils namespace of ch2.cpp: factorial and trial-division primality. */
module MathUtils {
  import opened CLimits

  /** lo * (lo + 1) * ... * hi, and 1 for an empty range: the reference for Factorial. */
  function Product(lo: int, hi: int): int
    decreases hi - lo
  {
    if lo > hi then 1 else lo * Product(lo + 1, hi)
  }

  /** factorial(n). The recursion multiplies in a 32-bit int, so the source
      is defined only while n! fits: 12! = 479001600 does, 13! does not. */
  function Factorial(n: int): (r: int)
    requires n <= 12
    ensures r == -1 <==> n < 0
    ensures 0 <= n ==> 1 <= r
    ensures 1 <= n ==> n <= r
  {
    if n < 0 then -1
    else if n == 0 || n == 1 then 1
    else n * Factorial(n - 1)
  }

  /** The top factor of a non-empty product can be split off. */
  lemma {:induction false} ProductSplitTop(lo: int, hi: int)
    requires lo <= hi
    ensures Product(lo, hi) == Product(lo, hi - 1) * hi
    decreases hi - lo
  {
    if lo < hi {
      ProductSplitTop(lo + 1, hi);
    }
  }

  /** For every defined non-negative argument, factorial is the product 1 * 2 * ... * n. */
  lemma {:induction false} FactorialIsProduct(n: int)
    requires 0 <= n <= 12
    ensures Factorial(n) == Product(1, n)
  {
    if n >= 2 {
      FactorialIsProduct(n - 1);
      ProductSplitTop(1, n);
    }
  }

  /** Every defined result is a valid 32-bit int, and 12 is the last argument
      whose factorial is: 13! exceeds INT_MAX. */
  lemma FactorialFitsInt(n: int)
    requires n <= 12
    ensures IsInt32(Factorial(n))
    ensures IntMax < 13 * Factorial(12)
  {
    assert Factorial(12) == 479001600;
    if n >= 0 {
      FactorialMonotone(n);
    }
  }

  lemma {:induction false} FactorialMonotone(n: int)
    requires 0 <= n <= 12
    ensures Factorial(n) <= Factorial(12)
    decreases 12 - n
  {
    if n < 12 {
      FactorialMonotone(n + 1);
    }
  }

  /** n is prime: greater than 1 and without a divisor in [2, n). */
  predicate IsPrimeNumber(n: int) {
    n > 1 && forall d :: 2 <= d < n ==> n % d != 0
  }

  /** A product b * t with b > 0 lies in [0, b) only when t is 0. */
  lemma ZeroFactor(b: int, t: int)
    requires 0 < b && 0 <= b * t < b
    ensures t == 0
  {
  }

  /** A multiple of b leaves no remainder modulo b. */
  lemma MultipleMod(a: int, b: int)
    requires 0 < b
    ensures (a * b) % b == 0
  {
    var q, m := (a * b) / b, (a * b) % b;
    assert a * b == b * q + m;
    assert b * (a - q) == m;
    ZeroFactor(b, a - q);
  }

  lemma ExactQuotient(n: int, d: int)
    requires 0 < d && n % d == 0
    ensures n == d * (n / d)
  {
  }

  /** The cofactor e of a divisor d >= i of a number below i * i is itself in [2, i). */
  lemma CofactorBounds(d: int, e: int, i: int)
    requires 2 <= i <= d && d < d * e < i * i
    ensures 2 <= e < i
  {
  }

  /** A divisor above the square root has a cofactor that is a divisor below it. */
  lemma LargeDivisorHasSmallCofactor(n: int, d: int, i: int)
    requires 2 <= d < n && 2 <= i <= d && n < i * i
    ensures n % d == 0 ==> 2 <= n / d < i && n % (n / d) == 0
  {
    if n % d == 0 {
      var e := n / d;
      ExactQuotient(n, d);
      CofactorBounds(d, e, i);
      MultipleMod(d, e);
    }
  }

  lemma CofactorSquare(n: int, d: int, e: int)
    requires 0 <= e < d && n == d * e
    ensures e * e <= n
  {
  }

  /** The bound of the trial division: n > 1 is prime exactly when no d with
      2 <= d and d * d <= n divides it. */
  lemma PrimeIffNoDivisorUpToRoot(n: int)
    requires n > 1
    ensures IsPrimeNumber(n) <==> forall d :: 2 <= d && d * d <= n ==> n % d != 0
  {
    if forall d :: 2 <= d && d * d <= n ==> n % d != 0 {
      forall d | 2 <= d < n
        ensures n % d != 0
      {
        if n < d * d {
          LargeDivisorHasSmallCofactor(n, d, d);
          if n % d == 0 {
            ExactQuotient(n, d);
            CofactorSquare(n, d, n / d);
          }
        }
      }
    }
    if IsPrimeNumber(n) {
      forall d | 2 <= d && d * d <= n
        ensures n % d != 0
      {
        assert d < d * d;
      }
    }
  }

  /** isPrime(n): trial division by 2, 3, ... while the divisor is at most the
      square root of n (i <= sqrt(n) read as i * i <= n). */
  method IsPrime(n: int) returns (prime: bool)
    ensures prime <==> IsPrimeNumber(n)
  {
    if n <= 1 {
      return false;
    }
    var i := 2;
    while i * i <= n
      invariant 2 <= i
      invariant forall d :: 2 <= d < i ==> n % d != 0
      decreases n - i
    {
      assert i < i * i;
      if n % i == 0 {
        return false;
      }
      i := i + 1;
    }
    forall d | 2 <= d < n
      ensures n % d != 0
    {
      if d >= i {
        LargeDivisorHasSmallCofactor(n, d, i);
      }
    }
    return true;
  }
}

/** The StringUtils namespace of ch2.cpp: upper-casing and case-insensitive palindromes. */
module StringUtils {
  import opened CCtype
  import opened Sequences

  /** s with toupper applied to every character. */
  function UpperString(s: string): string
  {
    if s == [] then [] else [ToUpper(s[0])] + UpperString(s[1..])
  }

  /** s with tolower applied to every character. */
  function LowerString(s: string): string
  {
    if s == [] then [] else [ToLower(s[0])] + LowerString(s[1..])
  }

  lemma {:induction false} UpperStringIndex(s: string)
    ensures |UpperString(s)| == |s|
    ensures forall i :: 0 <= i < |s| ==> UpperString(s)[i] == ToUpper(s[i])
  {
    if s != [] {
      UpperStringIndex(s[1..]);
    }
  }

  lemma {:induction false} LowerStringIndex(s: string)
    ensures |LowerString(s)| == |s|
    ensures forall i :: 0 <= i < |s| ==> LowerString(s)[i] == ToLower(s[i])
  {
    if s != [] {
      LowerStringIndex(s[1..]);
    }
  }

  /** Upper-casing twice is upper-casing once. */
  lemma {:induction false} UpperStringIdempotent(s: string)
    ensures UpperString(UpperString(s)) == UpperString(s)
  {
    if s != [] {
      UpperStringIdempotent(s[1..]);
      assert ToUpper(ToUpper(s[0])) == ToUpper(s[0]);
    }
  }

  /** toUpperCase(input): a copy of input in which every character is replaced
      by its toupper image. */
  method ToUpperCase(input: string) returns (result: string)
    ensures |result| == |input|
    ensures forall i :: 0 <= i < |input| ==> result[i] == ToUpper(input[i])
    ensures result == UpperString(input)
  {
    result := input;
    var i := 0;
    while i < |result|
      invariant |result| == |input|
      invariant 0 <= i <= |input|
      invariant forall k :: 0 <= k < i ==> result[k] == ToUpper(input[k])
      invariant forall k :: i <= k < |input| ==> result[k] == input[k]
    {
      result := result[i := ToUpper(result[i])];
      i := i + 1;
    }
    UpperStringIndex(input);
  }

  /** Each of the first |s| / 2 characters matches its mirror image, ignoring case. */
  predicate Palindromic(s: string) {
    forall i :: 0 <= i < |s| / 2 ==> ToLower(s[i]) == ToLower(s[|s| - 1 - i])
  }

  /** isPalindrome(input): two indices move inwards from both ends and the scan
      stops at the first pair whose tolower images differ. */
  method IsPalindrome(input: string) returns (palindrome: bool)
    ensures palindrome <==> Palindromic(input)
    ensures |input| <= 1 ==> palindrome
  {
    var left := 0;
    var right := |input| - 1;
    while left < right
      invariant 0 <= left && 2 * left <= |input| && right == |input| - 1 - left
      invariant forall i :: 0 <= i < left ==> ToLower(input[i]) == ToLower(input[|input| - 1 - i])
    {
      if ToLower(input[left]) != ToLower(input[right]) {
        return false;
      }
      left := left + 1;
      right := right - 1;
    }
    return true;
  }

  /** A string passes the palindrome test exactly when its lower-cased form
      equals its own reversal. */
  lemma PalindromicIffLowerReversed(s: string)
    ensures Palindromic(s) <==> LowerString(s) == Reversed(LowerString(s))
  {
    var l := LowerString(s);
    LowerStringIndex(s);
    ReversedIndex(l);
    if Palindromic(s) {
      forall k | 0 <= k < |s|
        ensures l[k] == Reversed(l)[k]
      {
        if |s| - 1 - k < |s| / 2 {
          var j := |s| - 1 - k;
          assert ToLower(s[j]) == ToLower(s[|s| - 1 - j]);
        }
      }
    }
    if l == Reversed(l) {
      forall i | 0 <= i < |s| / 2
        ensures ToLower(s[i]) == ToLower(s[|s| - 1 - i])
      {
        assert l[i] == Reversed(l)[i];
      }
    }
  }

  /** The palindrome test ignores case, so upper-casing a string does not change its verdict. */
  lemma PalindromicUpperString(s: string)
    ensures Palindromic(UpperString(s)) <==> Palindromic(s)
  {
    UpperStringIndex(s);
    var u := UpperString(s);
    forall i | 0 <= i < |s|
      ensures ToLower(u[i]) == ToLower(s[i])
    {
      LowerOfUpper(s[i]);
    }
  }
}

/** The global utilities of ch2.cpp (declared in its Utils namespace) and swapValues. */
module Utils {
  import opened CLimits
  import opened Sequences

  /** The number of elements a C size argument designates: none when it is not positive. */
  function Extent(size: int): nat {
    if size > 0 then size else 0
  }

  /** A mutable int location: what an `int&` parameter refers to. */
  class IntRef {
    var value: int
    constructor (v: int)
      ensures value == v
    {
      value := v;
    }
  }

  /** swapValues(a, b) through references; when both name the same location it keeps its value. */
  method SwapValues(a: IntRef, b: IntRef)
    modifies a, b
    ensures a.value == old(b.value) && b.value == old(a.value)
  {
    var temp := a.value;
    a.value := b.value;
    b.value := temp;
  }

  /** isInRange(value, min, max): min <= value <= max, so only a non-empty range holds a value. */
  predicate IsInRange(value: int, min: int, max: int)
    ensures IsInRange(value, min, max) ==> min <= max
  {
    value >= min && value <= max
  }

  /** add(int, int): the sum of two ints, defined whenever it does not overflow 32 bits. */
  function Add(a: Int32, b: Int32): Int32
    requires IsInt32(a + b)
  {
    a + b
  }

  /** When add(a, b) is defined, as a test on a and b that cannot itself overflow:
      a non-negative b leaves room up to INT_MAX, a negative one down to INT_MIN. */
  lemma AddDefinedIff(a: Int32, b: Int32)
    ensures IsInt32(a + b) <==> (if b >= 0 then a <= IntMax - b else IntMin - b <= a)
  {
    assert IsInt32(a) && IsInt32(b);
  }

  /** When the two indices of reverseArray have met, every cell of the first size
      has been exchanged with its mirror cell or is the middle one: `now` is `was`
      with its first size elements reversed. */
  lemma {:induction false} SwapsMetIsReversal<T>(now: seq<T>, was: seq<T>, size: int, left: int)
    requires |now| == |was| && 0 < size <= |now|
    requires 0 <= left && size - 1 - left <= left <= size - left
    requires forall k :: 0 <= k < left ==> now[k] == was[size - 1 - k] && now[size - 1 - k] == was[k]
    requires forall k :: left <= k <= size - 1 - left ==> now[k] == was[k]
    requires forall k :: size <= k < |now| ==> now[k] == was[k]
    ensures now[..size] == Reversed(was[..size]) && now[size..] == was[size..]
    ensures multiset(now) == multiset(was)
  {
    var front := was[..size];
    ReversedIndex(front);
    forall k | 0 <= k < size
      ensures now[k] == Reversed(front)[k]
    {
      if size - 1 - left < k {
        var j := size - 1 - k;
        assert now[size - 1 - j] == was[j];
      }
    }
    assert now[..size] == Reversed(front);
    assert now[size..] == was[size..];
    ReversedMultiset(front);
    assert now == now[..size] + now[size..];
    assert was == front + was[size..];
  }

  /** reverseArray(arr, size): swaps arr[left] with arr[right] while the indices move
      towards each other; nothing happens for size <= 0. */
  method ReverseArray<T>(arr: array<T>, size: int)
    requires size <= arr.Length
    modifies arr
    ensures arr[..Extent(size)] == Reversed(old(arr[..Extent(size)]))
    ensures arr[Extent(size)..] == old(arr[Extent(size)..])
    ensures size <= 0 ==> arr[..] == old(arr[..])
    ensures multiset(arr[..]) == multiset(old(arr[..]))
  {
    if size <= 0 {
      return;
    }
    var left := 0;
    var right := size - 1;
    while left < right
      invariant 0 <= left <= right + 1 && right == size - 1 - left
      invariant forall k :: 0 <= k < left ==> arr[k] == old(arr[size - 1 - k]) && arr[size - 1 - k] == old(arr[k])
      invariant forall k :: left <= k <= right ==> arr[k] == old(arr[k])
      invariant forall k :: size <= k < arr.Length ==> arr[k] == old(arr[k])
    {
      var temp := arr[left];
      arr[left] := arr[right];
      arr[right] := temp;
      left := left + 1;
      right := right - 1;
    }
    SwapsMetIsReversal(arr[..], old(arr[..]), size, left);
  }

  /** std::max(a, b): b when a < b, otherwise a. */
  function StdMax(a: real, b: real): (r: real)
    ensures r == a || r == b
    ensures a <= r && b <= r
  {
    if a < b then b else a
  }

  /** findMax(arr, size): the largest of arr[0..size), or 0.0 when size <= 0.
      The doubles are modelled as exact reals. */
  method FindMax(arr: array<real>, size: int) returns (maxVal: real)
    requires size <= arr.Length
    ensures size <= 0 ==> maxVal == 0.0
    ensures size > 0 ==> exists i :: 0 <= i < size && arr[i] == maxVal
    ensures forall i :: 0 <= i < size ==> arr[i] <= maxVal
  {
    if size <= 0 {
      return 0.0;
    }
    maxVal := arr[0];
    ghost var at := 0;
    for i := 1 to size
      invariant 0 <= at < i && arr[at] == maxVal
      invariant forall k :: 0 <= k < i ==> arr[k] <= maxVal
    {
      if maxVal < arr[i] {
        at := i;
      }
      maxVal := StdMax(maxVal, arr[i]);
    }
  }

  /** The number of positions of s holding x, counted from the back. */
  function Count<T(==)>(s: seq<T>, x: T): (r: nat)
    ensures r <= |s|
  {
    if s == [] then 0
    else Count(s[..|s| - 1], x) + (if s[|s| - 1] == x then 1 else 0)
  }

  /** Count(s, x) is the multiplicity of x in the multiset of s. */
  lemma {:induction false} CountIsMultiplicity<T>(s: seq<T>, x: T)
    ensures Count(s, x) == multiset(s)[x]
  {
    if s != [] {
      var init := s[..|s| - 1];
      CountIsMultiplicity(init, x);
      assert s == init + [s[|s| - 1]];
    }
  }

  /** countOccurrences(arr, size, target): how many of arr[0..size) equal target. */
  method CountOccurrences<T(==)>(arr: array<T>, size: int, target: T) returns (count: int)
    requires size <= arr.Length
    ensures 0 <= count <= Extent(size)
    ensures count == Count(arr[..Extent(size)], target)
    ensures count == multiset(arr[..Extent(size)])[target]
  {
    count := 0;
    var i := 0;
    while i < size
      invariant 0 <= i <= Extent(size)
      invariant count == Count(arr[..i], target)
    {
      assert arr[..i + 1][..i] == arr[..i];
      if arr[i] == target {
        count := count + 1;
      }
      i := i + 1;
    }
    CountIsMultiplicity(arr[..Extent(size)], target);
  }

  /** The sum of s, added up from the back: the reference for RecursiveSum. */
  function Sum(s: seq<int>): int {
    if s == [] then 0 else Sum(s[..|s| - 1]) + s[|s| - 1]
  }

  lemma {:induction false} SumCons(a: int, t: seq<int>)
    ensures Sum([a] + t) == a + Sum(t)
    decreases |t|
  {
    if t != [] {
      var init := t[..|t| - 1];
      SumCons(a, init);
      assert ([a] + t)[..|t|] == [a] + init;
    }
  }

  /** recursiveSum(arr, size): arr[0] plus the sum of the size - 1 elements after it;
      the pointer arr + 1 is the suffix arr[1..]. It adds exactly the first size
      elements, and gives 0 when size <= 0. */
  function RecursiveSum(arr: seq<int>, size: int): (r: int)
    requires size <= |arr|
    ensures r == Sum(arr[..Extent(size)])
    decreases size
  {
    if size <= 0 then 0
    else
      assert arr[..size] == [arr[0]] + arr[1..][..size - 1];
      SumCons(arr[0], arr[1..][..size - 1]);
      arr[0] + RecursiveSum(arr[1..], size - 1)
  }
}
