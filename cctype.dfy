/** The character classification and case mapping of <cctype> in the "C" locale:
    only the 26 ASCII letters of each case are letters, and only they change case. */
module CCtype {

  predicate IsUpper(c: char) {
    'A' <= c <= 'Z'
  }

  predicate IsLower(c: char) {
    'a' <= c <= 'z'
  }

  /** isalpha: one of the 52 ASCII letters, so always within 'A'..'z'. */
  predicate IsAlpha(c: char)
    ensures IsAlpha(c) ==> 'A' <= c <= 'z' && c as int < 128
  {
    IsUpper(c) || IsLower(c)
  }

  /** toupper: a lower-case letter becomes its capital, everything else is kept. */
  function ToUpper(c: char): (r: char)
    ensures IsLower(c) ==> r as int == c as int - 32
    ensures !IsLower(r)
    ensures IsAlpha(r) <==> IsAlpha(c)
    ensures IsLower(c) || r == c
  {
    if IsLower(c) then (c as int - 32) as char else c
  }

  /** tolower: a capital becomes its lower-case letter, everything else is kept. */
  function ToLower(c: char): (r: char)
    ensures IsUpper(c) ==> r as int == c as int + 32
    ensures !IsUpper(r)
    ensures IsAlpha(r) <==> IsAlpha(c)
    ensures IsUpper(c) || r == c
  {
    if IsUpper(c) then (c as int + 32) as char else c
  }

  /** Folding to upper case first does not change what a case-insensitive comparison sees. */
  lemma LowerOfUpper(c: char)
    ensures ToLower(ToUpper(c)) == ToLower(c)
  {
  }
}
