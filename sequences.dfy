/** Reversal of a sequence, the reference for the in-place array reversal and
    for palindromes. */
module Sequences {

  /** s read back to front: the last element first. */
  function Reversed<T>(s: seq<T>): seq<T>
  {
    if s == [] then [] else [s[|s| - 1]] + Reversed(s[..|s| - 1])
  }

  lemma {:induction false} ReversedIndex<T>(s: seq<T>)
    ensures |Reversed(s)| == |s|
    ensures forall k :: 0 <= k < |s| ==> Reversed(s)[k] == s[|s| - 1 - k]
  {
    if s != [] {
      var init, last := s[..|s| - 1], s[|s| - 1];
      ReversedIndex(init);
      assert Reversed(s) == [last] + Reversed(init);
      forall k | 0 < k < |s|
        ensures Reversed(s)[k] == s[|s| - 1 - k]
      {
        calc {
          Reversed(s)[k];
          Reversed(init)[k - 1];
          init[|init| - 1 - (k - 1)];
          s[|s| - 1 - k];
        }
      }
    }
  }

  /** Reversal only rearranges: it keeps every element with its multiplicity. */
  lemma {:induction false} ReversedMultiset<T>(s: seq<T>)
    ensures multiset(Reversed(s)) == multiset(s)
  {
    if s != [] {
      var init := s[..|s| - 1];
      ReversedMultiset(init);
      assert s == init + [s[|s| - 1]];
    }
  }
}
