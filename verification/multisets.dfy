/** Facts about removing one element of a sequence, used to prove that
    reductions do not depend on storage order. */
module Multisets {

  /** The sequence `s` without its element at position `j`. */
  function RemoveAt<T>(s: seq<T>, j: nat): (r: seq<T>)
    requires j < |s|
    ensures |r| == |s| - 1
  {
    s[..j] + s[j + 1..]
  }

  /** Removing the element at position `j` removes one copy of it from the
      multiset. */
  lemma MultisetRemoveAt<T>(s: seq<T>, j: nat)
    requires j < |s|
    ensures multiset(RemoveAt(s, j)) == multiset(s) - multiset{s[j]}
  {
    assert s == s[..j] + [s[j]] + s[j + 1..];
  }

  /** When two sequences are rearrangements of each other, the element at
      position `i` of the first sits at some position `j` of the second, and
      what remains after removing them is again a rearrangement. */
  lemma MatchAndRemove<T>(s: seq<T>, s': seq<T>, i: nat) returns (j: nat)
    requires i < |s| && multiset(s) == multiset(s')
    ensures j < |s'| && s'[j] == s[i]
    ensures multiset(RemoveAt(s, i)) == multiset(RemoveAt(s', j))
  {
    assert s[i] in multiset(s');
    j :| 0 <= j < |s'| && s'[j] == s[i];
    MultisetRemoveAt(s, i);
    MultisetRemoveAt(s', j);
  }
}
