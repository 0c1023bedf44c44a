/** Reversal of a list, as `MutableList.reverse()` and a drain from the end produce it. */
module Lists {

  function Reversed<T>(s: seq<T>): (r: seq<T>)
    ensures |r| == |s|
    ensures forall i :: 0 <= i < |s| ==> r[i] == s[|s| - 1 - i]
  {
    if s == [] then [] else [s[|s| - 1]] + Reversed(s[..|s| - 1])
  }

  /** Reversing twice gives the list back. */
  lemma ReversedTwice<T>(s: seq<T>)
    ensures Reversed(Reversed(s)) == s
  {
  }

  /** Taking one more element off the end appends it to the reversed suffix. */
  lemma ReversedSuffixStep<T>(s: seq<T>, m: nat)
    requires 0 < m <= |s|
    ensures Reversed(s[m - 1..]) == Reversed(s[m..]) + [s[m - 1]]
  {
  }
}
