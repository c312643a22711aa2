/**
 * Sequence reversal: the abstract meaning of relinking a singly linked
 * chain backwards in place.
 */
module Sequences {

  /** The elements of `s` in the opposite order. */
  function Rev<T>(s: seq<T>): (r: seq<T>)
    ensures |r| == |s|
    ensures |s| > 0 ==> r[0] == s[|s| - 1] && r[|s| - 1] == s[0]
  {
    if |s| == 0 then [] else [s[|s| - 1]] + Rev(s[..|s| - 1])
  }

  /** Position `k` of the reversal holds the element `k` places from the end. */
  lemma {:induction false} RevIndex<T>(s: seq<T>, k: nat)
    requires k < |s|
    ensures Rev(s)[k] == s[|s| - 1 - k]
  {
    if k > 0 {
      RevIndex(s[..|s| - 1], k - 1);
    }
  }

  /** Reversing twice gives back the original order. */
  lemma {:induction false} RevInvolution<T>(s: seq<T>)
    ensures Rev(Rev(s)) == s
  {
    forall k | 0 <= k < |s|
      ensures Rev(Rev(s))[k] == s[k]
    {
      RevIndex(Rev(s), k);
      RevIndex(s, |s| - 1 - k);
    }
  }

  /** Reversal keeps exactly the same elements (no element is added or dropped). */
  lemma {:induction false} RevSameElements<T>(s: seq<T>)
    ensures multiset(Rev(s)) == multiset(s)
  {
    if |s| > 0 {
      RevSameElements(s[..|s| - 1]);
      assert s == s[..|s| - 1] + [s[|s| - 1]];
    }
  }
}
