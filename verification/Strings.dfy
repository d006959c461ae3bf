/** Searching in texts. */
module Strings {

  /** indexOf, |s| for -1. */
  function IndexOf(s: string, c: char): (i: nat)
    ensures i <= |s| && (i < |s| ==> s[i] == c) && forall k :: 0 <= k < i ==> s[k] != c
  {
    if s == "" || s[0] == c then 0 else 1 + IndexOf(s[1..], c)
  }

  lemma {:induction false} IndexStays(s: string, c: char, more: string)
    ensures IndexOf(s, c) < |s| ==> IndexOf(s + more, c) == IndexOf(s, c)
    ensures IndexOf(s, c) == |s| ==> IndexOf(s + more, c) == |s| + IndexOf(more, c)
  {
    if s == "" {
      assert s + more == more;
    } else if s[0] != c {
      assert (s + more)[1..] == s[1..] + more;
      IndexStays(s[1..], c, more);
    }
  }
}
