/** Small facts about sequences shared by the two polling loops of the mask-fill path. */
module Seqs {

  /** Some element of `s` satisfies `p`. */
  predicate Eventually<T>(s: seq<T>, p: T -> bool)
  {
    exists k :: 0 <= k < |s| && p(s[k])
  }

  /** The index of the first element of `s` that satisfies `p`: a loop that inspects `s` in order
      and stops at the first success stops here. */
  function FirstWhere<T>(s: seq<T>, p: T -> bool): (k: nat)
    requires Eventually(s, p)
    ensures k < |s| && p(s[k])
    ensures forall j :: 0 <= j < k ==> !p(s[j])
  {
    if p(s[0]) then 0
    else
      var j :| 0 <= j < |s| && p(s[j]);
      assert s[1..][j - 1] == s[j];
      1 + FirstWhere(s[1..], p)
  }
}
