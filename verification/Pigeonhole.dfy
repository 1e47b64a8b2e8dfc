/** Finite counting facts about sequences of distinct numbers. */
module Pigeonhole {

  ghost predicate Distinct<T>(s: seq<T>) { forall i, j :: 0 <= i < j < |s| ==> s[i] != s[j] }

  ghost predicate Below(s: seq<nat>, m: nat) { forall i :: 0 <= i < |s| ==> s[i] < m }

  /** Distinct numbers below m are at most m many. */
  lemma {:induction false} DistinctBelow(s: seq<nat>, m: nat)
    requires Distinct(s) && Below(s, m)
    ensures |s| <= m
    decreases m
  {
    if |s| > 0 {
      assert s[0] < m;
      if k :| 0 <= k < |s| && s[k] == m - 1 {
        DistinctBelow(s[..k] + s[k + 1..], m - 1);
      } else {
        DistinctBelow(s, m - 1);
      }
    }
  }

  /** m distinct numbers below m hit every number below m. */
  lemma DistinctOnto(s: seq<nat>, m: nat, x: nat)
    requires Distinct(s) && Below(s, m) && |s| == m && x < m
    ensures exists k :: 0 <= k < |s| && s[k] == x
  {
    if forall k :: 0 <= k < |s| ==> s[k] != x {
      var t := s + [x];
      DistinctBelow(t, m);
    }
  }
}
