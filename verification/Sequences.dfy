/** Sequences without repeats, and how many numbers below a bound they can hold. */
module Sequences {

  ghost predicate Distinct<T>(s: seq<T>) {
    forall i, j :: 0 <= i < j < |s| ==> s[i] != s[j]
  }

  /** `n` different numbers below `n` are all of them; more do not fit. */
  lemma {:induction false} Pigeonhole(s: seq<nat>, n: nat)
    requires Distinct(s) && forall k :: 0 <= k < |s| ==> s[k] < n
    ensures |s| <= n
    ensures |s| == n ==> forall i :: 0 <= i < n ==> i in s
    decreases n
  {
    if s != [] {
      assert s[0] < n;
      if n - 1 in s {
        var p :| 0 <= p < |s| && s[p] == n - 1;
        var rest := s[..p] + s[p + 1..];
        Pigeonhole(rest, n - 1);
        assert forall i :: i in rest ==> i in s;
      } else {
        Pigeonhole(s, n - 1);
      }
    }
  }
}
