/** Counting facts about sequences of distinct values (the pigeonhole principle). */
module Counting {

  /** All elements of v are pairwise distinct. */
  predicate Distinct(v: seq<int>)
  {
    forall k1, k2 :: 0 <= k1 < k2 < |v| ==> v[k1] != v[k2]
  }

  /** The integers lo, lo + 1, ..., hi - 1. */
  function Interval(lo: int, hi: int): (r: set<int>)
    ensures forall x :: x in r <==> lo <= x < hi
    ensures lo <= hi ==> |r| == hi - lo
    decreases hi - lo
  {
    if hi <= lo then {} else Interval(lo, hi - 1) + {hi - 1}
  }

  /** Distinct values drawn from a finite set are no more than the set has. */
  lemma {:induction false} DistinctFits(v: seq<int>, S: set<int>)
    requires Distinct(v)
    requires forall k :: 0 <= k < |v| ==> v[k] in S
    ensures |v| <= |S|
  {
    if v != [] {
      var last := v[|v| - 1];
      var front := v[..|v| - 1];
      forall k | 0 <= k < |front|
        ensures front[k] in S - {last}
      {
        assert front[k] == v[k] && v[k] != v[|v| - 1];
      }
      DistinctFits(front, S - {last});
    }
  }

  /** hi - lo distinct values in [lo, hi) take every value of that range. */
  lemma AllValuesTaken(v: seq<int>, lo: int, hi: int)
    requires lo <= hi && |v| == hi - lo
    requires Distinct(v)
    requires forall k :: 0 <= k < |v| ==> lo <= v[k] < hi
    ensures forall d :: lo <= d < hi ==> d in v
  {
    forall d | lo <= d < hi
      ensures d in v
    {
      if d !in v {
        var S := Interval(lo, hi) - {d};
        assert |S| == hi - lo - 1;
        DistinctFits(v, S);
      }
    }
  }
}
