/**
 The 95th-percentile score of the records on the grid: the scores sorted
 ascending, read at index floor(0.95 n) - 1.
 */
module Percentile {
  import opened LaunchData
  import opened Sorting

  /** `records.map(item => item.points)`. */
  function Scores(records: seq<Launch>): (r: seq<nat>)
    ensures |r| == |records|
    ensures forall i :: 0 <= i < |records| ==> r[i] == records[i].points
  {
    if records == [] then [] else [records[0].points] + Scores(records[1..])
  }

  predicate Ascending(s: seq<nat>)
  {
    forall i, j :: 0 <= i < j < |s| ==> s[i] <= s[j]
  }

  lemma AscendingIsSortedByScore(s: seq<nat>)
    ensures Ascending(s) <==> SortedBy(s, Score)
  {
  }

  /** How many scores of `s` are at most `v`. */
  function CountAtMost(s: seq<nat>, v: nat): nat
  {
    if s == [] then 0 else (if s[0] <= v then 1 else 0) + CountAtMost(s[1..], v)
  }

  /** How many scores of `s` are strictly below `v`. */
  function CountBelow(s: seq<nat>, v: nat): nat
  {
    if s == [] then 0 else (if s[0] < v then 1 else 0) + CountBelow(s[1..], v)
  }

  /** The sort key the ascending comparator `(a, b) => a - b` orders by. */
  function Score(x: nat): int
  {
    x
  }

  /** The scores sorted ascending. */
  function SortAscending(s: seq<nat>): seq<nat>
  {
    SortBy(s, Score)
  }

  /** Sorting rearranges the scores and drops or adds none. */
  lemma SortAscendingPermutes(s: seq<nat>)
    ensures multiset(SortAscending(s)) == multiset(s)
    ensures |SortAscending(s)| == |s|
  {
    SortPermutes(s, Score);
  }

  /** The sort puts the scores in ascending order. */
  lemma SortIsAscending(s: seq<nat>)
    ensures Ascending(SortAscending(s))
  {
    SortIsSorted(s, Score);
  }

  /** `Math.floor(0.95 * n) - 1`, in exact integer arithmetic. */
  function PercentileIndex(n: nat): int
  {
    95 * n / 100 - 1
  }

  /** The score at the percentile index of the sorted scores; `None` stands
      for the `undefined` an index outside the array reads. */
  function Percentile95(scores: seq<nat>): Option<nat>
  {
    var sorted := SortAscending(scores);
    var i := PercentileIndex(|scores|);
    if 0 <= i < |sorted| then Some(sorted[i]) else None
  }

  /** The index lies inside the array exactly when there are two or more
      scores. */
  lemma PercentileIndexInRange(n: nat)
    ensures 0 <= PercentileIndex(n) < n <==> n >= 2
  {
  }

  lemma {:induction false} InsertKeepsCounts(x: nat, s: seq<nat>, v: nat)
    ensures CountAtMost(InsertBy(x, s, Score), v) == (if x <= v then 1 else 0) + CountAtMost(s, v)
    ensures CountBelow(InsertBy(x, s, Score), v) == (if x < v then 1 else 0) + CountBelow(s, v)
  {
    if s == [] || x <= s[0] {
      assert InsertBy(x, s, Score) == [x] + s;
      assert ([x] + s)[1..] == s;
    } else {
      var rest := InsertBy(x, s[1..], Score);
      assert InsertBy(x, s, Score) == [s[0]] + rest;
      assert ([s[0]] + rest)[1..] == rest;
      InsertKeepsCounts(x, s[1..], v);
    }
  }

  /** Sorting changes no count. */
  lemma {:induction false} SortKeepsCounts(s: seq<nat>, v: nat)
    ensures CountAtMost(SortAscending(s), v) == CountAtMost(s, v)
    ensures CountBelow(SortAscending(s), v) == CountBelow(s, v)
  {
    if s != [] {
      SortKeepsCounts(s[1..], v);
      InsertKeepsCounts(s[0], SortAscending(s[1..]), v);
    }
  }

  /** A sequence whose first `k` scores are at most `v` counts at least `k`
      scores at most `v`. */
  lemma {:induction false} CountAtMostOfLowPrefix(s: seq<nat>, k: nat, v: nat)
    requires k <= |s|
    requires forall i :: 0 <= i < k ==> s[i] <= v
    ensures CountAtMost(s, v) >= k
  {
    if k > 0 {
      CountAtMostOfLowPrefix(s[1..], k - 1, v);
    }
  }

  /** A sequence whose scores from index `k` on are at least `v` counts at
      most `k` scores below `v`. */
  lemma {:induction false} CountBelowOfHighSuffix(s: seq<nat>, k: nat, v: nat)
    requires k <= |s|
    requires forall i :: k <= i < |s| ==> s[i] >= v
    ensures CountBelow(s, v) <= k
  {
    if s != [] {
      if k > 0 {
        CountBelowOfHighSuffix(s[1..], k - 1, v);
      } else {
        CountBelowOfHighSuffix(s[1..], 0, v);
      }
    }
  }

  lemma {:induction false} CountsMonotone(s: seq<nat>, v: nat, w: nat)
    requires v < w
    ensures CountAtMost(s, v) <= CountBelow(s, w)
  {
    if s != [] {
      CountsMonotone(s[1..], v, w);
    }
  }

  /** In an ascending sequence, the score at index `i` has at most `i`
      scores below it and more than `i` scores at or below it. */
  lemma AscendingRank(sorted: seq<nat>, i: nat)
    requires Ascending(sorted) && i < |sorted|
    ensures CountBelow(sorted, sorted[i]) <= i < CountAtMost(sorted, sorted[i])
  {
    CountAtMostOfLowPrefix(sorted, i + 1, sorted[i]);
    CountBelowOfHighSuffix(sorted, i, sorted[i]);
  }

  /** When defined, the threshold is one of the scores, and it is the score
      of rank floor(0.95 n): fewer than that many scores lie strictly below
      it, and at least that many lie at or below it. It is defined exactly
      when there are two or more scores. */
  lemma Percentile95IsRankStatistic(scores: seq<nat>)
    ensures Percentile95(scores).Some? <==> |scores| >= 2
    ensures Percentile95(scores).Some? ==>
      && Percentile95(scores).value in scores
      && CountBelow(scores, Percentile95(scores).value) < 95 * |scores| / 100
      && 95 * |scores| / 100 <= CountAtMost(scores, Percentile95(scores).value)
  {
    PercentileIndexInRange(|scores|);
    SortAscendingPermutes(scores);
    SortIsAscending(scores);
    if |scores| >= 2 {
      var sorted := SortAscending(scores);
      var i := PercentileIndex(|scores|);
      assert 0 <= i < |sorted|;
      var t := sorted[i];
      assert Percentile95(scores) == Some(t);
      assert t in multiset(scores) by {
        assert t in multiset(sorted);
      }
      AscendingRank(sorted, i);
      SortKeepsCounts(scores, t);
    }
  }

  /** The rank condition pins the threshold down: no other score satisfies
      it. */
  lemma Percentile95IsUnique(scores: seq<nat>, v: nat)
    requires CountBelow(scores, v) < 95 * |scores| / 100 <= CountAtMost(scores, v)
    ensures Percentile95(scores) == Some(v)
  {
    var n := |scores|;
    CountsLimit(scores, v);
    Percentile95IsRankStatistic(scores);
    var t := Percentile95(scores).value;
    if v < t {
      CountsMonotone(scores, v, t);
    } else if t < v {
      CountsMonotone(scores, t, v);
    }
  }

  lemma {:induction false} CountsLimit(s: seq<nat>, v: nat)
    ensures CountAtMost(s, v) <= |s| && CountBelow(s, v) <= |s|
  {
    if s != [] {
      CountsLimit(s[1..], v);
    }
  }
}
