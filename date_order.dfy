/**
 Ordering the dataset by creation date, newest first: the comparator
 `(a, b) => b.createdAt - a.createdAt` under the platform's stable sort.
 Records whose timestamps compare equal keep their input order.
 */
module DateOrder {
  import opened LaunchData
  import opened Sorting

  /** The sort key the descending comparator orders by. */
  function Recency(l: Launch): int
  {
    -l.createdAt
  }

  /** Every record is at least as recent as every record after it. */
  predicate NewestFirst(s: seq<Launch>)
  {
    forall i, j :: 0 <= i < j < |s| ==> s[i].createdAt >= s[j].createdAt
  }

  /** The records of `s` created at time `t`, in the order `s` has them. */
  function StampedAt(s: seq<Launch>, t: int): seq<Launch>
  {
    KeyedAt(s, Recency, -t)
  }

  /** What a stable newest-first sort of `input` must produce: a newest-first
      sequence in which the records of each timestamp appear exactly as, and
      in the order, they appear in `input`. */
  ghost predicate StableNewestFirst(input: seq<Launch>, r: seq<Launch>)
  {
    NewestFirst(r) && forall t :: StampedAt(r, t) == StampedAt(input, t)
  }

  /** The dataset sorted newest first. */
  function SortNewestFirst(s: seq<Launch>): seq<Launch>
  {
    SortBy(s, Recency)
  }

  lemma NewestFirstIsSortedByRecency(s: seq<Launch>)
    ensures NewestFirst(s) <==> SortedBy(s, Recency)
  {
  }

  /** `StampedAt` selects exactly the records of `s` created at `t`. */
  lemma StampedAtMembers(s: seq<Launch>, t: int)
    ensures forall y :: y in StampedAt(s, t) <==> y in s && y.createdAt == t
  {
    KeyedAtMembers(s, Recency, -t);
  }

  /** Sorting rearranges the records and drops or adds none. */
  lemma SortNewestFirstPermutes(s: seq<Launch>)
    ensures multiset(SortNewestFirst(s)) == multiset(s)
    ensures |SortNewestFirst(s)| == |s|
  {
    SortPermutes(s, Recency);
  }

  /** The sort puts the newest record first. */
  lemma SortIsNewestFirst(s: seq<Launch>)
    ensures NewestFirst(SortNewestFirst(s))
  {
    SortIsSorted(s, Recency);
    NewestFirstIsSortedByRecency(SortNewestFirst(s));
  }

  /** The sort is stable: per timestamp, the input order survives. */
  lemma SortKeepsStampOrder(s: seq<Launch>, t: int)
    ensures StampedAt(SortNewestFirst(s), t) == StampedAt(s, t)
  {
    SortKeepsKeyOrder(s, Recency, -t);
  }

  lemma SortIsStableNewestFirst(s: seq<Launch>)
    ensures StableNewestFirst(s, SortNewestFirst(s))
  {
    SortIsNewestFirst(s);
    forall t ensures StampedAt(SortNewestFirst(s), t) == StampedAt(s, t) {
      SortKeepsStampOrder(s, t);
    }
  }

  /** The sort is the only stable newest-first ordering of its input. */
  lemma StableNewestFirstIsUnique(s: seq<Launch>, r: seq<Launch>)
    requires StableNewestFirst(s, r)
    ensures r == SortNewestFirst(s)
  {
    NewestFirstIsSortedByRecency(r);
    forall k ensures KeyedAt(r, Recency, k) == KeyedAt(s, Recency, k) {
      assert StampedAt(r, -k) == StampedAt(s, -k);
    }
    StableSortIsUnique(s, r, Recency);
  }
}
