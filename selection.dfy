/**
 Choosing the records the grid shows: the dataset sorted newest first,
 cut to the first 900, then reversed so the grid reads oldest to newest.
 */
module Selection {
  import opened LaunchData
  import opened Sorting
  import opened DateOrder

  /** The number of records the grid keeps. */
  const MaxSquares: nat := 900

  /** Every record is at most as recent as every record after it. */
  predicate OldestFirst(s: seq<Launch>)
  {
    forall i, j :: 0 <= i < j < |s| ==> s[i].createdAt <= s[j].createdAt
  }

  /** The sort key of oldest-first order. */
  function Creation(l: Launch): int
  {
    l.createdAt
  }

  lemma OldestFirstIsSortedByCreation(s: seq<Launch>)
    ensures OldestFirst(s) <==> SortedBy(s, Creation)
  {
  }

  /** `Array.prototype.reverse`. */
  function Reversed<T>(s: seq<T>): (r: seq<T>)
    ensures |r| == |s|
    ensures forall i :: 0 <= i < |s| ==> r[i] == s[|s| - 1 - i]
  {
    if s == [] then [] else Reversed(s[1..]) + [s[0]]
  }

  /** The newest `MaxSquares` records (all of them when there are fewer),
      newest first. */
  function Latest(data: seq<Launch>): seq<Launch>
  {
    var sorted := SortNewestFirst(data);
    sorted[..Min(MaxSquares, |sorted|)]
  }

  /** The records the grid shows, oldest first. */
  function Retained(data: seq<Launch>): seq<Launch>
  {
    Reversed(Latest(data))
  }

  lemma ReversedMultiset<T>(s: seq<T>)
    ensures multiset(Reversed(s)) == multiset(s)
  {
    if s != [] {
      ReversedMultiset(s[1..]);
      assert s == [s[0]] + s[1..];
    }
  }

  lemma ReversedAppend<T>(a: seq<T>, b: seq<T>)
    ensures Reversed(a + b) == Reversed(b) + Reversed(a)
  {
    assert forall i :: 0 <= i < |a + b| ==> Reversed(a + b)[i] == (Reversed(b) + Reversed(a))[i];
  }

  lemma ReversedTwice<T>(s: seq<T>)
    ensures Reversed(Reversed(s)) == s
  {
    assert forall i :: 0 <= i < |s| ==> Reversed(Reversed(s))[i] == s[i];
  }

  lemma {:induction false} KeyedAtReversed<T>(s: seq<T>, key: T -> int, k: int)
    ensures KeyedAt(Reversed(s), key, k) == Reversed(KeyedAt(s, key, k))
  {
    if s != [] {
      var head := if key(s[0]) == k then [s[0]] else [];
      assert Reversed(s) == Reversed(s[1..]) + [s[0]];
      KeyedAtAppend(Reversed(s[1..]), [s[0]], key, k);
      KeyedAtReversed(s[1..], key, k);
      assert KeyedAt([s[0]], key, k) == head;
      ReversedAppend(head, KeyedAt(s[1..], key, k));
      assert Reversed(head) == head;
    }
  }

  /** The grid holds 900 records, or every record when there are fewer. */
  lemma RetainedLength(data: seq<Launch>)
    ensures |Retained(data)| == Min(MaxSquares, |data|)
  {
    SortNewestFirstPermutes(data);
  }

  /** The grid reads oldest to newest. */
  lemma RetainedOldestFirst(data: seq<Launch>)
    ensures OldestFirst(Retained(data))
  {
    var p := Latest(data);
    var r := Retained(data);
    SortIsNewestFirst(data);
    forall i, j | 0 <= i < j < |r| ensures r[i].createdAt <= r[j].createdAt {
      assert r[i] == p[|p| - 1 - i] && r[j] == p[|p| - 1 - j];
    }
  }

  lemma NewestFirstSplit(s: seq<Launch>, k: nat)
    requires NewestFirst(s) && k <= |s|
    ensures forall r, x :: r in s[..k] && x in s[k..] ==> x.createdAt <= r.createdAt
  {
    forall r, x | r in s[..k] && x in s[k..] ensures x.createdAt <= r.createdAt {
      var i :| 0 <= i < k && s[..k][i] == r;
      var j :| 0 <= j < |s| - k && s[k..][j] == x;
      assert s[i] == r && s[k + j] == x;
    }
  }

  lemma SplitMultiset<T>(s: seq<T>, k: nat)
    requires k <= |s|
    ensures multiset(s) == multiset(s[..k]) + multiset(s[k..])
  {
    assert s == s[..k] + s[k..];
  }

  /** The grid shows records of the dataset, unchanged, each at most as often
      as the dataset holds it, and every record left out is at most as recent
      as every record shown: the grid holds the latest records. */
  lemma RetainedAreLatest(data: seq<Launch>)
    ensures multiset(Retained(data)) <= multiset(data)
    ensures forall r, x :: r in Retained(data) && x in multiset(data) - multiset(Retained(data))
              ==> x.createdAt <= r.createdAt
  {
    var sorted := SortNewestFirst(data);
    SortNewestFirstPermutes(data);
    SortIsNewestFirst(data);
    var k := Min(MaxSquares, |sorted|);
    var p, q := sorted[..k], sorted[k..];
    var ret := Retained(data);
    assert ret == Reversed(p);
    SplitMultiset(sorted, k);
    ReversedMultiset(p);
    assert multiset(data) - multiset(ret) == multiset(q);
    NewestFirstSplit(sorted, k);
    forall r, x | r in ret && x in multiset(data) - multiset(ret)
      ensures x.createdAt <= r.createdAt
    {
      assert r in multiset(p);
      assert x in multiset(q);
    }
  }

  /** Cutting the sorted dataset keeps, per timestamp, the records earliest
      in the input. */
  lemma LatestKeepsEarliestTies(data: seq<Launch>, t: int)
    ensures StampedAt(Latest(data), t) <= StampedAt(data, t)
  {
    var sorted := SortNewestFirst(data);
    assert Latest(data) <= sorted;
    KeyedAtPrefix(Latest(data), sorted, Recency, -t);
    SortKeepsKeyOrder(data, Recency, -t);
  }

  /** Records created at the same time appear in the grid in reverse input
      order, and those kept are the earliest of them in the input. */
  lemma RetainedTiesReverseInputOrder(data: seq<Launch>, t: int)
    ensures Reversed(StampedAt(Retained(data), t)) <= StampedAt(data, t)
  {
    var p := Latest(data);
    var kept := KeyedAt(p, Recency, -t);
    assert Retained(data) == Reversed(p);
    KeyedAtReversed(p, Recency, -t);
    ReversedTwice(kept);
    LatestKeepsEarliestTies(data, t);
  }

  /** No two records share a story id, the key each square is rendered
      and linked under. */
  predicate DistinctIds(s: seq<Launch>)
  {
    forall i, j :: 0 <= i < j < |s| ==> s[i].storyId != s[j].storyId
  }

  lemma {:induction false} DistinctIdsOccurOnce(s: seq<Launch>, x: Launch)
    requires DistinctIds(s)
    ensures multiset(s)[x] <= 1
  {
    if s != [] {
      DistinctIdsOccurOnce(s[1..], x);
      assert s == [s[0]] + s[1..];
      if s[0] == x {
        assert forall k :: 0 <= k < |s| - 1 ==> s[1..][k] != x by {
          forall k | 0 <= k < |s| - 1 ensures s[1..][k] != x {
            assert s[1..][k] == s[k + 1];
          }
        }
        assert x !in s[1..];
      }
    }
  }

  lemma RepeatedCountsTwice(a: seq<Launch>, i: nat, j: nat)
    requires i < j < |a| && a[i] == a[j]
    ensures multiset(a)[a[i]] >= 2
  {
    assert a == a[..j] + a[j..];
    assert a[i] == a[..j][i];
    assert a[j] == a[j..][0];
  }

  lemma DistinctRecordsOfDistinctIds(b: seq<Launch>, x: Launch, y: Launch)
    requires DistinctIds(b) && x in b && y in b && x != y
    ensures x.storyId != y.storyId
  {
    var p :| 0 <= p < |b| && b[p] == x;
    var q :| 0 <= q < |b| && b[q] == y;
    assert p != q;
  }

  /** Records drawn from a dataset without repeated ids repeat no id. */
  lemma DistinctIdsOfSubMultiset(a: seq<Launch>, b: seq<Launch>)
    requires multiset(a) <= multiset(b) && DistinctIds(b)
    ensures DistinctIds(a)
  {
    forall i, j | 0 <= i < j < |a| ensures a[i].storyId != a[j].storyId {
      assert a[i] in multiset(a) && a[j] in multiset(a);
      assert a[i] in b && a[j] in b;
      if a[i] == a[j] {
        RepeatedCountsTwice(a, i, j);
        DistinctIdsOccurOnce(b, a[i]);
      } else {
        DistinctRecordsOfDistinctIds(b, a[i], a[j]);
      }
    }
  }

  /** When the dataset's story ids are distinct, so are the grid's. */
  lemma RetainedKeepsIdsDistinct(data: seq<Launch>)
    requires DistinctIds(data)
    ensures DistinctIds(Retained(data))
  {
    RetainedAreLatest(data);
    DistinctIdsOfSubMultiset(Retained(data), data);
  }
}
