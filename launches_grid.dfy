/**
 The derivation the grid component runs once when it mounts: select the
 latest records, compute the 95th-percentile score, and paint one square per
 record.
 */
module LaunchesGrid {
  import opened LaunchData
  import opened Sorting
  import opened DateOrder
  import opened Selection
  import opened Percentile
  import opened Colouring

  /** What the derivation stores in the component's state: the squares and
      the threshold. */
  datatype Derivation = Derivation(squares: seq<Square>, percentile95thScore: Option<nat>)

  /** The 95th-percentile score of the records on the grid. */
  function Threshold(retained: seq<Launch>): Option<nat>
  {
    Percentile95(Scores(retained))
  }

  function Derive(data: seq<Launch>): Derivation
  {
    var retained := Retained(data);
    var threshold := Threshold(retained);
    Derivation(PaintAll(retained, threshold), threshold)
  }

  /** The records the squares were made from, in grid order. */
  function Records(squares: seq<Square>): seq<Launch>
  {
    seq(|squares|, i requires 0 <= i < |squares| => Record(squares[i]))
  }

  /** The squares are the latest `MaxSquares` records (all of them when there
      are fewer), oldest first, each with its fields unchanged. */
  lemma DeriveSelectsLatest(data: seq<Launch>)
    ensures var sq := Records(Derive(data).squares);
      && sq == Retained(data)
      && |sq| == Min(MaxSquares, |data|)
      && OldestFirst(sq)
      && multiset(sq) <= multiset(data)
      && (forall r, x :: r in sq && x in multiset(data) - multiset(sq) ==> x.createdAt <= r.createdAt)
  {
    var retained := Retained(data);
    var sq := Records(Derive(data).squares);
    assert sq == retained;
    RetainedLength(data);
    RetainedOldestFirst(data);
    RetainedAreLatest(data);
  }

  /** The threshold exists exactly when at least two records are on the grid;
      it is then the score of one of them, of rank floor(0.95 n) among the
      n scores. */
  lemma DeriveThreshold(data: seq<Launch>)
    ensures var d, retained := Derive(data), Retained(data);
      var n := |retained|;
      && (d.percentile95thScore.Some? <==> n >= 2)
      && (d.percentile95thScore.Some? ==>
            && (exists i :: 0 <= i < n && retained[i].points == d.percentile95thScore.value)
            && CountBelow(Scores(retained), d.percentile95thScore.value) < 95 * n / 100
            && 95 * n / 100 <= CountAtMost(Scores(retained), d.percentile95thScore.value))
  {
    var retained := Retained(data);
    Percentile95IsRankStatistic(Scores(retained));
    var th := Threshold(retained);
    if th.Some? {
      var k :| 0 <= k < |retained| && Scores(retained)[k] == th.value;
      assert retained[k].points == th.value;
    }
  }

  /** A square is gold exactly when its score exceeds the threshold, so all
      of those squares share one colour whatever their scores. */
  lemma DeriveGoldForTop(data: seq<Launch>, i: nat)
    requires i < |Derive(data).squares|
    ensures var d := Derive(data);
      (d.squares[i].color == Gold) <==>
      (d.percentile95thScore.Some? && d.squares[i].points > d.percentile95thScore.value)
  {
    GoldExactlyForTop(Retained(data), Threshold(Retained(data)), i);
  }

  /** A square at or below a positive threshold has hue 24 and lightness 50,
      at its score as a percentage of the threshold, within [0, 100]. */
  lemma DeriveHslForTheRest(data: seq<Launch>, i: nat)
    requires i < |Derive(data).squares|
    ensures var d := Derive(data);
      var sq, th := d.squares[i], d.percentile95thScore;
      (th.Some? && th.value > 0 && sq.points <= th.value) ==>
        && sq.color == Hsl(Hue, Percent((sq.points as real / th.value as real) * 100.0), Lightness)
        && 0.0 <= (sq.points as real / th.value as real) * 100.0 <= 100.0
  {
    var retained := Retained(data);
    var th := Threshold(retained);
    if th.Some? && th.value > 0 && retained[i].points <= th.value {
      HslForTheRest(retained, th.value, i);
    }
  }

  /** With fewer than two records there is no threshold and every square has
      a NaN saturation. */
  lemma DeriveNaNWithoutThreshold(data: seq<Launch>, i: nat)
    requires i < |Derive(data).squares| && |data| < 2
    ensures Derive(data).percentile95thScore == None
    ensures Derive(data).squares[i].color == Hsl(Hue, NaN, Lightness)
  {
    var retained := Retained(data);
    RetainedLength(data);
    Percentile95IsRankStatistic(Scores(retained));
    NoThresholdGivesNaN(retained, i);
  }

  lemma {:induction false} FilteredCount(s: seq<Launch>, v: nat)
    ensures |Filtered(s, Some(v))| == CountAtMost(Scores(s), v)
  {
    if s != [] {
      FilteredCount(s[1..], v);
      assert Scores(s)[1..] == Scores(s[1..]);
    }
  }

  /** At least floor(0.95 n) records are filtered, so at most
      n - floor(0.95 n) squares are gold. */
  lemma TopIsAtMostFivePercent(data: seq<Launch>)
    requires |Retained(data)| >= 2
    ensures var retained := Retained(data);
      var n, th := |retained|, Threshold(retained);
      && 95 * n / 100 <= |Filtered(retained, th)|
      && |Top(retained, th)| <= n - 95 * n / 100
      && |GoldRecords(Derive(data).squares)| <= n - 95 * n / 100
  {
    var retained := Retained(data);
    Percentile95IsRankStatistic(Scores(retained));
    var t := Threshold(retained).value;
    FilteredCount(retained, t);
    Partition(retained, t);
    GoldSquaresAreTop(retained, Threshold(retained));
  }

  /** Two records one day apart, at 2020-01-01 and 2020-01-02 in
      milliseconds. */
  const ExampleFirst := Launch(1, "first", 10, 1577836800000)
  const ExampleSecond := Launch(2, "second", 100, 1577923200000)

  lemma ExampleRetained()
    ensures Retained([ExampleFirst, ExampleSecond]) == [ExampleFirst, ExampleSecond]
  {
    var a, b := ExampleFirst, ExampleSecond;
    assert [b][1..] == [];
    assert SortBy([b], Recency) == InsertBy(b, [], Recency) == [b];
    assert [a, b][1..] == [b];
    assert InsertBy(a, [b], Recency) == [b, a];
    assert SortNewestFirst([a, b]) == [b, a];
    assert Latest([a, b]) == [b, a];
    assert Reversed([b, a]) == [a, b];
  }

  lemma ExampleThreshold()
    ensures Threshold([ExampleFirst, ExampleSecond]) == Some(10)
  {
    var a, b := ExampleFirst, ExampleSecond;
    assert Scores([a, b]) == [10, 100];
    assert [100][1..] == [];
    assert SortBy<nat>([100], Score) == InsertBy<nat>(100, [], Score) == [100];
    assert [10, 100][1..] == [100];
    assert InsertBy<nat>(10, [100], Score) == [10, 100];
    assert SortAscending([10, 100]) == [10, 100];
    assert PercentileIndex(2) == 0;
  }

  /** Two records, the second newer and far higher scoring: the threshold is
      the lower score, the first square is fully saturated and the second is
      gold. Timestamps are 2020-01-01 and 2020-01-02 in milliseconds. */
  lemma TwoRecordExample()
    ensures Derive([ExampleFirst, ExampleSecond]) == Derivation(
        [ Square(1, "first", 10, 1577836800000, Hsl(Hue, Percent(100.0), Lightness)),
          Square(2, "second", 100, 1577923200000, Gold) ],
        Some(10))
  {
    ExampleRetained();
    ExampleThreshold();
    SaturationAtThreshold(10);
  }
}
