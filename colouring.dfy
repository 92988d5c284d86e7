/**
 Painting the grid. A record scoring above the threshold gets the gold
 gradient; every other record gets hue 24 and lightness 50 with a
 saturation proportional to its score, capped at 100.
 */
module Colouring {
  import opened LaunchData

  const Hue: nat := 24
  const Lightness: nat := 50

  /** The five-stop gold gradient every top record is painted with. */
  const Gold: Colour :=
    LinearGradient("to top", ["#ffcc00", "#ffd700", "#ff9900", "#ffcc00", "#ffd700"])

  /** `item.points > threshold`; against an undefined threshold the
      comparison is false. */
  predicate IsTop(l: Launch, threshold: Option<nat>)
  {
    threshold.Some? && l.points > threshold.value
  }

  /** `item.points <= threshold`; against an undefined threshold the
      comparison is false too. */
  predicate IsFiltered(l: Launch, threshold: Option<nat>)
  {
    threshold.Some? && l.points <= threshold.value
  }

  /** `Math.min((points / threshold) * 100, 100)`. Dividing by an undefined
      threshold, or 0 by 0, gives NaN, which `Math.min` passes on; a positive
      score over a zero threshold is +Infinity, which it caps at 100. */
  function SaturationOf(points: nat, threshold: Option<nat>): Saturation
  {
    match threshold
    case None => NaN
    case Some(t) =>
      if t == 0 then (if points == 0 then NaN else Percent(100.0))
      else Percent(RealMin((points as real / t as real) * 100.0, 100.0))
  }

  function RealMin(a: real, b: real): real
  {
    if a <= b then a else b
  }

  /** The colour a record's square receives. */
  function ColourOf(l: Launch, threshold: Option<nat>): Colour
  {
    if IsTop(l, threshold) then Gold
    else Hsl(Hue, SaturationOf(l.points, threshold), Lightness)
  }

  /** `{ ...item, color }`. */
  function Paint(l: Launch, threshold: Option<nat>): Square
  {
    Square(l.storyId, l.title, l.points, l.createdAt, ColourOf(l, threshold))
  }

  /** `sortedLaunchData.map(...)`: one square per record, in order. */
  function PaintAll(records: seq<Launch>, threshold: Option<nat>): (squares: seq<Square>)
    ensures |squares| == |records|
    ensures forall i :: 0 <= i < |records| ==> Record(squares[i]) == records[i]
  {
    seq(|records|, i requires 0 <= i < |records| => Paint(records[i], threshold))
  }

  /** `sortedLaunchData.filter(item => item.points <= threshold)`. */
  function Filtered(records: seq<Launch>, threshold: Option<nat>): seq<Launch>
  {
    if records == [] then []
    else (if IsFiltered(records[0], threshold) then [records[0]] else [])
         + Filtered(records[1..], threshold)
  }

  /** The records the painting step sends to the gold branch, in order. */
  function Top(records: seq<Launch>, threshold: Option<nat>): seq<Launch>
  {
    if records == [] then []
    else (if IsTop(records[0], threshold) then [records[0]] else [])
         + Top(records[1..], threshold)
  }

  // ---------------------------------------------------------------------
  // Saturation

  /** With a positive threshold the saturation is a percentage in [0, 100]. */
  lemma SaturationInRange(points: nat, t: nat)
    requires t > 0
    ensures SaturationOf(points, Some(t)).Percent?
    ensures 0.0 <= SaturationOf(points, Some(t)).value <= 100.0
  {
  }

  /** A higher score never gets a lower saturation. */
  lemma SaturationMonotone(p: nat, q: nat, t: nat)
    requires t > 0 && p <= q
    ensures SaturationOf(p, Some(t)).value <= SaturationOf(q, Some(t)).value
  {
    var rp, rq, rt := p as real, q as real, t as real;
    assert rq / rt - rp / rt == (rq - rp) / rt >= 0.0;
  }

  /** A record scoring exactly the threshold is fully saturated. */
  lemma SaturationAtThreshold(t: nat)
    requires t > 0
    ensures SaturationOf(t, Some(t)) == Percent(100.0)
  {
  }

  /** For scores up to the threshold the cap never applies: the saturation is
      the score as a percentage of the threshold. */
  lemma SaturationUncapped(p: nat, t: nat)
    requires 0 < t && p <= t
    ensures SaturationOf(p, Some(t)) == Percent((p as real / t as real) * 100.0)
  {
  }

  // ---------------------------------------------------------------------
  // Squares

  /** Every square above the threshold is gold, whatever its score, and only
      those squares are. */
  lemma GoldExactlyForTop(records: seq<Launch>, threshold: Option<nat>, i: nat)
    requires i < |records|
    ensures PaintAll(records, threshold)[i].color == Gold <==> IsTop(records[i], threshold)
  {
  }

  /** A record not above a positive threshold is painted with hue 24 and
      lightness 50, at its score as a percentage of the threshold, which lies
      in [0, 100]. */
  lemma ColourOfRest(l: Launch, t: nat)
    requires !IsTop(l, Some(t)) && t > 0
    ensures ColourOf(l, Some(t)) == Hsl(Hue, Percent((l.points as real / t as real) * 100.0), Lightness)
    ensures 0.0 <= (l.points as real / t as real) * 100.0 <= 100.0
  {
    SaturationUncapped(l.points, t);
    SaturationInRange(l.points, t);
  }

  /** Every other square carries hue 24 and lightness 50; with a positive
      threshold its saturation is score / threshold * 100, within [0, 100]. */
  lemma HslForTheRest(records: seq<Launch>, t: nat, i: nat)
    requires i < |records| && !IsTop(records[i], Some(t)) && t > 0
    ensures PaintAll(records, Some(t))[i].color
         == Hsl(Hue, Percent((records[i].points as real / t as real) * 100.0), Lightness)
    ensures 0.0 <= (records[i].points as real / t as real) * 100.0 <= 100.0
  {
    ColourOfRest(records[i], t);
  }

  /** With no threshold (fewer than two records) every square is an HSL
      colour whose saturation is NaN. */
  lemma NoThresholdGivesNaN(records: seq<Launch>, i: nat)
    requires i < |records|
    ensures PaintAll(records, None)[i].color == Hsl(Hue, NaN, Lightness)
  {
  }

  /** With a zero threshold a zero score divides 0 by 0: its square is an
      HSL colour whose saturation is NaN. */
  lemma ZeroThresholdGivesNaN(records: seq<Launch>, i: nat)
    requires i < |records| && records[i].points == 0
    ensures PaintAll(records, Some(0))[i].color == Hsl(Hue, NaN, Lightness)
  {
  }

  /** Of two squares at or below a positive threshold, the one with the
      higher score is at least as saturated. */
  lemma SquaresSaturationMonotone(records: seq<Launch>, t: nat, i: nat, j: nat)
    requires i < |records| && j < |records| && t > 0
    requires records[i].points <= records[j].points <= t
    ensures var ci, cj := PaintAll(records, Some(t))[i].color, PaintAll(records, Some(t))[j].color;
      && ci.Hsl? && ci.saturation.Percent?
      && cj.Hsl? && cj.saturation.Percent?
      && ci.saturation.value <= cj.saturation.value
  {
    var p, q := records[i].points, records[j].points;
    HslForTheRest(records, t, i);
    HslForTheRest(records, t, j);
    SaturationMonotone(p, q, t);
    SaturationUncapped(p, t);
    SaturationUncapped(q, t);
  }

  // ---------------------------------------------------------------------
  // Partition

  /** A record is filtered exactly when it is on the grid and scores at most
      the threshold. */
  lemma {:induction false} FilteredMembers(records: seq<Launch>, threshold: Option<nat>)
    ensures forall x :: x in Filtered(records, threshold)
              <==> x in records && IsFiltered(x, threshold)
  {
    if records != [] {
      FilteredMembers(records[1..], threshold);
      assert records == [records[0]] + records[1..];
    }
  }

  /** Filtering keeps the order of the records: it distributes over
      concatenation. */
  lemma {:induction false} FilteredAppend(a: seq<Launch>, b: seq<Launch>, threshold: Option<nat>)
    ensures Filtered(a + b, threshold) == Filtered(a, threshold) + Filtered(b, threshold)
  {
    if a == [] {
      assert a + b == b;
    } else {
      assert (a + b)[0] == a[0] && (a + b)[1..] == a[1..] + b;
      FilteredAppend(a[1..], b, threshold);
    }
  }

  lemma {:induction false} PartitionMultiset(records: seq<Launch>, t: nat)
    ensures multiset(Filtered(records, Some(t))) + multiset(Top(records, Some(t))) == multiset(records)
  {
    if records != [] {
      PartitionMultiset(records[1..], t);
      assert records == [records[0]] + records[1..];
    }
  }

  /** With a threshold, the filtered and the top records split the grid's
      records between them: together they are all of them, and no record is
      in both. */
  lemma Partition(records: seq<Launch>, t: nat)
    ensures multiset(Filtered(records, Some(t))) + multiset(Top(records, Some(t))) == multiset(records)
    ensures |Filtered(records, Some(t))| + |Top(records, Some(t))| == |records|
    ensures forall x :: x in records ==> (x in Filtered(records, Some(t)) <==> x !in Top(records, Some(t)))
  {
    PartitionMultiset(records, t);
    assert |multiset(Filtered(records, Some(t)))| + |multiset(Top(records, Some(t)))| == |multiset(records)|;
    FilteredMembers(records, Some(t));
    TopMembers(records, Some(t));
  }

  lemma {:induction false} TopMembers(records: seq<Launch>, threshold: Option<nat>)
    ensures forall x :: x in Top(records, threshold) <==> x in records && IsTop(x, threshold)
  {
    if records != [] {
      TopMembers(records[1..], threshold);
      assert records == [records[0]] + records[1..];
    }
  }

  /** The records behind the squares painted gold, in grid order. */
  function GoldRecords(squares: seq<Square>): seq<Launch>
  {
    if squares == [] then []
    else (if squares[0].color == Gold then [Record(squares[0])] else [])
         + GoldRecords(squares[1..])
  }

  /** The squares painted gold are exactly the top records, in order. */
  lemma {:induction false} GoldSquaresAreTop(records: seq<Launch>, threshold: Option<nat>)
    ensures GoldRecords(PaintAll(records, threshold)) == Top(records, threshold)
  {
    if records != [] {
      var squares := PaintAll(records, threshold);
      assert squares[1..] == PaintAll(records[1..], threshold);
      GoldSquaresAreTop(records[1..], threshold);
      GoldExactlyForTop(records, threshold, 0);
      assert Record(squares[0]) == records[0];
    }
  }

  /** Without a threshold neither list holds anything. */
  lemma {:induction false} NoThresholdNoPartition(records: seq<Launch>)
    ensures Filtered(records, None) == [] && Top(records, None) == []
  {
    if records != [] {
      NoThresholdNoPartition(records[1..]);
    }
  }
}
