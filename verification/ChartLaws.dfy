/**
  What a chart shows, read off the selected events (storage/queries.py, events_timeseries): which times a point covers,
  which events a series counts, and where the chart starts and ends.
 */
module ChartLaws {
  import opened Wrappers
  import opened Sequences
  import opened Timeseries
  import opened Charts

  /** The times of the bucket that starts at `t`; those before the epoch are counted towards it. */
  predicate InBucket(ts: int, t: int, delta: nat) {
    (0 <= t <= ts < t + delta) || (t - delta < ts <= t <= 0)
  }

  /** A split chart counts an event under its own value, or as unknown without one; an unsplit chart has one series. */
  predicate InSeries(e: Event, split: bool, name: string) {
    if split then
      (e.column == Some(name) && name != "") || (name == "unknown" && (e.column == None || e.column == Some("")))
    else
      name == "events"
  }

  lemma SeriesIs(e: Event, split: bool, name: string)
    ensures Label(split, e.column) == name <==> InSeries(e, split, name)
  {
  }

  lemma BucketIs(ts: int, t: int, delta: nat)
    requires delta > 0 && t % delta == 0
    ensures Floor(ts, delta) == t <==> InBucket(ts, t, delta)
  {
    hide Floor;
    if ts >= 0 {
      FloorForward(ts, t, delta);
    } else {
      OppositeMultiple(t, delta);
      FloorForward(-ts, -t, delta);
      FloorMirrored(-ts, delta);
    }
  }

  lemma OppositeMultiple(t: int, delta: nat)
    requires delta > 0 && t % delta == 0
    ensures -t % delta == 0
  {
    var p := t / delta;
    assert -t == -p * delta;
    MultipleMod(-p, delta);
  }

  lemma FloorMirrored(ts: int, delta: nat)
    requires delta > 0 && ts >= 0
    ensures Floor(-ts, delta) == -Floor(ts, delta)
  {
  }

  lemma FloorForward(ts: nat, t: int, delta: nat)
    requires delta > 0 && t % delta == 0
    ensures Floor(ts, delta) == t <==> 0 <= t <= ts < t + delta
  {
    var p := t / delta;
    assert t == p * delta;
    QuotientIff(ts, delta, p);
    if p < 0 {
      assert (-1 - p) * delta >= 0;
    }
  }

  lemma QuotientIff(a: nat, d: nat, q: int)
    requires d > 0
    ensures a / d * d == q * d <==> q * d <= a < q * d + d
  {
    var r := a / d;
    QuotientBounds(a, d);
    if q < r {
      MultiplesApart(q, r, d);
    } else if r < q {
      MultiplesApart(r, q, d);
    }
  }

  lemma QuotientBounds(a: nat, d: nat)
    requires d > 0
    ensures a / d * d <= a < a / d * d + d
  {
  }

  function CountedAt(t: int, delta: nat): Event -> bool {
    (e: Event) => InBucket(e.ts, t, delta)
  }

  function CountedIn(t: int, delta: nat, split: bool, name: string): Event -> bool {
    (e: Event) => InBucket(e.ts, t, delta) && InSeries(e, split, name)
  }

  lemma {:induction false} CellCount(events: seq<Event>, delta: nat, split: bool, t: int, name: string)
    requires delta > 0 && t % delta == 0
    ensures CountOf(events, delta, split, (t, name)) == |Positions(events, CountedIn(t, delta, split, name))|
  {
    hide Floor, Label, InBucket, InSeries, Positions;
    if events == [] {
      NoPositions(events, CountedIn(t, delta, split, name));
    } else {
      var before, e := events[..|events| - 1], events[|events| - 1];
      assert events == before + [e];
      CellCount(before, delta, split, t, name);
      PositionsStep(before, e, CountedIn(t, delta, split, name));
      BucketIs(e.ts, t, delta);
      SeriesIs(e, split, name);
    }
  }

  lemma {:induction false} TotalCount(events: seq<Event>, delta: nat, t: int)
    requires delta > 0 && t % delta == 0
    ensures TotalAt(events, delta, t) == |Positions(events, CountedAt(t, delta))|
  {
    hide Floor, InBucket, Positions;
    if events == [] {
      NoPositions(events, CountedAt(t, delta));
    } else {
      var before, e := events[..|events| - 1], events[|events| - 1];
      assert events == before + [e];
      TotalCount(before, delta, t);
      PositionsStep(before, e, CountedAt(t, delta));
      BucketIs(e.ts, t, delta);
    }
  }

  lemma NoPositions(events: seq<Event>, keep: Event -> bool)
    requires events == []
    ensures |Positions(events, keep)| == 0
  {
    assert Positions(events, keep) == {};
  }

  /** The point shows how many events fall into the bucket at its time, in all and by series. */
  ghost predicate PointShows(p: Point, events: seq<Event>, delta: nat, split: bool, names: seq<string>) {
    && p.total == |set i | 0 <= i < |events| && InBucket(events[i].ts, p.ts, delta)|
    && (forall n :: n in p.counts <==> n in names)
    && (forall n :: n in names ==>
          p.counts[n]
          == |set i | 0 <= i < |events| && InBucket(events[i].ts, p.ts, delta) && InSeries(events[i], split, n)|)
  }

  lemma PointMeaning(events: seq<Event>, delta: nat, split: bool, names: seq<string>, t: int)
    requires delta > 0 && t % delta == 0
    ensures PointShows(PointAt(events, delta, split, names, t), events, delta, split, names)
  {
    hide CountOf, TotalAt, InBucket, InSeries;
    var p := PointAt(events, delta, split, names, t);
    TotalCount(events, delta, t);
    assert Positions(events, CountedAt(t, delta)) == set i | 0 <= i < |events| && InBucket(events[i].ts, t, delta);
    forall n | n in names
      ensures p.counts[n]
           == |set i | 0 <= i < |events| && InBucket(events[i].ts, t, delta) && InSeries(events[i], split, n)|
    {
      CellCount(events, delta, split, t, n);
      assert Positions(events, CountedIn(t, delta, split, n))
          == set i | 0 <= i < |events| && InBucket(events[i].ts, t, delta) && InSeries(events[i], split, n);
    }
  }

  /** Every point of a chart shows the events of its own bucket; the buckets follow each other without a gap, from the
      one that holds the start of the window to the one that holds the present. */
  lemma ChartMeaning(events: seq<Event>, delta: nat, split: bool, since: Option<int>, now1: int, now2: int)
    requires delta > 0
    ensures var chart := ChartOf(events, delta, split, since, now1, now2);
      && (forall k :: 0 <= k < |chart.points| ==> PointShows(chart.points[k], events, delta, split, chart.names))
      && (chart.points != [] ==>
            && (forall k :: 0 <= k < |chart.points| ==> chart.points[k].ts == chart.points[0].ts + k * delta)
            && StartsRight(chart.points[0].ts, events, delta, since, now1)
            && chart.points[|chart.points| - 1].ts % delta == 0
            && InBucket(now2, chart.points[|chart.points| - 1].ts, delta))
  {
    hide PointAt, StableSort, NamesOf, StartOf, Floor, PointShows, PointsFrom, StartsRight;
    var chart := ChartOf(events, delta, split, since, now1, now2);
    var start, end := StartOf(events, delta, since, now1), Floor(now2, delta);
    StartMeaning(events, delta, since, now1);
    FloorProperties(now2, delta);
    PointsGapFree(events, delta, split, chart.names, start, end);
    forall k | 0 <= k < |chart.points|
      ensures chart.points[k].ts == start + k * delta
      ensures PointShows(chart.points[k], events, delta, split, chart.names)
    {
      Advance(start, k, delta);
      PointTime(events, delta, split, chart.names, start + k * delta);
      PointMeaning(events, delta, split, chart.names, start + k * delta);
    }
    if chart.points != [] {
      LastPoint(start, end, delta);
      assert start + 0 * delta == start;
      BucketIs(now2, end, delta);
    }
  }

  lemma PointTime(events: seq<Event>, delta: nat, split: bool, names: seq<string>, t: int)
    requires delta > 0
    ensures PointAt(events, delta, split, names, t).ts == t
  {
  }

  lemma Advance(t: int, k: nat, d: nat)
    requires d > 0 && t % d == 0
    ensures (t + k * d) % d == 0
  {
    var p := t / d;
    assert (p + k) * d == t + k * d;
    MultipleMod(p + k, d);
  }

  lemma LastPoint(a: int, b: int, d: nat)
    requires d > 0 && a % d == 0 && b % d == 0 && a <= b
    ensures a + (b - a) / d * d == b
  {
    var p, q := a / d, b / d;
    assert b - a == (q - p) * d;
    QuotientIs(b - a, d, q - p);
  }

  /** The first bucket holds the window's start, else the earliest event, else the present. */
  ghost predicate StartsRight(t: int, events: seq<Event>, delta: nat, since: Option<int>, now: int) {
    match since
    case Some(s) => InBucket(s, t, delta)
    case None =>
      if events == [] then InBucket(now, t, delta)
      else (exists e :: e in events && InBucket(e.ts, t, delta)) && NoneBefore(t, events, delta)
  }

  ghost predicate NoneBefore(t: int, events: seq<Event>, delta: nat) {
    forall e :: e in events ==> if t > 0 then t <= e.ts else t - delta < e.ts
  }

  lemma StartMeaning(events: seq<Event>, delta: nat, since: Option<int>, now: int)
    requires delta > 0
    ensures StartOf(events, delta, since, now) % delta == 0
    ensures StartsRight(StartOf(events, delta, since, now), events, delta, since, now)
  {
    hide Floor, FirstKey;
    var t := StartOf(events, delta, since, now);
    match since {
      case Some(s) =>
        FloorProperties(s, delta);
        BucketIs(s, t, delta);
      case None =>
        if events == [] {
          FloorProperties(now, delta);
          BucketIs(now, t, delta);
        } else {
          var k := FirstKey(events, delta);
          var e :| e in events && Floor(e.ts, delta) == k;
          FloorProperties(e.ts, delta);
          BucketIs(e.ts, t, delta);
          forall x | x in events ensures if t > 0 then t <= x.ts else t - delta < x.ts {
            FloorProperties(x.ts, delta);
            BucketIs(x.ts, Floor(x.ts, delta), delta);
          }
        }
    }
  }

  /** The series are exactly those that an event belongs to, each once and in ascending order. */
  lemma SeriesMeaning(events: seq<Event>, delta: nat, split: bool, since: Option<int>, now1: int, now2: int)
    requires delta > 0
    ensures var names := ChartOf(events, delta, split, since, now1, now2).names;
      && (forall n :: n in names <==> exists e :: e in events && InSeries(e, split, n))
      && (forall i, j :: 0 <= i < j < |names| ==> StringLe(names[i], names[j]) && names[i] != names[j])
  {
    hide StableSort, StringLe, NamesOf, PointsFrom, InSeries;
    var own := NamesOf(events, split);
    var names := StableSort(own, StringLe);
    StringLeIsTotalOrder();
    SortOrdered(own, StringLe);
    SortMultiset(own, StringLe);
    SameMembers(own, names);
    DistinctMultiset(own);
    forall i, j | 0 <= i < j < |names| ensures names[i] != names[j] {
      Repeated(names, i, j);
    }
    forall n ensures n in names <==> exists e :: e in events && InSeries(e, split, n) {
      forall e: Event ensures Label(split, e.column) == n <==> InSeries(e, split, n) {
        SeriesIs(e, split, n);
      }
    }
  }
}
