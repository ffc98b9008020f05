/**
  The chart that `events_timeseries` (storage/queries.py) builds from a tally: gap-free points whose totals
  add up, and a limit on their number (api/routes/stats.py).
 */
module Charts {
  import opened Wrappers
  import opened Sequences
  import opened Timeseries

  // ----------------------------------------------------------------------- charts

  datatype Point = Point(ts: int, counts: map<string, int>, total: int)

  datatype Chart = Chart(names: seq<string>, points: seq<Point>)

  /** The names in order of first appearance. */
  function NamesOf(events: seq<Event>, split: bool): (names: seq<string>)
    ensures IsNames(names, events, split)
  {
    if events == [] then []
    else
      var e := events[|events| - 1];
      var before := events[..|events| - 1];
      var names := NamesOf(before, split);
      var name := Label(split, e.column);
      assert e in events && forall x :: x in events <==> x in before || x == e;
      if name in names then names else names + [name]
  }

  function TotalAt(events: seq<Event>, delta: nat, key: int): nat
    requires delta > 0
  {
    if events == [] then 0
    else
      TotalAt(events[..|events| - 1], delta, key)
      + if Floor(events[|events| - 1].ts, delta) == key then 1 else 0
  }

  function PointAt(events: seq<Event>, delta: nat, split: bool, names: seq<string>, key: int): Point
    requires delta > 0
  {
    Point(key, map n | n in names :: CountOf(events, delta, split, (key, n)), TotalAt(events, delta, key))
  }

  function PointsFrom(events: seq<Event>, delta: nat, split: bool, names: seq<string>, cursor: int,
                      end: int): seq<Point>
    requires delta > 0
    decreases end - cursor
  {
    if cursor > end then []
    else [PointAt(events, delta, split, names, cursor)] + PointsFrom(events, delta, split, names, cursor + delta, end)
  }

  /** The time of the first point: the window's start, the first bucket, or the present. */
  function StartOf(events: seq<Event>, delta: nat, since: Option<int>, now: int): int
    requires delta > 0
  {
    Floor(match since
          case Some(s) => s
          case None => if events == [] then now else FirstKey(events, delta), delta)
  }

  function FirstKey(events: seq<Event>, delta: nat): (k: int)
    requires delta > 0 && events != []
    ensures (exists e :: e in events && Floor(e.ts, delta) == k) && forall e :: e in events ==> k <= Floor(e.ts, delta)
  {
    var e := events[|events| - 1];
    if |events| == 1 then Floor(e.ts, delta)
    else
      var k := FirstKey(events[..|events| - 1], delta);
      assert e in events && forall x :: x in events <==> x in events[..|events| - 1] || x == e;
      if Floor(e.ts, delta) < k then Floor(e.ts, delta) else k
  }

  /** The chart of the selected events, for the two clock readings of the source. */
  function ChartOf(events: seq<Event>, delta: nat, split: bool, since: Option<int>, now1: int, now2: int): Chart
    requires delta > 0
  {
    var names := StableSort(NamesOf(events, split), StringLe);
    Chart(names, PointsFrom(events, delta, split, names, StartOf(events, delta, since, now1), Floor(now2, delta)))
  }

  lemma NamesCanonical(a: seq<string>, b: seq<string>, events: seq<Event>, split: bool)
    requires IsNames(a, events, split) && IsNames(b, events, split)
    ensures StableSort(a, StringLe) == StableSort(b, StringLe)
  {
    DistinctMultiset(a);
    DistinctMultiset(b);
    assert multiset(a) == multiset(b) by {
      forall x ensures multiset(a)[x] == multiset(b)[x] {
      }
    }
    SortStringsCanonical(a, b);
  }

  /** `sum(bucket_counts.values())`, over the names that can occur. */
  ghost function SumOver(names: seq<string>, events: seq<Event>, delta: nat, split: bool, key: int): nat
    requires delta > 0
  {
    if names == [] then 0
    else
      SumOver(names[..|names| - 1], events, delta, split, key)
      + CountOf(events, delta, split, (key, names[|names| - 1]))
  }

  lemma {:induction false} SumOverStep(names: seq<string>, before: seq<Event>, e: Event, delta: nat, split: bool,
                                       key: int)
    requires delta > 0 && forall i, j :: 0 <= i < j < |names| ==> names[i] != names[j]
    ensures SumOver(names, before + [e], delta, split, key) == SumOver(names, before, delta, split, key)
            + if Floor(e.ts, delta) == key && Label(split, e.column) in names then 1 else 0
  {
    hide Floor, Label;
    if names != [] {
      var init, last := names[..|names| - 1], names[|names| - 1];
      assert names == init + [last];
      SumOverStep(init, before, e, delta, split, key);
      assert (before + [e])[..|before|] == before;
      assert last !in init;
    }
  }

  lemma {:induction false} SumOverNothing(names: seq<string>, delta: nat, split: bool, key: int)
    requires delta > 0
    ensures SumOver(names, [], delta, split, key) == 0
  {
    if names != [] {
      SumOverNothing(names[..|names| - 1], delta, split, key);
    }
  }

  lemma {:induction false} SumOverIsTotal(names: seq<string>, events: seq<Event>, delta: nat, split: bool, key: int)
    requires delta > 0 && forall i, j :: 0 <= i < j < |names| ==> names[i] != names[j]
    requires forall e :: e in events ==> Label(split, e.column) in names
    ensures SumOver(names, events, delta, split, key) == TotalAt(events, delta, key)
    decreases |events|
  {
    hide Floor, Label;
    if events == [] {
      SumOverNothing(names, delta, split, key);
    } else {
      var before, e := events[..|events| - 1], events[|events| - 1];
      assert events == before + [e] && e in events;
      assert forall x :: x in before ==> x in events;
      SumOverIsTotal(names, before, delta, split, key);
      SumOverStep(names, before, e, delta, split, key);
    }
  }

  lemma NamesCover(names: seq<string>, events: seq<Event>, split: bool)
    requires IsNames(names, events, split)
    ensures forall i, j :: 0 <= i < j < |names| ==> names[i] != names[j]
    ensures forall e :: e in events ==> Label(split, e.column) in names
  {
  }

  lemma SumOverNone(events: seq<Event>, delta: nat, split: bool, key: int)
    requires delta > 0
    ensures SumOver([], events, delta, split, key) == 0
  {
  }

  lemma SumOverLast(names: seq<string>, name: string, events: seq<Event>, delta: nat, split: bool, key: int)
    requires delta > 0
    ensures SumOver(names + [name], events, delta, split, key)
         == SumOver(names, events, delta, split, key) + CountOf(events, delta, split, (key, name))
  {
    hide CountOf;
    assert (names + [name])[..|names|] == names;
  }

  method BuildPoint(counts: map<Cell, int>, names: seq<string>, ghost events: seq<Event>, delta: nat, split: bool,
                    cursor: int)
    returns (row: Point)
    requires delta > 0 && IsTally(counts, names, events, delta, split)
    ensures row == PointAt(events, delta, split, names, cursor)
  {
    hide Floor, Label, CountOf, IsNames, SumOver, TotalAt;
    SumOverNone(events, delta, split, cursor);
    var byName: map<string, int> := map[];
    var total := 0;
    for k := 0 to |names|
      invariant byName == map n | n in names[..k] :: CountOf(events, delta, split, (cursor, n))
      invariant total == SumOver(names[..k], events, delta, split, cursor)
    {
      assert names[..k + 1] == names[..k] + [names[k]];
      SumOverLast(names[..k], names[k], events, delta, split, cursor);
      var cell := (cursor, names[k]);
      var n := if cell in counts then counts[cell] else 0;
      byName := byName[names[k] := n];
      total := total + n;
    }
    assert names[..|names|] == names;
    NamesCover(names, events, split);
    SumOverIsTotal(names, events, delta, split, cursor);
    row := Point(cursor, byName, total);
  }

  method BuildPoints(counts: map<Cell, int>, names: seq<string>, ghost events: seq<Event>, delta: nat, split: bool,
                     start: int, end: int)
    returns (points: seq<Point>)
    requires delta > 0 && IsTally(counts, names, events, delta, split)
    ensures points == PointsFrom(events, delta, split, names, start, end)
  {
    hide IsTally, PointAt;
    points := [];
    var cursor := start;
    while cursor <= end
      invariant points + PointsFrom(events, delta, split, names, cursor, end)
             == PointsFrom(events, delta, split, names, start, end)
      decreases end - cursor
    {
      var row := BuildPoint(counts, names, events, delta, split, cursor);
      points := points + [row];
      cursor := cursor + delta;
    }
  }

  lemma Repeated(s: seq<string>, i: nat, j: nat)
    requires i < j < |s|
    ensures s[i] == s[j] ==> multiset(s)[s[j]] >= 2
  {
    assert s == s[..j] + [s[j]] + s[j + 1..];
    assert s[i] in s[..j];
  }

  lemma SortedNamesTally(counts: map<Cell, int>, names: seq<string>, events: seq<Event>, delta: nat, split: bool)
    requires delta > 0 && IsTally(counts, names, events, delta, split)
    ensures var sorted := StableSort(NamesOf(events, split), StringLe);
      sorted == StableSort(names, StringLe) && IsTally(counts, sorted, events, delta, split)
  {
    hide CountOf, StringLe, StableSort, NamesOf;
    var own := NamesOf(events, split);
    var sorted := StableSort(own, StringLe);
    NamesCanonical(names, own, events, split);
    SortMultiset(own, StringLe);
    DistinctMultiset(own);
    forall x ensures x in sorted <==> x in own {
      assert x in multiset(sorted) <==> x in multiset(own);
    }
    forall i, j | 0 <= i < j < |sorted| ensures sorted[i] != sorted[j] {
      Repeated(sorted, i, j);
    }
  }

  /** `min(counts)`: the least bucket start of a tally. */
  method LeastKey(counts: map<Cell, int>) returns (k: int)
    requires counts != map[]
    ensures (exists c :: c in counts && c.0 == k) && forall c :: c in counts ==> k <= c.0
  {
    var first: Cell :| first in counts;
    k := first.0;
    var rest := counts.Keys;
    while rest != {}
      invariant rest <= counts.Keys && exists c :: c in counts && c.0 == k
      invariant forall c :: c in counts && c !in rest ==> k <= c.0
      decreases |rest|
    {
      var c: Cell :| c in rest;
      if c.0 < k {
        k := c.0;
      }
      rest := rest - {c};
    }
  }

  /** `_floor(since or (min(counts) if counts else utcnow()), delta)` */
  method ChooseStart(counts: map<Cell, int>, names: seq<string>, ghost events: seq<Event>, delta: nat, split: bool,
                     since: Option<int>, now: int)
    returns (start: int)
    requires delta > 0 && IsTally(counts, names, events, delta, split)
    ensures start == StartOf(events, delta, since, now)
  {
    hide IsTally, Floor, FirstKey;
    TallyKeys(counts, names, events, delta, split);
    if since.Some? {
      return Floor(since.value, delta);
    }
    if counts == map[] {
      return Floor(now, delta);
    }
    var k := LeastKey(counts);
    FirstKeyIs(events, delta, k);
    start := Floor(k, delta);
  }

  lemma FirstKeyIs(events: seq<Event>, delta: nat, k: int)
    requires delta > 0 && events != []
    requires (exists e :: e in events && Floor(e.ts, delta) == k) && forall e :: e in events ==> k <= Floor(e.ts, delta)
    ensures FirstKey(events, delta) == k
  {
    hide Floor, FirstKey;
    var e :| e in events && Floor(e.ts, delta) == FirstKey(events, delta);
    var f :| f in events && Floor(f.ts, delta) == k;
  }

  /** The bucket starts of a tally are those of its events. */
  lemma TallyKeys(counts: map<Cell, int>, names: seq<string>, events: seq<Event>, delta: nat, split: bool)
    requires delta > 0 && IsTally(counts, names, events, delta, split)
    ensures counts == map[] <==> events == []
    ensures forall c :: c in counts ==> exists e :: e in events && Floor(e.ts, delta) == c.0
    ensures forall e :: e in events ==> CellOf(e, delta, split) in counts
  {
    hide Floor, Label;
    forall c | c in counts ensures exists e :: e in events && Floor(e.ts, delta) == c.0 {
      var e := CountWitness(events, delta, split, c);
    }
    forall e | e in events ensures CellOf(e, delta, split) in counts {
      Counted(events, delta, split, e);
    }
    if events != [] {
      assert CellOf(events[0], delta, split) in counts;
    }
  }

  lemma {:induction false} CountWitness(events: seq<Event>, delta: nat, split: bool, c: Cell) returns (e: Event)
    requires delta > 0 && CountOf(events, delta, split, c) > 0
    ensures e in events && CellOf(e, delta, split) == c
  {
    hide CellOf;
    e := events[|events| - 1];
    if CellOf(e, delta, split) != c {
      e := CountWitness(events[..|events| - 1], delta, split, c);
    }
  }

  lemma {:induction false} Counted(events: seq<Event>, delta: nat, split: bool, e: Event)
    requires delta > 0 && e in events
    ensures CountOf(events, delta, split, CellOf(e, delta, split)) > 0
  {
    hide CellOf;
    var before, last := events[..|events| - 1], events[|events| - 1];
    assert events == before + [last];
    if e != last {
      Counted(before, delta, split, e);
    }
  }

  /** The events as the chosen path sees them: the grouped query knows only the starts of the database's buckets. */
  function Seen(grouped: bool, dialect: Dialect, events: seq<Event>, delta: nat): seq<Event>
    requires IsWidth(delta)
  {
    if grouped then AtBuckets(dialect, events, delta) else events
  }

  /** The whole function. `rows` is the grouped query's answer when the dialect is known; otherwise the events
      themselves are counted. Either way the result is the chart of the events as that path sees them. */
  method EventsTimeseries(dialect: Dialect, rows: Option<seq<Row>>, events: seq<Event>, delta: nat, split: bool,
                          since: Option<int>, now1: int, now2: int)
    returns (chart: Chart)
    requires IsWidth(delta)
    requires rows.Some? ==> IsGrouping(dialect, rows.value, events, delta, split)
    ensures chart == ChartOf(Seen(rows.Some?, dialect, events, delta), delta, split, since, now1, now2)
  {
    hide IsTally, NamesOf, StableSort, StringLe, Floor, PointsFrom, StartOf, AtBuckets;
    ghost var seen := Seen(rows.Some?, dialect, events, delta);
    var counts, names;
    if rows.Some? {
      counts, names := TallyRows(dialect, rows.value, events, delta, split);
    } else {
      counts, names := TallyEvents(events, delta, split);
    }
    var start := ChooseStart(counts, names, seen, delta, split, since, now1);
    var end := Floor(now2, delta);
    SortedNamesTally(counts, names, seen, delta, split);
    names := StableSort(names, StringLe);
    var points := BuildPoints(counts, names, seen, delta, split, start, end);
    chart := Chart(names, points);
  }

  /** When no event that the chart can show changes its bucket, both paths draw the same chart. */
  lemma PathsDrawTheSame(dialect: Dialect, events: seq<Event>, delta: nat, split: bool, since: Option<int>, now1: int,
                         now2: int)
    requires IsWidth(delta) && now2 >= 0 && SameUpTo(dialect, events, delta, Floor(now2, delta))
    ensures ChartOf(AtBuckets(dialect, events, delta), delta, split, since, now1, now2)
         == ChartOf(events, delta, split, since, now1, now2)
  {
    hide SameUpTo, AtBuckets, StableSort, StringLe, PointsFrom, NamesOf, StartOf, Floor;
    var end, start := Floor(now2, delta), StartOf(events, delta, since, now1);
    var moved := AtBuckets(dialect, events, delta);
    EndNotNegative(now2, delta);
    SameNames(dialect, events, delta, split);
    SameStart(dialect, events, delta, since, now1, end);
    var names := StableSort(NamesOf(events, split), StringLe);
    if start <= end {
      SamePoints(dialect, events, delta, split, names, start, end);
    } else {
      NoPoints(events, delta, split, names, start, end);
      NoPoints(moved, delta, split, names, StartOf(moved, delta, since, now1), end);
    }
  }

  lemma EndNotNegative(now: int, delta: nat)
    requires delta > 0 && now >= 0
    ensures Floor(now, delta) >= 0
  {
    hide Floor;
    FloorMonotone(0, now, delta);
    FloorOfZero(delta);
  }

  lemma {:induction false} SameNames(dialect: Dialect, events: seq<Event>, delta: nat, split: bool)
    requires IsWidth(delta)
    ensures NamesOf(AtBuckets(dialect, events, delta), split) == NamesOf(events, split)
  {
    hide SqlIndex, Label;
    if events != [] {
      var before := events[..|events| - 1];
      SameNames(dialect, before, delta, split);
      var moved := AtBuckets(dialect, events, delta);
      assert moved[..|moved| - 1] == AtBuckets(dialect, before, delta);
    }
  }

  lemma {:induction false} SameTotals(dialect: Dialect, events: seq<Event>, delta: nat, key: int, limit: nat)
    requires IsWidth(delta) && SameUpTo(dialect, events, delta, limit) && key <= limit
    ensures TotalAt(AtBuckets(dialect, events, delta), delta, key) == TotalAt(events, delta, key)
  {
    hide SameUpTo, Floor, SqlIndex;
    if events != [] {
      var before, e := events[..|events| - 1], events[|events| - 1];
      assert events == before + [e];
      SameUpToPrefix(dialect, before, e, delta, limit);
      SameTotals(dialect, before, delta, key, limit);
      var moved := AtBuckets(dialect, events, delta);
      assert moved[..|moved| - 1] == AtBuckets(dialect, before, delta);
      StaysOrBeyond(dialect, e, delta, limit);
    }
  }

  /** The charts start alike, or both after the limit. */
  lemma SameStart(dialect: Dialect, events: seq<Event>, delta: nat, since: Option<int>, now: int, limit: nat)
    requires IsWidth(delta) && SameUpTo(dialect, events, delta, limit)
    ensures var a := StartOf(AtBuckets(dialect, events, delta), delta, since, now);
            var b := StartOf(events, delta, since, now);
      a == b || (a > limit && b > limit)
  {
    hide Floor, SqlIndex, FirstKey, SameBucket;
    var moved := AtBuckets(dialect, events, delta);
    if events != [] {
      forall k | 0 <= k < |events|
        ensures Floor(moved[k].ts, delta) == Floor(events[k].ts, delta)
                || (Floor(moved[k].ts, delta) > limit && Floor(events[k].ts, delta) > limit)
      {
        assert events[k] in events;
        StaysOrBeyond(dialect, events[k], delta, limit);
      }
      var p, q := FirstKey(moved, delta), FirstKey(events, delta);
      var i :| 0 <= i < |events| && Floor(moved[i].ts, delta) == p;
      var j :| 0 <= j < |events| && Floor(events[j].ts, delta) == q;
      assert moved[j] in moved && events[i] in events;
      FirstKeyFloored(moved, delta);
      FirstKeyFloored(events, delta);
    }
  }

  lemma FirstKeyFloored(events: seq<Event>, delta: nat)
    requires delta > 0 && events != []
    ensures Floor(FirstKey(events, delta), delta) == FirstKey(events, delta)
  {
    hide Floor, FirstKey;
    var k := FirstKey(events, delta);
    var e :| e in events && Floor(e.ts, delta) == k;
    FloorProperties(e.ts, delta);
  }

  lemma {:induction false} SamePoints(dialect: Dialect, events: seq<Event>, delta: nat, split: bool, names: seq<string>,
                                      cursor: int, end: nat)
    requires IsWidth(delta) && SameUpTo(dialect, events, delta, end)
    ensures PointsFrom(AtBuckets(dialect, events, delta), delta, split, names, cursor, end)
         == PointsFrom(events, delta, split, names, cursor, end)
    decreases end - cursor
  {
    hide SameUpTo, AtBuckets, PointAt;
    if cursor <= end {
      SamePoint(dialect, events, delta, split, names, cursor, end);
      SamePoints(dialect, events, delta, split, names, cursor + delta, end);
    }
  }

  lemma SamePoint(dialect: Dialect, events: seq<Event>, delta: nat, split: bool, names: seq<string>, cursor: int,
                  limit: nat)
    requires IsWidth(delta) && SameUpTo(dialect, events, delta, limit) && cursor <= limit
    ensures PointAt(AtBuckets(dialect, events, delta), delta, split, names, cursor)
         == PointAt(events, delta, split, names, cursor)
  {
    hide SameUpTo, AtBuckets;
    var a := PointAt(AtBuckets(dialect, events, delta), delta, split, names, cursor);
    var b := PointAt(events, delta, split, names, cursor);
    SameTotals(dialect, events, delta, cursor, limit);
    assert a.counts.Keys == b.counts.Keys;
    forall n | n in a.counts ensures a.counts[n] == b.counts[n] {
      SameCounts(dialect, events, delta, split, (cursor, n), limit);
    }
  }

  // ------------------------------------------------------- what the chart promises

  /** The points are gap-free: consecutive multiples of the bucket width. */
  lemma {:induction false} PointsGapFree(events: seq<Event>, delta: nat, split: bool, names: seq<string>, cursor: int,
                                         end: int)
    requires delta > 0 && cursor % delta == 0 && end % delta == 0
    ensures var points := PointsFrom(events, delta, split, names, cursor, end);
      && |points| == (if cursor <= end then (end - cursor) / delta + 1 else 0)
      && forall k :: 0 <= k < |points| ==> points[k] == PointAt(events, delta, split, names, cursor + k * delta)
    decreases end - cursor
  {
    hide PointAt;
    if cursor <= end {
      NextMultiple(cursor, end, delta);
      PointsGapFree(events, delta, split, names, cursor + delta, end);
      var rest := PointsFrom(events, delta, split, names, cursor + delta, end);
      var points := PointsFrom(events, delta, split, names, cursor, end);
      forall k | 0 <= k < |points|
        ensures points[k] == PointAt(events, delta, split, names, cursor + k * delta)
      {
        if k > 0 {
          assert points[k] == rest[k - 1];
          assert cursor + delta + (k - 1) * delta == cursor + k * delta;
        } else {
          assert k * delta == 0;
        }
      }
    }
  }

  lemma NextMultiple(a: int, b: int, d: nat)
    requires d > 0 && a % d == 0 && b % d == 0 && a <= b
    ensures (a + d) % d == 0
    ensures (b - a) / d + 1 == if a + d <= b then (b - (a + d)) / d + 2 else 1
  {
    var p, q := a / d, b / d;
    assert a == p * d && b == q * d;
    assert (p + 1) * d == a + d;
    MultipleMod(p + 1, d);
    assert (q - p) * d == b - a;
    QuotientIs(b - a, d, q - p);
    assert (q - p - 1) * d == b - a - d;
    QuotientIs(b - a - d, d, q - p - 1);
    if a + d > b && p < q {
      MultiplesApart(p, q, d);
    }
  }

  function TotalOf(points: seq<Point>): int {
    if points == [] then 0 else points[0].total + TotalOf(points[1..])
  }

  /** How many events fall into a bucket from `lo` on. */
  function CountFrom(events: seq<Event>, delta: nat, lo: int): nat
    requires delta > 0
  {
    if events == [] then 0
    else
      CountFrom(events[..|events| - 1], delta, lo) + if Floor(events[|events| - 1].ts, delta) >= lo then 1 else 0
  }

  lemma {:induction false} CountFromStep(events: seq<Event>, delta: nat, lo: int)
    requires delta > 0 && lo % delta == 0
    ensures CountFrom(events, delta, lo) == TotalAt(events, delta, lo) + CountFrom(events, delta, lo + delta)
  {
    hide Floor;
    if events != [] {
      var e := events[|events| - 1];
      CountFromStep(events[..|events| - 1], delta, lo);
      FloorProperties(e.ts, delta);
      NoMultipleBetween(lo, Floor(e.ts, delta), delta);
    }
  }

  lemma NoMultipleBetween(a: int, b: int, d: nat)
    requires d > 0 && a % d == 0 && b % d == 0
    ensures b >= a <==> b == a || b >= a + d
  {
    var p, q := a / d, b / d;
    assert a == p * d && b == q * d;
    if p < q {
      MultiplesApart(p, q, d);
    } else if q < p {
      MultiplesApart(q, p, d);
    }
  }

  lemma {:induction false} TotalsCount(events: seq<Event>, delta: nat, split: bool, names: seq<string>, cursor: int,
                                       end: int)
    requires delta > 0 && cursor % delta == 0 && end % delta == 0 && cursor <= end + delta
    ensures TotalOf(PointsFrom(events, delta, split, names, cursor, end))
         == CountFrom(events, delta, cursor) - CountFrom(events, delta, end + delta)
    decreases end + delta - cursor
  {
    hide CountFrom, TotalAt;
    NoMultipleBetween(cursor, end, delta);
    if cursor <= end {
      NextMultiple(cursor, end, delta);
      TotalsCount(events, delta, split, names, cursor + delta, end);
      CountFromStep(events, delta, cursor);
      var rest := PointsFrom(events, delta, split, names, cursor + delta, end);
      assert ([PointAt(events, delta, split, names, cursor)] + rest)[1..] == rest;
    } else {
      NoMultipleBetween(end, cursor, delta);
    }
  }

  lemma {:induction false} CountFromAll(events: seq<Event>, delta: nat, lo: int)
    requires delta > 0
    ensures CountFrom(events, delta, lo) <= |events|
    ensures CountFrom(events, delta, lo) == |events| <==> forall e :: e in events ==> Floor(e.ts, delta) >= lo
    ensures CountFrom(events, delta, lo) == 0 <==> forall e :: e in events ==> Floor(e.ts, delta) < lo
  {
    hide Floor;
    if events != [] {
      var before, e := events[..|events| - 1], events[|events| - 1];
      CountFromAll(before, delta, lo);
      assert forall x :: x in events <==> x in before || x == e;
    }
  }

  lemma StartCoversEvents(events: seq<Event>, delta: nat, since: Option<int>, now: int)
    requires delta > 0
    requires since.Some? ==> forall e :: e in events ==> e.ts >= since.value
    ensures forall e :: e in events ==> StartOf(events, delta, since, now) <= Floor(e.ts, delta)
    ensures StartOf(events, delta, since, now) % delta == 0
  {
    hide Floor;
    match since
    case Some(s) =>
      FloorProperties(s, delta);
      forall e | e in events ensures Floor(s, delta) <= Floor(e.ts, delta) {
        FloorMonotone(s, e.ts, delta);
      }
    case None =>
      if events == [] {
        FloorProperties(now, delta);
      } else {
        var k := FirstKey(events, delta);
        var e :| e in events && Floor(e.ts, delta) == k;
        FloorProperties(e.ts, delta);
      }
  }

  /** The totals of the points add up to the number of selected events exactly when no event lies
      after the last bucket. */
  lemma {:induction false} TotalsAddUp(events: seq<Event>, delta: nat, split: bool, since: Option<int>, now1: int,
                                       now2: int)
    requires delta > 0
    requires since.Some? ==> forall e :: e in events ==> e.ts >= since.value
    ensures TotalOf(ChartOf(events, delta, split, since, now1, now2).points) == |events|
       <==> forall e :: e in events ==> Floor(e.ts, delta) <= Floor(now2, delta)
  {
    hide Floor, PointsFrom, CountFrom, StartOf, StableSort, NamesOf;
    var start, end := StartOf(events, delta, since, now1), Floor(now2, delta);
    var names := StableSort(NamesOf(events, split), StringLe);
    StartCoversEvents(events, delta, since, now1);
    FloorProperties(now2, delta);
    CountFromAll(events, delta, start);
    CountFromAll(events, delta, end + delta);
    AddWidth(end, delta);
    forall e | e in events
      ensures Floor(e.ts, delta) < end + delta <==> Floor(e.ts, delta) <= end
    {
      FloorProperties(e.ts, delta);
      NoMultipleBetween(end + delta, Floor(e.ts, delta), delta);
      NoMultipleBetween(end, Floor(e.ts, delta), delta);
    }
    if start <= end + delta {
      TotalsCount(events, delta, split, names, start, end);
    } else {
      NoPoints(events, delta, split, names, start, end);
    }
  }

  lemma AddWidth(a: int, d: nat)
    requires d > 0 && a % d == 0
    ensures (a + d) % d == 0
  {
    var p := a / d;
    assert (p + 1) * d == a + d;
    MultipleMod(p + 1, d);
  }

  lemma NoPoints(events: seq<Event>, delta: nat, split: bool, names: seq<string>, cursor: int, end: int)
    requires delta > 0 && cursor > end
    ensures PointsFrom(events, delta, split, names, cursor, end) == []
  {
  }

  /** The API refuses windows of more than 5000 buckets; a chart then has at most 5001 points, plus
      one for every bucket boundary the clock crosses between the two readings. */
  lemma PointLimit(events: seq<Event>, delta: nat, split: bool, window: nat, now1: int, now2: int)
    requires delta > 0 && window <= 5000 * delta && window <= now1 <= now2
    ensures |ChartOf(events, delta, split, Some(now1 - window), now1, now2).points|
         <= 5001 + (now2 / delta - now1 / delta)
  {
    hide StableSort, NamesOf, PointsFrom, Truncate;
    var start, end := Floor(now1 - window, delta), Floor(now2, delta);
    FloorProperties(now1 - window, delta);
    FloorProperties(now2, delta);
    FloorMonotone(now1 - window, now2, delta);
    var names := StableSort(NamesOf(events, split), StringLe);
    PointsGapFree(events, delta, split, names, start, end);
    BucketSpan(now1, window, delta);
    FloorIs(now1 - window, delta);
    FloorIs(now2, delta);
    DifferenceOfMultiples(now2 / delta, (now1 - window) / delta, delta);
  }

  lemma FloorIs(ts: int, delta: nat)
    requires delta > 0 && ts >= 0
    ensures Floor(ts, delta) == ts / delta * delta
  {
  }

  lemma DifferenceOfMultiples(q: int, p: int, d: nat)
    requires d > 0
    ensures (q * d - p * d) / d == q - p
  {
    assert q * d - p * d == (q - p) * d;
    QuotientIs(q * d - p * d, d, q - p);
  }

  /** A window of at most 5000 widths spans at most 5000 bucket boundaries. */
  lemma BucketSpan(now: int, window: nat, delta: nat)
    requires delta > 0 && window <= 5000 * delta && window <= now
    ensures now / delta - (now - window) / delta <= 5000
  {
    var p, r := (now - window) / delta, now / delta;
    assert now - window < p * delta + delta && r * delta <= now;
    assert (p + 5000) * delta == p * delta + 5000 * delta;
    if p + 5000 < r {
      MultiplesApart(p + 5000, r, delta);
    }
  }

  // ------------------------------------------------------- when both paths draw the same

  /** The event is counted from `lo` on by one of the two only. */
  ghost predicate Crosses(dialect: Dialect, e: Event, delta: nat, lo: int)
    requires IsWidth(delta)
  {
    Floor(Moved(dialect, e, delta).ts, delta) >= lo <==> Floor(e.ts, delta) < lo
  }

  /** Since events move away from the epoch, the database counts no fewer from a time after the epoch on, and no more
      from an earlier one, and the counts differ if an event crosses that time. */
  lemma {:induction false} CountsSpread(dialect: Dialect, events: seq<Event>, delta: nat, lo: int)
    requires IsWidth(delta)
    ensures var there, here := CountFrom(AtBuckets(dialect, events, delta), delta, lo), CountFrom(events, delta, lo);
      && (lo > 0 ==> there >= here) && (lo <= 0 ==> there <= here)
      && ((exists e :: e in events && Crosses(dialect, e, delta, lo)) ==> there != here)
  {
    hide Floor, Moved, AtBuckets, Crosses;
    if events == [] {
      NothingMoved(dialect, delta);
    } else {
      var before, e := events[..|events| - 1], events[|events| - 1];
      assert events == before + [e];
      CountsSpread(dialect, before, delta, lo);
      MovedAppend(dialect, before, e, delta);
      CountFromAppend(before, e, delta, lo);
      CountFromAppend(AtBuckets(dialect, before, delta), Moved(dialect, e, delta), delta, lo);
      CrossingIs(dialect, e, delta, lo);
    }
  }

  lemma CrossingIs(dialect: Dialect, e: Event, delta: nat, lo: int)
    requires IsWidth(delta)
    ensures var there, here := Floor(Moved(dialect, e, delta).ts, delta) >= lo, Floor(e.ts, delta) >= lo;
      && (lo > 0 && here ==> there) && (lo <= 0 && there ==> here)
      && (Crosses(dialect, e, delta, lo) <==> there != here)
  {
    hide Floor, Moved;
    StartMoves(dialect, e, delta);
  }

  lemma CountFromAppend(before: seq<Event>, e: Event, delta: nat, lo: int)
    requires delta > 0
    ensures CountFrom(before + [e], delta, lo)
         == CountFrom(before, delta, lo) + if Floor(e.ts, delta) >= lo then 1 else 0
  {
    hide Floor;
    assert (before + [e])[..|before|] == before;
  }

  lemma FloorOfZero(delta: nat)
    requires delta > 0
    ensures Floor(0, delta) == 0
  {
  }

  /** Equal points from `cursor` on count equally many events from any later bucket on, except those after the end. */
  lemma {:induction false} EqualPointsCount(a: seq<Event>, b: seq<Event>, delta: nat, split: bool, names: seq<string>,
                                            cursor: int, end: int, key: int)
    requires delta > 0 && cursor % delta == 0 && end % delta == 0 && key % delta == 0 && cursor <= key <= end
    requires PointsFrom(a, delta, split, names, cursor, end) == PointsFrom(b, delta, split, names, cursor, end)
    ensures CountFrom(a, delta, key) - CountFrom(a, delta, end + delta)
         == CountFrom(b, delta, key) - CountFrom(b, delta, end + delta)
    decreases key - cursor
  {
    hide CountFrom, PointAt;
    if cursor == key {
      TotalsCount(a, delta, split, names, key, end);
      TotalsCount(b, delta, split, names, key, end);
    } else {
      NoMultipleBetween(cursor, key, delta);
      AddWidth(cursor, delta);
      PointsTail(a, delta, split, names, cursor, end);
      PointsTail(b, delta, split, names, cursor, end);
      EqualPointsCount(a, b, delta, split, names, cursor + delta, end, key);
    }
  }

  lemma PointsTail(events: seq<Event>, delta: nat, split: bool, names: seq<string>, cursor: int, end: int)
    requires delta > 0 && cursor <= end
    ensures var points := PointsFrom(events, delta, split, names, cursor, end);
      && points != [] && points[0].ts == cursor
      && points[1..] == PointsFrom(events, delta, split, names, cursor + delta, end)
  {
  }

  /** The charts of both paths are equal if and only if no event is put into a different bucket, among those that the
      chart can show: whatever the window, and for every clock after the epoch. */
  lemma ChartsAgreeIff(dialect: Dialect, events: seq<Event>, delta: nat, split: bool, since: Option<int>, now1: int,
                       now2: int)
    requires IsWidth(delta) && now2 >= 0
    requires since.Some? ==> forall e :: e in events ==> e.ts >= since.value
    ensures ChartOf(AtBuckets(dialect, events, delta), delta, split, since, now1, now2)
         == ChartOf(events, delta, split, since, now1, now2)
       <==> SameUpTo(dialect, events, delta, Floor(now2, delta))
  {
    hide SameBucket, AtBuckets, ChartOf;
    if SameUpTo(dialect, events, delta, Floor(now2, delta)) {
      PathsDrawTheSame(dialect, events, delta, split, since, now1, now2);
    } else {
      var e :| e in events && Floor(e.ts, delta) <= Floor(now2, delta) && !SameBucket(dialect, e.ts, delta);
      ChartShowsMove(dialect, events, delta, split, since, now1, now2, e);
    }
  }

  lemma ChartShowsMove(dialect: Dialect, events: seq<Event>, delta: nat, split: bool, since: Option<int>, now1: int,
                       now2: int, e: Event)
    requires IsWidth(delta) && now2 >= 0 && e in events && !SameBucket(dialect, e.ts, delta)
    requires Floor(e.ts, delta) <= Floor(now2, delta)
    requires since.Some? ==> forall x :: x in events ==> x.ts >= since.value
    ensures ChartOf(AtBuckets(dialect, events, delta), delta, split, since, now1, now2)
         != ChartOf(events, delta, split, since, now1, now2)
  {
    hide SameBucket, AtBuckets, Floor, PointsFrom, StableSort, NamesOf, StartOf, Moved, CountFrom, Crosses;
    var moved := AtBuckets(dialect, events, delta);
    var a := ChartOf(moved, delta, split, since, now1, now2);
    var b := ChartOf(events, delta, split, since, now1, now2);
    var start, end := StartOf(events, delta, since, now1), Floor(now2, delta);
    StartCoversEvents(events, delta, since, now1);
    FloorProperties(now2, delta);
    PointsTail(events, delta, split, b.names, start, end);
    if a == b {
      var other := StartOf(moved, delta, since, now1);
      if other > end {
        NoPoints(moved, delta, split, a.names, other, end);
      } else {
        PointsTail(moved, delta, split, a.names, other, end);
        assert other == start;
        EqualPointsDiffer(dialect, events, delta, split, b.names, start, end, now2, e);
      }
    }
  }

  /** Where the event crosses, the two paths count differently; but equal points that start before all events leave no
      room for a difference anywhere up to the end. */
  lemma EqualPointsDiffer(dialect: Dialect, events: seq<Event>, delta: nat, split: bool, names: seq<string>, start: int,
                          end: int, now: int, e: Event)
    requires IsWidth(delta) && now >= 0 && end == Floor(now, delta) && start % delta == 0 && start <= end
    requires e in events && !SameBucket(dialect, e.ts, delta) && Floor(e.ts, delta) <= end
    requires forall x :: x in events ==> start <= Floor(x.ts, delta)
    ensures PointsFrom(AtBuckets(dialect, events, delta), delta, split, names, start, end)
         != PointsFrom(events, delta, split, names, start, end)
  {
    hide SameBucket, AtBuckets, Floor, PointsFrom, Moved, CountFrom, Crosses;
    var moved := AtBuckets(dialect, events, delta);
    if PointsFrom(moved, delta, split, names, start, end) == PointsFrom(events, delta, split, names, start, end) {
      EndNotNegative(now, delta);
      FloorProperties(now, delta);
      CountFromAll(events, delta, start);
      CountFromAll(moved, delta, start);
      EqualPointsCount(moved, events, delta, split, names, start, end, start);
      CountsSpread(dialect, events, delta, end + delta);
      var key := CrossedKey(dialect, e, delta);
      CountsSpread(dialect, events, delta, key);
      NoMultipleBetween(end, key, delta);
      AddWidth(end, delta);
      FloorProperties(e.ts, delta);
      KeyInChart(start, end, key, Floor(e.ts, delta), delta);
      if key <= end {
        EqualPointsCount(moved, events, delta, split, names, start, end, key);
      }
    }
  }

  /** The bucket start that the event crosses: its own, or the next. */
  lemma CrossedKey(dialect: Dialect, e: Event, delta: nat) returns (key: int)
    requires IsWidth(delta) && !SameBucket(dialect, e.ts, delta)
    ensures Crosses(dialect, e, delta, key) && key % delta == 0
    ensures Floor(e.ts, delta) <= key <= Floor(e.ts, delta) + delta
  {
    hide Floor, Moved, SameBucket;
    StartMoves(dialect, e, delta);
    var was, now := Floor(e.ts, delta), Floor(Moved(dialect, e, delta).ts, delta);
    if now > was {
      key := was + delta;
      AddWidth(was, delta);
      NoMultipleBetween(was, now, delta);
    } else {
      key := was;
    }
  }

  lemma KeyInChart(start: int, end: int, key: int, was: int, delta: nat)
    requires delta > 0 && start % delta == 0 && end % delta == 0 && key % delta == 0 && was % delta == 0
    requires start <= was <= end && was <= key <= was + delta
    ensures start <= key <= end + delta && (key <= end || key == end + delta)
  {
    AddWidth(end, delta);
    NoMultipleBetween(end, key, delta);
    NoMultipleBetween(end + delta, key, delta);
  }
}
