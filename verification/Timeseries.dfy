/**
  `events_timeseries` (storage/queries.py): bucketed event counts, grouped by the database or
  counted in Python. Times are microseconds since the epoch.
 */
module Timeseries {
  import opened Wrappers
  import opened Sequences

  const SECOND: nat := 1_000_000

  /** One row of the two columns the query reads; `column` is the split column, possibly null. */
  datatype Event = Event(ts: int, column: Option<string>)

  /** Bucket widths are positive whole seconds (BUCKETS). */
  predicate IsWidth(delta: nat) { delta > 0 && delta % SECOND == 0 }

  // --------------------------------------------------------------------- flooring

  /** Division towards zero, as Python's `int(a / b)` and SQLite's integer division do it. */
  function Truncate(a: int, b: int): int
    requires b > 0
  {
    if a >= 0 then a / b else -((-a) / b)
  }

  /** `_floor`: the index it computes, and the time it returns. */
  function PythonIndex(ts: int, delta: nat): int
    requires delta > 0
  {
    Truncate(ts, delta)
  }

  function Floor(ts: int, delta: nat): int
    requires delta > 0
  {
    PythonIndex(ts, delta) * delta
  }

  /** SQLite builds may differ in what `strftime('%s', ...)` does with the fraction of a second: it is dropped, or the
      time is first rounded to the nearest millisecond. */
  datatype Dialect = Sqlite | SqliteRounding | Postgresql

  const HALF_MILLISECOND: nat := 500

  /** `_bucket_index_expr`: whole seconds divided by whole seconds, or one exact floor. */
  function SqlIndex(dialect: Dialect, ts: int, delta: nat): int
    requires IsWidth(delta)
  {
    match dialect
    case Sqlite => WidthSeconds(delta); Truncate(ts / SECOND, delta / SECOND)
    case SqliteRounding => WidthSeconds(delta); Truncate((ts + HALF_MILLISECOND) / SECOND, delta / SECOND)
    case Postgresql => ts / delta
  }

  lemma WidthSeconds(delta: nat)
    requires IsWidth(delta)
    ensures delta == delta / SECOND * SECOND && delta / SECOND > 0
  {
  }

  lemma MultiplesApart(p: int, q: int, b: int)
    requires b > 0 && p < q
    ensures p * b + b <= q * b
  {
    var d := q - p - 1;
    assert q == p + d + 1;
    Distribute(p, d, b);
    assert d * b >= 0;
  }

  lemma Distribute(p: int, d: int, b: int)
    ensures (p + d + 1) * b == p * b + d * b + b
  {
  }

  lemma BracketUnique(a: int, b: int, p: int, q: int)
    requires b > 0 && p * b <= a < p * b + b && q * b <= a < q * b + b
    ensures p == q
  {
    if p < q {
      MultiplesApart(p, q, b);
    } else if q < p {
      MultiplesApart(q, p, b);
    }
  }

  /** The quotient is determined by the multiple it brackets. */
  lemma QuotientIs(a: int, b: int, q: int)
    requires b > 0 && q * b <= a < q * b + b
    ensures a / b == q
  {
    BracketUnique(a, b, a / b, q);
  }

  lemma NestedFloor(ts: int, seconds: int)
    requires seconds > 0
    ensures ts / SECOND / seconds == ts / (SECOND * seconds)
  {
    var s := ts / SECOND;
    var q := s / seconds;
    assert s == q * seconds + s % seconds;
    assert ts == s * SECOND + ts % SECOND;
    calc {
      ts;
      (q * seconds + s % seconds) * SECOND + ts % SECOND;
      { assert (q * seconds) * SECOND == q * (SECOND * seconds); }
      q * (SECOND * seconds) + (s % seconds * SECOND + ts % SECOND);
    }
    assert s % seconds * SECOND + ts % SECOND < SECOND * seconds;
    QuotientIs(ts, SECOND * seconds, q);
  }

  /** For negative numerators truncation and floor differ exactly on non-multiples. */
  lemma TruncateVersusFloor(a: int, b: int)
    requires b > 0
    ensures Truncate(a, b) == a / b <==> a >= 0 || a % b == 0
    ensures a < 0 && a % b != 0 ==> Truncate(a, b) == a / b + 1
  {
    if a < 0 {
      var q, r := a / b, a % b;
      assert a == q * b + r;
      if r == 0 {
        assert (-q) * b == -(q * b) == -a;
        QuotientIs(-a, b, -q);
      } else {
        assert (-q - 1) * b == -(q * b) - b;
        QuotientIs(-a, b, -q - 1);
      }
    }
  }

  /** Without rounding, any time since the epoch; before it, for PostgreSQL the bucket boundaries only, and for SQLite
      the times where dropping the fraction of the second does not reach one. With rounding, a time since the epoch
      must not round up to the next bucket, nor one before it down to a boundary. */
  predicate SameBucket(dialect: Dialect, ts: int, delta: nat)
    requires IsWidth(delta)
  {
    match dialect
    case Postgresql => ts >= 0 || ts % delta == 0
    case Sqlite =>
      WidthSeconds(delta);
      ts >= 0 || ts % 1_000_000 == 0 || (ts / 1_000_000) % (delta / 1_000_000) != 0
    case SqliteRounding =>
      if ts >= 0 then ts % delta < delta - 500
      else ts % delta == 0 || ts % delta >= 999_500
  }

  /** The database and Python put a time into the same bucket exactly under that condition. */
  lemma IndexAgreement(dialect: Dialect, ts: int, delta: nat)
    requires IsWidth(delta)
    ensures SqlIndex(dialect, ts, delta) == PythonIndex(ts, delta) <==> SameBucket(dialect, ts, delta)
  {
    match dialect
    case Postgresql => TruncateVersusFloor(ts, delta);
    case Sqlite => DroppingAgreement(ts, delta);
    case SqliteRounding => RoundedIndex(ts, delta);
  }

  lemma DroppingAgreement(ts: int, delta: nat)
    requires IsWidth(delta)
    ensures SqlIndex(Sqlite, ts, delta) == PythonIndex(ts, delta) <==> SameBucket(Sqlite, ts, delta)
  {
    var seconds := delta / SECOND;
    WidthSeconds(delta);
    TruncateVersusFloor(ts, delta);
    TruncateVersusFloor(ts / SECOND, seconds);
    NestedFloor(ts, seconds);
    assert delta == SECOND * seconds;
    if ts < 0 {
      var s := ts / SECOND;
      assert ts == s * SECOND + ts % SECOND;
      var q := ts / delta;
      assert s / seconds == q;
      assert s == q * seconds + s % seconds;
      assert q * delta == (q * seconds) * SECOND;
      assert ts == q * delta + (s % seconds * SECOND + ts % SECOND);
      assert ts % delta == s % seconds * SECOND + ts % SECOND;
    }
  }

  /** Both indices of a time, from its place `ts % delta` in the floored bucket. */
  lemma RoundedIndex(ts: int, delta: nat)
    requires IsWidth(delta)
    ensures ts >= 0 ==>
      && PythonIndex(ts, delta) == ts / delta
      && SqlIndex(SqliteRounding, ts, delta) == ts / delta + if ts % delta >= delta - HALF_MILLISECOND then 1 else 0
    ensures ts < 0 ==>
      && PythonIndex(ts, delta) == ts / delta + (if ts % delta == 0 then 0 else 1)
      && SqlIndex(SqliteRounding, ts, delta)
         == ts / delta + if ts % delta >= SECOND - HALF_MILLISECOND then 1 else 0
  {
    hide Truncate;
    var q, r, seconds := ts / delta, ts % delta, delta / SECOND;
    WidthSeconds(delta);
    TruncateVersusFloor(ts, delta);
    assert ts == q * delta + r;
    if r + HALF_MILLISECOND < delta {
      SecondsOf(q, r + HALF_MILLISECOND, seconds);
      TruncateMixed(q, (r + HALF_MILLISECOND) / SECOND, seconds);
    } else {
      assert ts + HALF_MILLISECOND == (q + 1) * delta + (r + HALF_MILLISECOND - delta) by { Distribute(q, 0, delta); }
      SecondsOf(q + 1, r + HALF_MILLISECOND - delta, seconds);
      TruncateMixed(q + 1, 0, seconds);
    }
    SignOfQuotient(ts, delta);
  }

  lemma SignOfQuotient(a: int, b: int)
    requires b > 0
    ensures a >= 0 <==> a / b >= 0
  {
  }

  /** Dropping the fraction of a time `rest` after `q` whole buckets. */
  lemma SecondsOf(q: int, rest: nat, seconds: int)
    requires seconds > 0 && rest < seconds * SECOND
    ensures (q * (seconds * SECOND) + rest) / SECOND == q * seconds + rest / SECOND
    ensures 0 <= rest / SECOND < seconds
  {
    var t := q * (seconds * SECOND) + rest;
    assert q * (seconds * SECOND) == (q * seconds) * SECOND;
    var s := q * seconds + rest / SECOND;
    assert s * SECOND == (q * seconds) * SECOND + rest / SECOND * SECOND;
    QuotientIs(t, SECOND, s);
  }

  /** Truncating `q` whole buckets and `k` seconds more. */
  lemma TruncateMixed(q: int, k: int, seconds: int)
    requires seconds > 0 && 0 <= k < seconds
    ensures Truncate(q * seconds + k, seconds) == if q >= 0 || k == 0 then q else q + 1
  {
    hide Truncate;
    var s := q * seconds + k;
    QuotientIs(s, seconds, q);
    TruncateVersusFloor(s, seconds);
    assert s % seconds == k;
    SignOfQuotient(s, seconds);
  }

  lemma FloorProperties(ts: int, delta: nat)
    requires delta > 0
    ensures Floor(ts, delta) % delta == 0
    ensures ts >= 0 ==> Floor(ts, delta) <= ts < Floor(ts, delta) + delta
    ensures ts < 0 ==> Floor(ts, delta) - delta < ts <= Floor(ts, delta)
    ensures Floor(Floor(ts, delta), delta) == Floor(ts, delta)
  {
    hide Truncate;
    var q := PythonIndex(ts, delta);
    MultipleMod(q, delta);
    TruncateBracket(ts, delta);
    TruncateMultiple(q, delta);
  }

  lemma TruncateBracket(a: int, b: int)
    requires b > 0
    ensures a >= 0 ==> Truncate(a, b) * b <= a < Truncate(a, b) * b + b
    ensures a < 0 ==> Truncate(a, b) * b - b < a <= Truncate(a, b) * b
  {
    if a < 0 {
      Negated((-a) / b, b);
    }
  }

  lemma TruncateMultiple(q: int, b: int)
    requires b > 0
    ensures Truncate(q * b, b) == q
  {
    SignOfProduct(q, b);
    if q >= 0 {
      QuotientIs(q * b, b, q);
    } else {
      Negated(q, b);
      QuotientIs(-q * b, b, -q);
    }
  }

  lemma Negated(q: int, b: int)
    ensures -q * b == -(q * b)
  {
  }

  lemma SignOfProduct(q: int, b: int)
    requires b > 0
    ensures q >= 0 <==> q * b >= 0
  {
    if q < 0 {
      MultiplesApart(q, 0, b);
    }
  }

  lemma MultipleMod(q: int, d: int)
    requires d > 0
    ensures (q * d) % d == 0
  {
    QuotientIs(q * d, d, q);
  }

  lemma FloorMonotone(a: int, b: int, delta: nat)
    requires delta > 0 && a <= b
    ensures PythonIndex(a, delta) <= PythonIndex(b, delta)
    ensures Floor(a, delta) <= Floor(b, delta)
  {
    hide Truncate;
    var p, q := PythonIndex(a, delta), PythonIndex(b, delta);
    FloorProperties(a, delta);
    FloorProperties(b, delta);
    IndexSign(a, delta);
    IndexSign(b, delta);
    assert p * delta == Floor(a, delta) && q * delta == Floor(b, delta);
    if q < p {
      MultiplesApart(q, p, delta);
    } else if p < q {
      MultiplesApart(p, q, delta);
    }
  }

  lemma IndexSign(ts: int, delta: nat)
    requires delta > 0
    ensures if ts >= 0 then PythonIndex(ts, delta) >= 0 else PythonIndex(ts, delta) <= 0
  {
  }

  // ---------------------------------------------------------------------- tallies

  /** The name a row is counted under; None as `split` means the chart is not split. */
  function Label(split: bool, column: Option<string>): string {
    if !split then "events"
    else match column
      case None => "unknown"
      case Some(s) => if s == "" then "unknown" else s
  }

  type Cell = (int, string)

  function CellOf(e: Event, delta: nat, split: bool): Cell
    requires delta > 0
  {
    (Floor(e.ts, delta), Label(split, e.column))
  }

  /** The number of events in a cell. */
  function CountOf(events: seq<Event>, delta: nat, split: bool, cell: Cell): nat
    requires delta > 0
  {
    if events == [] then 0
    else
      CountOf(events[..|events| - 1], delta, split, cell)
      + if CellOf(events[|events| - 1], delta, split) == cell then 1 else 0
  }

  /** `counts`, flattened to cells, and the names met so far, without repetition. */
  ghost predicate IsTally(counts: map<Cell, int>, names: seq<string>, events: seq<Event>, delta: nat, split: bool)
    requires delta > 0
  {
    && (forall c :: c in counts <==> CountOf(events, delta, split, c) > 0)
    && (forall c :: c in counts ==> counts[c] == CountOf(events, delta, split, c))
    && IsNames(names, events, split)
  }

  ghost predicate IsNames(names: seq<string>, events: seq<Event>, split: bool) {
    && (forall n :: n in names <==> exists e :: e in events && Label(split, e.column) == n)
    && (forall i, j :: 0 <= i < j < |names| ==> names[i] != names[j])
  }

  function Add(counts: map<Cell, int>, cell: Cell, n: int): map<Cell, int> {
    counts[cell := (if cell in counts then counts[cell] else 0) + n]
  }

  lemma TallyNothing(delta: nat, split: bool)
    requires delta > 0
    ensures IsTally(map[], [], [], delta, split)
  {
  }

  lemma TallyStep(counts: map<Cell, int>, names: seq<string>, before: seq<Event>, e: Event, delta: nat, split: bool)
    requires delta > 0 && IsTally(counts, names, before, delta, split)
    ensures var name := Label(split, e.column);
      IsTally(Add(counts, (Floor(e.ts, delta), name), 1), if name in names then names else names + [name],
              before + [e], delta, split)
  {
    hide Floor, Label;
    assert (before + [e])[..|before|] == before;
    NamesStep(names, before, e, split);
    hide IsNames;
  }

  lemma NamesStep(names: seq<string>, before: seq<Event>, e: Event, split: bool)
    requires IsNames(names, before, split)
    ensures var name := Label(split, e.column);
      IsNames(if name in names then names else names + [name], before + [e], split)
  {
    hide Label;
    var name := Label(split, e.column);
    var all := if name in names then names else names + [name];
    assert forall x :: x in before + [e] <==> x in before || x == e;
    assert forall n :: n in all <==> n in names || n == name;
  }

  /** The Python path: one row per event. */
  method TallyEvents(events: seq<Event>, delta: nat, split: bool) returns (counts: map<Cell, int>, names: seq<string>)
    requires delta > 0
    ensures IsTally(counts, names, events, delta, split)
  {
    hide Floor, Label, CountOf, Add, IsNames, IsTally;
    counts, names := map[], [];
    TallyNothing(delta, split);
    for k := 0 to |events|
      invariant IsTally(counts, names, events[..k], delta, split)
    {
      assert events[..k + 1] == events[..k] + [events[k]];
      TallyStep(counts, names, events[..k], events[k], delta, split);
      var name := Label(split, events[k].column);
      counts := Add(counts, (Floor(events[k].ts, delta), name), 1);
      if name !in names {
        names := names + [name];
      }
    }
    assert events[..|events|] == events;
  }

  /** One row of the grouped query. Without a split the query groups by the bucket alone. */
  datatype Row = Row(index: int, column: Option<string>, n: int)

  predicate InRow(dialect: Dialect, delta: nat, split: bool, e: Event, r: Row)
    requires IsWidth(delta)
  {
    SqlIndex(dialect, e.ts, delta) == r.index && (split ==> e.column == r.column)
  }

  function RowCount(dialect: Dialect, events: seq<Event>, delta: nat, split: bool, r: Row): nat
    requires IsWidth(delta)
  {
    if events == [] then 0
    else
      RowCount(dialect, events[..|events| - 1], delta, split, r)
      + if InRow(dialect, delta, split, events[|events| - 1], r) then 1 else 0
  }

  /** What GROUP BY means: one row per group that occurs, in any order, with its size. */
  ghost predicate IsGrouping(dialect: Dialect, rows: seq<Row>, events: seq<Event>, delta: nat, split: bool)
    requires IsWidth(delta)
  {
    && (forall e :: e in events ==> exists r :: r in rows && InRow(dialect, delta, split, e, r))
    && (forall r :: r in rows ==> r.n == RowCount(dialect, events, delta, split, r) > 0)
    && (forall i, j :: 0 <= i < j < |rows| ==> !SameGroup(split, rows[i], rows[j]))
  }

  predicate SameGroup(split: bool, a: Row, b: Row) {
    a.index == b.index && (split ==> a.column == b.column)
  }

  function RowCell(r: Row, delta: nat, split: bool): Cell {
    (r.index * delta, Label(split, r.column))
  }

  ghost predicate Covered(dialect: Dialect, rows: seq<Row>, delta: nat, split: bool, e: Event)
    requires IsWidth(delta)
  {
    exists r :: r in rows && InRow(dialect, delta, split, e, r)
  }

  /** The events of a cell whose group is among `rows`. */
  ghost function CoveredCount(dialect: Dialect, rows: seq<Row>, events: seq<Event>, delta: nat, split: bool,
                              cell: Cell): nat
    requires IsWidth(delta)
  {
    if events == [] then 0
    else
      CoveredCount(dialect, rows, events[..|events| - 1], delta, split, cell)
      + if CellOf(events[|events| - 1], delta, split) == cell
           && Covered(dialect, rows, delta, split, events[|events| - 1]) then 1 else 0
  }

  /** At or after the epoch, an event's row leads to the event's cell. */
  lemma RowLeadsToCell(dialect: Dialect, e: Event, r: Row, delta: nat, split: bool)
    requires IsWidth(delta) && SameBucket(dialect, e.ts, delta) && InRow(dialect, delta, split, e, r)
    ensures CellOf(e, delta, split) == RowCell(r, delta, split)
  {
    IndexAgreement(dialect, e.ts, delta);
  }

  lemma {:induction false} CoverStep(dialect: Dialect, rows: seq<Row>, r: Row, events: seq<Event>, delta: nat,
                                     split: bool, cell: Cell)
    requires IsWidth(delta) && forall e :: e in events ==> SameBucket(dialect, e.ts, delta)
    requires forall q :: q in rows ==> !SameGroup(split, q, r)
    ensures CoveredCount(dialect, rows + [r], events, delta, split, cell)
         == CoveredCount(dialect, rows, events, delta, split, cell)
            + if RowCell(r, delta, split) == cell then RowCount(dialect, events, delta, split, r) else 0
  {
    hide SqlIndex, Floor, Label;
    if events != [] {
      var before, e := events[..|events| - 1], events[|events| - 1];
      assert e in events && forall x :: x in before ==> x in events;
      CoverStep(dialect, rows, r, before, delta, split, cell);
      assert Covered(dialect, rows + [r], delta, split, e) <==>
             Covered(dialect, rows, delta, split, e) || InRow(dialect, delta, split, e, r) by {
        if InRow(dialect, delta, split, e, r) {
          assert r in rows + [r];
        }
      }
      if InRow(dialect, delta, split, e, r) {
        RowLeadsToCell(dialect, e, r, delta, split);
        assert !Covered(dialect, rows, delta, split, e) by {
          NotInTwoRows(dialect, rows, r, delta, split, e);
        }
      }
    }
  }

  lemma NotInTwoRows(dialect: Dialect, rows: seq<Row>, r: Row, delta: nat, split: bool, e: Event)
    requires IsWidth(delta) && InRow(dialect, delta, split, e, r)
    requires forall q :: q in rows ==> !SameGroup(split, q, r)
    ensures !Covered(dialect, rows, delta, split, e)
  {
    hide SqlIndex;
    forall q | q in rows ensures !InRow(dialect, delta, split, e, q) {
      assert !SameGroup(split, q, r);
    }
  }

  lemma {:induction false} AllCovered(dialect: Dialect, rows: seq<Row>, events: seq<Event>, delta: nat, split: bool,
                                      cell: Cell)
    requires IsWidth(delta) && forall e :: e in events ==> Covered(dialect, rows, delta, split, e)
    ensures CoveredCount(dialect, rows, events, delta, split, cell) == CountOf(events, delta, split, cell)
  {
    hide Covered, CellOf;
    if events != [] {
      assert events[|events| - 1] in events;
      AllCovered(dialect, rows, events[..|events| - 1], delta, split, cell);
    }
  }

  lemma {:induction false} NoneCovered(dialect: Dialect, events: seq<Event>, delta: nat, split: bool, cell: Cell)
    requires IsWidth(delta)
    ensures CoveredCount(dialect, [], events, delta, split, cell) == 0
  {
    hide CellOf;
    if events != [] {
      NoneCovered(dialect, events[..|events| - 1], delta, split, cell);
    }
  }

  ghost predicate IsPartialTally(counts: map<Cell, int>, dialect: Dialect, rows: seq<Row>, events: seq<Event>,
                                 delta: nat, split: bool)
    requires IsWidth(delta)
  {
    && (forall c :: c in counts <==> CoveredCount(dialect, rows, events, delta, split, c) > 0)
    && (forall c :: c in counts ==> counts[c] == CoveredCount(dialect, rows, events, delta, split, c))
  }

  lemma PartialTallyStep(counts: map<Cell, int>, dialect: Dialect, rows: seq<Row>, r: Row, events: seq<Event>,
                         delta: nat, split: bool)
    requires IsWidth(delta) && IsPartialTally(counts, dialect, rows, events, delta, split)
    requires forall e :: e in events ==> SameBucket(dialect, e.ts, delta)
    requires forall q :: q in rows ==> !SameGroup(split, q, r)
    requires r.n == RowCount(dialect, events, delta, split, r) > 0
    ensures IsPartialTally(Add(counts, RowCell(r, delta, split), r.n), dialect, rows + [r], events, delta, split)
  {
    hide CoveredCount, RowCount, RowCell;
    var after := Add(counts, RowCell(r, delta, split), r.n);
    forall c
      ensures c in after <==> CoveredCount(dialect, rows + [r], events, delta, split, c) > 0
      ensures c in after ==> after[c] == CoveredCount(dialect, rows + [r], events, delta, split, c)
    {
      CoverStep(dialect, rows, r, events, delta, split, c);
    }
  }

  ghost predicate RowNames(names: seq<string>, rows: seq<Row>, split: bool) {
    && (forall n :: n in names <==> exists r :: r in rows && Label(split, r.column) == n)
    && (forall i, j :: 0 <= i < j < |names| ==> names[i] != names[j])
  }

  lemma RowNamesStep(names: seq<string>, rows: seq<Row>, r: Row, split: bool)
    requires RowNames(names, rows, split)
    ensures var name := Label(split, r.column);
      RowNames(if name in names then names else names + [name], rows + [r], split)
  {
    hide Label;
    var after := rows + [r];
    assert r in after && forall q :: q in rows ==> q in after;
    assert forall q :: q in after ==> q in rows || q == r;
  }

  lemma {:induction false} RowCountWitness(dialect: Dialect, events: seq<Event>, delta: nat, split: bool,
                                           r: Row) returns (e: Event)
    requires IsWidth(delta) && RowCount(dialect, events, delta, split, r) > 0
    ensures e in events && InRow(dialect, delta, split, e, r)
  {
    hide InRow;
    if InRow(dialect, delta, split, events[|events| - 1], r) {
      e := events[|events| - 1];
    } else {
      e := RowCountWitness(dialect, events[..|events| - 1], delta, split, r);
    }
  }

  lemma RowNamesAreNames(dialect: Dialect, names: seq<string>, rows: seq<Row>, events: seq<Event>, delta: nat,
                         split: bool)
    requires IsWidth(delta) && RowNames(names, rows, split) && IsGrouping(dialect, rows, events, delta, split)
    ensures IsNames(names, events, split)
  {
    hide SqlIndex;
    forall n ensures n in names <==> exists e :: e in events && Label(split, e.column) == n {
      if n in names {
        var r :| r in rows && Label(split, r.column) == n;
        var e := RowCountWitness(dialect, events, delta, split, r);
      }
      if e :| e in events && Label(split, e.column) == n {
        var r :| r in rows && InRow(dialect, delta, split, e, r);
      }
    }
  }

  // ---------------------------------------------- the database's view of the events

  /** The event at the start of the bucket the database puts it in. */
  function Moved(dialect: Dialect, e: Event, delta: nat): Event
    requires IsWidth(delta)
  {
    e.(ts := SqlIndex(dialect, e.ts, delta) * delta)
  }

  function AtBuckets(dialect: Dialect, events: seq<Event>, delta: nat): (moved: seq<Event>)
    requires IsWidth(delta)
    ensures |moved| == |events| && forall k :: 0 <= k < |events| ==> moved[k] == Moved(dialect, events[k], delta)
  {
    seq(|events|, k requires 0 <= k < |events| => Moved(dialect, events[k], delta))
  }

  lemma MovedStays(dialect: Dialect, ts: int, delta: nat)
    requires IsWidth(delta)
    ensures var at := SqlIndex(dialect, ts, delta) * delta;
      SqlIndex(dialect, at, delta) == SqlIndex(dialect, ts, delta) && SameBucket(dialect, at, delta)
  {
    var q, seconds := SqlIndex(dialect, ts, delta), delta / SECOND;
    WidthSeconds(delta);
    match dialect
    case Postgresql =>
      QuotientIs(q * delta, delta, q);
      MultipleMod(q, delta);
    case Sqlite =>
      WholeSeconds(q, seconds);
      TruncateMultiple(q, seconds);
    case SqliteRounding =>
      SecondsOf(q, HALF_MILLISECOND, seconds);
      TruncateMultiple(q, seconds);
      MultipleMod(q, delta);
  }

  lemma WholeSeconds(q: int, seconds: int)
    ensures q * (seconds * SECOND) / SECOND == q * seconds && q * (seconds * SECOND) % SECOND == 0
  {
    assert q * (seconds * SECOND) == (q * seconds) * SECOND;
    QuotientIs((q * seconds) * SECOND, SECOND, q * seconds);
  }

  lemma MovedRow(dialect: Dialect, e: Event, delta: nat, split: bool, r: Row)
    requires IsWidth(delta)
    ensures InRow(dialect, delta, split, Moved(dialect, e, delta), r) <==> InRow(dialect, delta, split, e, r)
  {
    hide SqlIndex, SameBucket;
    MovedStays(dialect, e.ts, delta);
  }

  lemma {:induction false} MovedRowCount(dialect: Dialect, events: seq<Event>, delta: nat, split: bool, r: Row)
    requires IsWidth(delta)
    ensures RowCount(dialect, AtBuckets(dialect, events, delta), delta, split, r)
         == RowCount(dialect, events, delta, split, r)
  {
    hide InRow, Moved;
    if events != [] {
      var before := events[..|events| - 1];
      MovedRowCount(dialect, before, delta, split, r);
      MovedRow(dialect, events[|events| - 1], delta, split, r);
      var moved := AtBuckets(dialect, events, delta);
      assert moved[..|moved| - 1] == AtBuckets(dialect, before, delta);
    }
  }

  /** The grouped query cannot tell the events from their bucket starts. */
  lemma MovedGrouping(dialect: Dialect, rows: seq<Row>, events: seq<Event>, delta: nat, split: bool)
    requires IsWidth(delta) && IsGrouping(dialect, rows, events, delta, split)
    ensures IsGrouping(dialect, rows, AtBuckets(dialect, events, delta), delta, split)
    ensures forall e :: e in AtBuckets(dialect, events, delta) ==> SameBucket(dialect, e.ts, delta)
  {
    hide InRow, RowCount, SqlIndex, SameBucket;
    var moved := AtBuckets(dialect, events, delta);
    forall e | e in moved
      ensures exists r :: r in rows && InRow(dialect, delta, split, e, r)
      ensures SameBucket(dialect, e.ts, delta)
    {
      var k :| 0 <= k < |moved| && moved[k] == e;
      assert events[k] in events;
      var r :| r in rows && InRow(dialect, delta, split, events[k], r);
      MovedRow(dialect, events[k], delta, split, r);
      MovedStays(dialect, events[k].ts, delta);
    }
    forall r | r in rows ensures r.n == RowCount(dialect, moved, delta, split, r) > 0 {
      MovedRowCount(dialect, events, delta, split, r);
    }
  }

  /** The database path: one row per group; groups of one cell are merged. The result is the tally of the events at the
      starts of the buckets the database put them in. */
  method TallyRows(dialect: Dialect, rows: seq<Row>, ghost events: seq<Event>, delta: nat, split: bool)
    returns (counts: map<Cell, int>, names: seq<string>)
    requires IsWidth(delta) && IsGrouping(dialect, rows, events, delta, split)
    ensures IsTally(counts, names, AtBuckets(dialect, events, delta), delta, split)
  {
    hide CoveredCount, RowCount, CountOf, IsPartialTally, RowNames, Label, SqlIndex, AtBuckets, IsTally, InRow;
    counts, names := map[], [];
    ghost var seen := AtBuckets(dialect, events, delta);
    MovedGrouping(dialect, rows, events, delta, split);
    assert IsPartialTally(map[], dialect, [], seen, delta, split) by { NothingTallied(dialect, seen, delta, split); }
    assert RowNames([], [], split) by { NothingNamed(split); }
    for k := 0 to |rows|
      invariant IsPartialTally(counts, dialect, rows[..k], seen, delta, split)
      invariant RowNames(names, rows[..k], split)
    {
      var r := rows[k];
      assert rows[..k + 1] == rows[..k] + [r];
      assert r in rows;
      forall q | q in rows[..k] ensures !SameGroup(split, q, r) {
        var i :| 0 <= i < k && rows[i] == q;
      }
      PartialTallyStep(counts, dialect, rows[..k], r, seen, delta, split);
      RowNamesStep(names, rows[..k], r, split);
      counts := Add(counts, RowCell(r, delta, split), r.n);
      var name := Label(split, r.column);
      if name !in names {
        names := names + [name];
      }
    }
    assert rows[..|rows|] == rows;
    RowNamesAreNames(dialect, names, rows, seen, delta, split);
    TallyComplete(counts, names, dialect, rows, seen, delta, split);
  }

  lemma NothingTallied(dialect: Dialect, events: seq<Event>, delta: nat, split: bool)
    requires IsWidth(delta)
    ensures IsPartialTally(map[], dialect, [], events, delta, split)
  {
    hide CoveredCount;
    forall c ensures CoveredCount(dialect, [], events, delta, split, c) == 0 {
      NoneCovered(dialect, events, delta, split, c);
    }
  }

  lemma NothingNamed(split: bool)
    ensures RowNames([], [], split)
  {
  }

  lemma TallyComplete(counts: map<Cell, int>, names: seq<string>, dialect: Dialect, rows: seq<Row>, events: seq<Event>,
                      delta: nat, split: bool)
    requires IsWidth(delta) && IsGrouping(dialect, rows, events, delta, split) && IsNames(names, events, split)
    requires IsPartialTally(counts, dialect, rows, events, delta, split)
    ensures IsTally(counts, names, events, delta, split)
  {
    hide CoveredCount, RowCount, CountOf, InRow, IsNames;
    forall c ensures CoveredCount(dialect, rows, events, delta, split, c) == CountOf(events, delta, split, c) {
      AllCovered(dialect, rows, events, delta, split, c);
    }
  }

  // ------------------------------------------------------- when the two paths agree

  /** The database never puts a time into a bucket nearer to the epoch than Python does. */
  lemma SqlNotNearer(dialect: Dialect, ts: int, delta: nat)
    requires IsWidth(delta)
    ensures ts >= 0 ==> 0 <= PythonIndex(ts, delta) <= SqlIndex(dialect, ts, delta)
    ensures ts < 0 ==> SqlIndex(dialect, ts, delta) <= PythonIndex(ts, delta) <= 0
  {
    hide Truncate;
    IndexSign(ts, delta);
    TruncateVersusFloor(ts, delta);
    match dialect
    case Postgresql =>
    case Sqlite => DroppingNotAhead(ts, delta);
    case SqliteRounding => RoundedIndex(ts, delta);
  }

  lemma DroppingNotAhead(ts: int, delta: nat)
    requires IsWidth(delta)
    ensures ts >= 0 ==> SqlIndex(Sqlite, ts, delta) == PythonIndex(ts, delta)
    ensures SqlIndex(Sqlite, ts, delta) <= PythonIndex(ts, delta)
  {
    var seconds := delta / SECOND;
    WidthSeconds(delta);
    DroppingAgreement(ts, delta);
    TruncateVersusFloor(ts, delta);
    TruncateVersusFloor(ts / SECOND, seconds);
    NestedFloor(ts, seconds);
    assert delta == SECOND * seconds;
    MultipleInSeconds(ts, seconds);
  }

  /** A multiple of whole seconds is a multiple after its fraction of a second was dropped, too. */
  lemma MultipleInSeconds(ts: int, seconds: int)
    requires seconds > 0
    ensures ts % (SECOND * seconds) == 0 ==> (ts / SECOND) % seconds == 0
  {
    if ts % (SECOND * seconds) == 0 {
      var q := ts / (SECOND * seconds);
      assert ts == q * (SECOND * seconds);
      WholeSeconds(q, seconds);
      assert q * (seconds * SECOND) == q * (SECOND * seconds);
      MultipleMod(q, seconds);
    }
  }

  function Cells(events: seq<Event>, delta: nat, split: bool): seq<Cell>
    requires delta > 0
  {
    if events == [] then []
    else Cells(events[..|events| - 1], delta, split) + [CellOf(events[|events| - 1], delta, split)]
  }

  lemma {:induction false} CellsCounted(events: seq<Event>, delta: nat, split: bool)
    requires delta > 0
    ensures forall c :: multiset(Cells(events, delta, split))[c] == CountOf(events, delta, split, c)
  {
    hide CellOf;
    if events != [] {
      CellsCounted(events[..|events| - 1], delta, split);
    }
  }

  /** How far from the epoch the cell's bucket starts. */
  function Distance(c: Cell): int { Abs(c.0) }

  function Abs(x: int): nat { if x >= 0 then x else -x }

  /** Moving events to the database's buckets never lowers the sum of their distances from the epoch, and keeps it only
      when no event changes its bucket. */
  lemma {:induction false} StartsSpread(dialect: Dialect, events: seq<Event>, delta: nat, split: bool)
    requires IsWidth(delta)
    ensures var own, moved := Cells(events, delta, split), Cells(AtBuckets(dialect, events, delta), delta, split);
      && SumInt(Map(moved, Distance)) >= SumInt(Map(own, Distance))
      && (SumInt(Map(moved, Distance)) == SumInt(Map(own, Distance))
          <==> forall e :: e in events ==> SameBucket(dialect, e.ts, delta))
  {
    hide SameBucket, CellOf, Moved, AtBuckets, SqlIndex;
    if events == [] {
      NothingMoved(dialect, delta);
    } else {
      var before, e := events[..|events| - 1], events[|events| - 1];
      assert events == before + [e];
      StartsSpread(dialect, before, delta, split);
      MovedAppend(dialect, before, e, delta);
      DistancesAppend(before, e, delta, split);
      DistancesAppend(AtBuckets(dialect, before, delta), Moved(dialect, e, delta), delta, split);
      StartMoves(dialect, e, delta);
    }
  }

  lemma NothingMoved(dialect: Dialect, delta: nat)
    requires IsWidth(delta)
    ensures AtBuckets(dialect, [], delta) == []
  {
  }

  lemma MovedAppend(dialect: Dialect, before: seq<Event>, e: Event, delta: nat)
    requires IsWidth(delta)
    ensures AtBuckets(dialect, before + [e], delta) == AtBuckets(dialect, before, delta) + [Moved(dialect, e, delta)]
  {
    hide Moved;
  }

  lemma DistancesAppend(before: seq<Event>, e: Event, delta: nat, split: bool)
    requires delta > 0
    ensures SumInt(Map(Cells(before + [e], delta, split), Distance))
         == SumInt(Map(Cells(before, delta, split), Distance)) + Abs(Floor(e.ts, delta))
  {
    hide Floor, Map;
    assert (before + [e])[..|before|] == before;
    var cells, cell := Cells(before, delta, split), CellOf(e, delta, split);
    MapConcat(cells, [cell], Distance);
    MapOne(cell);
    SumIntConcat(Map(cells, Distance), [Distance(cell)]);
    assert [Distance(cell)][1..] == [];
  }

  lemma MapOne(c: Cell)
    ensures Map([c], Distance) == [Distance(c)]
  {
    assert [c][1..] == [];
  }

  /** An event that changes its bucket moves away from the epoch. */
  lemma StartMoves(dialect: Dialect, e: Event, delta: nat)
    requires IsWidth(delta)
    ensures var was, now := Floor(e.ts, delta), Floor(Moved(dialect, e, delta).ts, delta);
      && (now == was <==> SameBucket(dialect, e.ts, delta))
      && (now >= was >= 0 || now <= was <= 0)
      && was % delta == 0 && now % delta == 0
  {
    hide SqlIndex, SameBucket, Truncate;
    SqlNotNearer(dialect, e.ts, delta);
    IndexAgreement(dialect, e.ts, delta);
    var p, q := SqlIndex(dialect, e.ts, delta), PythonIndex(e.ts, delta);
    TruncateMultiple(p, delta);
    MultipleMod(p, delta);
    MultipleMod(q, delta);
    SignOfProduct(q, delta);
    if p < q {
      MultiplesApart(p, q, delta);
      SignOfProduct(-q, delta);
      Negated(q, delta);
    } else if q < p {
      MultiplesApart(q, p, delta);
    } else {
      SignOfProduct(-q, delta);
      Negated(q, delta);
    }
  }

  /** The same number of events in every cell. */
  ghost predicate SameTally(a: seq<Event>, b: seq<Event>, delta: nat, split: bool)
    requires delta > 0
  {
    forall c :: CountOf(a, delta, split, c) == CountOf(b, delta, split, c)
  }

  lemma SameTallySameDistances(a: seq<Event>, b: seq<Event>, delta: nat, split: bool)
    requires delta > 0 && SameTally(a, b, delta, split)
    ensures SumInt(Map(Cells(a, delta, split), Distance)) == SumInt(Map(Cells(b, delta, split), Distance))
  {
    hide Cells, Map;
    CellsCounted(a, delta, split);
    CellsCounted(b, delta, split);
    var x, y := Cells(a, delta, split), Cells(b, delta, split);
    assert multiset(x) == multiset(y);
    MapMultiset(x, y, Distance);
    SumIntMultiset(Map(x, Distance), Map(y, Distance));
  }

  /** The database's tally equals Python's, cell by cell, if and only if no event is put into a different bucket: events
      that change buckets cannot make up for each other. */
  lemma TalliesAgreeIff(dialect: Dialect, events: seq<Event>, delta: nat, split: bool)
    requires IsWidth(delta)
    ensures SameTally(AtBuckets(dialect, events, delta), events, delta, split)
       <==> forall e :: e in events ==> SameBucket(dialect, e.ts, delta)
  {
    hide SameBucket, AtBuckets, SqlIndex, Cells, SameTally;
    StartsSpread(dialect, events, delta, split);
    if SameTally(AtBuckets(dialect, events, delta), events, delta, split) {
      SameTallySameDistances(AtBuckets(dialect, events, delta), events, delta, split);
    }
    if forall e :: e in events ==> SameBucket(dialect, e.ts, delta) {
      AllStayed(dialect, events, delta, split);
    }
  }

  lemma AllStayed(dialect: Dialect, events: seq<Event>, delta: nat, split: bool)
    requires IsWidth(delta) && forall e :: e in events ==> SameBucket(dialect, e.ts, delta)
    ensures SameTally(AtBuckets(dialect, events, delta), events, delta, split)
  {
    forall c
      ensures CountOf(AtBuckets(dialect, events, delta), delta, split, c) == CountOf(events, delta, split, c)
    {
      SameCounts(dialect, events, delta, split, c, if c.0 >= 0 then c.0 else 0);
    }
  }

  /** Every event in a bucket up to the limit keeps its bucket. */
  ghost predicate SameUpTo(dialect: Dialect, events: seq<Event>, delta: nat, limit: int)
    requires IsWidth(delta)
  {
    forall e :: e in events && Floor(e.ts, delta) <= limit ==> SameBucket(dialect, e.ts, delta)
  }

  lemma SameUpToPrefix(dialect: Dialect, before: seq<Event>, e: Event, delta: nat, limit: int)
    requires IsWidth(delta) && SameUpTo(dialect, before + [e], delta, limit)
    ensures SameUpTo(dialect, before, delta, limit)
    ensures Floor(e.ts, delta) <= limit ==> SameBucket(dialect, e.ts, delta)
  {
    hide SameBucket, Floor;
    assert e in before + [e] && forall x :: x in before ==> x in before + [e];
  }

  /** An event keeps its bucket, or it is and stays after the limit. */
  lemma StaysOrBeyond(dialect: Dialect, e: Event, delta: nat, limit: nat)
    requires IsWidth(delta) && (Floor(e.ts, delta) <= limit ==> SameBucket(dialect, e.ts, delta))
    ensures var was, now := Floor(e.ts, delta), Floor(Moved(dialect, e, delta).ts, delta);
      now == was || (now > limit && was > limit)
  {
    hide SameBucket, Floor, Moved;
    StartMoves(dialect, e, delta);
  }

  lemma {:induction false} SameCounts(dialect: Dialect, events: seq<Event>, delta: nat, split: bool, c: Cell,
                                      limit: nat)
    requires IsWidth(delta) && SameUpTo(dialect, events, delta, limit) && c.0 <= limit
    ensures CountOf(AtBuckets(dialect, events, delta), delta, split, c) == CountOf(events, delta, split, c)
  {
    hide SameBucket, Floor, SqlIndex, SameUpTo;
    if events != [] {
      var before, e := events[..|events| - 1], events[|events| - 1];
      assert events == before + [e];
      SameUpToPrefix(dialect, before, e, delta, limit);
      SameCounts(dialect, before, delta, split, c, limit);
      var moved := AtBuckets(dialect, events, delta);
      assert moved[..|moved| - 1] == AtBuckets(dialect, before, delta);
      StaysOrBeyond(dialect, e, delta, limit);
    }
  }

  /** Times that the database and Python put into different buckets of a minute: just before the epoch, and with
      rounding also within half a millisecond of the end of any minute. */
  lemma IndicesCanDiffer()
    ensures SqlIndex(Postgresql, -1, 60_000_000) == -1 && PythonIndex(-1, 60_000_000) == 0
    ensures SqlIndex(Sqlite, -59_999_999, 60_000_000) == -1 && PythonIndex(-59_999_999, 60_000_000) == 0
    ensures SqlIndex(SqliteRounding, 59_999_999, 60_000_000) == 1 && PythonIndex(59_999_999, 60_000_000) == 0
  {
  }
}
