/**
  `_sliding_peak` (pipeline/detection/rules.py): the busiest window of a group of events, found
  with two pointers over the time-ordered events. Timestamps are whole microseconds.
 */
module SlidingPeak {
  import opened Wrappers
  import opened Sequences

  /** A column of an event; Null is Python's None, Tags a JSON list of strings. */
  datatype Value = Null | Text(s: string) | Number(n: real) | Tags(tags: seq<string>)

  datatype Event = Event(eventId: string, ts: int, columns: map<string, Value>)
  {
    /** `getattr(event, name, None)` */
    function Get(name: string): Value {
      if name in columns then columns[name] else Null
    }
  }

  predicate Earlier(a: Event, b: Event) { a.ts <= b.ts }

  function ByTime(events: seq<Event>): seq<Event> { StableSort(events, Earlier) }

  lemma ByTimeOrdered(events: seq<Event>)
    ensures Ordered(ByTime(events), Earlier)
    ensures multiset(ByTime(events)) == multiset(events)
    ensures |ByTime(events)| == |events|
  {
    assert TotalPreorder(Earlier);
    SortOrdered(events, Earlier);
    SortMultiset(events, Earlier);
  }

  // ------------------------------------------------------------------- measures

  /** The non-null values of a column, with multiplicity. */
  ghost function ValuesOf(events: seq<Event>, column: string): multiset<Value> {
    if events == [] then multiset{}
    else
      (if events[0].Get(column) != Null then multiset{events[0].Get(column)} else multiset{})
      + ValuesOf(events[1..], column)
  }

  ghost function DistinctValues(events: seq<Event>, column: string): set<Value> {
    set e | e in events && e.Get(column) != Null :: e.Get(column)
  }

  /** What the rule counts: events, or distinct non-null values of a column. */
  ghost function Measure(events: seq<Event>, column: Option<string>): nat {
    match column
    case None => |events|
    case Some(c) => |DistinctValues(events, c)|
  }

  lemma {:induction false} ValuesAppend(a: seq<Event>, e: Event, column: string)
    ensures ValuesOf(a + [e], column)
         == ValuesOf(a, column) + if e.Get(column) != Null then multiset{e.Get(column)} else multiset{}
  {
    if a == [] {
      assert a + [e] == [e];
      assert [e][1..] == [];
    } else {
      assert (a + [e])[1..] == a[1..] + [e];
      ValuesAppend(a[1..], e, column);
    }
  }

  lemma {:induction false} ValuesAreDistinctValues(events: seq<Event>, column: string)
    ensures forall v :: v in ValuesOf(events, column) <==> v in DistinctValues(events, column)
  {
    if events != [] {
      ValuesAreDistinctValues(events[1..], column);
      assert events == [events[0]] + events[1..];
      assert DistinctValues(events, column) == DistinctValues(events[1..], column)
        + if events[0].Get(column) != Null then {events[0].Get(column)} else {};
    }
  }

  /** A collection contained in another measures no more. */
  lemma MeasureMonotone(a: seq<Event>, b: seq<Event>, column: Option<string>)
    requires multiset(a) <= multiset(b)
    ensures Measure(a, column) <= Measure(b, column)
  {
    if column == None {
      assert |multiset(a)| == |a| && |multiset(b)| == |b|;
      MultisetSize(multiset(a), multiset(b));
    } else {
      forall e | e in a ensures e in b {
        assert multiset(a)[e] > 0;
      }
      SetSize(DistinctValues(a, column.value), DistinctValues(b, column.value));
    }
  }

  // -------------------------------------------------------------- specification

  /** The first position, from `l` on, whose event fits in the window that ends at `right`. */
  function LeftFrom(o: seq<Event>, window: nat, right: nat, l: nat): (r: nat)
    requires l <= right < |o|
    ensures l <= r <= right && o[right].ts - o[r].ts <= window
    ensures forall k :: l <= k < r ==> o[right].ts - o[k].ts > window
    decreases right - l
  {
    if o[right].ts - o[l].ts <= window then l else LeftFrom(o, window, right, l + 1)
  }

  ghost function WindowAt(o: seq<Event>, window: nat, right: nat): seq<Event>
    requires right < |o|
  {
    o[LeftFrom(o, window, right, 0)..right + 1]
  }

  /** The first window, by right end, that beats all earlier ones. */
  ghost function BestUpTo(o: seq<Event>, window: nat, column: Option<string>, k: nat): (nat, seq<Event>)
    requires k <= |o|
  {
    if k == 0 then (0, [])
    else
      var (best, span) := BestUpTo(o, window, column, k - 1);
      var here := WindowAt(o, window, k - 1);
      if Measure(here, column) > best then (Measure(here, column), here) else (best, span)
  }

  ghost function Peak(events: seq<Event>, window: nat, column: Option<string>): (nat, seq<Event>) {
    var o := ByTime(events);
    BestUpTo(o, window, column, |o|)
  }

  // ------------------------------------------------------------------ algorithm

  /** The counter holds exactly the values it should, each with its multiplicity. */
  ghost predicate Counts(counter: map<Value, int>, values: multiset<Value>) {
    && (forall v :: v in counter <==> v in values)
    && (forall v :: v in counter ==> counter[v] == values[v])
  }

  function Increment(counter: map<Value, int>, v: Value): map<Value, int> {
    counter[v := (if v in counter then counter[v] else 0) + 1]
  }

  function Decrement(counter: map<Value, int>, v: Value): map<Value, int>
    requires v in counter
  {
    if counter[v] - 1 == 0 then counter - {v} else counter[v := counter[v] - 1]
  }

  lemma IncrementCounts(counter: map<Value, int>, values: multiset<Value>, v: Value)
    requires Counts(counter, values)
    ensures Counts(Increment(counter, v), values + multiset{v})
  {
  }

  lemma DecrementCounts(counter: map<Value, int>, values: multiset<Value>, v: Value)
    requires Counts(counter, values) && v in values
    ensures v in counter && Counts(Decrement(counter, v), values - multiset{v})
  {
  }

  /** The counter's size is the number of distinct values of the span it counts. */
  lemma CounterSize(counter: map<Value, int>, span: seq<Event>, column: string)
    requires Counts(counter, ValuesOf(span, column))
    ensures |counter| == |DistinctValues(span, column)|
  {
    ValuesAreDistinctValues(span, column);
    assert counter.Keys == DistinctValues(span, column);
  }

  ghost predicate Tracks(counter: map<Value, int>, span: seq<Event>, column: Option<string>) {
    column.Some? ==> Counts(counter, ValuesOf(span, column.value))
  }

  method CountRight(counter: map<Value, int>, o: seq<Event>, left: nat, right: nat, column: Option<string>)
    returns (r: map<Value, int>)
    requires left <= right < |o| && Tracks(counter, o[left..right], column)
    ensures Tracks(r, o[left..right + 1], column)
  {
    r := counter;
    if column.Some? {
      assert o[left..right + 1] == o[left..right] + [o[right]];
      ValuesAppend(o[left..right], o[right], column.value);
      var value := o[right].Get(column.value);
      if value != Null {
        IncrementCounts(counter, ValuesOf(o[left..right], column.value), value);
        r := Increment(counter, value);
      }
    }
  }

  method DropLeft(counter: map<Value, int>, o: seq<Event>, left: nat, right: nat, column: Option<string>)
    returns (r: map<Value, int>)
    requires left < right < |o| && Tracks(counter, o[left..right + 1], column)
    ensures Tracks(r, o[left + 1..right + 1], column)
  {
    r := counter;
    if column.Some? {
      var span := o[left..right + 1];
      assert span[1..] == o[left + 1..right + 1];
      var stale := o[left].Get(column.value);
      if stale != Null {
        DecrementCounts(counter, ValuesOf(span, column.value), stale);
        assert ValuesOf(span, column.value) - multiset{stale} == ValuesOf(span[1..], column.value);
        r := Decrement(counter, stale);
      }
    }
  }

  /** The inner loop: move `left` until the span fits inside the window. */
  method Shrink(counter: map<Value, int>, o: seq<Event>, start: nat, right: nat, window: nat, column: Option<string>)
    returns (r: map<Value, int>, left: nat)
    requires start <= right < |o| && Tracks(counter, o[start..right + 1], column)
    requires forall k :: 0 <= k < start ==> o[right].ts - o[k].ts > window
    ensures left == LeftFrom(o, window, right, 0) && Tracks(r, o[left..right + 1], column)
  {
    hide Tracks;
    r, left := counter, start;
    while o[right].ts - o[left].ts > window
      invariant left <= right
      invariant forall k :: 0 <= k < left ==> o[right].ts - o[k].ts > window
      invariant Tracks(r, o[left..right + 1], column)
      decreases right - left
    {
      r := DropLeft(r, o, left, right, column);
      left := left + 1;
    }
  }

  method FindPeak(events: seq<Event>, window: nat, column: Option<string>)
    returns (best: nat, span: seq<Event>)
    ensures (best, span) == Peak(events, window, column)
  {
    hide ByTime, Tracks, Measure, LeftFrom, BestUpTo, Ordered;
    var ordered := ByTime(events);
    ByTimeOrdered(events);
    best, span := 0, [];
    var counter: map<Value, int> := map[];
    var left := 0;
    TracksNothing(column);
    BestOfNone(ordered, window, column);
    for right := 0 to |ordered|
      invariant left <= right
      invariant right > 0 ==> left == LeftFrom(ordered, window, right - 1, 0)
      invariant Tracks(counter, ordered[left..right], column)
      invariant (best, span) == BestUpTo(ordered, window, column, right)
    {
      counter := CountRight(counter, ordered, left, right, column);
      OlderStayOut(ordered, window, right, left);
      counter, left := Shrink(counter, ordered, left, right, window, column);
      TracksSize(counter, ordered[left..right + 1], column);
      BestUpToStep(ordered, window, column, right);
      var current := if column.Some? then |counter| else right - left + 1;
      if current > best {
        best := current;
        span := ordered[left..right + 1];
      }
    }
  }

  lemma BestOfNone(o: seq<Event>, window: nat, column: Option<string>)
    ensures BestUpTo(o, window, column, 0) == (0, [])
  {
  }

  lemma BestUpToStep(o: seq<Event>, window: nat, column: Option<string>, right: nat)
    requires right < |o|
    ensures BestUpTo(o, window, column, right + 1)
         == var (best, span), here := BestUpTo(o, window, column, right), WindowAt(o, window, right);
            if Measure(here, column) > best then (Measure(here, column), here) else (best, span)
  {
    hide Measure, LeftFrom;
  }

  lemma TracksNothing(column: Option<string>)
    ensures Tracks(map[], [], column)
  {
  }

  /** Events too old for one window are too old for the next. */
  lemma OlderStayOut(o: seq<Event>, window: nat, right: nat, left: nat)
    requires right < |o| && Ordered(o, Earlier) && left <= right
    requires right > 0 ==> left == LeftFrom(o, window, right - 1, 0)
    requires right == 0 ==> left == 0
    ensures forall k :: 0 <= k < left ==> o[right].ts - o[k].ts > window
  {
    if right > 0 {
      assert Earlier(o[right - 1], o[right]);
    }
  }

  lemma TracksSize(counter: map<Value, int>, span: seq<Event>, column: Option<string>)
    requires Tracks(counter, span, column)
    ensures Measure(span, column) == if column.Some? then |counter| else |span|
  {
    if column.Some? {
      CounterSize(counter, span, column.value);
    }
  }

  // ----------------------------------------------------------------- optimality

  /** All the events happened within one window. */
  ghost predicate Fits(events: seq<Event>, window: nat) {
    forall a, b :: a in events && b in events ==> a.ts - b.ts <= window
  }

  lemma WindowFits(o: seq<Event>, window: nat, right: nat)
    requires right < |o| && Ordered(o, Earlier)
    ensures Fits(WindowAt(o, window, right), window)
  {
    var l := LeftFrom(o, window, right, 0);
    forall a, b | a in o[l..right + 1] && b in o[l..right + 1] ensures a.ts - b.ts <= window {
      var i :| l <= i <= right && o[i] == a;
      var j :| l <= j <= right && o[j] == b;
      assert Earlier(o[i], o[right]) || i == right;
      assert Earlier(o[l], o[j]) || j == l;
    }
  }

  lemma {:induction false} BestAttained(o: seq<Event>, window: nat, column: Option<string>, k: nat)
    requires k <= |o| && Ordered(o, Earlier)
    ensures var (best, span) := BestUpTo(o, window, column, k);
      Fits(span, window) && Measure(span, column) == best && multiset(span) <= multiset(o)
  {
    hide Measure, Fits, LeftFrom, Ordered;
    if k == 0 {
      EmptyMeasure(column, window);
    } else {
      BestAttained(o, window, column, k - 1);
      WindowFits(o, window, k - 1);
      SliceContained(o, LeftFrom(o, window, k - 1, 0), k);
    }
  }

  lemma SliceContained(o: seq<Event>, l: nat, k: nat)
    requires l <= k <= |o|
    ensures multiset(o[l..k]) <= multiset(o)
  {
    assert o == o[..l] + o[l..k] + o[k..];
  }

  lemma {:induction false} BestDominates(o: seq<Event>, window: nat, column: Option<string>, k: nat, right: nat)
    requires right < k <= |o|
    ensures Measure(WindowAt(o, window, right), column) <= BestUpTo(o, window, column, k).0
  {
    if right < k - 1 {
      BestDominates(o, window, column, k - 1, right);
    }
  }

  lemma LastInside(o: seq<Event>, sub: seq<Event>) returns (right: nat)
    requires sub != [] && multiset(sub) <= multiset(o)
    ensures right < |o| && o[right] in sub && forall k :: right < k < |o| ==> o[k] !in sub
  {
    assert sub[0] in multiset(sub);
    right := |o| - 1;
    while o[right] !in sub
      invariant right < |o| && forall k :: right < k < |o| ==> o[k] !in sub
      invariant exists k :: 0 <= k <= right && o[k] in sub
      decreases right
    {
      right := right - 1;
    }
  }

  lemma CountInside(o: seq<Event>, l: nat, r: nat, e: Event)
    requires l <= r <= |o| && e !in o[..l] && e !in o[r..]
    ensures multiset(o[l..r])[e] == multiset(o)[e]
  {
    assert o == o[..l] + o[l..r] + o[r..];
  }

  /** A collection that fits in a window lies inside the window ending at its last event. */
  lemma InsideWindow(o: seq<Event>, window: nat, sub: seq<Event>) returns (right: nat)
    requires Ordered(o, Earlier) && sub != [] && multiset(sub) <= multiset(o) && Fits(sub, window)
    ensures right < |o| && multiset(sub) <= multiset(WindowAt(o, window, right))
  {
    right := LastInside(o, sub);
    var l := LeftFrom(o, window, right, 0);
    forall e | e in sub
      ensures multiset(sub)[e] <= multiset(o[l..right + 1])[e]
    {
      forall k | 0 <= k < l ensures o[k] != e {
        assert o[right].ts - e.ts <= window;
      }
      CountInside(o, l, right + 1, e);
    }
  }

  /** The peak is optimal: the returned span fits in the window, is drawn from the events and
      attains `best`, and nothing else that fits in one window counts more. */
  lemma PeakOptimal(events: seq<Event>, window: nat, column: Option<string>)
    ensures var (best, span) := Peak(events, window, column);
      && Fits(span, window) && Measure(span, column) == best && multiset(span) <= multiset(events)
      && (forall sub: seq<Event> :: multiset(sub) <= multiset(events) && Fits(sub, window) ==>
            Measure(sub, column) <= best)
  {
    hide StableSort, BestUpTo, Measure;
    var o := ByTime(events);
    ByTimeOrdered(events);
    BestAttained(o, window, column, |o|);
    forall sub: seq<Event> | multiset(sub) <= multiset(events) && Fits(sub, window)
      ensures Measure(sub, column) <= Peak(events, window, column).0
    {
      if sub == [] {
        EmptyMeasure(column, window);
      } else {
        var right := InsideWindow(o, window, sub);
        MeasureMonotone(sub, WindowAt(o, window, right), column);
        BestDominates(o, window, column, |o|, right);
      }
    }
  }

  lemma EmptyMeasure(column: Option<string>, window: nat)
    ensures Measure([], column) == 0 && Fits([], window)
  {
  }

  /** More events never lower the peak. */
  lemma PeakMonotone(a: seq<Event>, b: seq<Event>, window: nat, column: Option<string>)
    requires multiset(a) <= multiset(b)
    ensures Peak(a, window, column).0 <= Peak(b, window, column).0
  {
    hide Peak, Measure;
    PeakOptimal(a, window, column);
    PeakOptimal(b, window, column);
    assert multiset(Peak(a, window, column).1) <= multiset(b);
  }

  /** The evidence is never empty: one event alone already is a window. */
  lemma PeakPositive(events: seq<Event>, window: nat)
    requires events != []
    ensures Peak(events, window, None).0 >= 1
  {
    hide Peak;
    PeakOptimal(events, window, None);
    assert multiset([events[0]]) <= multiset(events);
    assert Fits([events[0]], window);
    assert Measure([events[0]], None) == 1;
  }

  // --------------------------------------------------------- later events and the peak

  /** Every event of the second list happened at or after every event of the first. */
  ghost predicate Later(events: seq<Event>, added: seq<Event>) {
    forall a, b :: a in events && b in added ==> a.ts <= b.ts
  }

  lemma ByTimeAppend(events: seq<Event>, added: seq<Event>)
    requires Later(events, added)
    ensures ByTime(events + added) == ByTime(events) + ByTime(added)
  {
    hide StableSort;
    SortAppend(events, added, Earlier);
  }

  lemma WindowPrefix(o: seq<Event>, more: seq<Event>, window: nat, right: nat)
    requires right < |o|
    ensures WindowAt(o + more, window, right) == WindowAt(o, window, right)
  {
    LeftPrefix(o, more, window, right, 0);
  }

  lemma {:induction false} LeftPrefix(o: seq<Event>, more: seq<Event>, window: nat, right: nat, l: nat)
    requires l <= right < |o|
    ensures LeftFrom(o + more, window, right, l) == LeftFrom(o, window, right, l)
    decreases right - l
  {
    if o[right].ts - o[l].ts > window {
      LeftPrefix(o, more, window, right, l + 1);
    }
  }

  lemma {:induction false} BestPrefix(o: seq<Event>, more: seq<Event>, window: nat, column: Option<string>, k: nat)
    requires k <= |o|
    ensures BestUpTo(o + more, window, column, k) == BestUpTo(o, window, column, k)
  {
    hide Measure, WindowAt;
    if k > 0 {
      BestPrefix(o, more, window, column, k - 1);
      WindowPrefix(o, more, window, k - 1);
    }
  }

  /** The window at `k` counts something, beats every earlier window, and no later one beats it. */
  ghost predicate IsFirstBest(o: seq<Event>, window: nat, column: Option<string>, k: nat) {
    && k < |o| && Measure(WindowAt(o, window, k), column) > 0
    && (forall j: nat :: j < k ==> Measure(WindowAt(o, window, j), column) < Measure(WindowAt(o, window, k), column))
    && (forall j: nat :: k < j < |o| ==>
          Measure(WindowAt(o, window, j), column) <= Measure(WindowAt(o, window, k), column))
  }

  /** `now` is the window at `m`, and from `n` on the first to count as much. */
  ghost predicate IsReachedAt(o: seq<Event>, window: nat, column: Option<string>, n: nat, m: nat,
                              now: (nat, seq<Event>))
  {
    && n <= m < |o| && now == (Measure(WindowAt(o, window, m), column), WindowAt(o, window, m))
    && forall j: nat :: n <= j < m ==> Measure(WindowAt(o, window, j), column) < now.0
  }

  /** As the scan goes on, the best either stays with its span, or is the first window to reach its measure. */
  lemma {:induction false} BestFrom(o: seq<Event>, window: nat, column: Option<string>, n: nat, k: nat)
    requires n <= k <= |o|
    ensures var was, now := BestUpTo(o, window, column, n), BestUpTo(o, window, column, k);
      && was.0 <= now.0
      && (forall j: nat :: n <= j < k ==> Measure(WindowAt(o, window, j), column) <= now.0)
      && (was.0 == now.0 ==> was == now)
      && (was.0 < now.0 ==> exists m: nat :: m < k && IsReachedAt(o, window, column, n, m, now))
    decreases k - n
  {
    hide Measure, WindowAt;
    if n < k {
      BestFrom(o, window, column, n, k - 1);
      BestUpToStep(o, window, column, k - 1);
      var now := BestUpTo(o, window, column, k);
      if BestUpTo(o, window, column, k - 1).0 < now.0 {
        assert IsReachedAt(o, window, column, n, k - 1, now);
      }
    }
  }

  /** Events that happen later leave the best window alone until one of their windows counts more; then the peak's span
      is the first window that reaches the new peak. */
  lemma PeakAfterGrowth(events: seq<Event>, added: seq<Event>, window: nat, column: Option<string>)
    requires Later(events, added)
    ensures var was, now := Peak(events, window, column), Peak(events + added, window, column);
      var o := ByTime(events + added);
      && was.0 <= now.0
      && (was.0 == now.0 ==> was == now)
      && (was.0 < now.0 <==> exists k: nat :: |events| <= k && IsFirstBest(o, window, column, k))
      && (forall k: nat :: |events| <= k && IsFirstBest(o, window, column, k) ==>
            now == (Measure(WindowAt(o, window, k), column), WindowAt(o, window, k)))
  {
    hide Measure, WindowAt, ByTime, BestUpTo;
    var o, n := ByTime(events + added), |events|;
    ByTimeOrdered(events);
    ByTimeAppend(events, added);
    BestPrefix(ByTime(events), ByTime(added), window, column, n);
    var was, now := Peak(events, window, column), Peak(events + added, window, column);
    BestFrom(o, window, column, n, |o|);
    BestFrom(o, window, column, 0, n);
    BestOfNone(o, window, column);
    if was.0 < now.0 {
      var m: nat :| m < |o| && IsReachedAt(o, window, column, n, m, now);
      assert IsFirstBest(o, window, column, m);
    }
    forall k: nat | n <= k && IsFirstBest(o, window, column, k)
      ensures was.0 < now.0 && now == (Measure(WindowAt(o, window, k), column), WindowAt(o, window, k))
    {
      if was.0 > 0 {
        var j: nat :| j < n && IsReachedAt(o, window, column, 0, j, was);
      }
      var m: nat :| m < |o| && IsReachedAt(o, window, column, n, m, now);
      assert m == k;
    }
  }

  /** The peak's span is the first window to reach it; without such a window nothing is counted. */
  lemma PeakIsFirstBest(events: seq<Event>, window: nat, column: Option<string>)
    ensures var peak, o := Peak(events, window, column), ByTime(events);
      && (peak.0 > 0 <==> exists k: nat :: IsFirstBest(o, window, column, k))
      && (forall k: nat :: IsFirstBest(o, window, column, k) ==>
            peak == (Measure(WindowAt(o, window, k), column), WindowAt(o, window, k)))
  {
    hide Measure, WindowAt, ByTime, IsFirstBest;
    PeakAfterGrowth([], events, window, column);
    PeakOfNone(window, column);
    assert [] + events == events;
  }

  lemma PeakOfNone(window: nat, column: Option<string>)
    ensures Peak([], window, column) == (0, [])
  {
  }
}
