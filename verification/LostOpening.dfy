/**
  A run in which a full queue drops the opening of one connection and costs another one its session row
  (honeypot/logger.py, emit_session and _write_db). Each connection stays within the default limits of
  honeypot/config.py: 500 events for a session, and 22 connections in all.
 */
module LostOpening {
  import opened Sequences
  import opened Writer
  import opened Storage
  import opened LostBatches
  import Session

  /** What one connection hands over in the run that fills the queue. */
  const SHARE: nat := 500

  // ------------------------------------------------------------------ runs of the writer

  function Emits(items: seq<Item>): (run: seq<Action>)
    ensures |run| == |items| && forall k :: 0 <= k < |run| ==> run[k] == Emit(items[k])
  {
    seq(|items|, k requires 0 <= k < |items| => Emit(items[k]))
  }

  function Slots(items: seq<Item>): (slots: seq<Slot>)
    ensures |slots| == |items| && forall k :: 0 <= k < |slots| ==> slots[k] == Queued(items[k])
  {
    seq(|items|, k requires 0 <= k < |items| => Queued(items[k]))
  }

  function Taken(items: seq<Item>): (calls: seq<Call>)
    ensures |calls| == |items| && forall k :: 0 <= k < |calls| ==> calls[k] == Call(items[k], true)
  {
    seq(|items|, k requires 0 <= k < |items| => Call(items[k], true))
  }

  /** The state after the items were accepted. */
  function Loaded(s: State, items: seq<Item>): State {
    s.(queue := s.queue + Slots(items), calls := s.calls + Taken(items))
  }

  lemma {:induction false} EmitsFit(s: State, items: seq<Item>)
    requires |s.queue| + |items| <= QUEUE_MAXSIZE
    ensures ValidRun(s, Emits(items)) && Exec(s, Emits(items)) == Loaded(s, items)
    decreases |items|
  {
    hide Loaded, Emits, Next;
    if items == [] {
      NothingEmitted(s);
    } else {
      var item, rest := items[0], items[1..];
      assert items == [item] + rest;
      LoadedStep(s, item, rest);
      EmitsFit(Next(s, Emit(item)), rest);
      RunCons(s, Emit(item), Emits(rest));
    }
  }

  lemma NothingEmitted(s: State)
    ensures Emits([]) == [] && Loaded(s, []) == s
  {
    assert s.queue + [] == s.queue && s.calls + [] == s.calls;
  }

  lemma LoadedStep(s: State, item: Item, rest: seq<Item>)
    requires |s.queue| < QUEUE_MAXSIZE
    ensures Emits([item] + rest) == [Emit(item)] + Emits(rest)
    ensures |Next(s, Emit(item)).queue| == |s.queue| + 1
    ensures Loaded(Next(s, Emit(item)), rest) == Loaded(s, [item] + rest)
  {
    assert (s.queue + [Queued(item)]) + Slots(rest) == s.queue + Slots([item] + rest);
    assert (s.calls + [Call(item, true)]) + Taken(rest) == s.calls + Taken([item] + rest);
  }

  lemma {:induction false} RunConcat(s: State, a: seq<Action>, b: seq<Action>)
    requires ValidRun(s, a) && ValidRun(Exec(s, a), b)
    ensures ValidRun(s, a + b) && Exec(s, a + b) == Exec(Exec(s, a), b)
    decreases |a|
  {
    hide Next;
    if a == [] {
      assert a + b == b;
    } else {
      RunConcat(Next(s, a[0]), a[1..], b);
      assert (a + b)[1..] == a[1..] + b;
    }
  }

  lemma OneStep(s: State, a: Action)
    requires Enabled(s, a)
    ensures ValidRun(s, [a]) && Exec(s, [a]) == Next(s, a)
  {
    hide Next;
    RunCons(s, a, []);
  }

  lemma ReachRun(s: State, run: seq<Action>)
    requires Reachable(s) && ValidRun(s, run)
    ensures Reachable(Exec(s, run))
  {
    hide Next;
    var first :| ValidRun(INITIAL, first) && Exec(INITIAL, first) == s;
    RunConcat(INITIAL, first, run);
  }

  lemma ReachStep(s: State, a: Action)
    requires Reachable(s) && Enabled(s, a)
    ensures Reachable(Next(s, a))
  {
    hide Next, Reachable;
    OneStep(s, a);
    ReachRun(s, [a]);
  }

  lemma StartReachable()
    ensures Reachable(INITIAL)
  {
    assert ValidRun(INITIAL, []) && Exec(INITIAL, []) == INITIAL;
  }

  /** A writer that nobody stopped can always flush everything that was accepted. */
  lemma {:induction false} CatchUp(s: State) returns (run: seq<Action>)
    requires s.pc == Getting && |s.batch| < BATCH_SIZE && Sentinel !in s.queue
    ensures ValidRun(s, run) && NoEmit(run)
    ensures var end := Exec(s, run);
      && end.queue == [] && end.batch == [] && end.calls == s.calls
      && end.pc == Checking && end.running == s.running
    decreases |s.queue|
  {
    if s.queue == [] {
      var waited := Next(s, TimeOut);
      OneStep(waited, Flush);
      run := [TimeOut] + [Flush];
      RunCons(s, TimeOut, [Flush]);
    } else {
      var got := Next(s, Get);
      if got.pc == Full {
        var flushed := Next(got, Flush);
        var rest := CatchUp(flushed);
        RunCons(got, Flush, rest);
        run := [Flush] + rest;
        RunCons(s, Get, run);
        run := [Get] + run;
      } else {
        var rest := CatchUp(got);
        RunCons(s, Get, rest);
        run := [Get] + rest;
      }
    }
  }

  /** An idle writer: nothing queued, nothing in the batch, and about to look at the flag. */
  ghost predicate Idle(s: State) {
    s.queue == [] && s.batch == [] && s.pc == Checking && s.running
  }

  /** Two items that arrive at an idle writer are flushed together. */
  lemma FlushTwo(s: State, i: Item, j: Item) returns (end: State)
    requires Reachable(s) && Idle(s)
    ensures Reachable(end) && Idle(end)
    ensures end.calls == s.calls + [Call(i, true)] + [Call(j, true)] && end.flushed == s.flushed + [[i] + [j]]
  {
    hide Reachable;
    var s1 := Next(s, Check);
    var s2 := Next(s1, Emit(i));
    var s3 := Next(s2, Emit(j));
    var s4 := Next(s3, Get);
    var s5 := Next(s4, Get);
    var s6 := Next(s5, TimeOut);
    end := Next(s6, Flush);
    ReachStep(s, Check);
    ReachStep(s1, Emit(i));
    ReachStep(s2, Emit(j));
    ReachStep(s3, Get);
    ReachStep(s4, Get);
    ReachStep(s5, TimeOut);
    ReachStep(s6, Flush);
    assert s6.batch == [i] + [j];
  }

  /** One item that arrives at an idle writer is flushed alone. */
  lemma FlushOne(s: State, i: Item) returns (end: State)
    requires Reachable(s) && Idle(s)
    ensures Reachable(end) && Idle(end)
    ensures end.calls == s.calls + [Call(i, true)] && end.flushed == s.flushed + [[i]]
  {
    hide Reachable;
    var s1 := Next(s, Check);
    var s2 := Next(s1, Emit(i));
    var s3 := Next(s2, Get);
    var s4 := Next(s3, TimeOut);
    end := Next(s4, Flush);
    ReachStep(s, Check);
    ReachStep(s1, Emit(i));
    ReachStep(s2, Get);
    ReachStep(s3, TimeOut);
    ReachStep(s4, Flush);
    assert s4.batch == [i];
  }

  // ------------------------------------------------------------------ filling the queue

  /** The opening of a session and its first events. */
  function Segment(sid: string): (items: seq<Item>)
    ensures |items| == SHARE && forall k :: 0 <= k < SHARE ==> items[k].sid == sid
    ensures forall k :: 0 <= k < SHARE ==> items[k] == if k == 0 then OpeningItem(sid) else EventItem(sid, k)
  {
    seq(SHARE, k requires 0 <= k < SHARE => if k == 0 then OpeningItem(sid) else EventItem(sid, k))
  }

  function Fill(sids: seq<string>): (items: seq<Item>)
    ensures |items| == SHARE * |sids| && forall i :: i in items ==> i.sid in sids && !i.ClosingItem?
  {
    if sids == [] then []
    else
      var before, last := sids[..|sids| - 1], sids[|sids| - 1];
      assert sids == before + [last];
      Fill(before) + Segment(last)
  }

  lemma TakenConcat(a: seq<Item>, b: seq<Item>)
    ensures Taken(a + b) == Taken(a) + Taken(b)
  {
  }

  lemma {:induction false} AcceptedTaken(items: seq<Item>)
    ensures Accepted(Taken(items)) == items
  {
    hide Taken;
    if items != [] {
      var before, last := items[..|items| - 1], items[|items| - 1];
      AcceptedTaken(before);
      assert items == before + [last];
      TakenConcat(before, [last]);
      assert Taken([last]) == [Call(last, true)];
      AcceptedAppend(Taken(before), Call(last, true));
    }
  }

  lemma CallsOfAppend(calls: seq<Call>, c: Call, sid: string)
    ensures CallsOf(calls + [c], sid) == CallsOf(calls, sid) + if c.item.sid == sid then [c] else []
  {
    assert (calls + [c])[..|calls|] == calls;
  }

  lemma {:induction false} CallsOfConcat(a: seq<Call>, b: seq<Call>, sid: string)
    ensures CallsOf(a + b, sid) == CallsOf(a, sid) + CallsOf(b, sid)
    decreases |b|
  {
    if b == [] {
      assert a + b == a;
    } else {
      assert (a + b)[..|a + b| - 1] == a + b[..|b| - 1];
      CallsOfConcat(a, b[..|b| - 1], sid);
    }
  }

  lemma {:induction false} CallsOfOne(calls: seq<Call>, owner: string, sid: string)
    requires forall k :: 0 <= k < |calls| ==> calls[k].item.sid == owner
    ensures CallsOf(calls, sid) == if sid == owner then calls else []
  {
    if calls != [] {
      CallsOfOne(calls[..|calls| - 1], owner, sid);
      assert calls == calls[..|calls| - 1] + [calls[|calls| - 1]];
    }
  }

  /** Each of the sessions hands over its own segment. */
  lemma {:induction false} FillOwn(sids: seq<string>, sid: string)
    requires forall i, j :: 0 <= i < j < |sids| ==> sids[i] != sids[j]
    ensures CallsOf(Taken(Fill(sids)), sid) == if sid in sids then Taken(Segment(sid)) else []
  {
    hide Taken, CallsOf, Segment;
    if sids == [] {
      assert Taken([]) == [];
      NoCalls(sid);
    } else {
      var before, last := sids[..|sids| - 1], sids[|sids| - 1];
      assert sids == before + [last] && last !in before;
      FillOwn(before, sid);
      TakenConcat(Fill(before), Segment(last));
      CallsOfConcat(Taken(Fill(before)), Taken(Segment(last)), sid);
      SegmentOwn(last, sid);
    }
  }

  lemma SegmentOwn(owner: string, sid: string)
    ensures CallsOf(Taken(Segment(owner)), sid) == if sid == owner then Taken(Segment(owner)) else []
  {
    hide CallsOf;
    CallsOfOne(Taken(Segment(owner)), owner, sid);
  }

  lemma NoCalls(sid: string)
    ensures CallsOf([], sid) == []
  {
  }

  // --------------------------------------------------------------------- the whole run

  /** The 20 sessions that fill the queue, and two more. */
  ghost predicate AreSessions(sids: seq<string>, b: string, c: string) {
    && |sids| * SHARE == QUEUE_MAXSIZE && "" !in sids && b !in sids && c !in sids
    && b != "" && c != "" && b != c
    && forall i, j :: 0 <= i < j < |sids| ==> sids[i] != sids[j]
  }

  /** The calls of two connections that open when the queue is full, and when it is empty again. */
  function LateCalls(b: string, c: string): seq<Call> {
    [Call(OpeningItem(b), false), Call(EventItem(b, 0), true), Call(OpeningItem(c), true), Call(EventItem(c, 0), true)]
  }

  function CrowdedCalls(sids: seq<string>, b: string, c: string): seq<Call> {
    Taken(Fill(sids)) + LateCalls(b, c)
  }

  lemma LateOwn(b: string, c: string, sid: string)
    requires b != c
    ensures CallsOf(LateCalls(b, c), sid)
         == if sid == b then [Call(OpeningItem(b), false), Call(EventItem(b, 0), true)]
            else if sid == c then [Call(OpeningItem(c), true), Call(EventItem(c, 0), true)]
            else []
  {
    hide CallsOf;
    var first, second := LateCalls(b, c)[..2], LateCalls(b, c)[2..];
    assert LateCalls(b, c) == first + second;
    CallsOfConcat(first, second, sid);
    CallsOfOne(first, b, sid);
    CallsOfOne(second, c, sid);
  }

  lemma CrowdedOwn(sids: seq<string>, b: string, c: string, sid: string)
    requires AreSessions(sids, b, c)
    ensures CallsOf(CrowdedCalls(sids, b, c), sid)
         == if sid in sids then Taken(Segment(sid))
            else if sid == b then [Call(OpeningItem(b), false), Call(EventItem(b, 0), true)]
            else if sid == c then [Call(OpeningItem(c), true), Call(EventItem(c, 0), true)]
            else []
  {
    hide CallsOf, Taken, Fill, Segment, LateCalls;
    CallsOfConcat(Taken(Fill(sids)), LateCalls(b, c), sid);
    FillOwn(sids, sid);
    LateOwn(b, c, sid);
  }

  /** The life of a session that records the events of a segment. */
  function SegmentLife(): (life: seq<Session.Sent>)
    ensures |life| == SHARE + 1 && Session.IsLife(life)
    ensures life[0] == Session.Opened && forall k :: 0 < k < SHARE ==> life[k] == Session.Event(Session.ConnectEvent)
  {
    [Session.Opened] + seq(SHARE - 1, _ => Session.Event(Session.ConnectEvent))
    + [Session.Closed("client", 0, 0, 0, 0)]
  }

  lemma CrowdedHandled(sids: seq<string>, b: string, c: string, sid: string)
    requires AreSessions(sids, b, c)
    ensures Handled(CrowdedCalls(sids, b, c), sid)
    ensures |CallsOf(CrowdedCalls(sids, b, c), sid)| <= SHARE
  {
    hide CallsOf, CrowdedCalls, SegmentLife, AreSessions;
    CrowdedOwn(sids, b, c, sid);
    var own := CallsOf(CrowdedCalls(sids, b, c), sid);
    forall k | 0 <= k < |own| ensures IsItemOf(own[k].item, sid, SegmentLife()[k]) {
      assert own[k].item == ItemOf(sid, SegmentLife()[k], if sid in sids then k else 0);
    }
    assert Emitting(CrowdedCalls(sids, b, c), sid, SegmentLife());
  }

  /** The queue is full when `b` opens; then the writer catches up. */
  lemma DropOpening(sids: seq<string>, b: string, c: string) returns (s: State)
    requires AreSessions(sids, b, c)
    ensures Reachable(s) && Idle(s) && s.calls == Taken(Fill(sids)) + [Call(OpeningItem(b), false)]
  {
    hide Reachable, Fill;
    var fill := Fill(sids);
    StartReachable();
    EmitsFit(INITIAL, fill);
    ReachRun(INITIAL, Emits(fill));
    var full := Exec(INITIAL, Emits(fill));
    assert full == INITIAL.(queue := Slots(fill), calls := Taken(fill)) by {
      assert [] + Slots(fill) == Slots(fill) && [] + Taken(fill) == Taken(fill);
    }
    ReachStep(full, Emit(OpeningItem(b)));
    var refused := Next(full, Emit(OpeningItem(b)));
    forall k | 0 <= k < |refused.queue| ensures refused.queue[k] != Sentinel {
    }
    var run := CatchUp(refused);
    ReachRun(refused, run);
    s := Exec(refused, run);
  }

  /** The first event of `b` and the opening of `c` end up in one batch, the first event of `c` in the next. */
  lemma CrowdedRun(sids: seq<string>, b: string, c: string) returns (s: State, n: nat)
    requires AreSessions(sids, b, c)
    ensures Reachable(s) && Idle(s) && s.calls == CrowdedCalls(sids, b, c)
    ensures n + 1 < |s.flushed|
    ensures s.flushed[n] == [EventItem(b, 0)] + [OpeningItem(c)] && s.flushed[n + 1] == [EventItem(c, 0)]
  {
    hide Reachable, Idle, AreSessions, Fill, Taken;
    var dropped := DropOpening(sids, b, c);
    var late := FlushTwo(dropped, EventItem(b, 0), OpeningItem(c));
    s := FlushOne(late, EventItem(c, 0));
    n := |dropped.flushed|;
    var taken := Taken(Fill(sids));
    assert taken + [Call(OpeningItem(b), false)] + [Call(EventItem(b, 0), true)] + [Call(OpeningItem(c), true)]
           + [Call(EventItem(c, 0), true)] == taken + LateCalls(b, c);
  }

  /** A reachable state of handled connections, none with more than 500 items, in which a lost opening cost another
      session its row: the opening of `b` was dropped, its first event brought down the batch with the opening of `c`,
      which had been accepted, and so the batch with the first event of `c` was lost as well. */
  lemma OpeningCanBeLost(sids: seq<string>, b: string, c: string) returns (s: State)
    requires AreSessions(sids, b, c)
    ensures Reachable(s) && CallsOf(s.calls, "") == []
    ensures forall sid :: Handled(s.calls, sid) && |CallsOf(s.calls, sid)| <= SHARE
    ensures CallsOf(s.calls, b) == [Call(OpeningItem(b), false), Call(EventItem(b, 0), true)]
    ensures CallsOf(s.calls, c) == [Call(OpeningItem(c), true), Call(EventItem(c, 0), true)]
    ensures EventItem(c, 0) in Concat(s.flushed)
    ensures b !in Stored(s.flushed).sessions && c !in Stored(s.flushed).sessions
    ensures !ReferencesResolve(s.flushed, b) && !ReferencesResolve(s.flushed, c)
    ensures s.written > |Stored(s.flushed).events|
  {
    hide Reachable, Idle, Handled, CrowdedCalls, CallsOf, Stored, Lost, Succeeds, AllSucceed, Concat, EndsChain;
    var n;
    s, n := CrowdedRun(sids, b, c);
    forall sid ensures Handled(s.calls, sid) && |CallsOf(s.calls, sid)| <= SHARE {
      CrowdedHandled(sids, b, c, sid);
    }
    CrowdedOwn(sids, b, c, "");
    CrowdedOwn(sids, b, c, b);
    CrowdedOwn(sids, b, c, c);
    NotAccepted(s.calls, b);
    assert s.flushed[n][0] == EventItem(b, 0) && s.flushed[n + 1][0] == EventItem(c, 0);
    assert s.flushed[n][1] == OpeningItem(c);
    assert NeedsRow(s.flushed[n], b) && NeedsRow(s.flushed[n + 1], c);
    ChainStart(s, n, b);
    ChainStep(s, n, n + 1, c);
    HandledBatchFailsIff(s, n);
    HandledBatchFailsIff(s, n + 1);
    HandledRowIff(s, c, n);
    ItemIn(s.flushed, EventItem(c, 0));
    NoRow(s, n, b);
    if ReferencesResolve(s.flushed, c) {
      assert ItemFindsRow(s.flushed, n + 1, 0);
      LaterNeedsSuccess(s, c, n, n + 1, 0);
    }
    EventCounted(b, c);
    LostAt(s.flushed, n, |s.flushed|);
    assert s.flushed[..|s.flushed|] == s.flushed;
    ReachableInvariant(s);
    WrittenIsStoredAndLost(s.flushed);
  }

  lemma {:induction false} CallsOfMember(calls: seq<Call>, c: Call)
    requires c in calls
    ensures c in CallsOf(calls, c.item.sid)
  {
    var before, last := calls[..|calls| - 1], calls[|calls| - 1];
    assert calls == before + [last];
    if c != last {
      CallsOfMember(before, c);
    }
  }

  lemma NotAccepted(calls: seq<Call>, b: string)
    requires CallsOf(calls, b) == [Call(OpeningItem(b), false), Call(EventItem(b, 0), true)]
    ensures !OpeningAccepted(calls, b)
  {
    hide CallsOf;
    if OpeningAccepted(calls, b) {
      CallsOfMember(calls, Call(OpeningItem(b), true));
    }
  }

  /** A session whose opening was not accepted has no row, and its event in batch `n` finds none. */
  lemma NoRow(s: State, n: nat, b: string)
    requires Reachable(s) && b != "" && Handled(s.calls, b) && !OpeningAccepted(s.calls, b)
    requires n < |s.flushed| && |s.flushed[n]| > 0 && s.flushed[n][0] == EventItem(b, 0)
    ensures b !in Stored(s.flushed).sessions && !ReferencesResolve(s.flushed, b)
  {
    hide Reachable, Handled, OpeningAccepted, Succeeds, Stored, NothingBeforeOpening;
    HandledOrder(s, b);
    ItemIn(s.flushed, OpeningItem(b));
    RowExistsIff(s.flushed, |s.flushed|, b);
    assert s.flushed[..|s.flushed|] == s.flushed;
    HandledItemIff(s, n, 0);
    assert !ItemFindsRow(s.flushed, n, 0);
  }

  lemma EventCounted(b: string, c: string)
    ensures EventsIn([EventItem(b, 0)] + [OpeningItem(c)]) > 0
  {
  }

  /** A lost batch with events in it counts for good. */
  lemma {:induction false} LostAt(flushed: seq<seq<Item>>, n: nat, k: nat)
    requires n < k <= |flushed| && !Succeeds(flushed, n) && EventsIn(flushed[n]) > 0
    ensures Lost(flushed[..k]) > 0
    decreases k
  {
    hide WriteBatch, Stored;
    var before := flushed[..k - 1];
    assert flushed[..k][..k - 1] == before;
    if n < k - 1 {
      LostAt(flushed, n, k - 1);
    }
  }
}
