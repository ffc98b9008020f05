/**
  What a connection's turns leave in its session (honeypot/session.py, HoneypotSession, and _handle_client in
  honeypot/services/base.py): where the byte budget cuts the conversation, and what the closing row then says.
 */
module SessionLaws {
  import opened Sequences
  import opened Session

  predicate IsRecord(t: Turn) { t.Record? }

  function KindOf(t: Turn): EventType { if t.Record? then t.kind else ErrorEvent }

  /** What the turns ask to record, in order. */
  function Recorded(turns: seq<Turn>): seq<EventType> { Map(Filter(turns, IsRecord), KindOf) }

  lemma {:induction false} RecordedStep(t: Turn, rest: seq<Turn>)
    ensures Recorded([t] + rest) == (if t.Record? then [t.kind] else []) + Recorded(rest)
  {
    hide Filter, Map;
    FilterCons(t, rest, IsRecord);
    if t.Record? {
      MapConcat([t], Filter(rest, IsRecord), KindOf);
      assert Map([t], KindOf) == [t.kind];
    } else {
      assert [] + Filter(rest, IsRecord) == Filter(rest, IsRecord);
    }
  }

  /** The budget of `left` bytes lasts for the first `n` turns exactly. */
  predicate LastsFor(turns: seq<Turn>, left: nat, n: nat) {
    n <= |turns| && Received(turns[..n]) <= left && (n < |turns| ==> Received(turns[..n + 1]) > left)
  }

  lemma ReceivedStep(turns: seq<Turn>, n: nat)
    requires turns != [] && n < |turns|
    ensures Received(turns[..n + 1]) == (if turns[0].Receive? then turns[0].n else 0) + Received(turns[1..][..n])
  {
    assert turns[..n + 1][1..] == turns[1..][..n];
  }

  lemma ReceivedBounds(turns: seq<Turn>, left: nat, n: nat)
    requires turns != [] && LastsFor(turns, left, n)
    ensures var first := if turns[0].Receive? then turns[0].n else 0;
      && (n == 0 <==> first > left)
      && (n > 0 ==> LastsFor(turns[1..], left - first, n - 1))
  {
    var rest := turns[1..];
    assert turns[..0] == [] && rest[..0] == [];
    ReceivedStep(turns, 0);
    if n > 0 {
      ReceivedStep(turns, n - 1);
      if n < |turns| {
        ReceivedStep(turns, n);
      }
    }
  }

  /** Each conversation has one point up to which the budget lasts. */
  lemma {:induction false} BudgetLasts(turns: seq<Turn>, left: nat) returns (n: nat)
    ensures LastsFor(turns, left, n)
    ensures forall m :: LastsFor(turns, left, m) ==> m == n
  {
    if turns == [] {
      n := 0;
    } else {
      var first := if turns[0].Receive? then turns[0].n else 0;
      assert turns[..0] == [] && turns[1..][..0] == [];
      ReceivedStep(turns, 0);
      if first > left {
        n := 0;
      } else {
        var k := BudgetLasts(turns[1..], left - first);
        n := k + 1;
        ReceivedStep(turns, k);
        if n < |turns| {
          ReceivedStep(turns, n);
        }
      }
      forall m | LastsFor(turns, left, m) ensures m == n {
        ReceivedBounds(turns, left, m);
      }
    }
  }

  /** Exactly the events of the turns for which the budget lasts are asked for; the bytes that are counted are those and
      the ones that exceed the budget; and the conversation stays within it if and only if it lasts to the end. */
  lemma {:induction false} BudgetCuts(turns: seq<Turn>, left: nat, n: nat)
    requires LastsFor(turns, left, n)
    ensures Requested(turns, left) == Recorded(turns[..n])
    ensures Counted(turns, left) == Received(if n < |turns| then turns[..n + 1] else turns)
    ensures Received(turns) <= left <==> n == |turns|
  {
    hide Recorded;
    if turns == [] {
      NothingRecorded();
    } else {
      var t, rest := turns[0], turns[1..];
      var first := if t.Receive? then t.n else 0;
      ReceivedBounds(turns, left, n);
      assert turns[..0] == [];
      if n == 0 {
        NothingRecorded();
        assert turns[..1][1..] == [];
      } else {
        BudgetCuts(rest, left - first, n - 1);
        assert turns[..n] == [t] + rest[..n - 1];
        RecordedStep(t, rest[..n - 1]);
        if n < |turns| {
          ReceivedStep(turns, n);
        } else {
          assert rest[..n - 1] == rest;
        }
      }
    }
  }

  lemma NothingRecorded()
    ensures Recorded([]) == []
  {
  }

  /** The counters of the closing row, by position. */
  lemma KindCount(kinds: seq<EventType>, kind: EventType)
    ensures CountKind(AsEvents(kinds), kind) == |set i | 0 <= i < |kinds| && kinds[i] == kind|
  {
    var same := (k: EventType) => k == kind;
    assert Positions(kinds, same) == set i | 0 <= i < |kinds| && kinds[i] == kind;
    KindPositions(kinds, kind, same);
  }

  lemma {:induction false} KindPositions(kinds: seq<EventType>, kind: EventType, same: EventType -> bool)
    requires forall k :: same(k) <==> k == kind
    ensures CountKind(AsEvents(kinds), kind) == |Positions(kinds, same)|
  {
    hide Map, Positions;
    if kinds == [] {
      assert Positions(kinds, same) == {} by { NoPositions(same); }
    } else {
      var before, last := kinds[..|kinds| - 1], kinds[|kinds| - 1];
      assert kinds == before + [last];
      KindPositions(before, kind, same);
      PositionsStep(before, last, same);
      AsEventsAppend(before, last);
      CountsAppend(AsEvents(before), Event(last));
    }
  }

  lemma NoPositions(same: EventType -> bool)
    ensures Positions([], same) == {}
  {
  }

  /** All that a handled connection asks to record: its opening, what its turns ask for while the budget lasts, the
      error if the handler failed within the budget, and its end. */
  lemma WantedMeaning(budget: Budget, turns: seq<Turn>, ending: Ending, n: nat)
    requires LastsFor(turns, budget.maxBytes, n)
    ensures Wanted(budget, turns, ending)
         == [ConnectEvent] + Recorded(turns[..n])
            + (if n == |turns| && ending == Failed then [ErrorEvent] else []) + [Disconnect]
  {
    BudgetCuts(turns, budget.maxBytes, n);
  }

  /** The closing row says that the budget was exceeded, or else how the handler ended. */
  lemma ReasonMeaning(budget: Budget, turns: seq<Turn>, ending: Ending, n: nat)
    requires LastsFor(turns, budget.maxBytes, n)
    ensures var reason := CloseReason(Received(turns) <= budget.maxBytes, ending);
      && (reason == "limit" <==> n < |turns|)
      && (reason == "timeout" <==> n == |turns| && ending == TimedOut)
      && (reason == "server" <==> n == |turns| && ending == Cancelled)
      && (reason == "error" <==> n == |turns| && ending == Failed)
      && (reason == "client" <==> n == |turns| && (ending == Returned || ending == Reset))
  {
    BudgetCuts(turns, budget.maxBytes, n);
  }
}
