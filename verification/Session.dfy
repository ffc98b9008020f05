/**
  One connection from open to close (honeypot/session.py, HoneypotSession, and _handle_client in
  honeypot/services/base.py): budgets, counters, and the exact order of what the session hands
  to the logger.
 */
module Session {
  import opened Sequences

  datatype EventType = ConnectEvent | AuthAttempt | Command | Disconnect | ErrorEvent | Other(name: string)

  /** What reaches the logger: the opening row, an event, the closing row with its totals. */
  datatype Sent =
    | Opened
    | Event(kind: EventType)
    | Closed(reason: string, eventCount: nat, authAttempts: nat, commandsRun: nat, bytesIn: nat)

  datatype Budget = Budget(maxEvents: nat, maxBytes: nat)

  /** What one turn of the protocol conversation does to the session. */
  datatype Turn = Record(kind: EventType) | Receive(n: nat)

  /** How `handle_session` ends when no budget trips. */
  datatype Ending = Returned | TimedOut | Reset | Cancelled | Failed

  function CountKind(sent: seq<Sent>, kind: EventType): nat {
    if sent == [] then 0
    else CountKind(sent[..|sent| - 1], kind) + if sent[|sent| - 1] == Event(kind) then 1 else 0
  }

  function CountEvents(sent: seq<Sent>): nat {
    if sent == [] then 0
    else CountEvents(sent[..|sent| - 1]) + if sent[|sent| - 1].Event? then 1 else 0
  }

  lemma CountsAppend(sent: seq<Sent>, s: Sent)
    ensures CountEvents(sent + [s]) == CountEvents(sent) + if s.Event? then 1 else 0
    ensures forall k :: CountKind(sent + [s], k) == CountKind(sent, k) + if s == Event(k) then 1 else 0
  {
    assert (sent + [s])[..|sent|] == sent;
  }

  /** The events of the given kinds, as the logger receives them. */
  function AsEvents(kinds: seq<EventType>): seq<Sent> {
    Map(kinds, (kind: EventType) => Event(kind))
  }

  /** The first `n` elements, or all of them. */
  function Take<T>(s: seq<T>, n: nat): seq<T> {
    if |s| <= n then s else s[..n]
  }

  lemma TakeOne<T>(a: seq<T>, x: T, n: nat)
    ensures Take(a + [x], n) == if |Take(a, n)| < n then Take(a, n) + [x] else Take(a, n)
  {
  }

  lemma AsEventsAppend(kinds: seq<EventType>, kind: EventType)
    ensures AsEvents(kinds + [kind]) == AsEvents(kinds) + [Event(kind)]
  {
  }

  /** The opening row, then events only, then the closing row. */
  ghost predicate IsLife(sent: seq<Sent>) {
    && |sent| >= 2 && sent[0] == Opened && sent[|sent| - 1].Closed?
    && forall k :: 0 < k < |sent| - 1 ==> sent[k].Event?
  }

  function Received(turns: seq<Turn>): nat {
    if turns == [] then 0 else (if turns[0].Receive? then turns[0].n else 0) + Received(turns[1..])
  }

  /** What a conversation asks to record before it receives more than `left` bytes. */
  function Requested(turns: seq<Turn>, left: int): seq<EventType> {
    if turns == [] then []
    else match turns[0]
      case Record(kind) => [kind] + Requested(turns[1..], left)
      case Receive(n) => if n > left then [] else Requested(turns[1..], left - n)
  }

  /** The bytes that are counted: all that are received, up to and including what exceeds `left`. */
  function Counted(turns: seq<Turn>, left: int): nat {
    if turns == [] then 0
    else match turns[0]
      case Record(_) => Counted(turns[1..], left)
      case Receive(n) => n + if n > left then 0 else Counted(turns[1..], left - n)
  }

  /** Everything a handled connection asks to record, in order. */
  function Wanted(budget: Budget, turns: seq<Turn>, ending: Ending): seq<EventType> {
    [ConnectEvent] + Requested(turns, budget.maxBytes)
    + (if Received(turns) <= budget.maxBytes && ending == Failed then [ErrorEvent] else [])
    + [Disconnect]
  }

  class HoneypotSession {
    const budget: Budget
    var eventCount: nat
    var authAttempts: nat
    var commandsRun: nat
    var bytesIn: nat
    var closedBy: string
    ghost var asked: seq<EventType>
    ghost var sent: seq<Sent>

    /** The counters say exactly what was emitted: as many of the events asked for as the budget allows. */
    ghost predicate Valid()
      reads this
    {
      && eventCount == CountEvents(sent) == |Take(asked, budget.maxEvents)|
      && authAttempts == CountKind(sent, AuthAttempt)
      && commandsRun == CountKind(sent, Command)
      && eventCount <= budget.maxEvents
    }

    /** After its opening row the session has emitted exactly the first events asked for. */
    ghost predicate Speaking()
      reads this
    {
      sent == [Opened] + AsEvents(Take(asked, budget.maxEvents))
    }

    constructor (budget: Budget)
      ensures Valid() && sent == [] && asked == [] && this.budget == budget && bytesIn == 0
    {
      this.budget := budget;
      eventCount, authAttempts, commandsRun, bytesIn, closedBy := 0, 0, 0, 0, "";
      sent, asked := [], [];
    }

    method RecordEvent(kind: EventType) returns (ok: bool)
      requires Valid()
      modifies this
      ensures Valid() && bytesIn == old(bytesIn) && closedBy == old(closedBy)
      ensures asked == old(asked) + [kind]
      ensures ok <==> old(eventCount) < budget.maxEvents
      ensures sent == old(sent) + if ok then [Event(kind)] else []
      ensures old(Speaking()) ==> Speaking()
    {
      hide CountKind, CountEvents, AsEvents, Take;
      TakeOne(asked, kind, budget.maxEvents);
      AsEventsAppend(Take(asked, budget.maxEvents), kind);
      asked := asked + [kind];
      if eventCount >= budget.maxEvents {
        assert old(sent) + [] == sent;
        return false;
      }
      if kind == AuthAttempt {
        authAttempts := authAttempts + 1;
      } else if kind == Command {
        commandsRun := commandsRun + 1;
      }
      eventCount := eventCount + 1;
      CountsAppend(sent, Event(kind));
      sent := sent + [Event(kind)];
      assert ([Opened] + AsEvents(Take(old(asked), budget.maxEvents))) + [Event(kind)]
          == [Opened] + (AsEvents(Take(old(asked), budget.maxEvents)) + [Event(kind)]);
      return true;
    }

    /** `count_bytes`; false when it raises SessionLimitExceeded. */
    method CountBytes(n: nat) returns (ok: bool)
      modifies this`bytesIn
      ensures bytesIn == old(bytesIn) + n && (ok <==> bytesIn <= budget.maxBytes)
    {
      bytesIn := bytesIn + n;
      ok := bytesIn <= budget.maxBytes;
    }

    method Open()
      requires Valid() && sent == [] && asked == []
      modifies this
      ensures Valid() && bytesIn == old(bytesIn)
      ensures sent == if budget.maxEvents > 0 then [Opened, Event(ConnectEvent)] else [Opened]
      ensures Speaking() && asked == [ConnectEvent]
    {
      CountsAppend([], Opened);
      sent := [] + [Opened];
      assert [Opened] + AsEvents([]) == [Opened];
      var _ := RecordEvent(ConnectEvent);
    }

    method Close(reason: string)
      requires Valid()
      modifies this
      ensures Valid() && closedBy == reason && bytesIn == old(bytesIn) && asked == old(asked) + [Disconnect]
      ensures var events := old(sent) + if old(eventCount) < budget.maxEvents then [Event(Disconnect)] else [];
        && sent == events + [Closed(reason, CountEvents(events), CountKind(events, AuthAttempt),
                                    CountKind(events, Command), old(bytesIn))]
        && (old(Speaking()) ==> events == [Opened] + AsEvents(Take(asked, budget.maxEvents)))
    {
      hide CountKind, CountEvents, AsEvents, Take;
      var _ := RecordEvent(Disconnect);
      closedBy := reason;
      CountsAppend(sent, Closed(reason, eventCount, authAttempts, commandsRun, bytesIn));
      sent := sent + [Closed(reason, eventCount, authAttempts, commandsRun, bytesIn)];
    }

    /** `handle_session` as a list of turns; false when a byte budget was exceeded on the way. It records what the turns
        ask for up to that point. */
    method Converse(turns: seq<Turn>) returns (ok: bool)
      requires Valid() && Speaking() && bytesIn == 0
      modifies this
      ensures Valid() && Speaking() && asked == old(asked) + Requested(turns, budget.maxBytes)
      ensures bytesIn == Counted(turns, budget.maxBytes)
      ensures ok <==> Received(turns) <= budget.maxBytes
    {
      hide CountKind, CountEvents, AsEvents, Take;
      ok := true;
      for k := 0 to |turns|
        invariant Valid() && Speaking()
        invariant asked + Requested(turns[k..], budget.maxBytes - bytesIn)
               == old(asked) + Requested(turns, budget.maxBytes)
        invariant bytesIn + Received(turns[k..]) == Received(turns)
        invariant bytesIn + Counted(turns[k..], budget.maxBytes - bytesIn) == Counted(turns, budget.maxBytes)
        invariant bytesIn <= budget.maxBytes
      {
        assert turns[k..][1..] == turns[k + 1..];
        match turns[k]
        case Record(kind) =>
          ghost var before, rest := asked, Requested(turns[k + 1..], budget.maxBytes - bytesIn);
          var _ := RecordEvent(kind);
          assert (before + [kind]) + rest == before + ([kind] + rest);
        case Receive(n) =>
          var within := CountBytes(n);
          if !within {
            assert asked + [] == asked;
            return false;
          }
      }
      assert turns[|turns|..] == [] && asked + [] == asked;
    }
  }

  function CloseReason(ok: bool, ending: Ending): string {
    if !ok then "limit"
    else match ending
      case Returned => "client"
      case TimedOut => "timeout"
      case Reset => "client"
      case Cancelled => "server"
      case Failed => "error"
  }

  /** `_handle_client` for an admitted connection. The logger sees the opening row first, then the first events that
      were asked for, as many as the event budget allows, then one closing row that reports exactly those; the byte
      budget is what makes the reason "limit". */
  method HandleClient(budget: Budget, turns: seq<Turn>, ending: Ending) returns (session: HoneypotSession)
    ensures fresh(session) && session.Valid() && session.budget == budget && IsLife(session.sent)
    ensures var kinds := Take(Wanted(budget, turns, ending), budget.maxEvents);
      var reason := CloseReason(Received(turns) <= budget.maxBytes, ending);
      && session.closedBy == reason
      && session.sent == [Opened] + AsEvents(kinds)
         + [Closed(reason, |kinds|, CountKind(AsEvents(kinds), AuthAttempt), CountKind(AsEvents(kinds), Command),
                   Counted(turns, budget.maxBytes))]
  {
    hide CountKind, CountEvents, AsEvents, Take, Requested, Received, Counted;
    session := new HoneypotSession(budget);
    session.Open();
    var ok := session.Converse(turns);
    var reason := CloseReason(ok, ending);
    if reason == "error" {
      var _ := session.RecordEvent(ErrorEvent);
    }
    assert session.asked + [Disconnect] == Wanted(budget, turns, ending);
    session.Close(reason);
    ghost var kinds := Take(session.asked, budget.maxEvents);
    OpenedCounts(kinds);
    LifeShape(kinds, session.sent[|session.sent| - 1]);
  }

  lemma LifeShape(kinds: seq<EventType>, last: Sent)
    requires last.Closed?
    ensures IsLife([Opened] + AsEvents(kinds) + [last])
  {
  }

  lemma {:induction false} OpenedCounts(kinds: seq<EventType>)
    ensures CountEvents([Opened] + AsEvents(kinds)) == |kinds|
    ensures forall k :: CountKind([Opened] + AsEvents(kinds), k) == CountKind(AsEvents(kinds), k)
  {
    if kinds == [] {
      assert [Opened] + AsEvents(kinds) == [Opened];
      assert [Opened][..0] == [];
    } else {
      var before, last := kinds[..|kinds| - 1], kinds[|kinds| - 1];
      OpenedCounts(before);
      assert AsEvents(kinds) == AsEvents(before) + [Event(last)];
      assert [Opened] + AsEvents(kinds) == ([Opened] + AsEvents(before)) + [Event(last)];
      CountsAppend([Opened] + AsEvents(before), Event(last));
      CountsAppend(AsEvents(before), Event(last));
    }
  }
}
