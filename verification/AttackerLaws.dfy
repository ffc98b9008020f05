/**
  What one more event does to the row of its source (storage/queries.py, _rebuild_group), column by column.
 */
module AttackerLaws {
  import opened Sequences
  import opened EventRows
  import opened Attackers

  /** The event is the source's first to have its value in the column. */
  ghost predicate IsNew(events: seq<Event>, e: Event, ip: string, column: Event -> string) {
    e.srcIp == ip && column(e) != "" && forall x :: x in events && x.srcIp == ip ==> column(x) != column(e)
  }

  /** One more event of a source: what happens to its row, column by column. */
  lemma OneMoreEvent(before: Row, after: Row, events: seq<Event>, e: Event)
    requires Describes(before, events, e.srcIp) && Describes(after, events + [e], e.srcIp)
    ensures after.eventCount == before.eventCount + 1
    ensures after.authAttempts == before.authAttempts + if e.eventType == "auth_attempt" then 1 else 0
    ensures after.commandsRun == before.commandsRun + if e.eventType == "command" then 1 else 0
    ensures after.sessionCount == before.sessionCount + if IsNew(events, e, e.srcIp, SessionId()) then 1 else 0
    ensures after.distinctUsernames == before.distinctUsernames + if IsNew(events, e, e.srcIp, Username()) then 1 else 0
    ensures after.distinctPasswords == before.distinctPasswords + if IsNew(events, e, e.srcIp, Password()) then 1 else 0
    ensures after.firstSeen == if e.ts < before.firstSeen then e.ts else before.firstSeen
    ensures after.lastSeen == if e.ts > before.lastSeen then e.ts else before.lastSeen
    ensures forall x :: x in after.services <==> x in before.services || x == e.service
  {
    hide StringLe;
    CountsStep(before, after, events, e);
    DistinctsStep(before, after, events, e, e.srcIp);
    SpanStep(before, after, events, e);
    forall x ensures x in after.services <==> x in before.services || x == e.service {
      InOneMore(events, e);
    }
  }

  /** The row of a source seen once, whatever other sources did. */
  lemma FirstEventRow(row: Row, others: seq<Event>, e: Event)
    requires Describes(row, others + [e], e.srcIp) && forall x :: x in others ==> x.srcIp != e.srcIp
    ensures row.firstSeen == row.lastSeen == e.ts && row.eventCount == 1
    ensures row.authAttempts == if e.eventType == "auth_attempt" then 1 else 0
    ensures row.commandsRun == if e.eventType == "command" then 1 else 0
    ensures row.sessionCount == if e.sessionId != "" then 1 else 0
    ensures row.distinctUsernames == if e.username != "" then 1 else 0
    ensures row.distinctPasswords == if e.password != "" then 1 else 0
    ensures row.services == [e.service]
  {
    hide StringLe;
    var ip, nothing := e.srcIp, Row(0, 0, 0, 0, 0, 0, 0, 0, []);
    assert CountsAre(nothing, others, ip) by {
      assert (set k | 0 <= k < |others| && others[k].srcIp == ip) == {};
      assert (set k | 0 <= k < |others| && others[k].srcIp == ip && others[k].eventType == "auth_attempt") == {};
      assert (set k | 0 <= k < |others| && others[k].srcIp == ip && others[k].eventType == "command") == {};
    }
    assert DistinctsAre(nothing, others, ip) by {
      assert (set x | x in others && x.srcIp == ip && x.sessionId != "" :: x.sessionId) == {};
      assert (set x | x in others && x.srcIp == ip && x.username != "" :: x.username) == {};
      assert (set x | x in others && x.srcIp == ip && x.password != "" :: x.password) == {};
    }
    CountsStep(nothing, row, others, e);
    DistinctsStep(nothing, row, others, e, ip);
    InOneMore(others, e);
    SameNames(row.services, [e.service]);
  }

  lemma InOneMore(events: seq<Event>, e: Event)
    ensures forall x :: x in events + [e] <==> x in events || x == e
  {
  }

  lemma CountsStep(before: Row, after: Row, events: seq<Event>, e: Event)
    requires CountsAre(before, events, e.srcIp) && CountsAre(after, events + [e], e.srcIp)
    ensures after.eventCount == before.eventCount + 1
    ensures after.authAttempts == before.authAttempts + if e.eventType == "auth_attempt" then 1 else 0
    ensures after.commandsRun == before.commandsRun + if e.eventType == "command" then 1 else 0
  {
    var ip := e.srcIp;
    var mine := FromIp(ip);
    var attempt, command := Both(mine, IsType("auth_attempt")), Both(mine, IsType("command"));
    PositionsStep(events, e, mine);
    PositionsStep(events, e, attempt);
    PositionsStep(events, e, command);
    CountedPositions(events, ip);
    CountedPositions(events + [e], ip);
  }

  ghost function Values(events: seq<Event>, ip: string, column: Event -> string): set<string> {
    set x | x in events && x.srcIp == ip && column(x) != "" :: column(x)
  }

  function SessionId(): Event -> string { (e: Event) => e.sessionId }
  function Username(): Event -> string { (e: Event) => e.username }
  function Password(): Event -> string { (e: Event) => e.password }

  lemma CountedValues(events: seq<Event>, ip: string)
    ensures Values(events, ip, SessionId()) == set x | x in events && x.srcIp == ip && x.sessionId != "" :: x.sessionId
    ensures Values(events, ip, Username()) == set x | x in events && x.srcIp == ip && x.username != "" :: x.username
    ensures Values(events, ip, Password()) == set x | x in events && x.srcIp == ip && x.password != "" :: x.password
  {
  }

  lemma DistinctsStep(before: Row, after: Row, events: seq<Event>, e: Event, ip: string)
    requires DistinctsAre(before, events, ip) && DistinctsAre(after, events + [e], ip)
    ensures after.sessionCount == before.sessionCount + if IsNew(events, e, ip, SessionId()) then 1 else 0
    ensures after.distinctUsernames == before.distinctUsernames + if IsNew(events, e, ip, Username()) then 1 else 0
    ensures after.distinctPasswords == before.distinctPasswords + if IsNew(events, e, ip, Password()) then 1 else 0
  {
    ValuesStep(events, e, ip, SessionId());
    ValuesStep(events, e, ip, Username());
    ValuesStep(events, e, ip, Password());
    CountedValues(events, ip);
    CountedValues(events + [e], ip);
  }

  lemma ValuesStep(events: seq<Event>, e: Event, ip: string, column: Event -> string)
    ensures |Values(events + [e], ip, column)|
         == |Values(events, ip, column)| + if IsNew(events, e, ip, column) then 1 else 0
  {
    InOneMore(events, e);
    var v, before := column(e), Values(events, ip, column);
    var added := if e.srcIp == ip && v != "" then {v} else {};
    assert Values(events + [e], ip, column) == before + added;
    if IsNew(events, e, ip, column) {
      assert added !! before;
    } else {
      assert before + added == before;
    }
  }

  lemma SpanStep(before: Row, after: Row, events: seq<Event>, e: Event)
    requires ExtremesAre(before, events, e.srcIp) && ExtremesAre(after, events + [e], e.srcIp)
    ensures after.firstSeen == if e.ts < before.firstSeen then e.ts else before.firstSeen
    ensures after.lastSeen == if e.ts > before.lastSeen then e.ts else before.lastSeen
  {
    InOneMore(events, e);
  }

  /** An event of another source leaves the row as it is. */
  lemma OtherSourceChangesNothing(before: Row, after: Row, events: seq<Event>, e: Event, ip: string)
    requires Describes(before, events, ip) && Describes(after, events + [e], ip) && e.srcIp != ip
    ensures after == before
  {
    hide StringLe;
    var mine := FromIp(ip);
    InOneMore(events, e);
    PositionsStep(events, e, mine);
    PositionsStep(events, e, Both(mine, IsType("auth_attempt")));
    PositionsStep(events, e, Both(mine, IsType("command")));
    CountedPositions(events, ip);
    CountedPositions(events + [e], ip);
    DistinctsStep(before, after, events, e, ip);
    assert CountsAre(after, events, ip);
    assert DistinctsAre(after, events, ip);
    assert ExtremesAre(after, events, ip);
    assert ServicesAre(after, events, ip);
    DescriptionIsUnique(before, after, events, ip);
  }
}
