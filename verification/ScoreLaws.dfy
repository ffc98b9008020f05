/**
  The threat score in figures (pipeline/detection/scoring.py): each component in closed form over counts of the source's
  events, what one more event adds, and how age weighs.
 */
module ScoreLaws {
  import opened Wrappers
  import opened Sequences
  import opened Rounding
  import opened EventRows
  import opened Scoring

  /** The value, but not below 0 and not above the ceiling. */
  function Within(x: real, ceiling: real): real {
    if x <= 0.0 then 0.0 else if ceiling <= x then ceiling else x
  }

  // --------------------------------------------------------------- what is counted

  ghost function NumberOf(events: seq<Event>, eventType: string): nat {
    |set k | 0 <= k < |events| && events[k].eventType == eventType|
  }

  /** The events tagged with the fetch of a payload or with the address of a second stage. */
  ghost function Fetches(events: seq<Event>): nat {
    |set k | 0 <= k < |events| && IsTaggedFetch(events[k])|
  }

  predicate IsTaggedFetch(e: Event) {
    exists t :: t in e.tags && (t == "payload-fetch" || t == "second-stage-url")
  }

  /** The severity of an event on the scale from 0 to 4; a missing one counts as informational. */
  function RankOf(e: Event): nat {
    if e.severity == Some(Critical) then 4 else if e.severity == Some(High) then 3
    else if e.severity == Some(Medium) then 2 else if e.severity == Some(Low) then 1 else 0
  }

  ghost function HighEvents(events: seq<Event>): nat {
    |set k | 0 <= k < |events| && RankOf(events[k]) >= 3|
  }

  ghost function ServiceCount(events: seq<Event>): nat {
    |set e | e in events && e.service != "" :: e.service|
  }

  ghost predicate IsWorst(events: seq<Event>, rank: nat) {
    (exists e :: e in events && RankOf(e) == rank) && forall e :: e in events ==> RankOf(e) <= rank
  }

  ghost predicate IsTopThreat(events: seq<Event>, score: real) {
    (exists e :: e in events && e.threatScore == score) && forall e :: e in events ==> e.threatScore <= score
  }

  ghost predicate IsFirst(events: seq<Event>, t: int) {
    (exists e :: e in events && e.ts == t) && forall e :: e in events ==> t <= e.ts
  }

  ghost predicate IsLast(events: seq<Event>, t: int) {
    (exists e :: e in events && e.ts == t) && forall e :: e in events ==> e.ts <= t
  }

  // -------------------------------------------------------------- the seven components

  lemma ClampIs(x: real, ceiling: real)
    requires ceiling >= 0.0
    ensures Clamp(x, ceiling) == Within(x, ceiling)
  {
  }

  /** Volume: the decimal logarithm of the number of events, times 5, up to 15. */
  lemma VolumeIs(m: Maths, events: seq<Event>)
    requires events != []
    ensures Breakdown(m, Volume, events) == Round2(Within(m.log10((|events| + 1) as real) * 5.0, 15.0))
  {
    hide Round2;
  }

  /** Persistence: the hours between the first and the last event and the number of sessions, up to 12. */
  lemma PersistenceIs(m: Maths, events: seq<Event>, first: int, last: int)
    requires events != [] && IsFirst(events, first) && IsLast(events, last)
    ensures var sessions := |set e | e in events && e.sessionId != "" :: e.sessionId|;
      Breakdown(m, Persistence, events)
      == Round2(Within(m.log1p((last - first) as real / 3_600_000_000.0) * 3.0 + m.log1p(sessions as real) * 2.0, 12.0))
  {
    hide Round2, Least, Greatest;
    assert Least(events, Ts) == first && Greatest(events, Ts) == last;
  }

  /** Credential breadth: how many user names and how many passwords were tried, up to 18. */
  lemma CredentialBreadthIs(m: Maths, events: seq<Event>)
    requires events != []
    ensures var users := |set e | e in events && e.username != "" :: e.username|;
      var passwords := |set e | e in events && e.password != "" :: e.password|;
      Breakdown(m, CredentialBreadth, events)
      == Round2(Within(m.log1p(users as real) * 4.0 + m.log1p(passwords as real) * 2.5, 18.0))
  {
    hide Round2;
  }

  /** Service breadth: nothing for the first protocol, 3 for the second, 6 for the third, 8 from the fourth on. */
  lemma ServiceBreadthIs(m: Maths, events: seq<Event>)
    requires events != []
    ensures ServiceCount(events) <= 1 ==> Breakdown(m, ServiceBreadth, events) == 0.0
    ensures ServiceCount(events) == 2 ==> Breakdown(m, ServiceBreadth, events) == 3.0
    ensures ServiceCount(events) == 3 ==> Breakdown(m, ServiceBreadth, events) == 6.0
    ensures ServiceCount(events) >= 4 ==> Breakdown(m, ServiceBreadth, events) == 8.0
  {
    hide Round2;
    RoundFixes(0);
    RoundFixes(3);
    RoundFixes(6);
    RoundFixes(8);
  }

  /** Severity: 5 times the worst rank, and the number of high or critical events, up to 25. */
  lemma SeverityIs(m: Maths, events: seq<Event>, worst: nat)
    requires events != [] && IsWorst(events, worst)
    ensures Breakdown(m, SeverityPart, events)
         == Round2(Within(worst as real * 5.0 + m.log1p(HighEvents(events) as real) * 3.0, 25.0))
  {
    hide Round2, Worst, Filter;
    assert Worst(events) == worst;
    FilterCount(events, IsHigh);
    assert Positions(events, IsHigh) == set k | 0 <= k < |events| && RankOf(events[k]) >= 3;
  }

  /** The unrounded value of post-exploitation for given numbers of logins, commands, fetches and uploads. */
  function Reached(m: Maths, logins: nat, commands: nat, fetches: nat, uploads: nat): real {
    8.0 * logins as real + 6.0 * m.log1p(commands as real) + 10.0 * fetches as real + 6.0 * uploads as real
  }

  /** Post-exploitation: 8 for a login, 10 for a fetch, 6 for an upload, and the logarithm of the commands, up to 30. */
  lemma PostExploitationIs(m: Maths, events: seq<Event>)
    requires events != []
    ensures Breakdown(m, PostExploitation, events)
         == Round2(Within(Reached(m, NumberOf(events, "auth_success"), NumberOf(events, "command"), Fetches(events),
                                  NumberOf(events, "file_upload")), 30.0))
  {
    hide Round2, Filter;
    TypeCount(events, "auth_success");
    TypeCount(events, "command");
    TypeCount(events, "file_upload");
    FetchCount(events);
  }

  lemma TypeCount(events: seq<Event>, eventType: string)
    ensures Count(events, IsType(eventType)) == NumberOf(events, eventType)
  {
    hide Filter;
    FilterCount(events, IsType(eventType));
    assert Positions(events, IsType(eventType)) == set k | 0 <= k < |events| && events[k].eventType == eventType;
  }

  lemma FetchCount(events: seq<Event>)
    ensures Count(events, IsFetch) == Fetches(events)
  {
    hide Filter;
    FilterCount(events, IsFetch);
    assert Positions(events, IsFetch) == set k | 0 <= k < |events| && IsTaggedFetch(events[k]);
  }

  /** Threat intelligence: 0.4 of the greatest score of an event, up to 20. */
  lemma ThreatIntelIs(m: Maths, events: seq<Event>, top: real)
    requires events != [] && IsTopThreat(events, top)
    ensures Breakdown(m, ThreatIntel, events) == Round2(Within(0.4 * top, 20.0))
  {
    hide Round2, MaxThreat;
    assert MaxThreat(events) == top;
  }

  // ------------------------------------------------------------------ one more event

  /** What an event adds to post-exploitation, commands left aside. */
  function Bonus(e: Event): nat {
    (if e.eventType == "auth_success" then 8 else 0) + (if e.eventType == "file_upload" then 6 else 0)
    + if IsTaggedFetch(e) then 10 else 0
  }

  function AtMost(x: real, ceiling: real): real { if x <= ceiling then x else ceiling }

  /** An event that is no command adds its bonus, until 30 is reached. */
  lemma PostExploitationStep(m: Maths, events: seq<Event>, e: Event)
    requires Sane(m) && m.log1p(0.0) == 0.0 && e.eventType != "command"
    ensures Breakdown(m, PostExploitation, events + [e])
         == AtMost(Breakdown(m, PostExploitation, events) + Bonus(e) as real, 30.0)
  {
    hide Round2, Raw, NumberOf, Fetches, IsTaggedFetch;
    NumbersStep(events, e);
    PostExploitationIs(m, events + [e]);
    var x := Reached(m, NumberOf(events, "auth_success"), NumberOf(events, "command"), Fetches(events),
                     NumberOf(events, "file_upload"));
    assert m.log1p(NumberOf(events, "command") as real) >= 0.0;
    RoundedSum(x, Bonus(e), 30);
    if events == [] {
      NothingCounted();
      RoundFixes(0);
    } else {
      PostExploitationIs(m, events);
    }
  }

  /** A command moves it through the logarithm of the number of commands only. */
  lemma CommandStep(m: Maths, events: seq<Event>, e: Event)
    requires e.eventType == "command" && !IsTaggedFetch(e)
    ensures Breakdown(m, PostExploitation, events + [e])
         == Round2(Within(Reached(m, NumberOf(events, "auth_success"), NumberOf(events, "command") + 1, Fetches(events),
                                  NumberOf(events, "file_upload")), 30.0))
  {
    hide Round2, Raw, Within, NumberOf, Fetches, IsTaggedFetch;
    NumbersStep(events, e);
    PostExploitationIs(m, events + [e]);
  }

  lemma NumbersStep(events: seq<Event>, e: Event)
    ensures forall t :: NumberOf(events + [e], t) == NumberOf(events, t) + if e.eventType == t then 1 else 0
    ensures Fetches(events + [e]) == Fetches(events) + if IsTaggedFetch(e) then 1 else 0
  {
    hide Filter;
    forall t ensures NumberOf(events + [e], t) == NumberOf(events, t) + if e.eventType == t then 1 else 0 {
      TypeCount(events, t);
      TypeCount(events + [e], t);
      FilterConcat(events, [e], IsType(t));
      FilterSingle(e, IsType(t));
    }
    FetchCount(events);
    FetchCount(events + [e]);
    FilterConcat(events, [e], IsFetch);
    FilterSingle(e, IsFetch);
  }

  lemma NothingCounted()
    ensures forall t :: NumberOf([], t) == 0
    ensures Fetches([]) == 0
  {
    forall t ensures NumberOf([], t) == 0 {
      TypeCount([], t);
    }
    FetchCount([]);
  }

  lemma RoundedSum(x: real, n: nat, ceiling: nat)
    requires x >= 0.0
    ensures Round2(Within(x + n as real, ceiling as real))
         == AtMost(Round2(Within(x, ceiling as real)) + n as real, ceiling as real)
  {
    hide Round2;
    RoundFixes(0);
    RoundFixes(ceiling);
    RoundShift(x, n);
    if x + n as real <= ceiling as real {
      RoundMonotone(x + n as real, ceiling as real);
    } else {
      RoundMonotone(ceiling as real, x + n as real);
      RoundMonotone(0.0, x);
    }
  }

  /** A protocol not seen before adds 3, until 8 is reached; the first one adds nothing. */
  lemma NewServiceStep(m: Maths, events: seq<Event>, e: Event)
    requires e.service != "" && forall x :: x in events ==> x.service != e.service
    ensures Breakdown(m, ServiceBreadth, events + [e])
         == if ServiceCount(events) == 0 then 0.0 else AtMost(Breakdown(m, ServiceBreadth, events) + 3.0, 8.0)
  {
    hide Raw, Round2, Clamp;
    var before, after := set x | x in events && x.service != "" :: x.service,
                         set x | x in events + [e] && x.service != "" :: x.service;
    assert after == before + {e.service} && e.service !in before;
    ServiceBreadthIs(m, events + [e]);
    if events == [] {
      assert before == {};
    } else {
      ServiceBreadthIs(m, events);
    }
  }

  // ----------------------------------------------------------------------- the score

  /** The seven contributions together. */
  function Sum(m: Maths, events: seq<Event>): real {
    Breakdown(m, Volume, events) + Breakdown(m, Persistence, events) + Breakdown(m, CredentialBreadth, events)
    + Breakdown(m, ServiceBreadth, events) + Breakdown(m, SeverityPart, events)
    + Breakdown(m, PostExploitation, events) + Breakdown(m, ThreatIntel, events)
  }

  lemma SumIsTotal(m: Maths, events: seq<Event>)
    ensures Total(m, COMPONENTS, events) == Sum(m, events)
  {
    hide Breakdown, Total;
    TotalStep(m, ThreatIntel, [], events);
    TotalStep(m, PostExploitation, [ThreatIntel], events);
    TotalStep(m, SeverityPart, [PostExploitation, ThreatIntel], events);
    TotalStep(m, ServiceBreadth, [SeverityPart, PostExploitation, ThreatIntel], events);
    TotalStep(m, CredentialBreadth, [ServiceBreadth, SeverityPart, PostExploitation, ThreatIntel], events);
    TotalStep(m, Persistence, [CredentialBreadth, ServiceBreadth, SeverityPart, PostExploitation, ThreatIntel], events);
    TotalStep(m, Volume, COMPONENTS[1..], events);
    TotalOfNothing(m, events);
    assert [ThreatIntel] + [] == [ThreatIntel];
    assert [PostExploitation] + [ThreatIntel] == [PostExploitation, ThreatIntel];
    assert [SeverityPart] + [PostExploitation, ThreatIntel] == [SeverityPart, PostExploitation, ThreatIntel];
    assert [ServiceBreadth] + [SeverityPart, PostExploitation, ThreatIntel] == COMPONENTS[3..];
    assert [ServiceBreadth, SeverityPart, PostExploitation, ThreatIntel] == COMPONENTS[3..];
    assert [CredentialBreadth] + COMPONENTS[3..] == COMPONENTS[2..];
    assert [CredentialBreadth, ServiceBreadth, SeverityPart, PostExploitation, ThreatIntel] == COMPONENTS[2..];
    assert [Persistence] + COMPONENTS[2..] == COMPONENTS[1..] && [Volume] + COMPONENTS[1..] == COMPONENTS;
  }

  lemma TotalStep(m: Maths, c: Component, rest: seq<Component>, events: seq<Event>)
    ensures Total(m, [c] + rest, events) == Breakdown(m, c, events) + Total(m, rest, events)
  {
    hide Breakdown;
    assert ([c] + rest)[1..] == rest;
  }

  lemma TotalOfNothing(m: Maths, events: seq<Event>)
    ensures Total(m, [], events) == 0.0
  {
  }

  /** The share that is left of the score after `age` microseconds: an exponential over 30 days that stops at 0.4. */
  function Remaining(m: Maths, age: int): real {
    var days := if age <= 0 then 0.0 else age as real / 86_400_000_000.0;
    var share := m.exp(-days / 30.0);
    if share <= 0.4 then 0.4 else share
  }

  function Product(x: real, y: real): real { x * y }

  /** The score: the contributions, at most 100 together, times what is left at its age, to two digits. */
  lemma ScoreIs(m: Maths, now: int, events: seq<Event>, last: int)
    requires events != [] && IsLast(events, last)
    ensures Score(m, now, events) == Round2(Product(Within(Sum(m, events), 100.0), Remaining(m, now - last)))
  {
    hide Breakdown, Total, Round2, Greatest;
    SumIsTotal(m, events);
    assert Greatest(events, Ts) == last;
  }

  lemma TimesOne(x: real)
    ensures Product(x, 1.0) == x
  {
  }

  lemma RemainingIs(m: Maths, age: int)
    requires Sane(m)
    ensures age <= 0 ==> Remaining(m, age) == 1.0
    ensures age == 30 * 86_400_000_000 ==> Remaining(m, age) == AfterMonth(m)
  {
    if age == 30 * 86_400_000_000 {
      var days := age as real / 86_400_000_000.0;
      assert days == 30.0;
      assert -days / 30.0 == -1.0;
    } else if age <= 0 {
      assert -0.0 / 30.0 == 0.0;
    }
  }

  function AfterMonth(m: Maths): real { if m.exp(-1.0) <= 0.4 then 0.4 else m.exp(-1.0) }

  /** Fresh events count in full; after 30 days the exponent is -1. */
  lemma Ageing(m: Maths, now: int, events: seq<Event>, last: int)
    requires Sane(m) && events != [] && IsLast(events, last)
    ensures now <= last ==> Score(m, now, events) == Round2(Within(Sum(m, events), 100.0))
    ensures now == last + 30 * 86_400_000_000 ==>
      Score(m, now, events) == Round2(Product(Within(Sum(m, events), 100.0), AfterMonth(m)))
  {
    hide Score, Sum, Round2, Within, Remaining, AfterMonth, Product;
    ScoreIs(m, now, events, last);
    RemainingIs(m, now - last);
    TimesOne(Within(Sum(m, events), 100.0));
  }
}
