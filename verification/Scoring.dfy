/**
  The threat score (pipeline/detection/scoring.py) in exact reals. Logarithms and the exponential
  are parameters of which only monotonicity is assumed; rounding is Python's, half to even.
 */
module Scoring {
  import opened Wrappers
  import opened Sequences
  import opened Rounding
  import opened EventRows

  datatype Maths = Maths(log10: real -> real, log1p: real -> real, exp: real -> real)

  /** What the proofs use of the three functions, on the arguments they are applied to. */
  ghost predicate Sane(m: Maths) {
    && (forall x, y :: 1.0 <= x <= y ==> m.log10(x) <= m.log10(y))
    && (forall x, y :: 0.0 <= x <= y ==> m.log1p(x) <= m.log1p(y))
    && (forall x, y :: x <= y <= 0.0 ==> m.exp(x) <= m.exp(y))
    && m.exp(0.0) == 1.0
  }

  // ------------------------------------------------------------------- components

  function Clamp(value: real, ceiling: real): real {
    var low := if value <= ceiling then value else ceiling;
    if low >= 0.0 then low else 0.0
  }

  /** `max(ranks, default=0)` over the events that have a severity. */
  function Worst(events: seq<Event>): (w: nat)
    ensures forall e :: e in events && e.severity.Some? ==> e.severity.value.Rank() <= w
    ensures w > 0 ==> exists e :: e in events && e.severity.Some? && e.severity.value.Rank() == w
  {
    if events == [] then 0
    else
      assert events == [events[0]] + events[1..];
      var w := Worst(events[1..]);
      if events[0].severity.Some? && events[0].severity.value.Rank() > w then events[0].severity.value.Rank() else w
  }

  function MaxThreat(events: seq<Event>): (t: real)
    requires events != []
    ensures (exists e :: e in events && e.threatScore == t) && forall e :: e in events ==> e.threatScore <= t
  {
    if |events| == 1 then events[0].threatScore
    else
      assert events == [events[0]] + events[1..];
      var t := MaxThreat(events[1..]);
      if events[0].threatScore > t then events[0].threatScore else t
  }

  function Services(events: seq<Event>): set<string> { set e | e in events && e.service != "" :: e.service }

  predicate IsHigh(e: Event) { e.severity.Some? && e.severity.value.Rank() >= High.Rank() }

  predicate IsFetch(e: Event) { "payload-fetch" in e.tags || "second-stage-url" in e.tags }

  function Count(events: seq<Event>, p: Event -> bool): nat { |Filter(events, p)| }

  function SpanHours(events: seq<Event>): real
    requires events != []
  {
    (Greatest(events, Ts) - Least(events, Ts)) as real / 3_600_000_000.0
  }

  datatype Component =
    | Volume | Persistence | CredentialBreadth | ServiceBreadth | SeverityPart | PostExploitation | ThreatIntel

  const COMPONENTS: seq<Component> :=
    [Volume, Persistence, CredentialBreadth, ServiceBreadth, SeverityPart, PostExploitation, ThreatIntel]

  function Ceiling(c: Component): nat {
    match c
    case Volume => 15
    case Persistence => 12
    case CredentialBreadth => 18
    case ServiceBreadth => 8
    case SeverityPart => 25
    case PostExploitation => 30
    case ThreatIntel => 20
  }

  /** The unclamped contribution of a component. */
  function Raw(m: Maths, c: Component, events: seq<Event>): real
    requires events != []
  {
    match c
    case Volume => m.log10((|events| + 1) as real) * 5.0
    case Persistence => m.log1p(SpanHours(events)) * 3.0 + m.log1p(|Sessions(events)| as real) * 2.0
    case CredentialBreadth =>
      m.log1p(|Usernames(events)| as real) * 4.0 + m.log1p(|Passwords(events)| as real) * 2.5
    case ServiceBreadth => (|Services(events)| - 1) as real * 3.0
    case SeverityPart => Worst(events) as real * 5.0 + m.log1p(Count(events, IsHigh) as real) * 3.0
    case PostExploitation =>
      Count(events, IsType("auth_success")) as real * 8.0 + m.log1p(Count(events, IsType("command")) as real) * 6.0
      + Count(events, IsFetch) as real * 10.0 + Count(events, IsType("file_upload")) as real * 6.0
    case ThreatIntel => MaxThreat(events) * 0.4
  }

  /** `score_breakdown` */
  function Breakdown(m: Maths, c: Component, events: seq<Event>): real {
    if events == [] then 0.0 else Round2(Clamp(Raw(m, c, events), Ceiling(c) as real))
  }

  function Total(m: Maths, components: seq<Component>, events: seq<Event>): real {
    if components == [] then 0.0 else Breakdown(m, components[0], events) + Total(m, components[1..], events)
  }

  const MAX_SCORE: real := 100.0

  function AgeDays(now: int, events: seq<Event>): real
    requires events != []
  {
    var age := (now - Greatest(events, Ts)) as real / 86_400_000_000.0;
    if age >= 0.0 then age else 0.0
  }

  function Decay(m: Maths, now: int, events: seq<Event>): real
    requires events != []
  {
    var d := m.exp(-AgeDays(now, events) / 30.0);
    if d >= 0.4 then d else 0.4
  }

  function Scaled(total: real, factor: real): real { total * factor }

  /** `score_attacker`, without the classification. */
  function Score(m: Maths, now: int, events: seq<Event>): real {
    if events == [] then 0.0
    else Round2(Scaled(Clamp(Total(m, COMPONENTS, events), MAX_SCORE), Decay(m, now, events)))
  }

  // ----------------------------------------------------------------- monotonicity

  lemma CountGrows(a: seq<Event>, b: seq<Event>, p: Event -> bool)
    requires multiset(a) <= multiset(b)
    ensures Count(a, p) <= Count(b, p)
  {
    FilterMultiset(a, p);
    FilterMultiset(b, p);
    Contained(Filter(a, p), Filter(b, p));
  }

  lemma SetsGrow(a: seq<Event>, b: seq<Event>)
    requires forall e :: e in a ==> e in b
    ensures |Sessions(a)| <= |Sessions(b)| && |Usernames(a)| <= |Usernames(b)|
    ensures |Passwords(a)| <= |Passwords(b)| && |Services(a)| <= |Services(b)|
  {
    SetSize(Sessions(a), Sessions(b));
    SetSize(Usernames(a), Usernames(b));
    SetSize(Passwords(a), Passwords(b));
    SetSize(Services(a), Services(b));
  }

  lemma ExtremesGrow(a: seq<Event>, b: seq<Event>)
    requires a != [] && b != [] && forall e :: e in a ==> e in b
    ensures Least(b, Ts) <= Least(a, Ts) && Greatest(a, Ts) <= Greatest(b, Ts)
    ensures Worst(a) <= Worst(b) && MaxThreat(a) <= MaxThreat(b)
    ensures 0.0 <= SpanHours(a) <= SpanHours(b)
  {
    hide Least, Greatest, Worst, MaxThreat;
    var f, l, w, t := Least(a, Ts), Greatest(a, Ts), Worst(a), MaxThreat(a);
    var span1, span2 := Greatest(a, Ts) - Least(a, Ts), Greatest(b, Ts) - Least(b, Ts);
    assert span1 <= span2;
  }

  lemma ClampMonotone(x: real, y: real, ceiling: real)
    requires x <= y && ceiling >= 0.0
    ensures 0.0 <= Clamp(x, ceiling) <= Clamp(y, ceiling) <= ceiling
  {
  }

  lemma RawGrows(m: Maths, c: Component, a: seq<Event>, b: seq<Event>)
    requires Sane(m) && a != [] && b != [] && multiset(a) <= multiset(b)
    ensures Raw(m, c, a) <= Raw(m, c, b)
  {
    hide Least, Greatest, Worst, MaxThreat, Sessions, Usernames, Passwords, Services, Count, SpanHours;
    Contained(a, b);
    SetsGrow(a, b);
    ExtremesGrow(a, b);
    CountGrows(a, b, IsHigh);
    CountGrows(a, b, IsFetch);
    CountGrows(a, b, IsType("auth_success"));
    CountGrows(a, b, IsType("command"));
    CountGrows(a, b, IsType("file_upload"));
  }

  /** Each component lies between 0 and its ceiling, and more events never lower it. */
  lemma BreakdownGrows(m: Maths, c: Component, a: seq<Event>, b: seq<Event>)
    requires Sane(m) && multiset(a) <= multiset(b)
    ensures 0.0 <= Breakdown(m, c, a) <= Breakdown(m, c, b) <= Ceiling(c) as real
  {
    hide Raw, Round2, Clamp;
    Contained(a, b);
    RoundFixes(0);
    RoundFixes(Ceiling(c));
    if b != [] {
      var y := Clamp(Raw(m, c, b), Ceiling(c) as real);
      ClampMonotone(Raw(m, c, b), Raw(m, c, b), Ceiling(c) as real);
      RoundMonotone(0.0, y);
      RoundMonotone(y, Ceiling(c) as real);
      if a != [] {
        var x := Clamp(Raw(m, c, a), Ceiling(c) as real);
        RawGrows(m, c, a, b);
        ClampMonotone(Raw(m, c, a), Raw(m, c, b), Ceiling(c) as real);
        RoundMonotone(0.0, x);
        RoundMonotone(x, y);
      }
    }
  }

  lemma {:induction false} TotalGrows(m: Maths, components: seq<Component>, a: seq<Event>, b: seq<Event>)
    requires Sane(m) && multiset(a) <= multiset(b)
    ensures 0.0 <= Total(m, components, a) <= Total(m, components, b)
  {
    hide Breakdown;
    if components != [] {
      BreakdownGrows(m, components[0], a, b);
      TotalGrows(m, components[1..], a, b);
    }
  }

  lemma DecayGrows(m: Maths, now: int, a: seq<Event>, b: seq<Event>)
    requires Sane(m) && a != [] && b != [] && multiset(a) <= multiset(b)
    ensures 0.4 <= Decay(m, now, a) <= Decay(m, now, b) <= 1.0
  {
    hide Least, Greatest, Worst, MaxThreat, SpanHours;
    Contained(a, b);
    ExtremesGrow(a, b);
    ExponentsOrdered(AgeDays(now, b), AgeDays(now, a));
  }

  lemma ExponentsOrdered(x: real, y: real)
    requires 0.0 <= x <= y
    ensures -y / 30.0 <= -x / 30.0 <= 0.0
  {
  }

  lemma ProductMonotone(x: real, y: real, d: real, e: real)
    requires 0.0 <= x <= y && 0.0 <= d <= e
    ensures 0.0 <= Scaled(x, d) <= Scaled(y, e)
    ensures Scaled(x, 1.0) == x
  {
    NonNegativeProduct(x, d);
    FactorMonotone(x, y, d);
    FactorMonotone(d, e, y);
  }

  lemma NonNegativeProduct(x: real, d: real)
    requires 0.0 <= x && 0.0 <= d
    ensures 0.0 <= x * d
  {
  }

  lemma FactorMonotone(x: real, y: real, d: real)
    requires x <= y && 0.0 <= d
    ensures x * d <= y * d && d * x <= d * y
  {
    var gap := y - x;
    NonNegativeProduct(gap, d);
    assert y == x + gap;
  }

  /** At a fixed clock, more events of a source never lower its score. */
  lemma {:induction false} ScoreGrows(m: Maths, now: int, a: seq<Event>, b: seq<Event>)
    requires Sane(m) && multiset(a) <= multiset(b)
    ensures Score(m, now, a) <= Score(m, now, b)
  {
    hide Total, Decay, Clamp, Round2, Scaled;
    Contained(a, b);
    if a != [] {
      var x, y := Total(m, COMPONENTS, a), Total(m, COMPONENTS, b);
      TotalGrows(m, COMPONENTS, a, b);
      ClampMonotone(x, y, MAX_SCORE);
      DecayGrows(m, now, a, b);
      ProductMonotone(Clamp(x, MAX_SCORE), Clamp(y, MAX_SCORE), Decay(m, now, a), Decay(m, now, b));
      var p, q := Scaled(Clamp(x, MAX_SCORE), Decay(m, now, a)), Scaled(Clamp(y, MAX_SCORE), Decay(m, now, b));
      RoundMonotone(p, q);
    } else {
      ScoreBounds(m, now, b);
    }
  }

  /** The order of the events does not matter. */
  lemma ScoreOrderIrrelevant(m: Maths, now: int, a: seq<Event>, b: seq<Event>)
    requires Sane(m) && multiset(a) == multiset(b)
    ensures Score(m, now, a) == Score(m, now, b)
  {
    hide Score;
    ScoreGrows(m, now, a, b);
    ScoreGrows(m, now, b, a);
  }

  /** The score lies in [0, 100], and never decays below the rounded 40% of the clamped total. */
  lemma {:induction false} ScoreBounds(m: Maths, now: int, events: seq<Event>)
    requires Sane(m)
    ensures 0.0 <= Score(m, now, events) <= 100.0
    ensures events != [] ==>
              Round2(Scaled(Clamp(Total(m, COMPONENTS, events), MAX_SCORE), 0.4)) <= Score(m, now, events)
    ensures events != [] ==>
              Score(m, now, events) <= Round2(Clamp(Total(m, COMPONENTS, events), MAX_SCORE))
  {
    hide Total, Decay, Clamp, Round2, Scaled;
    if events != [] {
      var total := Total(m, COMPONENTS, events);
      var clamped, d := Clamp(total, MAX_SCORE), Decay(m, now, events);
      ClampMonotone(total, total, MAX_SCORE);
      DecayGrows(m, now, events, events);
      ProductMonotone(clamped, clamped, 0.4, d);
      ProductMonotone(clamped, MAX_SCORE, d, 1.0);
      ProductMonotone(clamped, clamped, d, 1.0);
      RoundFixes(0);
      RoundFixes(100);
      var p, low := Scaled(clamped, d), Scaled(clamped, 0.4);
      RoundMonotone(0.0, p);
      RoundMonotone(p, 100.0);
      RoundMonotone(low, p);
      RoundMonotone(p, clamped);
    }
  }
}
