/**
  What rule evaluation promises: one alert per firing group, and what a growing event log can
  and cannot change.
 */
module DetectionLaws {
  import opened Wrappers
  import opened Sequences
  import opened SlidingPeak
  import opened Detection

  /** The group triggers the rule (and testing it does not raise). */
  ghost predicate Fires(co: Coercions, rule: Rule, group: seq<Event>) {
    group != [] && TestGroup(co, rule, group).Some? && TestGroup(co, rule, group).value.triggered
  }

  ghost function AlertOf(co: Coercions, text: Value -> string, rule: Rule, key: Value, group: seq<Event>): Alert
    requires Fires(co, rule, group)
  {
    var f := TestGroup(co, rule, group).value;
    BuildAlert(text, rule, key, if f.evidence != [] then f.evidence else group, f.observed)
  }

  lemma {:induction false} KeyAlerts(co: Coercions, text: Value -> string, rule: Rule, events: seq<Event>,
                                     keys: seq<Value>)
    requires forall key :: key in keys ==> GroupOf(co, rule, events, key) != []
    requires AlertsForKeys(co, text, rule, events, keys).Some?
    ensures forall a :: a in AlertsForKeys(co, text, rule, events, keys).value ==>
              a.key in keys && Fires(co, rule, GroupOf(co, rule, events, a.key))
              && a == AlertOf(co, text, rule, a.key, GroupOf(co, rule, events, a.key))
    ensures forall key :: key in keys && Fires(co, rule, GroupOf(co, rule, events, key)) ==>
              AlertOf(co, text, rule, key, GroupOf(co, rule, events, key))
                in AlertsForKeys(co, text, rule, events, keys).value
    ensures (forall i, j :: 0 <= i < j < |keys| ==> keys[i] != keys[j]) ==>
              KeysDiffer(AlertsForKeys(co, text, rule, events, keys).value)
  {
    hide TestGroup, GroupOf;
    if keys != [] {
      assert keys == [keys[0]] + keys[1..];
      KeyAlerts(co, text, rule, events, keys[1..]);
      assert AlertsFor(co, text, rule, keys[0], GroupOf(co, rule, events, keys[0])).Some?;
      assert (forall i, j :: 0 <= i < j < |keys| ==> keys[i] != keys[j]) ==> keys[0] !in keys[1..];
    }
  }

  /** No two alerts are about the same key. */
  ghost predicate KeysDiffer(alerts: seq<Alert>) {
    forall i, j :: 0 <= i < j < |alerts| ==> alerts[i].key != alerts[j].key
  }

  lemma KeyHasGroup(co: Coercions, rule: Rule, events: seq<Event>, key: Value)
    ensures key in AllKeys(co, rule, events) <==> key != Null && GroupOf(co, rule, events, key) != []
  {
    var c := Candidates(co, rule, events);
    var group := GroupOf(co, rule, events, key);
    if key != Null && group != [] {
      var e := group[0];
      assert e in group;
      assert KeyIs(rule.groupBy, key)(e);
      var i :| 0 <= i < |c| && c[i] == e;
    }
  }

  /** A rule that does not raise reports each non-null key whose group fires exactly once, and nothing else. */
  lemma {:induction false} OneAlertPerFiringGroup(co: Coercions, text: Value -> string, rule: Rule, events: seq<Event>)
    requires rule.enabled && Evaluate(co, text, rule, events).Some?
    ensures var alerts := Evaluate(co, text, rule, events).value;
      && (forall a :: a in alerts ==>
            a.key != Null && Fires(co, rule, GroupOf(co, rule, events, a.key))
            && a == AlertOf(co, text, rule, a.key, GroupOf(co, rule, events, a.key)))
      && (forall key :: key != Null && Fires(co, rule, GroupOf(co, rule, events, key)) ==>
            AlertOf(co, text, rule, key, GroupOf(co, rule, events, key)) in alerts)
      && KeysDiffer(alerts)
  {
    hide TestGroup, GroupOf, AllKeys, AlertsForKeys, KeysDiffer;
    AllKeysDiffer(co, rule, events);
    forall key ensures key in AllKeys(co, rule, events) <==> key != Null && GroupOf(co, rule, events, key) != [] {
      KeyHasGroup(co, rule, events, key);
    }
    KeyAlerts(co, text, rule, events, AllKeys(co, rule, events));
  }

  lemma AllKeysDiffer(co: Coercions, rule: Rule, events: seq<Event>)
    ensures var keys := AllKeys(co, rule, events); forall i, j :: 0 <= i < j < |keys| ==> keys[i] != keys[j]
  {
  }

  /** Condition `k` raises, after all conditions before it held. */
  ghost predicate RaisesAt(co: Coercions, e: Event, where_: seq<Condition>, k: nat) {
    k < |where_| && Test(co, e, where_[k]) == Raises && forall j :: 0 <= j < k ==> Test(co, e, where_[j]) == Holds
  }

  /** A where block holds when every condition holds; it raises when the first condition that does not
      hold raises. */
  lemma {:induction false} MatchesIff(co: Coercions, e: Event, where_: seq<Condition>)
    ensures Matches(co, e, where_) == Holds <==> forall c :: c in where_ ==> Test(co, e, c) == Holds
    ensures Matches(co, e, where_) == Raises <==> exists k: nat :: RaisesAt(co, e, where_, k)
  {
    hide Test;
    if where_ != [] {
      var rest := where_[1..];
      assert where_ == [where_[0]] + rest;
      MatchesIff(co, e, rest);
      if Test(co, e, where_[0]) == Holds {
        if k: nat :| RaisesAt(co, e, rest, k) {
          assert forall j :: 0 < j <= k ==> where_[j] == rest[j - 1];
          assert RaisesAt(co, e, where_, k + 1);
        }
        if k: nat :| RaisesAt(co, e, where_, k) {
          assert forall j :: 0 <= j < k ==> rest[j] == where_[j + 1];
          assert RaisesAt(co, e, rest, k - 1);
        }
      } else if Test(co, e, where_[0]) == Raises {
        assert RaisesAt(co, e, where_, 0);
      }
    }
  }

  /** The evidence of a windowed rule is one window of the group: its alert spans at most the window,
      and for a threshold rule the hit count is the observed peak. */
  lemma {:induction false} EvidenceFitsWindow(co: Coercions, text: Value -> string, rule: Rule, key: Value,
                                              group: seq<Event>)
    requires rule.kind == Threshold || (rule.kind == Distinct && rule.threshold > 0.0)
    requires Fires(co, rule, group)
    ensures var a := AlertOf(co, text, rule, key, group);
      && a.lastSeen - a.firstSeen <= rule.Window()
      && (rule.kind == Threshold ==> a.observed == a.hitCount as real)
      && (exists e :: e in group && e.ts == a.firstSeen) && (exists e :: e in group && e.ts == a.lastSeen)
  {
    hide Peak, Least, Greatest;
    var column := if rule.kind == Threshold then None else rule.distinctColumn;
    PeakOptimal(group, rule.Window(), column);
    PeakPositive(group, rule.Window());
    var span := Peak(group, rule.Window(), column).1;
    EmptyMeasure(column, rule.Window());
    assert span != [];
    Contained(span, group);
    var f, l := Least(span, Ts), Greatest(span, Ts);
  }

  // --------------------------------------------------------------- growing logs

  /** The value is the group key of some event. */
  ghost predicate IsGroupKey(log: seq<Event>, column: string, v: Value) {
    v != Null && exists e :: e in log && e.Get(column) == v
  }

  lemma GroupKeyOccurs(co: Coercions, rule: Rule, log: seq<Event>, last: seq<Event>, key: Value)
    requires multiset(log) <= multiset(last) && key != Null && GroupOf(co, rule, log, key) != []
    ensures IsGroupKey(last, rule.groupBy, key)
  {
    var e := GroupOf(co, rule, log, key)[0];
    assert e in GroupOf(co, rule, log, key);
    assert KeyIs(rule.groupBy, key)(e);
    assert e in log;
    Contained(log, last);
  }

  lemma GroupMonotone(co: Coercions, rule: Rule, log1: seq<Event>, log2: seq<Event>, key: Value)
    requires multiset(log1) <= multiset(log2)
    ensures multiset(GroupOf(co, rule, log1, key)) <= multiset(GroupOf(co, rule, log2, key))
  {
    hide Filter;
    if rule.where_ != [] {
      FilterMultiset(log1, Satisfies(co, rule.where_));
      FilterMultiset(log2, Satisfies(co, rule.where_));
    }
    var c1, c2 := Candidates(co, rule, log1), Candidates(co, rule, log2);
    assert multiset(c1) <= multiset(c2);
    FilterMultiset(c1, KeyIs(rule.groupBy, key));
    FilterMultiset(c2, KeyIs(rule.groupBy, key));
  }

  /** Only a match, threshold or distinct rule can keep its findings as the log grows. */
  predicate Accumulates(rule: Rule) { rule.kind != Ratio }

  lemma FiresMonotone(co: Coercions, rule: Rule, g1: seq<Event>, g2: seq<Event>)
    requires Accumulates(rule) && multiset(g1) <= multiset(g2) && Fires(co, rule, g1)
    ensures Fires(co, rule, g2)
  {
    hide Peak;
    Contained(g1, g2);
    PeakMonotone(g1, g2, rule.Window(), None);
    PeakMonotone(g1, g2, rule.Window(), rule.distinctColumn);
  }

  lemma {:induction false} KeysRaiseIff(co: Coercions, text: Value -> string, rule: Rule, events: seq<Event>,
                                        keys: seq<Value>)
    requires forall key :: key in keys ==> GroupOf(co, rule, events, key) != []
    ensures AlertsForKeys(co, text, rule, events, keys).Some?
       <==> forall key :: key in keys ==> TestGroup(co, rule, GroupOf(co, rule, events, key)).Some?
  {
    hide TestGroup, GroupOf;
    if keys != [] {
      assert keys == [keys[0]] + keys[1..];
      KeysRaiseIff(co, text, rule, events, keys[1..]);
    }
  }

  /** A rule raises if and only if a condition raises on the log or the test of some key's group raises; only the
      numerator of a ratio rule can do the latter. */
  lemma RaisesIff(co: Coercions, text: Value -> string, rule: Rule, events: seq<Event>)
    requires rule.enabled
    ensures Evaluate(co, text, rule, events).None?
       <==> || RaisesOn(co, rule.where_, events)
            || (rule.kind == Ratio
                && exists key :: key != Null && RaisesOn(co, rule.numeratorWhere, GroupOf(co, rule, events, key)))
  {
    hide GroupOf, AllKeys, Peak, Matches;
    forall key ensures key in AllKeys(co, rule, events) <==> key != Null && GroupOf(co, rule, events, key) != [] {
      KeyHasGroup(co, rule, events, key);
    }
    KeysRaiseIff(co, text, rule, events, AllKeys(co, rule, events));
  }

  /** A key that fired keeps firing on every larger log, unless a condition of the rule raises
      on one of the added events: then, and only then, the rule reports nothing at all. */
  lemma {:induction false} FiringSurvivesGrowth(co: Coercions, text: Value -> string, rule: Rule, log1: seq<Event>,
                                                log2: seq<Event>, a: Alert)
    requires rule.enabled && Accumulates(rule) && multiset(log1) <= multiset(log2)
    requires Evaluate(co, text, rule, log1).Some? && a in Evaluate(co, text, rule, log1).value
    ensures (Evaluate(co, text, rule, log2).Some?
             && exists b :: b in Evaluate(co, text, rule, log2).value && b.key == a.key)
       <==> !RaisesOn(co, rule.where_, log2)
  {
    hide TestGroup, GroupOf, AllKeys, AlertsForKeys, Fires;
    if !RaisesOn(co, rule.where_, log2) {
      RaisesIff(co, text, rule, log2);
      OneAlertPerFiringGroup(co, text, rule, log1);
      OneAlertPerFiringGroup(co, text, rule, log2);
      var g1, g2 := GroupOf(co, rule, log1, a.key), GroupOf(co, rule, log2, a.key);
      GroupMonotone(co, rule, log1, log2, a.key);
      FiresMonotone(co, rule, g1, g2);
      var b := AlertOf(co, text, rule, a.key, g2);
      assert b in Evaluate(co, text, rule, log2).value && b.key == a.key by { AlertKey(co, text, rule, a.key, g2); }
    }
  }

  lemma AlertKey(co: Coercions, text: Value -> string, rule: Rule, key: Value, group: seq<Event>)
    requires Fires(co, rule, group)
    ensures AlertOf(co, text, rule, key, group).key == key
    ensures AlertOf(co, text, rule, key, group).dedupeKey == DedupeKey(text, rule, key)
  {
    hide TestGroup;
  }

  /** Match and threshold rules count events, so their hit counts ratchet. */
  predicate CountsEvents(rule: Rule) { rule.kind == Match || rule.kind == Threshold }

  lemma HitCountIs(co: Coercions, text: Value -> string, rule: Rule, key: Value, group: seq<Event>)
    requires CountsEvents(rule) && Fires(co, rule, group)
    ensures AlertOf(co, text, rule, key, group).hitCount
         == if rule.kind == Match then |group| else Peak(group, rule.Window(), None).0
  {
    hide Peak;
    PeakOptimal(group, rule.Window(), None);
    PeakPositive(group, rule.Window());
  }

  lemma ObservedIs(co: Coercions, text: Value -> string, rule: Rule, key: Value, group: seq<Event>)
    requires Accumulates(rule) && Fires(co, rule, group)
    ensures AlertOf(co, text, rule, key, group).observed
         == (match rule.kind
             case Match => |group|
             case Threshold => Peak(group, rule.Window(), None).0
             case _ => Peak(group, rule.Window(), rule.distinctColumn).0) as real
  {
    hide Peak;
  }

  /** As the log grows, the observed value of a match, threshold or distinct rule never falls, the hit
      count of a match or threshold rule never falls, and a match rule's time span never shrinks. */
  lemma {:induction false} AlertGrows(co: Coercions, text: Value -> string, rule: Rule, log1: seq<Event>,
                                      log2: seq<Event>, a: Alert, b: Alert)
    requires rule.enabled && Accumulates(rule) && multiset(log1) <= multiset(log2)
    requires Evaluate(co, text, rule, log1).Some? && a in Evaluate(co, text, rule, log1).value
    requires Evaluate(co, text, rule, log2).Some? && b in Evaluate(co, text, rule, log2).value
    requires a.key == b.key
    ensures a.observed <= b.observed
    ensures CountsEvents(rule) ==> a.hitCount <= b.hitCount
    ensures rule.kind == Match ==> b.firstSeen <= a.firstSeen && a.lastSeen <= b.lastSeen
  {
    hide TestGroup, GroupOf, AllKeys, AlertsForKeys, Fires, Peak, AlertOf;
    OneAlertPerFiringGroup(co, text, rule, log1);
    OneAlertPerFiringGroup(co, text, rule, log2);
    var g1, g2 := GroupOf(co, rule, log1, a.key), GroupOf(co, rule, log2, a.key);
    GroupMonotone(co, rule, log1, log2, a.key);
    Contained(g1, g2);
    ObservedIs(co, text, rule, a.key, g1);
    ObservedIs(co, text, rule, a.key, g2);
    PeakMonotone(g1, g2, rule.Window(), None);
    PeakMonotone(g1, g2, rule.Window(), rule.distinctColumn);
    if CountsEvents(rule) {
      HitCountIs(co, text, rule, a.key, g1);
      HitCountIs(co, text, rule, a.key, g2);
    }
    if rule.kind == Match {
      MatchSpan(co, text, rule, a.key, g1);
      MatchSpan(co, text, rule, a.key, g2);
    }
  }

  lemma MatchSpan(co: Coercions, text: Value -> string, rule: Rule, key: Value, group: seq<Event>)
    requires rule.kind == Match && Fires(co, rule, group)
    ensures AlertOf(co, text, rule, key, group).firstSeen == Least(group, Ts)
    ensures AlertOf(co, text, rule, key, group).lastSeen == Greatest(group, Ts)
  {
  }

  // ------------------------------------------------ distinct rules on growing logs

  /** The hit count of a distinct rule is the length of its best window, or of the group when nothing is counted. */
  lemma DistinctEvidence(co: Coercions, text: Value -> string, rule: Rule, key: Value, group: seq<Event>)
    requires rule.kind == Distinct && Fires(co, rule, group)
    ensures var a, peak := AlertOf(co, text, rule, key, group), Peak(group, rule.Window(), rule.distinctColumn);
      && a.observed == peak.0 as real
      && (peak.0 > 0 ==> peak.1 != [])
      && a == BuildAlert(text, rule, key, if peak.0 > 0 then peak.1 else group, a.observed)
  {
    hide Peak;
    PeakOptimal(group, rule.Window(), rule.distinctColumn);
    EmptyMeasure(rule.distinctColumn, rule.Window());
    PeakEmpty(group, rule.Window(), rule.distinctColumn);
  }

  lemma PeakEmpty(group: seq<Event>, window: nat, column: Option<string>)
    ensures Peak(group, window, column).0 == 0 ==> Peak(group, window, column).1 == []
  {
    var o := ByTime(group);
    BestFrom(o, window, column, 0, |o|);
    BestOfNone(o, window, column);
  }

  /** After the first `n` events in time, some window is the first to reach a new peak, and is shorter than `limit`. */
  ghost predicate ShorterBest(events: seq<Event>, n: nat, rule: Rule, limit: int) {
    exists k: nat :: n <= k && IsFirstBest(ByTime(events), rule.Window(), rule.distinctColumn, k)
      && |WindowAt(ByTime(events), rule.Window(), k)| < limit
  }

  /** On any larger group. */
  lemma DistinctGroupGrows(co: Coercions, text: Value -> string, rule: Rule, key: Value, g: seq<Event>, h: seq<Event>)
    requires rule.kind == Distinct && multiset(g) <= multiset(h) && Fires(co, rule, g) && Fires(co, rule, h)
    ensures var a, b := AlertOf(co, text, rule, key, g), AlertOf(co, text, rule, key, h);
      b.hitCount < a.hitCount <==> ShorterBest(h, 0, rule, a.hitCount)
  {
    hide Peak, ByTime, WindowAt, Fires, AlertOf, IsFirstBest;
    var window, column := rule.Window(), rule.distinctColumn;
    DistinctEvidence(co, text, rule, key, g);
    DistinctEvidence(co, text, rule, key, h);
    PeakMonotone(g, h, window, column);
    PeakIsFirstBest(h, window, column);
    Contained(g, h);
  }

  /** On a group that later events extend. */
  lemma DistinctGroupExtends(co: Coercions, text: Value -> string, rule: Rule, key: Value, g: seq<Event>,
                             added: seq<Event>)
    requires rule.kind == Distinct && Later(g, added) && Fires(co, rule, g) && Fires(co, rule, g + added)
    ensures var a, b := AlertOf(co, text, rule, key, g), AlertOf(co, text, rule, key, g + added);
      && (b.hitCount < a.hitCount <==> ShorterBest(g + added, |g|, rule, a.hitCount))
      && (0.0 < a.observed == b.observed ==> a == b)
  {
    hide Peak, ByTime, WindowAt, Fires, AlertOf, IsFirstBest;
    var window, column, o := rule.Window(), rule.distinctColumn, ByTime(g + added);
    DistinctEvidence(co, text, rule, key, g);
    DistinctEvidence(co, text, rule, key, g + added);
    PeakAfterGrowth(g, added, window, column);
    if k: nat :| |g| <= k && IsFirstBest(o, window, column, k) {
      BestCounts(o, window, column, k);
    }
  }

  lemma BestCounts(o: seq<Event>, window: nat, column: Option<string>, k: nat)
    requires IsFirstBest(o, window, column, k)
    ensures Measure(WindowAt(o, window, k), column) > 0
  {
    hide Measure, WindowAt;
  }

  lemma GroupAppend(co: Coercions, rule: Rule, log: seq<Event>, added: seq<Event>, key: Value)
    ensures GroupOf(co, rule, log + added, key) == GroupOf(co, rule, log, key) + GroupOf(co, rule, added, key)
    ensures Later(log, added) ==> Later(GroupOf(co, rule, log, key), GroupOf(co, rule, added, key))
  {
    if rule.where_ != [] {
      FilterConcat(log, added, Satisfies(co, rule.where_));
    }
    FilterConcat(Candidates(co, rule, log), Candidates(co, rule, added), KeyIs(rule.groupBy, key));
  }

  /** On a larger log the hit count of a distinct rule falls if and only if the first window to reach the peak there is
      shorter than the old evidence. */
  lemma DistinctHitCountFallsIff(co: Coercions, text: Value -> string, rule: Rule, log1: seq<Event>, log2: seq<Event>,
                                 a: Alert, b: Alert)
    requires rule.enabled && rule.kind == Distinct && multiset(log1) <= multiset(log2)
    requires Evaluate(co, text, rule, log1).Some? && a in Evaluate(co, text, rule, log1).value
    requires Evaluate(co, text, rule, log2).Some? && b in Evaluate(co, text, rule, log2).value
    requires a.key == b.key
    ensures b.hitCount < a.hitCount <==> ShorterBest(GroupOf(co, rule, log2, a.key), 0, rule, a.hitCount)
  {
    hide Evaluate, GroupOf, Fires, AlertOf, ShorterBest;
    OneAlertPerFiringGroup(co, text, rule, log1);
    OneAlertPerFiringGroup(co, text, rule, log2);
    GroupMonotone(co, rule, log1, log2, a.key);
    DistinctGroupGrows(co, text, rule, a.key, GroupOf(co, rule, log1, a.key), GroupOf(co, rule, log2, a.key));
  }

  /** When only later events arrive, that window ends with one of them and reaches a higher peak than before; while the
      peak stays, so does the alert. */
  lemma LaterEventsHitCount(co: Coercions, text: Value -> string, rule: Rule, log: seq<Event>, added: seq<Event>,
                            a: Alert, b: Alert)
    requires rule.enabled && rule.kind == Distinct && Later(log, added)
    requires Evaluate(co, text, rule, log).Some? && a in Evaluate(co, text, rule, log).value
    requires Evaluate(co, text, rule, log + added).Some? && b in Evaluate(co, text, rule, log + added).value
    requires a.key == b.key
    ensures b.hitCount < a.hitCount
       <==> ShorterBest(GroupOf(co, rule, log + added, a.key), |GroupOf(co, rule, log, a.key)|, rule, a.hitCount)
    ensures 0.0 < a.observed == b.observed ==> a == b
  {
    hide Evaluate, GroupOf, Fires, AlertOf, ShorterBest;
    OneAlertPerFiringGroup(co, text, rule, log);
    OneAlertPerFiringGroup(co, text, rule, log + added);
    GroupAppend(co, rule, log, added, a.key);
    DistinctGroupExtends(co, text, rule, a.key, GroupOf(co, rule, log, a.key), GroupOf(co, rule, added, a.key));
  }

  // ------------------------------------------------------ ratio rules on growing logs

  /** The rule reports the key on the log. */
  ghost predicate Reports(co: Coercions, text: Value -> string, rule: Rule, log: seq<Event>, key: Value) {
    Evaluate(co, text, rule, log).Some? && exists a :: a in Evaluate(co, text, rule, log).value && a.key == key
  }

  lemma ReportsIff(co: Coercions, text: Value -> string, rule: Rule, log: seq<Event>, key: Value)
    requires rule.enabled
    ensures Reports(co, text, rule, log, key)
       <==> Evaluate(co, text, rule, log).Some? && key != Null && Fires(co, rule, GroupOf(co, rule, log, key))
  {
    hide Evaluate, GroupOf, Fires, AlertOf;
    if Evaluate(co, text, rule, log).Some? {
      OneAlertPerFiringGroup(co, text, rule, log);
      if key != Null && Fires(co, rule, GroupOf(co, rule, log, key)) {
        AlertKey(co, text, rule, key, GroupOf(co, rule, log, key));
      }
    }
  }

  /** `n` of `total` are at least the given share. */
  predicate ReachesShare(n: nat, total: nat, share: real) {
    n as real >= share * total as real
  }

  lemma RatioFires(co: Coercions, rule: Rule, group: seq<Event>)
    requires rule.kind == Ratio && group != []
    ensures Fires(co, rule, group)
       <==> && !RaisesOn(co, rule.numeratorWhere, group)
            && ReachesShare(NumeratorCount(co, rule.numeratorWhere, group), |group|, rule.threshold)
  {
    hide RaisesOn, NumeratorCount;
    QuotientReaches(NumeratorCount(co, rule.numeratorWhere, group), |group|, rule.threshold);
  }

  lemma NumeratorAppend(co: Coercions, where_: seq<Condition>, g: seq<Event>, added: seq<Event>)
    ensures NumeratorCount(co, where_, g + added) == NumeratorCount(co, where_, g) + NumeratorCount(co, where_, added)
  {
    hide Satisfies, Filter;
    FilterConcat(g, added, Satisfies(co, where_));
  }

  /** A group and what is added to it trigger a ratio rule if and only if no numerator condition raises on them and
      their matches together reach the threshold's share of their events. */
  lemma RatioFiresIff(co: Coercions, rule: Rule, g: seq<Event>, added: seq<Event>)
    requires rule.kind == Ratio && g + added != []
    ensures Fires(co, rule, g + added)
       <==> && !RaisesOn(co, rule.numeratorWhere, g + added)
            && ReachesShare(NumeratorCount(co, rule.numeratorWhere, g) + NumeratorCount(co, rule.numeratorWhere, added),
                            |g| + |added|, rule.threshold)
  {
    hide Fires, RaisesOn, NumeratorCount, ReachesShare;
    RatioFires(co, rule, g + added);
    NumeratorAppend(co, rule.numeratorWhere, g, added);
  }

  lemma QuotientReaches(n: nat, d: nat, t: real)
    requires d > 0
    ensures n as real / d as real >= t <==> ReachesShare(n, d, t)
  {
    var q, r := n as real / d as real, d as real;
    assert q * r == n as real;
    if q >= t {
      assert (q - t) * r >= 0.0;
    } else {
      assert (t - q) * r > 0.0;
    }
  }

  /** A ratio rule reports a key on a log with events added to it if and only if no condition raises on the log, no
      numerator condition raises on any key's group, and the key's matches reach the threshold's share. */
  lemma RatioReportsIff(co: Coercions, text: Value -> string, rule: Rule, log: seq<Event>, added: seq<Event>,
                        key: Value)
    requires rule.enabled && rule.kind == Ratio
    ensures Reports(co, text, rule, log + added, key)
       <==> var g, more := GroupOf(co, rule, log, key), GroupOf(co, rule, added, key);
            && key != Null && g + more != []
            && !RaisesOn(co, rule.where_, log + added)
            && (forall q :: q != Null ==> !RaisesOn(co, rule.numeratorWhere, GroupOf(co, rule, log + added, q)))
            && ReachesShare(NumeratorCount(co, rule.numeratorWhere, g) + NumeratorCount(co, rule.numeratorWhere, more),
                            |g| + |more|, rule.threshold)
  {
    hide Evaluate, GroupOf, Fires, RaisesOn, NumeratorCount, ReachesShare;
    var g, more := GroupOf(co, rule, log, key), GroupOf(co, rule, added, key);
    ReportsIff(co, text, rule, log + added, key);
    RaisesIff(co, text, rule, log + added);
    GroupAppend(co, rule, log, added, key);
    FiresNonEmpty(co, rule, g + more);
    if g + more != [] {
      RatioFiresIff(co, rule, g, more);
    }
  }

  lemma FiresNonEmpty(co: Coercions, rule: Rule, group: seq<Event>)
    ensures Fires(co, rule, group) ==> group != []
  {
    hide TestGroup;
  }

  // ------------------------------------------------------------ counterexamples

  lemma {:induction false} SortedStays(s: seq<Event>)
    requires Ordered(s, Earlier)
    ensures ByTime(s) == s
  {
    if s != [] {
      OrderedTail(s, Earlier);
      SortedStays(s[1..]);
      assert |s| > 1 ==> Earlier(s[0], s[1]);
    }
  }

  lemma BestStep(o: seq<Event>, window: nat, column: string, k: nat, l: nat, values: set<Value>)
    requires l <= k < |o| && o[k].ts - o[l].ts <= window && (l == 0 || o[k].ts - o[l - 1].ts > window)
    requires Ordered(o, Earlier) && DistinctValues(o[l..k + 1], column) == values
    ensures var (best, span) := BestUpTo(o, window, Some(column), k);
      BestUpTo(o, window, Some(column), k + 1) == if |values| > best then (|values|, o[l..k + 1]) else (best, span)
  {
    var r := LeftFrom(o, window, k, 0);
    assert r < l ==> Earlier(o[r], o[l - 1]) || r == l - 1;
    assert r == l;
  }

  function Login(user: string, ts: int): Event {
    Event("", ts, map["username" := Text(user), "src_ip" := Text("x")])
  }

  const SLOW: seq<Event> := [Login("a", 0), Login("a", 0), Login("a", 0), Login("b", 0)]

  const FAST: seq<Event> := [Login("c", 600_000_000), Login("d", 600_000_000), Login("e", 600_000_000)]

  /** The window [l..k + 1] holds one more value than [l..k]. */
  lemma DistinctAppend(o: seq<Event>, l: nat, k: nat, column: string)
    requires l <= k < |o| && o[k].Get(column) != Null
    ensures DistinctValues(o[l..k + 1], column) == DistinctValues(o[l..k], column) + {o[k].Get(column)}
  {
    assert o[l..k + 1] == o[l..k] + [o[k]];
    assert o[k] in o[l..k + 1];
  }

  lemma SlowBest(o: seq<Event>, window: nat)
    requires SLOW <= o && window < 600_000_000 && Ordered(o, Earlier)
    ensures BestUpTo(o, window, Some("username"), 4) == (2, SLOW)
  {
    hide BestUpTo, Measure, DistinctValues;
    var c, a, b := "username", Text("a"), Text("b");
    assert o[..4] == SLOW && forall k :: 0 <= k < 4 ==> o[k] == SLOW[k];
    DistinctAppend(o, 0, 0, c);
    DistinctAppend(o, 0, 1, c);
    DistinctAppend(o, 0, 2, c);
    DistinctAppend(o, 0, 3, c);
    NoValues(o, window, 0, c);
    BestStep(o, window, c, 0, 0, {a});
    BestStep(o, window, c, 1, 0, {a});
    BestStep(o, window, c, 2, 0, {a});
    BestStep(o, window, c, 3, 0, {a, b});
    assert |{a}| == 1 && |{a, b}| == 2;
  }

  lemma NoValues(o: seq<Event>, window: nat, l: nat, column: string)
    requires l <= |o|
    ensures DistinctValues(o[l..l], column) == {} && BestUpTo(o, window, Some(column), 0) == (0, [])
  {
  }

  lemma FastBest(window: nat)
    requires window < 600_000_000
    ensures Ordered(SLOW + FAST, Earlier)
    ensures BestUpTo(SLOW + FAST, window, Some("username"), 7) == (3, FAST)
  {
    hide BestUpTo, Measure, DistinctValues;
    var o, f, c, d, e := SLOW + FAST, "username", Text("c"), Text("d"), Text("e");
    SlowBest(o, window);
    DistinctAppend(o, 4, 4, f);
    DistinctAppend(o, 4, 5, f);
    DistinctAppend(o, 4, 6, f);
    NoValues(o, window, 4, f);
    BestStep(o, window, f, 4, 4, {c});
    BestStep(o, window, f, 5, 4, {c, d});
    BestStep(o, window, f, 6, 4, {c, d, e});
    assert |{c}| == 1 && |{c, d}| == 2 && |{c, d, e}| == 3;
    assert o[4..7] == FAST;
  }

  /** For a distinct rule the hit count is the length of the evidence span, not the number of
      distinct values, and it can fall: four events with two user names make a longer span than
      three later events with three user names. */
  lemma DistinctHitCountCanFall(co: Coercions, text: Value -> string, rule: Rule)
    requires rule.kind == Distinct && rule.distinctColumn == Some("username")
    requires rule.windowMinutes == 5 && rule.threshold == 2.0
    ensures Fires(co, rule, SLOW) && Fires(co, rule, SLOW + FAST)
    ensures AlertOf(co, text, rule, Text("x"), SLOW).hitCount == 4
    ensures AlertOf(co, text, rule, Text("x"), SLOW + FAST).hitCount == 3
  {
    assert Ordered(SLOW, Earlier);
    SlowBest(SLOW, rule.Window());
    SortedStays(SLOW);
    FastBest(rule.Window());
    SortedStays(SLOW + FAST);
    assert Peak(SLOW, rule.Window(), Some("username")) == (2, SLOW);
    assert Peak(SLOW + FAST, rule.Window(), Some("username")) == (3, FAST);
  }

  /** Without conditions a log of one source is that source's group. */
  lemma WholeGroup(co: Coercions, rule: Rule, log: seq<Event>, key: Value)
    requires rule.where_ == [] && forall e :: e in log ==> e.Get(rule.groupBy) == key
    ensures GroupOf(co, rule, log, key) == log
  {
    FilterAll(log, KeyIs(rule.groupBy, key));
  }

  lemma OneSource()
    ensures forall e :: e in SLOW || e in SLOW + FAST ==> e.Get("src_ip") == Text("x")
  {
  }

  /** A ratio rule stops reporting a key when an event outside its numerator arrives. */
  lemma RatioCanStopReporting(co: Coercions, text: Value -> string, rule: Rule, hit: Event, miss: Event, key: Value)
    requires rule.enabled && rule.kind == Ratio && rule.threshold == 1.0 && rule.where_ == [] && key != Null
    requires hit.Get(rule.groupBy) == key && miss.Get(rule.groupBy) == key
    requires Matches(co, hit, rule.numeratorWhere) == Holds && Matches(co, miss, rule.numeratorWhere) == Fails
    ensures Reports(co, text, rule, [hit], key) && !Reports(co, text, rule, [hit] + [miss], key)
  {
    hide Reports, GroupOf;
    var p := Satisfies(co, rule.numeratorWhere);
    FilterSingle(hit, p);
    FilterSingle(miss, p);
    WholeGroup(co, rule, [hit], key);
    WholeGroup(co, rule, [miss], key);
    NothingGrouped(co, rule, key);
    forall q ensures !RaisesOn(co, rule.numeratorWhere, GroupOf(co, rule, [hit] + [], q)) {
      GroupMembers(co, rule, [hit] + [], q);
    }
    RatioReportsIff(co, text, rule, [hit], [], key);
    RatioReportsIff(co, text, rule, [hit], [miss], key);
    assert [hit] + [] == [hit];
    assert NumeratorCount(co, rule.numeratorWhere, [hit]) == 1 && NumeratorCount(co, rule.numeratorWhere, [miss]) == 0;
  }

  lemma NothingGrouped(co: Coercions, rule: Rule, key: Value)
    ensures GroupOf(co, rule, [], key) == []
  {
  }

  lemma GroupMembers(co: Coercions, rule: Rule, log: seq<Event>, key: Value)
    ensures forall e :: e in GroupOf(co, rule, log, key) ==> e in log
  {
  }

  /** A rule that compares a text column with a number reports a source, and goes silent for all sources when a value
      arrives that is no number. */
  lemma RaisingSilencesRule(co: Coercions, text: Value -> string, rule: Rule, limit: Expected)
    requires rule.enabled && rule.kind == Match && rule.groupBy == "src_ip"
    requires rule.where_ == [Condition("username", "gte", limit)] && co.numberExpected(limit) == Some(5.0)
    requires co.number(Text("10")) == Some(10.0) && co.number(Text("root")) == None
    ensures Reports(co, text, rule, [Login("10", 0)], Text("x"))
    ensures Evaluate(co, text, rule, [Login("10", 0)] + [Login("root", 1)]) == None
  {
    hide Reports, Evaluate;
    var good, bad := Login("10", 0), Login("root", 1);
    assert Matches(co, good, rule.where_) == Holds && Matches(co, bad, rule.where_) == Raises by {
      assert rule.where_[1..] == [];
    }
    FilterSingle(good, Satisfies(co, rule.where_));
    FilterSingle(good, KeyIs("src_ip", Text("x")));
    RaisesIff(co, text, rule, [good]);
    ReportsIff(co, text, rule, [good], Text("x"));
    assert bad in [good] + [bad];
    RaisesIff(co, text, rule, [good] + [bad]);
  }
}
