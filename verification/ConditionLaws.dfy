/**
  What the conditions of a rule mean for an event's columns, operator by operator (matches in
  pipeline/detection/rules.py), and which keys a rule reports in terms of the events of the log.
 */
module ConditionLaws {
  import opened Wrappers
  import opened Sequences
  import opened SlidingPeak
  import opened Detection
  import opened DetectionLaws
  import opened Rounding

  /** The event has the value in the column. */
  predicate HasValue(e: Event, column: string, v: Value) {
    v != Null && column in e.columns && e.columns[column] == v
  }

  /** The column is missing or null. */
  predicate IsAbsent(e: Event, column: string) {
    column !in e.columns || e.columns[column] == Null
  }

  lemma ColumnIs(e: Event, column: string)
    ensures e.Get(column) == Null <==> IsAbsent(e, column)
    ensures forall v :: v != Null ==> (e.Get(column) == v <==> HasValue(e, column, v))
  {
  }

  // ------------------------------------------------------------------------ operators

  /** The column is a list with the tag at some position. */
  ghost predicate HasTag(e: Event, column: string, tag: string) {
    && column in e.columns && e.columns[column].Tags?
    && exists k :: 0 <= k < |e.columns[column].tags| && e.columns[column].tags[k] == tag
  }

  /** `in_tags` looks for the tag anywhere in the list, and never raises. */
  lemma InTagsIff(co: Coercions, e: Event, column: string, tag: string)
    ensures Test(co, e, Condition(column, "in_tags", One(Text(tag))))
         == if HasTag(e, column, tag) then Holds else Fails
    ensures forall x :: !IsText(x) ==> Test(co, e, Condition(column, "in_tags", x)) == Fails
  {
  }

  predicate IsText(x: Expected) { x.One? && x.value.Text? }

  /** `contains` holds when the lowered text occurs anywhere in the lowered value. */
  lemma ContainsIff(co: Coercions, e: Event, column: string, x: Expected)
    ensures Test(co, e, Condition(column, "contains", x)) != Raises
    ensures Test(co, e, Condition(column, "contains", x)) == Holds
       <==> !IsAbsent(e, column) && exists a, b :: co.lower(e.columns[column]) == a + co.lowerExpected(x) + b
  {
    if !IsAbsent(e, column) {
      OccursIff(co.lower(e.columns[column]), co.lowerExpected(x));
    }
  }

  lemma OccursIff(text: string, part: string)
    ensures Contains(text, part) <==> exists a, b :: text == a + part + b
  {
    if Contains(text, part) {
      var i: nat :| i <= |text| && OccursAt(text, part, i);
      assert text == text[..i] + part + text[i + |part|..];
    }
    if a, b :| text == a + part + b {
      assert text[|a|..] == part + b;
      assert OccursAt(text, part, |a|);
    }
  }

  /** Both sides are numbers, `a` the event's and `x` the rule's. */
  predicate AreNumbers(co: Coercions, e: Event, column: string, expected: Expected, a: real, x: real) {
    !IsAbsent(e, column) && co.number(e.columns[column]) == Some(a) && co.numberExpected(expected) == Some(x)
  }

  /** The column is there, but one of the two sides is no number. */
  predicate IsIncomparable(co: Coercions, e: Event, column: string, expected: Expected) {
    !IsAbsent(e, column) && (co.number(e.columns[column]) == None || co.numberExpected(expected) == None)
  }

  /** `gte` and `lte` compare two numbers; they fail on an absent value, and raise when a side is no number. */
  lemma ComparisonIff(co: Coercions, e: Event, column: string, expected: Expected)
    ensures var gte := Test(co, e, Condition(column, "gte", expected));
            var lte := Test(co, e, Condition(column, "lte", expected));
      && (gte == Holds <==> exists a, x :: AreNumbers(co, e, column, expected, a, x) && a >= x)
      && (lte == Holds <==> exists a, x :: AreNumbers(co, e, column, expected, a, x) && a <= x)
      && (gte == Raises <==> IsIncomparable(co, e, column, expected))
      && (lte == Raises <==> gte == Raises)
      && (gte == Holds && lte == Holds <==> exists a :: AreNumbers(co, e, column, expected, a, a))
  {
    if !IsAbsent(e, column) && co.number(e.columns[column]).Some? && co.numberExpected(expected).Some? {
      assert AreNumbers(co, e, column, expected, co.number(e.columns[column]).value, co.numberExpected(expected).value);
    }
  }

  /** The expectations that Python takes for false. */
  predicate IsFalsy(x: Expected) {
    x in [OneOf([]), One(Null), One(Text("")), One(Number(0.0)), One(Tags([]))]
  }

  /** `isnull` holds for an absent column, or with a false expectation for a present one. */
  lemma IsNullIff(co: Coercions, e: Event, column: string, x: Expected)
    ensures Test(co, e, Condition(column, "isnull", x))
         == if IsFalsy(x) then (if IsAbsent(e, column) then Fails else Holds)
            else (if IsAbsent(e, column) then Holds else Fails)
  {
    var falsy := [OneOf([]), One(Null), One(Text("")), One(Number(0.0)), One(Tags([]))];
    assert falsy[0] in falsy && falsy[1] in falsy && falsy[2] in falsy && falsy[3] in falsy && falsy[4] in falsy;
  }

  /** `eq` is membership in a list, and equality with a scalar; Null stands for an absent column. */
  lemma EqIff(co: Coercions, e: Event, column: string, values: seq<Value>, v: Value)
    ensures Test(co, e, Condition(column, "eq", OneOf(values))) != Raises
    ensures Test(co, e, Condition(column, "eq", OneOf(values))) == Holds
       <==> exists k :: 0 <= k < |values|
              && if values[k] == Null then IsAbsent(e, column) else HasValue(e, column, values[k])
    ensures Test(co, e, Condition(column, "eq", One(v)))
         == if (if v == Null then IsAbsent(e, column) else HasValue(e, column, v)) then Holds else Fails
  {
    var actual := e.Get(column);
    if actual in values {
      var k :| 0 <= k < |values| && values[k] == actual;
    }
  }

  /** An operator that is not one of these raises. */
  lemma UnknownOperatorRaises(co: Coercions, e: Event, c: Condition)
    requires c.operator !in ["eq", "contains", "in_tags", "gte", "lte", "isnull"]
    ensures Test(co, e, c) == Raises
  {
    assert forall k :: 0 <= k < 6 ==> ["eq", "contains", "in_tags", "gte", "lte", "isnull"][k] != c.operator;
  }

  // --------------------------------------------------------- what a rule reports, from the log

  ghost predicate AllHold(co: Coercions, where_: seq<Condition>, e: Event) {
    forall c :: c in where_ ==> Test(co, e, c) == Holds
  }

  lemma HoldIff(co: Coercions, where_: seq<Condition>, e: Event)
    ensures Satisfies(co, where_)(e) <==> AllHold(co, where_, e)
  {
    MatchesIff(co, e, where_);
  }

  /** Every condition of the rule holds of the event. */
  ghost predicate Meets(co: Coercions, rule: Rule, e: Event) { AllHold(co, rule.where_, e) }

  /** The group of a key: the events of the log that meet the rule's conditions and have the key, as often as there. */
  lemma GroupIs(co: Coercions, rule: Rule, log: seq<Event>, key: Value)
    requires key != Null
    ensures forall e :: multiset(GroupOf(co, rule, log, key))[e]
                     == if Meets(co, rule, e) && HasValue(e, rule.groupBy, key) then multiset(log)[e] else 0
  {
    hide Filter, Test, Matches;
    var c := Candidates(co, rule, log);
    FilterMultiset(c, KeyIs(rule.groupBy, key));
    if rule.where_ != [] {
      FilterMultiset(log, Satisfies(co, rule.where_));
    }
    forall e ensures multiset(GroupOf(co, rule, log, key))[e]
                  == if Meets(co, rule, e) && HasValue(e, rule.groupBy, key) then multiset(log)[e] else 0
    {
      ColumnIs(e, rule.groupBy);
      HoldIff(co, rule.where_, e);
    }
  }

  /** Every event of a collection meets the rule's conditions and has the key. */
  ghost predicate AllBelong(co: Coercions, rule: Rule, key: Value, burst: seq<Event>) {
    forall e :: e in burst ==> Meets(co, rule, e) && HasValue(e, rule.groupBy, key)
  }

  /** Events of the log that meet the rule's conditions, have the key, and happened within the rule's minutes. */
  ghost predicate IsBurst(co: Coercions, rule: Rule, log: seq<Event>, key: Value, burst: seq<Event>) {
    && burst != [] && multiset(burst) <= multiset(log)
    && AllBelong(co, rule, key, burst)
    && (forall a, b :: a in burst && b in burst ==> a.ts - b.ts <= rule.windowMinutes * 60_000_000)
  }

  /** What is counted about a burst: its events, or the different values they have in a column. */
  ghost function Strength(column: Option<string>, burst: seq<Event>): nat {
    match column
    case None => |burst|
    case Some(c) => |set e | e in burst && !IsAbsent(e, c) :: e.columns[c]|
  }

  lemma StrengthIs(column: Option<string>, burst: seq<Event>)
    ensures Strength(column, burst) == Measure(burst, column)
  {
    if column.Some? {
      var c := column.value;
      assert (set e | e in burst && !IsAbsent(e, c) :: e.columns[c]) == DistinctValues(burst, c);
    }
  }

  /** A collection drawn from the log lies in the key's group exactly when all its events belong there. */
  lemma InGroupIff(co: Coercions, rule: Rule, log: seq<Event>, key: Value, burst: seq<Event>)
    requires key != Null
    ensures multiset(burst) <= multiset(GroupOf(co, rule, log, key))
       <==> multiset(burst) <= multiset(log) && AllBelong(co, rule, key, burst)
  {
    hide GroupOf, Meets;
    GroupIs(co, rule, log, key);
    if multiset(burst) <= multiset(GroupOf(co, rule, log, key)) {
      forall e | e in burst ensures Meets(co, rule, e) && HasValue(e, rule.groupBy, key) {
        assert multiset(burst)[e] > 0;
      }
      forall e ensures multiset(burst)[e] <= multiset(log)[e] {
      }
    }
    if multiset(burst) <= multiset(log) && AllBelong(co, rule, key, burst) {
      forall e ensures multiset(burst)[e] <= multiset(GroupOf(co, rule, log, key))[e] {
        assert multiset(burst)[e] > 0 ==> e in burst;
      }
    }
  }

  /** A rule that counts within a window triggers on a group exactly when a burst in it is strong enough. */
  lemma CountingFires(co: Coercions, rule: Rule, group: seq<Event>)
    requires rule.kind == Threshold || rule.kind == Distinct
    ensures var column := if rule.kind == Threshold then None else rule.distinctColumn;
      Fires(co, rule, group) <==> exists burst ::
        && burst != [] && multiset(burst) <= multiset(group) && Fits(burst, rule.Window())
        && Measure(burst, column) as real >= rule.threshold
  {
    hide Peak, Measure, Fits;
    var column := if rule.kind == Threshold then None else rule.distinctColumn;
    PeakOptimal(group, rule.Window(), column);
    var peak := Peak(group, rule.Window(), column);
    if Fires(co, rule, group) {
      if peak.1 != [] {
        assert Measure(peak.1, column) as real >= rule.threshold;
      } else {
        EmptyMeasure(column, rule.Window());
        OneFits(group, rule.Window());
        assert Measure([group[0]], column) as real >= rule.threshold;
      }
    }
    if burst :| burst != [] && multiset(burst) <= multiset(group) && Fits(burst, rule.Window())
                && Measure(burst, column) as real >= rule.threshold {
      Contained(burst, group);
    }
  }

  lemma OneFits(group: seq<Event>, window: nat)
    requires group != []
    ensures multiset([group[0]]) <= multiset(group) && Fits([group[0]], window)
  {
    assert group[0] in multiset(group);
  }

  /** A threshold rule that does not raise reports exactly the keys with that many matching events within its minutes,
      and a distinct rule those with that many different values. */
  lemma CountingRuleReportsIff(co: Coercions, text: Value -> string, rule: Rule, log: seq<Event>, key: Value)
    requires rule.enabled && (rule.kind == Threshold || rule.kind == Distinct) && !RaisesOn(co, rule.where_, log)
    ensures var column := if rule.kind == Threshold then None else rule.distinctColumn;
      Reports(co, text, rule, log, key)
      <==> key != Null && exists burst ::
             IsBurst(co, rule, log, key, burst) && Strength(column, burst) as real >= rule.threshold
  {
    hide Evaluate, GroupOf, Fires, Meets, Reports;
    var column := if rule.kind == Threshold then None else rule.distinctColumn;
    ReportsIff(co, text, rule, log, key);
    RaisesIff(co, text, rule, log);
    if key != Null {
      var group := GroupOf(co, rule, log, key);
      CountingFires(co, rule, group);
      if Fires(co, rule, group) {
        var burst :| burst != [] && multiset(burst) <= multiset(group) && Fits(burst, rule.Window())
                     && Measure(burst, column) as real >= rule.threshold;
        InGroupIff(co, rule, log, key, burst);
        StrengthIs(column, burst);
        assert IsBurst(co, rule, log, key, burst);
      }
      if burst :| IsBurst(co, rule, log, key, burst) && Strength(column, burst) as real >= rule.threshold {
        InGroupIff(co, rule, log, key, burst);
        StrengthIs(column, burst);
        assert Fits(burst, rule.Window());
      }
    }
  }

  /** A match rule that does not raise reports exactly the keys of the events that meet its conditions. */
  lemma MatchRuleReportsIff(co: Coercions, text: Value -> string, rule: Rule, log: seq<Event>, key: Value)
    requires rule.enabled && rule.kind == Match && !RaisesOn(co, rule.where_, log)
    ensures Reports(co, text, rule, log, key)
       <==> key != Null && exists e :: e in log && Meets(co, rule, e) && HasValue(e, rule.groupBy, key)
  {
    hide Evaluate, GroupOf, Meets, Reports;
    ReportsIff(co, text, rule, log, key);
    RaisesIff(co, text, rule, log);
    if key != Null {
      var group := GroupOf(co, rule, log, key);
      GroupIs(co, rule, log, key);
      if group != [] {
        assert multiset(group)[group[0]] > 0;
        assert multiset(log)[group[0]] > 0;
      }
      if e :| e in log && Meets(co, rule, e) && HasValue(e, rule.groupBy, key) {
        assert multiset(group)[e] > 0;
      }
    }
  }

  /** So a match rule for one tag reports exactly the keys that have an event with the tag. */
  lemma TagRuleReportsIff(co: Coercions, text: Value -> string, rule: Rule, log: seq<Event>, key: Value, column: string,
                          tag: string)
    requires rule.enabled && rule.kind == Match && rule.where_ == [Condition(column, "in_tags", One(Text(tag)))]
    ensures Reports(co, text, rule, log, key)
       <==> key != Null && exists e :: e in log && HasTag(e, column, tag) && HasValue(e, rule.groupBy, key)
  {
    hide Reports, Test, HasTag;
    forall e ensures Meets(co, rule, e) <==> HasTag(e, column, tag) {
      InTagsIff(co, e, column, tag);
      assert rule.where_[0] in rule.where_;
    }
    forall e ensures Matches(co, e, rule.where_) != Raises {
      InTagsIff(co, e, column, tag);
      assert rule.where_[1..] == [];
    }
    MatchRuleReportsIff(co, text, rule, log, key);
  }

  // ------------------------------------------------------------------ what an alert says

  /** The fields of an alert, on the events of its evidence. */
  lemma AlertDescribesEvidence(co: Coercions, text: Value -> string, rule: Rule, key: Value, group: seq<Event>)
    requires Fires(co, rule, group)
    ensures var a := AlertOf(co, text, rule, key, group);
      && a.ruleId == rule.id && a.severity == rule.severity && a.key == key
      && a.dedupeKey == rule.id + "|" + text(key)
      && a.evidence != [] && multiset(a.evidence) <= multiset(group) && a.hitCount == |a.evidence|
      && (forall e :: e in a.evidence ==> a.firstSeen <= e.ts <= a.lastSeen)
      && (exists e :: e in a.evidence && e.ts == a.firstSeen) && (exists e :: e in a.evidence && e.ts == a.lastSeen)
      && (rule.kind == Match || rule.kind == Ratio ==> a.evidence == group)
  {
    hide Peak;
    PeakOptimal(group, rule.Window(), None);
    PeakOptimal(group, rule.Window(), rule.distinctColumn);
  }

  /** No burst of the group within the rule's minutes is stronger than the number. */
  ghost predicate IsStrongest(rule: Rule, column: Option<string>, group: seq<Event>, n: nat) {
    forall burst: seq<Event> :: multiset(burst) <= multiset(group) && InMinutes(burst, rule.windowMinutes) ==>
      Strength(column, burst) <= n
  }

  ghost predicate InMinutes(burst: seq<Event>, minutes: nat) {
    forall a, b :: a in burst && b in burst ==> a.ts - b.ts <= minutes * 60_000_000
  }

  /** The number that an alert reports: the events of the group, the size of the largest burst, the most different
      values in a burst, or the share of the events that meet the numerator, to four digits. */
  lemma ObservedMeaning(co: Coercions, text: Value -> string, rule: Rule, key: Value, group: seq<Event>)
    requires Fires(co, rule, group) && group != []
    ensures var a := AlertOf(co, text, rule, key, group);
      match rule.kind
      case Match => a.observed == |group| as real
      case Threshold =>
        a.observed == |a.evidence| as real && InMinutes(a.evidence, rule.windowMinutes)
        && IsStrongest(rule, None, group, |a.evidence|)
      case Distinct =>
        exists n: nat :: a.observed == n as real && IsStrongest(rule, rule.distinctColumn, group, n)
                         && (n > 0 ==> InMinutes(a.evidence, rule.windowMinutes)
                                       && n == Strength(rule.distinctColumn, a.evidence))
      case Ratio =>
        var hits := |set k | 0 <= k < |group| && AllHold(co, rule.numeratorWhere, group[k])|;
        IsNearest(a.observed, hits as real / |group| as real, 10000)
  {
    hide Peak, Measure, Matches, Filter, Round4;
    if rule.kind == Ratio {
      HitCount(co, rule.numeratorWhere, group);
      RoundNearest(NumeratorCount(co, rule.numeratorWhere, group) as real / |group| as real,
                   AlertOf(co, text, rule, key, group).observed);
    } else if rule.kind == Threshold {
      PeakStrongest(rule, None, group);
      OneFits(group, rule.Window());
      StrengthIs(None, [group[0]]);
      assert Strength(None, [group[0]]) == 1;
    } else if rule.kind == Distinct {
      PeakStrongest(rule, rule.distinctColumn, group);
      EmptyMeasure(rule.distinctColumn, rule.Window());
    }
  }

  lemma HitCount(co: Coercions, where_: seq<Condition>, group: seq<Event>)
    ensures NumeratorCount(co, where_, group) == |set k | 0 <= k < |group| && AllHold(co, where_, group[k])|
  {
    hide Matches, Filter, AllHold;
    FilterCount(group, Satisfies(co, where_));
    forall e ensures Satisfies(co, where_)(e) <==> AllHold(co, where_, e) {
      HoldIff(co, where_, e);
    }
    assert Positions(group, Satisfies(co, where_)) == set k | 0 <= k < |group| && AllHold(co, where_, group[k]);
  }

  lemma PeakStrongest(rule: Rule, column: Option<string>, group: seq<Event>)
    ensures var (n, span) := Peak(group, rule.Window(), column);
      IsStrongest(rule, column, group, n) && InMinutes(span, rule.windowMinutes) && n == Measure(span, column)
      && n == Strength(column, span)
  {
    hide Peak, Measure, Strength;
    PeakOptimal(group, rule.Window(), column);
    var (n, span) := Peak(group, rule.Window(), column);
    StrengthIs(column, span);
    forall burst: seq<Event> | multiset(burst) <= multiset(group) && InMinutes(burst, rule.windowMinutes)
      ensures Strength(column, burst) <= n
    {
      StrengthIs(column, burst);
      assert Fits(burst, rule.Window());
    }
  }

  /** Two values under one rule have the same dedupe key exactly when they print alike; with ids free of the separator,
      keys of different rules never meet. */
  lemma DedupeKeysDiffer(text: Value -> string, r: Rule, q: Rule, v: Value, w: Value)
    requires '|' !in r.id && '|' !in q.id
    ensures DedupeKey(text, r, v) == DedupeKey(text, q, w) <==> r.id == q.id && text(v) == text(w)
  {
    var a, b := DedupeKey(text, r, v), DedupeKey(text, q, w);
    if a == b {
      assert a[|r.id|] == '|' && b[|q.id|] == '|';
      assert a[..|r.id|] == r.id && b[..|q.id|] == q.id;
      assert a[|r.id| + 1..] == text(v) && b[|q.id| + 1..] == text(w);
    }
  }
}
