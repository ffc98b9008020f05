/**
  Rule evaluation (pipeline/detection/rules.py): `matches`, grouping, the four rule types and
  the alert each firing group produces. A Python exception is an explicit outcome.
 */
module Detection {
  import opened Wrappers
  import opened Sequences
  import opened SlidingPeak
  import opened Rounding

  // ----------------------------------------------------------------- conditions

  /** The right-hand side of a condition: a scalar, or a list for membership. */
  datatype Expected = One(value: Value) | OneOf(values: seq<Value>)

  /** One entry of a `where` block; the operator is "eq" when the key names none. */
  datatype Condition = Condition(column: string, operator: string, expected: Expected)

  datatype Verdict = Holds | Fails | Raises

  /** Python's `str(x).lower()` and `float(x)`; the latter may raise. */
  datatype Coercions = Coercions(
    lower: Value -> string,
    lowerExpected: Expected -> string,
    number: Value -> Option<real>,
    numberExpected: Expected -> Option<real>)

  predicate OccursAt(text: string, part: string, i: nat) {
    i <= |text| && part <= text[i..]
  }

  predicate Contains(text: string, part: string) {
    exists i: nat :: i <= |text| && OccursAt(text, part, i)
  }

  predicate Truthy(x: Expected) {
    match x
    case OneOf(values) => values != []
    case One(Null) => false
    case One(Text(s)) => s != ""
    case One(Number(n)) => n != 0.0
    case One(Tags(tags)) => tags != []
  }

  function AsVerdict(b: bool): Verdict { if b then Holds else Fails }

  function Compare(co: Coercions, actual: Value, expected: Expected, le: bool): Verdict {
    if actual == Null then Fails
    else if co.number(actual).None? || co.numberExpected(expected).None? then Raises
    else
      var a, x := co.number(actual).value, co.numberExpected(expected).value;
      AsVerdict(if le then a <= x else a >= x)
  }

  function Test(co: Coercions, e: Event, c: Condition): Verdict {
    var actual := e.Get(c.column);
    if c.operator == "eq" then
      AsVerdict(match c.expected case OneOf(values) => actual in values case One(v) => actual == v)
    else if c.operator == "contains" then
      AsVerdict(actual != Null && Contains(co.lower(actual), co.lowerExpected(c.expected)))
    else if c.operator == "in_tags" then
      AsVerdict(actual.Tags? && c.expected.One? && c.expected.value.Text? && c.expected.value.s in actual.tags)
    else if c.operator == "gte" then Compare(co, actual, c.expected, false)
    else if c.operator == "lte" then Compare(co, actual, c.expected, true)
    else if c.operator == "isnull" then AsVerdict((actual == Null) == Truthy(c.expected))
    else Raises
  }

  /** `matches`: the first condition that does not hold decides. */
  function Matches(co: Coercions, e: Event, where_: seq<Condition>): Verdict {
    if where_ == [] then Holds
    else
      match Test(co, e, where_[0])
      case Holds => Matches(co, e, where_[1..])
      case Fails => Fails
      case Raises => Raises
  }

  // ---------------------------------------------------------------------- rules

  datatype Kind = Match | Threshold | Distinct | Ratio

  datatype Rule = Rule(
    id: string,
    severity: string,
    kind: Kind,
    enabled: bool,
    windowMinutes: nat,
    groupBy: string,
    threshold: real,
    distinctColumn: Option<string>,
    where_: seq<Condition>,
    numeratorWhere: seq<Condition>)
  {
    function Window(): nat { windowMinutes * 60_000_000 }
  }

  /** A payload; `evidence` are the events that its evidence block, title, service and source are made from. */
  datatype Alert = Alert(
    ruleId: string,
    severity: string,
    key: Value,
    dedupeKey: string,
    observed: real,
    hitCount: int,
    firstSeen: int,
    lastSeen: int,
    evidence: seq<Event>)

  /** The outcome of `_test_group`: observed value, whether it triggered, evidence events. */
  datatype Finding = Finding(observed: real, triggered: bool, evidence: seq<Event>)

  function Satisfies(co: Coercions, where_: seq<Condition>): Event -> bool {
    (e: Event) => Matches(co, e, where_) == Holds
  }

  predicate RaisesOn(co: Coercions, where_: seq<Condition>, events: seq<Event>) {
    where_ != [] && exists e :: e in events && Matches(co, e, where_) == Raises
  }

  function KeyIs(column: string, key: Value): Event -> bool {
    (e: Event) => e.Get(column) == key
  }

  function Candidates(co: Coercions, rule: Rule, events: seq<Event>): seq<Event> {
    if rule.where_ == [] then events else Filter(events, Satisfies(co, rule.where_))
  }

  function GroupOf(co: Coercions, rule: Rule, events: seq<Event>, key: Value): seq<Event> {
    Filter(Candidates(co, rule, events), KeyIs(rule.groupBy, key))
  }

  /** The grouping keys in order of first appearance. */
  function KeysUpTo(candidates: seq<Event>, column: string, k: nat): (keys: seq<Value>)
    requires k <= |candidates|
    ensures forall key :: key in keys <==>
              key != Null && exists i :: 0 <= i < k && candidates[i].Get(column) == key
    ensures forall i, j :: 0 <= i < j < |keys| ==> keys[i] != keys[j]
  {
    if k == 0 then []
    else
      var keys := KeysUpTo(candidates, column, k - 1);
      var key := candidates[k - 1].Get(column);
      if key != Null && key !in keys then keys + [key] else keys
  }

  function NumeratorCount(co: Coercions, where_: seq<Condition>, group: seq<Event>): (n: nat)
    ensures n <= |group|
  {
    |Filter(group, Satisfies(co, where_))|
  }

  ghost function TestGroup(co: Coercions, rule: Rule, group: seq<Event>): Option<Finding> {
    match rule.kind
    case Match => Some(Finding(|group| as real, true, group))
    case Threshold =>
      var (peak, span) := Peak(group, rule.Window(), None);
      Some(Finding(peak as real, peak as real >= rule.threshold, span))
    case Distinct =>
      var (peak, span) := Peak(group, rule.Window(), rule.distinctColumn);
      Some(Finding(peak as real, peak as real >= rule.threshold, span))
    case Ratio =>
      if group == [] then Some(Finding(0.0, false, []))
      else if RaisesOn(co, rule.numeratorWhere, group) then None
      else
        var ratio := NumeratorCount(co, rule.numeratorWhere, group) as real / |group| as real;
        Some(Finding(Round4(ratio), ratio >= rule.threshold, group))
  }

  function Ts(e: Event): int { e.ts }

  /** `str(key)`, a parameter like the other conversions to text. */
  function DedupeKey(text: Value -> string, rule: Rule, key: Value): string {
    rule.id + "|" + text(key)
  }

  function BuildAlert(text: Value -> string, rule: Rule, key: Value, group: seq<Event>, observed: real): Alert
    requires group != []
  {
    Alert(rule.id, rule.severity, key, DedupeKey(text, rule, key), observed,
          |group|, Least(group, Ts), Greatest(group, Ts), group)
  }

  /** The alert for one group: none when the group does not trigger. */
  ghost function AlertsFor(co: Coercions, text: Value -> string, rule: Rule, key: Value, group: seq<Event>)
    : Option<seq<Alert>>
    requires group != []
  {
    match TestGroup(co, rule, group)
    case None => None
    case Some(f) =>
      if !f.triggered then Some([])
      else Some([BuildAlert(text, rule, key, if f.evidence != [] then f.evidence else group, f.observed)])
  }

  lemma GroupNonEmpty(co: Coercions, rule: Rule, events: seq<Event>, k: nat, key: Value)
    requires k <= |Candidates(co, rule, events)|
    requires key in KeysUpTo(Candidates(co, rule, events), rule.groupBy, k)
    ensures GroupOf(co, rule, events, key) != []
  {
    var c := Candidates(co, rule, events);
    var i :| 0 <= i < k && c[i].Get(rule.groupBy) == key;
    assert KeyIs(rule.groupBy, key)(c[i]);
    assert c[i] in GroupOf(co, rule, events, key);
  }

  ghost function AlertsForKeys(co: Coercions, text: Value -> string, rule: Rule, events: seq<Event>, keys: seq<Value>)
    : Option<seq<Alert>>
    requires forall key :: key in keys ==> GroupOf(co, rule, events, key) != []
  {
    if keys == [] then Some([])
    else
      match AlertsFor(co, text, rule, keys[0], GroupOf(co, rule, events, keys[0]))
      case None => None
      case Some(head) =>
        match AlertsForKeys(co, text, rule, events, keys[1..])
        case None => None
        case Some(rest) => Some(head + rest)
  }

  ghost function AllKeys(co: Coercions, rule: Rule, events: seq<Event>): (keys: seq<Value>)
    ensures forall key :: key in keys ==> GroupOf(co, rule, events, key) != []
  {
    var c := Candidates(co, rule, events);
    var keys := KeysUpTo(c, rule.groupBy, |c|);
    assert forall key :: key in keys ==> GroupOf(co, rule, events, key) != [] by {
      forall key | key in keys ensures GroupOf(co, rule, events, key) != [] {
        GroupNonEmpty(co, rule, events, |c|, key);
      }
    }
    keys
  }

  /** `evaluate_rule`; None when it raises. */
  ghost function Evaluate(co: Coercions, text: Value -> string, rule: Rule, events: seq<Event>): Option<seq<Alert>> {
    if !rule.enabled then Some([])
    else if RaisesOn(co, rule.where_, events) then None
    else AlertsForKeys(co, text, rule, events, AllKeys(co, rule, events))
  }

  // ------------------------------------------------------------------ algorithm

  method ComputeTest(co: Coercions, rule: Rule, group: seq<Event>) returns (r: Option<Finding>)
    ensures r == TestGroup(co, rule, group)
  {
    match rule.kind
    case Match =>
      r := Some(Finding(|group| as real, true, group));
    case Threshold =>
      var peak, span := FindPeak(group, rule.Window(), None);
      r := Some(Finding(peak as real, peak as real >= rule.threshold, span));
    case Distinct =>
      var peak, span := FindPeak(group, rule.Window(), rule.distinctColumn);
      r := Some(Finding(peak as real, peak as real >= rule.threshold, span));
    case Ratio =>
      if group == [] {
        return Some(Finding(0.0, false, []));
      }
      if RaisesOn(co, rule.numeratorWhere, group) {
        return None;
      }
      var ratio := NumeratorCount(co, rule.numeratorWhere, group) as real / |group| as real;
      r := Some(Finding(Round4(ratio), ratio >= rule.threshold, group));
  }

  /** The dictionary of groups after the first `k` candidates. */
  ghost predicate GroupedUpTo(c: seq<Event>, column: string, k: nat, order: seq<Value>,
                              groups: map<Value, seq<Event>>)
  {
    && k <= |c|
    && order == KeysUpTo(c, column, k)
    && (forall key :: key in groups <==> key in order)
    && (forall key :: key in groups ==> groups[key] == Filter(c[..k], KeyIs(column, key)))
  }

  lemma GroupStep(c: seq<Event>, column: string, k: nat, order: seq<Value>, groups: map<Value, seq<Event>>)
    requires k < |c| && GroupedUpTo(c, column, k, order, groups)
    ensures var key := c[k].Get(column);
      if key == Null then GroupedUpTo(c, column, k + 1, order, groups)
      else GroupedUpTo(c, column, k + 1,
             if key in groups then order else order + [key],
             groups[key := (if key in groups then groups[key] else []) + [c[k]]])
  {
    hide Filter, KeysUpTo, KeyIs;
    var key := c[k].Get(column);
    KeysStep(c, column, k);
    forall q ensures Filter(c[..k + 1], KeyIs(column, q))
        == if q == key then Filter(c[..k], KeyIs(column, q)) + [c[k]] else Filter(c[..k], KeyIs(column, q))
    {
      FilterStep(c, column, k, q);
    }
    if key != Null && key !in groups {
      NoneFiled(c, column, k, key);
    }
  }

  lemma KeysStep(c: seq<Event>, column: string, k: nat)
    requires k < |c|
    ensures var keys, key := KeysUpTo(c, column, k), c[k].Get(column);
      KeysUpTo(c, column, k + 1) == if key != Null && key !in keys then keys + [key] else keys
  {
  }

  lemma FilterStep(c: seq<Event>, column: string, k: nat, q: Value)
    requires k < |c|
    ensures Filter(c[..k + 1], KeyIs(column, q))
         == if q == c[k].Get(column) then Filter(c[..k], KeyIs(column, q)) + [c[k]]
            else Filter(c[..k], KeyIs(column, q))
  {
    assert c[..k + 1] == c[..k] + [c[k]];
    FilterConcat(c[..k], [c[k]], KeyIs(column, q));
    FilterSingle(c[k], KeyIs(column, q));
  }

  lemma {:induction false} NoneFiled(c: seq<Event>, column: string, k: nat, key: Value)
    requires k <= |c| && key != Null && key !in KeysUpTo(c, column, k)
    ensures Filter(c[..k], KeyIs(column, key)) == []
  {
    if k > 0 {
      KeysStep(c, column, k - 1);
      NoneFiled(c, column, k - 1, key);
      FilterStep(c, column, k - 1, key);
    }
  }

  method GroupCandidates(c: seq<Event>, column: string) returns (order: seq<Value>, groups: map<Value, seq<Event>>)
    ensures GroupedUpTo(c, column, |c|, order, groups)
  {
    order, groups := [], map[];
    for k := 0 to |c|
      invariant GroupedUpTo(c, column, k, order, groups)
    {
      GroupStep(c, column, k, order, groups);
      var key := c[k].Get(column);
      if key == Null {
        continue;
      }
      if key !in groups {
        order := order + [key];
      }
      groups := groups[key := (if key in groups then groups[key] else []) + [c[k]]];
    }
  }

  method EvaluateRule(co: Coercions, text: Value -> string, rule: Rule, events: seq<Event>)
    returns (r: Option<seq<Alert>>)
    ensures r == Evaluate(co, text, rule, events)
  {
    hide TestGroup, GroupedUpTo, KeysUpTo, Filter, Candidates, GroupOf, AlertsForKeys, AlertsFor, AllKeys, BuildAlert;
    if !rule.enabled {
      return Some([]);
    }
    if RaisesOn(co, rule.where_, events) {
      return None;
    }
    var candidates := Candidates(co, rule, events);
    var order, groups := GroupCandidates(candidates, rule.groupBy);
    GroupsAreGroups(co, rule, events, order, groups);
    assert Evaluate(co, text, rule, events) == AlertsForKeys(co, text, rule, events, order);
    var alerts := [];
    assert order[0..] == order;
    PrependNothing(AlertsForKeys(co, text, rule, events, order));
    for k := 0 to |order|
      invariant AlertsForKeys(co, text, rule, events, order)
             == Prepend(alerts, AlertsForKeys(co, text, rule, events, order[k..]))
    {
      var key := order[k];
      var group := groups[key];
      var finding := ComputeTest(co, rule, group);
      AlertsStep(co, text, rule, events, order, k, alerts, finding);
      if finding == None {
        return None;
      }
      if finding.value.triggered {
        var evidence := finding.value.evidence;
        var shown := if evidence != [] then evidence else group;
        alerts := alerts + [BuildAlert(text, rule, key, shown, finding.value.observed)];
      }
    }
    NoKeys(co, text, rule, events);
    assert order[|order|..] == [] && alerts + [] == alerts;
    r := Some(alerts);
  }

  ghost function Prepend(a: seq<Alert>, r: Option<seq<Alert>>): Option<seq<Alert>> {
    match r case None => None case Some(b) => Some(a + b)
  }

  lemma NoKeys(co: Coercions, text: Value -> string, rule: Rule, events: seq<Event>)
    ensures AlertsForKeys(co, text, rule, events, []) == Some([])
  {
  }

  lemma AlertsStep(co: Coercions, text: Value -> string, rule: Rule, events: seq<Event>, order: seq<Value>,
                   k: nat, alerts: seq<Alert>, finding: Option<Finding>)
    requires k < |order| && forall key :: key in order ==> GroupOf(co, rule, events, key) != []
    requires finding == TestGroup(co, rule, GroupOf(co, rule, events, order[k]))
    ensures var group := GroupOf(co, rule, events, order[k]);
      var rest := AlertsForKeys(co, text, rule, events, order[k + 1..]);
      Prepend(alerts, AlertsForKeys(co, text, rule, events, order[k..]))
      == match finding
         case None => None
         case Some(f) =>
           if !f.triggered then Prepend(alerts, rest)
           else Prepend(alerts + [BuildAlert(text, rule, order[k],
                                    if f.evidence != [] then f.evidence else group, f.observed)], rest)
  {
    hide TestGroup, GroupOf, BuildAlert;
    assert order[k..][1..] == order[k + 1..];
    var rest := AlertsForKeys(co, text, rule, events, order[k + 1..]);
    if finding.Some? && rest.Some? {
      if finding.value.triggered {
        var a := BuildAlert(text, rule, order[k],
                   if finding.value.evidence != [] then finding.value.evidence
                   else GroupOf(co, rule, events, order[k]), finding.value.observed);
        assert alerts + ([a] + rest.value) == (alerts + [a]) + rest.value;
      } else {
        assert [] + rest.value == rest.value;
      }
    }
  }

  lemma PrependNothing(r: Option<seq<Alert>>)
    ensures Prepend([], r) == r
  {
    if r.Some? {
      assert [] + r.value == r.value;
    }
  }

  lemma GroupsAreGroups(co: Coercions, rule: Rule, events: seq<Event>, order: seq<Value>,
                        groups: map<Value, seq<Event>>)
    requires var c := Candidates(co, rule, events); GroupedUpTo(c, rule.groupBy, |c|, order, groups)
    ensures order == AllKeys(co, rule, events)
    ensures forall key :: key in order ==> key in groups && groups[key] == GroupOf(co, rule, events, key)
    ensures forall key :: key in order ==> GroupOf(co, rule, events, key) != []
  {
    var c := Candidates(co, rule, events);
    assert c[..|c|] == c;
  }
}
