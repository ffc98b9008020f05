/**
  The alert table (pipeline/detection/rules.py, persist_alerts and run_detection): an upsert by
  dedupe key, and what is left in the table after any history of detection runs.
 */
module Alerts {
  import opened Wrappers
  import opened Sequences
  import opened SlidingPeak
  import opened Detection
  import opened DetectionLaws

  /** A stored alert: the payload that created the row, of which id, rule, source, description and the like are kept;
      the latest payload, whose evidence, severity and title are shown; and the three fields that are ratcheted. */
  datatype Row = Row(created: Alert, latest: Alert, hitCount: int, firstSeen: int, lastSeen: int)

  type Table = map<string, Row>

  function NewRow(a: Alert): Row { Row(a, a, a.hitCount, a.firstSeen, a.lastSeen) }

  function Max(a: int, b: int): int { if a >= b then a else b }

  function Min(a: int, b: int): int { if a <= b then a else b }

  function Updated(row: Row, a: Alert): Row {
    row.(latest := a,
         hitCount := Max(row.hitCount, a.hitCount),
         lastSeen := Max(row.lastSeen, a.lastSeen),
         firstSeen := Min(row.firstSeen, a.firstSeen))
  }

  function Upsert(t: Table, a: Alert): Table {
    t[a.dedupeKey := if a.dedupeKey in t then Updated(t[a.dedupeKey], a) else NewRow(a)]
  }

  function Persist(t: Table, batch: seq<Alert>): Table {
    if batch == [] then t else Upsert(Persist(t, batch[..|batch| - 1]), batch[|batch| - 1])
  }

  /** The payloads that created a row, in order: those the pipeline notifies about. */
  function Created(t: Table, batch: seq<Alert>): seq<Alert> {
    if batch == [] then []
    else
      var before := batch[..|batch| - 1];
      var a := batch[|batch| - 1];
      Created(t, before) + if a.dedupeKey in Persist(t, before) then [] else [a]
  }

  class AlertTable {
    var rows: Table

    constructor ()
      ensures rows == map[]
    {
      rows := map[];
    }

    method PersistAlerts(batch: seq<Alert>) returns (created: nat, updated: nat, createdPayloads: seq<Alert>)
      modifies this
      ensures rows == Persist(old(rows), batch)
      ensures createdPayloads == Created(old(rows), batch)
      ensures created == |createdPayloads| && created + updated == |batch|
    {
      created, updated, createdPayloads := 0, 0, [];
      for k := 0 to |batch|
        invariant rows == Persist(old(rows), batch[..k])
        invariant createdPayloads == Created(old(rows), batch[..k])
        invariant created == |createdPayloads| && created + updated == k
      {
        var payload := batch[k];
        assert batch[..k + 1][..k] == batch[..k];
        if payload.dedupeKey !in rows {
          rows := rows[payload.dedupeKey := NewRow(payload)];
          created := created + 1;
          createdPayloads := createdPayloads + [payload];
          continue;
        }
        rows := rows[payload.dedupeKey := Updated(rows[payload.dedupeKey], payload)];
        updated := updated + 1;
      }
      assert batch[..|batch|] == batch;
    }
  }

  // ------------------------------------------------------------------- one run

  /** `evaluate_rules`: a rule that raises is skipped. */
  ghost function EvaluateRules(co: Coercions, text: Value -> string, rules: seq<Rule>, events: seq<Event>): seq<Alert> {
    if rules == [] then []
    else
      EvaluateRules(co, text, rules[..|rules| - 1], events)
      + match Evaluate(co, text, rules[|rules| - 1], events) case None => [] case Some(alerts) => alerts
  }

  method ComputeAlerts(co: Coercions, text: Value -> string, rules: seq<Rule>, events: seq<Event>)
    returns (alerts: seq<Alert>)
    ensures alerts == EvaluateRules(co, text, rules, events)
  {
    alerts := [];
    for k := 0 to |rules|
      invariant alerts == EvaluateRules(co, text, rules[..k], events)
    {
      assert rules[..k + 1][..k] == rules[..k];
      var found := EvaluateRule(co, text, rules[k], events);
      if found.Some? {
        alerts := alerts + found.value;
      }
    }
    assert rules[..|rules|] == rules;
  }

  function Since(start: int): Event -> bool { (e: Event) => e.ts >= start }

  /** What `run_detection` evaluates: exactly the events from `start` on, oldest first, and those of the same time in
      the order of the log. */
  lemma RecentEvents(events: seq<Event>, start: int)
    ensures var recent := ByTime(Filter(events, Since(start)));
      && (forall e :: multiset(recent)[e] == if e.ts >= start then multiset(events)[e] else 0)
      && (forall i, j :: 0 <= i < j < |recent| ==> recent[i].ts <= recent[j].ts)
      && (forall t :: t >= start ==> Filter(recent, HappenedAt(t)) == Filter(events, HappenedAt(t)))
  {
    hide Filter, StableSort;
    var chosen := Filter(events, Since(start));
    FilterMultiset(events, Since(start));
    ByTimeOrdered(chosen);
    forall t | t >= start ensures Filter(ByTime(chosen), HappenedAt(t)) == Filter(events, HappenedAt(t)) {
      SortStable(chosen, Earlier, HappenedAt(t));
      FilterBoth(events, Since(start), HappenedAt(t));
      SameChoice(events, Both(Since(start), HappenedAt(t)), HappenedAt(t));
    }
  }

  function HappenedAt(t: int): Event -> bool { (e: Event) => e.ts == t }

  lemma {:induction false} SameChoice(events: seq<Event>, p: Event -> bool, q: Event -> bool)
    requires forall e :: p(e) <==> q(e)
    ensures Filter(events, p) == Filter(events, q)
  {
    if events != [] {
      SameChoice(events[1..], p, q);
    }
  }

  /** `run_detection`: evaluate the recent events, persist, and hand exactly the created alerts to the
      notifier. */
  method RunDetection(table: AlertTable, co: Coercions, text: Value -> string, rules: seq<Rule>,
                      events: seq<Event>, start: int)
    returns (notified: seq<Alert>)
    modifies table
    ensures var alerts := EvaluateRules(co, text, rules, ByTime(Filter(events, Since(start))));
      table.rows == Persist(old(table.rows), alerts) && notified == Created(old(table.rows), alerts)
  {
    var recent := ByTime(Filter(events, Since(start)));
    var alerts := ComputeAlerts(co, text, rules, recent);
    var created, updated;
    created, updated, notified := table.PersistAlerts(alerts);
  }

  // ----------------------------------------------------------- what a row means

  ghost predicate HasKey(batch: seq<Alert>, key: string) {
    exists a :: a in batch && a.dedupeKey == key
  }

  /** `row` summarises exactly the payloads with `key`: the largest hit count, the earliest first
      sighting and the latest last sighting, each attained. */
  ghost predicate Summarises(row: Row, batch: seq<Alert>, key: string) {
    && (forall a :: a in batch && a.dedupeKey == key ==>
          a.hitCount <= row.hitCount && row.firstSeen <= a.firstSeen && a.lastSeen <= row.lastSeen)
    && (exists a :: a in batch && a.dedupeKey == key && a.hitCount == row.hitCount)
    && (exists a :: a in batch && a.dedupeKey == key && a.firstSeen == row.firstSeen)
    && (exists a :: a in batch && a.dedupeKey == key && a.lastSeen == row.lastSeen)
  }

  /** One row per dedupe key ever persisted, holding the extremes of its payloads. */
  lemma {:induction false} RowsSummarise(batch: seq<Alert>, key: string)
    ensures key in Persist(map[], batch) <==> HasKey(batch, key)
    ensures key in Persist(map[], batch) ==> Summarises(Persist(map[], batch)[key], batch, key)
  {
    if batch != [] {
      var before, a := batch[..|batch| - 1], batch[|batch| - 1];
      RowsSummarise(before, key);
      assert batch == before + [a];
      if a.dedupeKey == key {
        RowTouched(Persist(map[], before), before, a);
      } else {
        RowUntouched(before, a, key);
      }
    }
  }

  lemma RowTouched(t: Table, before: seq<Alert>, a: Alert)
    requires a.dedupeKey in t <==> HasKey(before, a.dedupeKey)
    requires a.dedupeKey in t ==> Summarises(t[a.dedupeKey], before, a.dedupeKey)
    ensures HasKey(before + [a], a.dedupeKey)
    ensures Summarises(Upsert(t, a)[a.dedupeKey], before + [a], a.dedupeKey)
  {
    var key, batch := a.dedupeKey, before + [a];
    assert forall x :: x in batch <==> x in before || x == a;
    if key in t {
      var h :| h in before && h.dedupeKey == key && h.hitCount == t[key].hitCount;
      var f :| f in before && f.dedupeKey == key && f.firstSeen == t[key].firstSeen;
      var l :| l in before && l.dedupeKey == key && l.lastSeen == t[key].lastSeen;
      assert h in batch && f in batch && l in batch && a in batch;
    }
  }

  /** Payload `k` is the last with its key. */
  ghost predicate IsLastOf(batch: seq<Alert>, key: string, k: nat) {
    k < |batch| && batch[k].dedupeKey == key && forall j :: k < j < |batch| ==> batch[j].dedupeKey != key
  }

  /** Payload `k` is the first with its key. */
  ghost predicate IsFirstOf(batch: seq<Alert>, key: string, k: nat) {
    k < |batch| && batch[k].dedupeKey == key && forall j :: 0 <= j < k ==> batch[j].dedupeKey != key
  }

  /** What is not ratcheted is overwritten by the latest payload or kept from the one that created the row; a key that
      does not occur keeps its row. */
  lemma {:induction false} RowShowsLatest(t: Table, batch: seq<Alert>, key: string)
    ensures key in Persist(t, batch) <==> key in t || HasKey(batch, key)
    ensures forall k: nat :: IsLastOf(batch, key, k) ==>
              key in Persist(t, batch) && Persist(t, batch)[key].latest == batch[k]
    ensures key in t ==> Persist(t, batch)[key].created == t[key].created
    ensures key !in t ==>
      forall k: nat :: IsFirstOf(batch, key, k) ==>
        key in Persist(t, batch) && Persist(t, batch)[key].created == batch[k]
    ensures !HasKey(batch, key) && key in t ==> Persist(t, batch)[key] == t[key]
  {
    if batch != [] {
      hide IsFirstOf, IsLastOf, HasKey;
      var before, a := batch[..|batch| - 1], batch[|batch| - 1];
      assert batch == before + [a];
      RowShowsLatest(t, before, key);
      KeyStep(before, a, key);
      ExtremesStep(before, a, key);
    } else {
      NoKeys(key);
    }
  }

  lemma NoKeys(key: string)
    ensures !HasKey([], key) && forall k: nat :: !IsFirstOf([], key, k) && !IsLastOf([], key, k)
  {
  }

  /** The first and the last payload with the key, after one more payload. */
  lemma ExtremesStep(before: seq<Alert>, a: Alert, key: string)
    ensures forall k: nat :: IsFirstOf(before + [a], key, k) ==>
              if k < |before| then (before + [a])[k] == before[k] && IsFirstOf(before, key, k)
              else k == |before| && a.dedupeKey == key && !HasKey(before, key)
    ensures forall k: nat :: IsLastOf(before + [a], key, k) ==>
              if k < |before| then (before + [a])[k] == before[k] && IsLastOf(before, key, k) && a.dedupeKey != key
              else k == |before| && a.dedupeKey == key
  {
    var batch := before + [a];
    forall k: nat | IsFirstOf(batch, key, k)
      ensures k < |before| ==> IsFirstOf(before, key, k)
      ensures k >= |before| ==> !HasKey(before, key)
    {
      assert forall j :: 0 <= j < k ==> batch[j] == before[j];
      if k == |before| {
        FirstMeansNew(before, a, key);
      }
    }
    forall k: nat | IsLastOf(batch, key, k) && k < |before| ensures IsLastOf(before, key, k) && a.dedupeKey != key {
      assert batch[|before|].dedupeKey != key;
      assert forall j :: k < j < |before| ==> batch[j] == before[j];
    }
  }

  lemma KeyStep(before: seq<Alert>, a: Alert, key: string)
    ensures HasKey(before + [a], key) <==> HasKey(before, key) || a.dedupeKey == key
  {
    assert forall x :: x in before + [a] <==> x in before || x == a;
  }

  lemma FirstMeansNew(before: seq<Alert>, a: Alert, key: string)
    requires IsFirstOf(before + [a], key, |before|)
    ensures !HasKey(before, key)
  {
    forall j | 0 <= j < |before| ensures before[j].dedupeKey != key {
      assert (before + [a])[j] == before[j];
    }
  }

  lemma RowUntouched(before: seq<Alert>, a: Alert, key: string)
    requires a.dedupeKey != key
    ensures HasKey(before + [a], key) <==> HasKey(before, key)
    ensures forall row :: Summarises(row, before, key) ==> Summarises(row, before + [a], key)
  {
    if HasKey(before + [a], key) {
      var b :| b in before + [a] && b.dedupeKey == key;
      assert b in before;
    }
  }

  /** The three ratcheted fields are determined by the payloads as a set. */
  lemma SummaryUnique(r: Row, s: Row, a: seq<Alert>, b: seq<Alert>, key: string)
    requires Summarises(r, a, key) && Summarises(s, b, key)
    requires forall x :: x in a && x.dedupeKey == key ==> x in b
    requires forall x :: x in b && x.dedupeKey == key ==> x in a
    ensures r.hitCount == s.hitCount && r.firstSeen == s.firstSeen && r.lastSeen == s.lastSeen
  {
  }

  function PersistRuns(t: Table, batches: seq<seq<Alert>>): Table {
    if batches == [] then t else Persist(PersistRuns(t, batches[..|batches| - 1]), batches[|batches| - 1])
  }

  lemma {:induction false} PersistConcat(t: Table, a: seq<Alert>, b: seq<Alert>)
    ensures Persist(t, a + b) == Persist(Persist(t, a), b)
    decreases |b|
  {
    if b == [] {
      assert a + b == a;
    } else {
      assert (a + b)[..|a + b| - 1] == a + b[..|b| - 1];
      PersistConcat(t, a, b[..|b| - 1]);
    }
  }

  /** Any history of runs leaves the table one run over all their payloads would leave. */
  lemma {:induction false} RunsAreOneBatch(t: Table, batches: seq<seq<Alert>>)
    ensures PersistRuns(t, batches) == Persist(t, Concat(batches))
  {
    if batches != [] {
      RunsAreOneBatch(t, batches[..|batches| - 1]);
      PersistConcat(t, Concat(batches[..|batches| - 1]), batches[|batches| - 1]);
    }
  }

  lemma {:induction false} ConcatMembers(batches: seq<seq<Alert>>)
    ensures forall a :: a in Concat(batches) <==> exists k :: 0 <= k < |batches| && a in batches[k]
  {
    if batches != [] {
      var before := batches[..|batches| - 1];
      ConcatMembers(before);
      forall a ensures a in Concat(batches) <==> exists k :: 0 <= k < |batches| && a in batches[k] {
        if a in Concat(before) {
          var k :| 0 <= k < |before| && a in before[k];
          assert a in batches[k];
        }
        if k :| 0 <= k < |batches| && a in batches[k] && k < |batches| - 1 {
          assert a in before[k];
        }
      }
    }
  }

  /** Two histories whose batches hold the same payloads in any order, split in any way and
      repeated any number of times, store the same keys with the same ratcheted fields. */
  lemma HistoryOrderIrrelevant(a: seq<seq<Alert>>, b: seq<seq<Alert>>, key: string)
    requires forall x :: x in Concat(a) <==> x in Concat(b)
    ensures key in PersistRuns(map[], a) <==> key in PersistRuns(map[], b)
    ensures key in PersistRuns(map[], a) ==>
      var r, s := PersistRuns(map[], a)[key], PersistRuns(map[], b)[key];
      r.hitCount == s.hitCount && r.firstSeen == s.firstSeen && r.lastSeen == s.lastSeen
  {
    hide Persist, Concat;
    RunsAreOneBatch(map[], a);
    RunsAreOneBatch(map[], b);
    RowsSummarise(Concat(a), key);
    RowsSummarise(Concat(b), key);
    if key in PersistRuns(map[], a) {
      SummaryUnique(PersistRuns(map[], a)[key], PersistRuns(map[], b)[key], Concat(a), Concat(b), key);
    }
  }

  /** Replaying a batch that is already stored changes no key and no ratcheted field. */
  lemma ReplayChangesNothing(history: seq<Alert>, batch: seq<Alert>, key: string)
    requires forall x :: x in batch ==> x in history
    ensures key in Persist(Persist(map[], history), batch) <==> key in Persist(map[], history)
    ensures key in Persist(map[], history) ==>
      var r, s := Persist(Persist(map[], history), batch)[key], Persist(map[], history)[key];
      r.hitCount == s.hitCount && r.firstSeen == s.firstSeen && r.lastSeen == s.lastSeen
  {
    PersistConcat(map[], history, batch);
    RowsSummarise(history, key);
    RowsSummarise(history + batch, key);
    if key in Persist(map[], history) {
      SummaryUnique(Persist(map[], history + batch)[key], Persist(map[], history)[key], history + batch, history, key);
    }
  }

  // -------------------------------------------------------------- notifications

  ghost function CountKey(batch: seq<Alert>, key: string): nat {
    if batch == [] then 0
    else CountKey(batch[..|batch| - 1], key) + if batch[|batch| - 1].dedupeKey == key then 1 else 0
  }

  function CreatedRuns(t: Table, batches: seq<seq<Alert>>): seq<Alert> {
    if batches == [] then []
    else
      var before := batches[..|batches| - 1];
      CreatedRuns(t, before) + Created(PersistRuns(t, before), batches[|batches| - 1])
  }

  lemma {:induction false} CountConcat(a: seq<Alert>, b: seq<Alert>, key: string)
    ensures CountKey(a + b, key) == CountKey(a, key) + CountKey(b, key)
    decreases |b|
  {
    if b == [] {
      assert a + b == a;
    } else {
      assert (a + b)[..|a + b| - 1] == a + b[..|b| - 1];
      CountConcat(a, b[..|b| - 1], key);
    }
  }

  lemma {:induction false} CreatedOnce(t: Table, batch: seq<Alert>, key: string)
    ensures CountKey(Created(t, batch), key)
         == if key !in t && key in Persist(t, batch) then 1 else 0
    ensures key in t ==> key in Persist(t, batch)
  {
    if batch != [] {
      var before, a := batch[..|batch| - 1], batch[|batch| - 1];
      CreatedOnce(t, before, key);
      CountConcat(Created(t, before), [a], key);
      assert [a][..0] == [];
      assert Created(t, before) + [] == Created(t, before);
      assert CountKey([a], key) == CountKey([], key) + if a.dedupeKey == key then 1 else 0;
    }
  }

  /** Over any history of runs from an empty table, a key is notified exactly once if any payload
      ever carried it, and never otherwise. */
  lemma {:induction false} NotifiedExactlyOnce(batches: seq<seq<Alert>>, key: string)
    ensures CountKey(CreatedRuns(map[], batches), key) == if HasKey(Concat(batches), key) then 1 else 0
  {
    RunsAreOneBatch(map[], batches);
    RowsSummarise(Concat(batches), key);
    NotifiedAsStored(batches, key);
  }

  lemma {:induction false} NotifiedAsStored(batches: seq<seq<Alert>>, key: string)
    ensures CountKey(CreatedRuns(map[], batches), key) == if key in PersistRuns(map[], batches) then 1 else 0
  {
    if batches != [] {
      var before, last := batches[..|batches| - 1], batches[|batches| - 1];
      NotifiedAsStored(before, key);
      CountConcat(CreatedRuns(map[], before), Created(PersistRuns(map[], before), last), key);
      CreatedOnce(PersistRuns(map[], before), last, key);
    }
  }

  // ------------------------------------------------------------------ histories

  lemma {:induction false} EvaluateRulesMembers(co: Coercions, text: Value -> string, rules: seq<Rule>,
                                                events: seq<Event>)
    ensures forall a :: a in EvaluateRules(co, text, rules, events) <==>
              exists r :: r in rules && Evaluate(co, text, r, events).Some? && a in Evaluate(co, text, r, events).value
  {
    hide Evaluate;
    if rules != [] {
      var before, last := rules[..|rules| - 1], rules[|rules| - 1];
      assert rules == before + [last];
      EvaluateRulesMembers(co, text, before, events);
    }
  }

  ghost function Findings(co: Coercions, text: Value -> string, rules: seq<Rule>,
                          logs: seq<seq<Event>>): seq<seq<Alert>>
  {
    if logs == [] then []
    else Findings(co, text, rules, logs[..|logs| - 1]) + [EvaluateRules(co, text, rules, logs[|logs| - 1])]
  }

  lemma {:induction false} FindingsAt(co: Coercions, text: Value -> string, rules: seq<Rule>, logs: seq<seq<Event>>)
    ensures |Findings(co, text, rules, logs)| == |logs|
    ensures forall k :: 0 <= k < |logs| ==>
              Findings(co, text, rules, logs)[k] == EvaluateRules(co, text, rules, logs[k])
  {
    hide EvaluateRules;
    if logs != [] {
      FindingsAt(co, text, rules, logs[..|logs| - 1]);
    }
  }

  ghost predicate Growing(logs: seq<seq<Event>>) {
    forall k :: 0 <= k < |logs| ==> multiset(logs[k]) <= multiset(logs[|logs| - 1])
  }

  /** The rule may produce alerts with this dedupe key on the log: one of its group keys prints that way. */
  ghost predicate Concerns(text: Value -> string, rule: Rule, log: seq<Event>, key: string) {
    exists v: Value :: IsGroupKey(log, rule.groupBy, v) && DedupeKey(text, rule, v) == key
  }

  /** Every rule that can produce the key counts events and does not raise on the log. */
  ghost predicate Countable(co: Coercions, text: Value -> string, rules: seq<Rule>, log: seq<Event>, key: string) {
    forall r :: r in rules && Concerns(text, r, log, key) ==> CountsEvents(r) && !RaisesOn(co, r.where_, log)
  }

  /** Every rule that can produce the key is a match rule. */
  ghost predicate OnlyMatches(text: Value -> string, rules: seq<Rule>, log: seq<Event>, key: string) {
    forall r :: r in rules && Concerns(text, r, log, key) ==> r.kind == Match
  }

  /** `b` has the key of `a` and at least its hits, and if `span` is set it covers its time span. */
  predicate Outdoes(b: Alert, a: Alert, span: bool) {
    && b.dedupeKey == a.dedupeKey && a.hitCount <= b.hitCount
    && (span ==> b.firstSeen <= a.firstSeen && a.lastSeen <= b.lastSeen)
  }

  /** On a log contained in `last`, every finding is outdone by a finding of the same key on `last`. */
  lemma {:induction false} OutdoneOnLast(co: Coercions, text: Value -> string, rules: seq<Rule>, log: seq<Event>,
                                         last: seq<Event>,
                                             a: Alert)
    returns (b: Alert)
    requires multiset(log) <= multiset(last) && Countable(co, text, rules, last, a.dedupeKey)
    requires a in EvaluateRules(co, text, rules, log)
    ensures b in EvaluateRules(co, text, rules, last)
    ensures Outdoes(b, a, OnlyMatches(text, rules, last, a.dedupeKey))
  {
    hide Evaluate, EvaluateRules, Fires, AlertOf, GroupOf, DedupeKey;
    EvaluateRulesMembers(co, text, rules, log);
    EvaluateRulesMembers(co, text, rules, last);
    var r :| r in rules && Evaluate(co, text, r, log).Some? && a in Evaluate(co, text, r, log).value;
    DisabledSilent(co, text, r, log);
    OneAlertPerFiringGroup(co, text, r, log);
    AlertKey(co, text, r, a.key, GroupOf(co, r, log, a.key));
    FiresNonEmpty(co, r, GroupOf(co, r, log, a.key));
    GroupKeyOccurs(co, r, log, last, a.key);
    assert Concerns(text, r, last, a.dedupeKey);
    FiringSurvivesGrowth(co, text, r, log, last, a);
    b :| b in Evaluate(co, text, r, last).value && b.key == a.key;
    AlertGrows(co, text, r, log, last, a, b);
    OneAlertPerFiringGroup(co, text, r, last);
    AlertKey(co, text, r, a.key, GroupOf(co, r, last, a.key));
  }

  lemma DisabledSilent(co: Coercions, text: Value -> string, rule: Rule, events: seq<Event>)
    ensures !rule.enabled ==> Evaluate(co, text, rule, events) == Some([])
  {
  }

  ghost predicate HasAbove(last: seq<Alert>, a: Alert, span: bool) {
    exists b :: b in last && Outdoes(b, a, span)
  }

  ghost predicate Outdone(all: seq<Alert>, last: seq<Alert>, key: string, span: bool) {
    && (forall b :: b in last ==> b in all)
    && (forall a :: a in all && a.dedupeKey == key ==> HasAbove(last, a, span))
  }

  lemma Above(all: seq<Alert>, last: seq<Alert>, a: Alert, span: bool) returns (b: Alert)
    requires Outdone(all, last, a.dedupeKey, span) && a in all
    ensures b in last && b in all && Outdoes(b, a, span)
  {
    hide Outdone;
    assert HasAbove(last, a, span) && forall x :: x in last ==> x in all by { OutdoneParts(all, last, a, span); }
    b :| b in last && Outdoes(b, a, span);
  }

  lemma OutdoneParts(all: seq<Alert>, last: seq<Alert>, a: Alert, span: bool)
    requires Outdone(all, last, a.dedupeKey, span) && a in all
    ensures HasAbove(last, a, span) && forall x :: x in last ==> x in all
  {
    hide HasAbove;
  }

  lemma SameKeys(all: seq<Alert>, last: seq<Alert>, key: string, span: bool)
    requires Outdone(all, last, key, span)
    ensures HasKey(all, key) <==> HasKey(last, key)
  {
    hide HasAbove;
    if HasKey(all, key) {
      var a :| a in all && a.dedupeKey == key;
      var b := Above(all, last, a, span);
    }
  }

  lemma {:induction false} SameFields(r: Row, s: Row, all: seq<Alert>, last: seq<Alert>, key: string,
                                        span: bool)
    requires Outdone(all, last, key, span) && Summarises(r, all, key) && Summarises(s, last, key)
    ensures r.hitCount == s.hitCount && (span ==> r.firstSeen == s.firstSeen && r.lastSeen == s.lastSeen)
  {
    hide HasAbove;
    var a :| a in all && a.dedupeKey == key && a.hitCount == r.hitCount;
    var b := Above(all, last, a, span);
    if span {
      var f :| f in all && f.dedupeKey == key && f.firstSeen == r.firstSeen;
      var l :| l in all && l.dedupeKey == key && l.lastSeen == r.lastSeen;
      var g := Above(all, last, f, span);
      var h := Above(all, last, l, span);
    }
    OutdoneContains(all, last, key, span);
  }

  lemma OutdoneContains(all: seq<Alert>, last: seq<Alert>, key: string, span: bool)
    requires Outdone(all, last, key, span)
    ensures forall x :: x in last ==> x in all
  {
    hide HasAbove;
  }

  lemma AllOutdone(co: Coercions, text: Value -> string, rules: seq<Rule>, logs: seq<seq<Event>>, key: string)
    requires logs != [] && Growing(logs) && Countable(co, text, rules, logs[|logs| - 1], key)
    ensures Outdone(Concat(Findings(co, text, rules, logs)), EvaluateRules(co, text, rules, logs[|logs| - 1]), key,
                    OnlyMatches(text, rules, logs[|logs| - 1], key))
  {
    hide EvaluateRules, Concat, Countable, OnlyMatches;
    var span := OnlyMatches(text, rules, logs[|logs| - 1], key);
    var all, last := Findings(co, text, rules, logs), EvaluateRules(co, text, rules, logs[|logs| - 1]);
    FindingsAt(co, text, rules, logs);
    ConcatMembers(all);
    assert all[|logs| - 1] == last;
    forall a | a in Concat(all) && a.dedupeKey == key
      ensures HasAbove(last, a, span)
    {
      var k :| 0 <= k < |all| && a in all[k];
      var b := OutdoneOnLast(co, text, rules, logs[k], logs[|logs| - 1], a);
    }
  }

  /** The hit counts stored after any sequence of runs over growing logs are those of a single run over the last log,
      for every key whose rules count events and do not raise on it; for match rules so are the first and last times. */
  lemma {:induction false} HistoryEqualsLastRun(co: Coercions, text: Value -> string, rules: seq<Rule>,
                                                logs: seq<seq<Event>>, key: string)
    requires logs != [] && Growing(logs) && Countable(co, text, rules, logs[|logs| - 1], key)
    ensures var many := PersistRuns(map[], Findings(co, text, rules, logs));
            var once := Persist(map[], EvaluateRules(co, text, rules, logs[|logs| - 1]));
      && (key in many <==> key in once)
      && (key in many ==> many[key].hitCount == once[key].hitCount)
      && (key in many && OnlyMatches(text, rules, logs[|logs| - 1], key) ==>
            many[key].firstSeen == once[key].firstSeen && many[key].lastSeen == once[key].lastSeen)
  {
    hide EvaluateRules, Persist, PersistRuns, Concat, Summarises, HasKey, Outdone, Countable, OnlyMatches;
    var span := OnlyMatches(text, rules, logs[|logs| - 1], key);
    var all := Concat(Findings(co, text, rules, logs));
    var last := EvaluateRules(co, text, rules, logs[|logs| - 1]);
    RunsAreOneBatch(map[], Findings(co, text, rules, logs));
    AllOutdone(co, text, rules, logs, key);
    RowsSummarise(all, key);
    RowsSummarise(last, key);
    var many, once := Persist(map[], all), Persist(map[], last);
    SameKeys(all, last, key, span);
    if key in many {
      SameFields(many[key], once[key], all, last, key, span);
    }
  }

  // ------------------------------------------------------- histories of distinct rules

  /** Among the group keys of the log, only the given value, under the given rule, produces the dedupe key. */
  ghost predicate Sole(text: Value -> string, rules: seq<Rule>, rule: Rule, v: Value, log: seq<Event>, key: string) {
    && rule in rules && DedupeKey(text, rule, v) == key
    && forall r: Rule, w: Value ::
         r in rules && IsGroupKey(log, r.groupBy, w) && DedupeKey(text, r, w) == key ==> r == rule && w == v
  }

  /** The one payload a log can yield for such a key. */
  lemma SolePayload(co: Coercions, text: Value -> string, rules: seq<Rule>, rule: Rule, v: Value, key: string,
                    log: seq<Event>, last: seq<Event>)
    requires Sole(text, rules, rule, v, last, key) && multiset(log) <= multiset(last)
    requires rule.enabled && Evaluate(co, text, rule, log).Some?
    ensures forall a :: a in EvaluateRules(co, text, rules, log) && a.dedupeKey == key ==>
      var group := GroupOf(co, rule, log, v);
      v != Null && Fires(co, rule, group) && a == AlertOf(co, text, rule, v, group)
    ensures v != Null && Fires(co, rule, GroupOf(co, rule, log, v)) ==>
      var a := AlertOf(co, text, rule, v, GroupOf(co, rule, log, v));
      a in EvaluateRules(co, text, rules, log) && a.dedupeKey == key
  {
    hide Evaluate, EvaluateRules, Fires, AlertOf, GroupOf, DedupeKey;
    EvaluateRulesMembers(co, text, rules, log);
    OneAlertPerFiringGroup(co, text, rule, log);
    if v != Null && Fires(co, rule, GroupOf(co, rule, log, v)) {
      AlertKey(co, text, rule, v, GroupOf(co, rule, log, v));
    }
    forall a | a in EvaluateRules(co, text, rules, log) && a.dedupeKey == key
      ensures v != Null && Fires(co, rule, GroupOf(co, rule, log, v))
              && a == AlertOf(co, text, rule, v, GroupOf(co, rule, log, v))
    {
      var r :| r in rules && Evaluate(co, text, r, log).Some? && a in Evaluate(co, text, r, log).value;
      DisabledSilent(co, text, r, log);
      OneAlertPerFiringGroup(co, text, r, log);
      AlertKey(co, text, r, a.key, GroupOf(co, r, log, a.key));
      FiresNonEmpty(co, r, GroupOf(co, r, log, a.key));
      GroupKeyOccurs(co, r, log, last, a.key);
    }
  }

  /** The rule fired on the earlier group, and on the last one the first window to reach the peak is shorter. */
  ghost predicate Outlived(co: Coercions, text: Value -> string, rule: Rule, v: Value, earlier: seq<Event>,
                           last: seq<Event>)
  {
    Fires(co, rule, earlier)
    && ShorterBest(last, 0, rule, AlertOf(co, text, rule, v, earlier).hitCount)
  }

  /** What a run over the log `j` contributes, compared with the last run. */
  lemma RunAgainstLast(co: Coercions, text: Value -> string, rule: Rule, v: Value, log: seq<Event>, last: seq<Event>)
    requires rule.enabled && rule.kind == Distinct && !RaisesOn(co, rule.where_, last)
    requires multiset(log) <= multiset(last)
    ensures Evaluate(co, text, rule, log).Some?
    ensures var g, h := GroupOf(co, rule, log, v), GroupOf(co, rule, last, v);
      Fires(co, rule, g) ==>
        Fires(co, rule, h)
        && (AlertOf(co, text, rule, v, h).hitCount < AlertOf(co, text, rule, v, g).hitCount
            <==> Outlived(co, text, rule, v, g, h))
  {
    hide Evaluate, GroupOf, Fires, AlertOf, ShorterBest;
    RaisesIff(co, text, rule, log);
    Contained(log, last);
    GroupMonotone(co, rule, log, last, v);
    var g, h := GroupOf(co, rule, log, v), GroupOf(co, rule, last, v);
    if Fires(co, rule, g) {
      FiresMonotone(co, rule, g, h);
      DistinctGroupGrows(co, text, rule, v, g, h);
    }
  }

  /** Run `j` found something for the key. */
  ghost predicate Found(co: Coercions, rule: Rule, v: Value, logs: seq<seq<Event>>, j: nat) {
    j < |logs| && v != Null && Fires(co, rule, GroupOf(co, rule, logs[j], v))
  }

  ghost function PayloadOf(co: Coercions, text: Value -> string, rule: Rule, v: Value, log: seq<Event>): Alert
    requires Fires(co, rule, GroupOf(co, rule, log, v))
  {
    AlertOf(co, text, rule, v, GroupOf(co, rule, log, v))
  }

  /** All payloads with the key that a history produces. */
  lemma SoleHistory(co: Coercions, text: Value -> string, rules: seq<Rule>, rule: Rule, v: Value, key: string,
                    logs: seq<seq<Event>>)
    requires logs != [] && Growing(logs) && Sole(text, rules, rule, v, logs[|logs| - 1], key) && rule.enabled
    requires forall j :: 0 <= j < |logs| ==> Evaluate(co, text, rule, logs[j]).Some?
    ensures var all := Concat(Findings(co, text, rules, logs));
      && (forall j: nat :: Found(co, rule, v, logs, j) ==>
            PayloadOf(co, text, rule, v, logs[j]) in all && PayloadOf(co, text, rule, v, logs[j]).dedupeKey == key)
      && (forall a :: a in all && a.dedupeKey == key ==>
            exists j: nat :: Found(co, rule, v, logs, j) && a == PayloadOf(co, text, rule, v, logs[j]))
  {
    hide Evaluate, EvaluateRules, Fires, AlertOf, GroupOf, Sole, Concat;
    var runs := Findings(co, text, rules, logs);
    FindingsAt(co, text, rules, logs);
    ConcatMembers(runs);
    forall j: nat | Found(co, rule, v, logs, j)
      ensures PayloadOf(co, text, rule, v, logs[j]) in Concat(runs)
      ensures PayloadOf(co, text, rule, v, logs[j]).dedupeKey == key
    {
      SolePayload(co, text, rules, rule, v, key, logs[j], logs[|logs| - 1]);
      assert PayloadOf(co, text, rule, v, logs[j]) in runs[j];
    }
    forall a | a in Concat(runs) && a.dedupeKey == key
      ensures exists j: nat :: Found(co, rule, v, logs, j) && a == PayloadOf(co, text, rule, v, logs[j])
    {
      var j :| 0 <= j < |runs| && a in runs[j];
      SolePayload(co, text, rules, rule, v, key, logs[j], logs[|logs| - 1]);
      assert Found(co, rule, v, logs, j);
    }
  }

  ghost predicate OutlivedAt(co: Coercions, text: Value -> string, rule: Rule, v: Value, logs: seq<seq<Event>>,
                             j: nat)
  {
    j < |logs| && Outlived(co, text, rule, v, GroupOf(co, rule, logs[j], v), GroupOf(co, rule, logs[|logs| - 1], v))
  }

  /** Every run against the last. */
  lemma RunsAgainstLast(co: Coercions, text: Value -> string, rule: Rule, v: Value, logs: seq<seq<Event>>)
    requires logs != [] && Growing(logs)
    requires rule.enabled && rule.kind == Distinct && !RaisesOn(co, rule.where_, logs[|logs| - 1])
    ensures forall j :: 0 <= j < |logs| ==> Evaluate(co, text, rule, logs[j]).Some?
    ensures forall j: nat :: Found(co, rule, v, logs, j) ==>
      && Found(co, rule, v, logs, |logs| - 1)
      && (PayloadOf(co, text, rule, v, logs[|logs| - 1]).hitCount < PayloadOf(co, text, rule, v, logs[j]).hitCount
          <==> OutlivedAt(co, text, rule, v, logs, j))
  {
    hide Evaluate, GroupOf, Fires, AlertOf, Outlived, RaisesOn;
    var last := logs[|logs| - 1];
    forall j | 0 <= j < |logs| ensures Evaluate(co, text, rule, logs[j]).Some? {
      RunAgainstLast(co, text, rule, v, logs[j], last);
    }
    forall j: nat | Found(co, rule, v, logs, j)
      ensures Found(co, rule, v, logs, |logs| - 1)
      ensures PayloadOf(co, text, rule, v, last).hitCount < PayloadOf(co, text, rule, v, logs[j]).hitCount
         <==> OutlivedAt(co, text, rule, v, logs, j)
    {
      RunAgainstLast(co, text, rule, v, logs[j], last);
    }
  }

  /** For a distinct rule and growing logs, the hit count stored after all runs is that of one run over the last log if
      and only if no run's evidence was outlived: on the last log the first window to reach the peak is not shorter. */
  lemma DistinctHistoryIff(co: Coercions, text: Value -> string, rules: seq<Rule>, rule: Rule, v: Value, key: string,
                           logs: seq<seq<Event>>)
    requires logs != [] && Growing(logs) && Sole(text, rules, rule, v, logs[|logs| - 1], key)
    requires rule.enabled && rule.kind == Distinct && !RaisesOn(co, rule.where_, logs[|logs| - 1])
    ensures var many := PersistRuns(map[], Findings(co, text, rules, logs));
            var once := Persist(map[], EvaluateRules(co, text, rules, logs[|logs| - 1]));
      && (key in many <==> key in once)
      && (key in many ==>
            (many[key].hitCount == once[key].hitCount <==> forall j: nat :: !OutlivedAt(co, text, rule, v, logs, j)))
  {
    hide EvaluateRules, Persist, PersistRuns, Concat, OutlivedAt, Found, PayloadOf, Sole, Growing, RaisesOn, Evaluate,
         Summarises, Fires, GroupOf, AlertOf;
    var last := logs[|logs| - 1];
    var all, payloads := Concat(Findings(co, text, rules, logs)), EvaluateRules(co, text, rules, last);
    RunsAgainstLast(co, text, rule, v, logs);
    SoleHistory(co, text, rules, rule, v, key, logs);
    SoleLastRun(co, text, rules, rule, v, key, logs);
    RunsAreOneBatch(map[], Findings(co, text, rules, logs));
    RowsSummarise(all, key);
    RowsSummarise(payloads, key);
    FoundMeans(co, rule, v, logs);
    if key in Persist(map[], all) {
      var a :| a in all && a.dedupeKey == key;
      var j: nat :| Found(co, rule, v, logs, j) && a == PayloadOf(co, text, rule, v, logs[j]);
      var b := PayloadOf(co, text, rule, v, last);
      MaxAgainst(Persist(map[], all)[key], Persist(map[], payloads)[key], all, payloads, key, b);
      OutlivedIsFound(co, text, rule, v, logs);
    }
  }

  lemma FoundMeans(co: Coercions, rule: Rule, v: Value, logs: seq<seq<Event>>)
    ensures forall j: nat :: Found(co, rule, v, logs, j) ==>
              j < |logs| && v != Null && Fires(co, rule, GroupOf(co, rule, logs[j], v))
  {
    hide Fires, GroupOf;
  }

  ghost predicate IsOnlyPayload(payloads: seq<Alert>, key: string, b: Alert) {
    b in payloads && b.dedupeKey == key && forall a :: a in payloads && a.dedupeKey == key ==> a == b
  }

  lemma SoleLastRun(co: Coercions, text: Value -> string, rules: seq<Rule>, rule: Rule, v: Value, key: string,
                    logs: seq<seq<Event>>)
    requires logs != [] && Sole(text, rules, rule, v, logs[|logs| - 1], key) && rule.enabled
    requires Evaluate(co, text, rule, logs[|logs| - 1]).Some?
    ensures HasKey(EvaluateRules(co, text, rules, logs[|logs| - 1]), key) ==> Found(co, rule, v, logs, |logs| - 1)
    ensures Found(co, rule, v, logs, |logs| - 1) ==>
      IsOnlyPayload(EvaluateRules(co, text, rules, logs[|logs| - 1]), key,
                    PayloadOf(co, text, rule, v, logs[|logs| - 1]))
  {
    hide EvaluateRules, Fires, GroupOf, AlertOf, Evaluate, Sole;
    SolePayload(co, text, rules, rule, v, key, logs[|logs| - 1], logs[|logs| - 1]);
  }

  /** Against a run whose only payload with the key is `b`, the maxima agree if and only if nothing exceeds `b`. */
  lemma MaxAgainst(r: Row, s: Row, all: seq<Alert>, payloads: seq<Alert>, key: string, b: Alert)
    requires Summarises(r, all, key) && Summarises(s, payloads, key) && b in all && b.dedupeKey == key
    requires forall a :: a in payloads && a.dedupeKey == key ==> a == b
    ensures r.hitCount == s.hitCount <==> forall a :: a in all && a.dedupeKey == key ==> a.hitCount <= b.hitCount
  {
  }

  lemma OutlivedIsFound(co: Coercions, text: Value -> string, rule: Rule, v: Value, logs: seq<seq<Event>>)
    requires v != Null
    ensures forall j: nat :: OutlivedAt(co, text, rule, v, logs, j) ==> Found(co, rule, v, logs, j)
  {
    hide GroupOf, Fires, AlertOf, ShorterBest;
  }

  /** A history in which they differ: the run over the slow log stores 4 hits and keeps them, one run over the longer
      log stores 3. */
  lemma DistinctHistoryDiffers(co: Coercions, text: Value -> string, rule: Rule)
    requires rule.enabled && rule.kind == Distinct && rule.distinctColumn == Some("username") && rule.where_ == []
    requires rule.windowMinutes == 5 && rule.threshold == 2.0 && rule.groupBy == "src_ip"
    ensures var key := DedupeKey(text, rule, Text("x"));
            var many := PersistRuns(map[], Findings(co, text, [rule], [SLOW] + [SLOW + FAST]));
            var once := Persist(map[], EvaluateRules(co, text, [rule], SLOW + FAST));
      key in many && key in once && many[key].hitCount == 4 && once[key].hitCount == 3
  {
    hide EvaluateRules, Persist, PersistRuns, Concat, Fires, AlertOf, GroupOf, DedupeKey, Findings, Evaluate;
    var key, x := DedupeKey(text, rule, Text("x")), Text("x");
    DistinctHitCountCanFall(co, text, rule);
    OneSource();
    var logs := [SLOW] + [SLOW + FAST];
    forall log | log == SLOW || log == SLOW + FAST
      ensures Evaluate(co, text, rule, log).Some?
      ensures AlertOf(co, text, rule, x, log) in EvaluateRules(co, text, [rule], log)
      ensures forall a :: a in EvaluateRules(co, text, [rule], log) ==> a == AlertOf(co, text, rule, x, log)
      ensures AlertOf(co, text, rule, x, log).dedupeKey == key
    {
      OneSourceAlert(co, text, rule, log);
    }
    var all := Concat(Findings(co, text, [rule], logs));
    FindingsAt(co, text, [rule], logs);
    ConcatMembers(Findings(co, text, [rule], logs));
    RunsAreOneBatch(map[], Findings(co, text, [rule], logs));
    var slow, both := AlertOf(co, text, rule, x, SLOW), AlertOf(co, text, rule, x, SLOW + FAST);
    assert logs[0] == SLOW && logs[1] == SLOW + FAST;
    assert slow in Findings(co, text, [rule], logs)[0] && both in Findings(co, text, [rule], logs)[1];
    assert forall a :: a in all ==> a == slow || a == both;
    RowsSummarise(all, key);
    RowsSummarise(EvaluateRules(co, text, [rule], SLOW + FAST), key);
  }

  lemma OneSourceAlert(co: Coercions, text: Value -> string, rule: Rule, log: seq<Event>)
    requires rule.enabled && rule.kind == Distinct && rule.where_ == [] && rule.groupBy == "src_ip"
    requires Fires(co, rule, log) && forall e :: e in log ==> e.Get("src_ip") == Text("x")
    ensures var a := AlertOf(co, text, rule, Text("x"), log);
      && Evaluate(co, text, rule, log).Some?
      && a in EvaluateRules(co, text, [rule], log) && a.dedupeKey == DedupeKey(text, rule, Text("x"))
      && forall b :: b in EvaluateRules(co, text, [rule], log) ==> b == a
  {
    hide Evaluate, EvaluateRules, Fires, AlertOf, DedupeKey, GroupOf;
    WholeGroup(co, rule, log, Text("x"));
    RaisesIff(co, text, rule, log);
    OneAlertPerFiringGroup(co, text, rule, log);
    EvaluateRulesMembers(co, text, [rule], log);
    AlertKey(co, text, rule, Text("x"), log);
    forall b | b in EvaluateRules(co, text, [rule], log) ensures b.key == Text("x") {
      FiresNonEmpty(co, rule, GroupOf(co, rule, log, b.key));
      OtherSourceEmpty(co, rule, log, b.key);
    }
  }

  lemma OtherSourceEmpty(co: Coercions, rule: Rule, log: seq<Event>, key: Value)
    requires rule.groupBy == "src_ip" && GroupOf(co, rule, log, key) != []
    requires forall e :: e in log ==> e.Get("src_ip") == Text("x")
    ensures key == Text("x")
  {
    GroupMembers(co, rule, log, key);
    var e := GroupOf(co, rule, log, key)[0];
    assert e in GroupOf(co, rule, log, key);
    assert KeyIs(rule.groupBy, key)(e);
  }
}
