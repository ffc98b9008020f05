/**
  What the sinks keep (honeypot/logger.py, _flush and _write_db): a batch is one transaction that
  upserts its sessions before it inserts its events. A session row needs columns that only its
  opening carries, and an event needs its session's row, so a batch can fail and is then lost as
  a whole. Any other failure of the database is not considered.
 */
module Storage {
  import opened Wrappers
  import opened Sequences
  import opened Writer
  import Session

  datatype Row = Row(sid: string, eventId: nat)

  /** The session rows, each with whether its closing data arrived, and the event rows in order. */
  datatype Db = Db(sessions: map<string, bool>, events: seq<Row>)

  const EMPTY := Db(map[], [])

  // ------------------------------------------------------------------- one batch

  /** One session upsert; a session without an id is skipped. None when a required column would be missing. */
  function Upsert(sessions: map<string, bool>, item: Item): Option<map<string, bool>> {
    if item.EventItem? || item.sid == "" then Some(sessions)
    else if item.OpeningItem? then Some(sessions[item.sid := item.sid in sessions && sessions[item.sid]])
    else if item.sid in sessions then Some(sessions[item.sid := true])
    else None
  }

  function AfterSessions(sessions: map<string, bool>, batch: seq<Item>): Option<map<string, bool>> {
    if batch == [] then Some(sessions)
    else match AfterSessions(sessions, batch[..|batch| - 1])
      case None => None
      case Some(before) => Upsert(before, batch[|batch| - 1])
  }

  /** The event rows of a batch. */
  function RowsOf(batch: seq<Item>): seq<Row> {
    if batch == [] then []
    else
      var last := batch[|batch| - 1];
      RowsOf(batch[..|batch| - 1]) + if last.EventItem? then [Row(last.sid, last.eventId)] else []
  }

  predicate AllReferToRows(rows: seq<Row>, sessions: map<string, bool>) {
    forall k :: 0 <= k < |rows| ==> rows[k].sid in sessions
  }

  /** The transaction: None when it is rolled back. */
  function WriteBatch(db: Db, batch: seq<Item>): Option<Db> {
    match AfterSessions(db.sessions, batch)
    case None => None
    case Some(sessions) =>
      if AllReferToRows(RowsOf(batch), sessions) then Some(Db(sessions, db.events + RowsOf(batch))) else None
  }

  function AfterWrite(db: Db, batch: seq<Item>): Db {
    match WriteBatch(db, batch) case None => db case Some(after) => after
  }

  class Database {
    var sessions: map<string, bool>
    var events: seq<Row>
    var errors: nat

    ghost function View(): Db
      reads this
    {
      Db(sessions, events)
    }

    constructor ()
      ensures View() == EMPTY && errors == 0
    {
      sessions, events, errors := map[], [], 0;
    }

    /** `_write_db`: on failure nothing of the batch remains, and the failure is counted. */
    method WriteDb(batch: seq<Item>)
      modifies this
      ensures View() == AfterWrite(old(View()), batch)
      ensures errors == old(errors) + if WriteBatch(old(View()), batch).None? then 1 else 0
    {
      hide Upsert;
      var upserted := sessions;
      for k := 0 to |batch|
        invariant AfterSessions(sessions, batch[..k]) == Some(upserted)
      {
        assert batch[..k + 1][..k] == batch[..k];
        var next := Upsert(upserted, batch[k]);
        if next == None {
          SessionsFail(sessions, batch, k + 1);
          errors := errors + 1;
          return;
        }
        upserted := next.value;
      }
      assert batch[..|batch|] == batch;
      var rows: seq<Row> := [];
      for k := 0 to |batch|
        invariant rows == RowsOf(batch[..k]) && AllReferToRows(rows, upserted)
      {
        assert batch[..k + 1][..k] == batch[..k];
        if batch[k].EventItem? {
          if batch[k].sid !in upserted {
            RowsPrefix(batch, k);
            errors := errors + 1;
            return;
          }
          rows := rows + [Row(batch[k].sid, batch[k].eventId)];
        }
      }
      sessions, events := upserted, events + rows;
    }
  }

  lemma {:induction false} SessionsFail(sessions: map<string, bool>, batch: seq<Item>, k: nat)
    requires k <= |batch| && AfterSessions(sessions, batch[..k]) == None
    ensures AfterSessions(sessions, batch) == None
    decreases |batch| - k
  {
    if k < |batch| {
      assert batch[..k + 1][..k] == batch[..k];
      SessionsFail(sessions, batch, k + 1);
    } else {
      assert batch[..k] == batch;
    }
  }

  lemma {:induction false} RowsPrefix(batch: seq<Item>, k: nat)
    requires k < |batch| && batch[k].EventItem?
    ensures exists i :: 0 <= i < |RowsOf(batch)| && RowsOf(batch)[i].sid == batch[k].sid
  {
    var before, last := batch[..|batch| - 1], batch[|batch| - 1];
    if k < |before| {
      RowsPrefix(before, k);
      var i :| 0 <= i < |RowsOf(before)| && RowsOf(before)[i].sid == batch[k].sid;
      assert RowsOf(batch)[i].sid == batch[k].sid;
    } else {
      assert RowsOf(batch)[|RowsOf(before)|].sid == batch[k].sid;
    }
  }

  // -------------------------------------------------- exactly when a batch succeeds

  /** The session has a row once the items of `before` were upserted. */
  predicate HasRow(sessions: map<string, bool>, before: seq<Item>, sid: string) {
    sid in sessions || (sid != "" && OpeningItem(sid) in before)
  }

  /** The session has a row, and its closing data arrived. */
  predicate IsClosed(sessions: map<string, bool>, sid: string) { sid in sessions && sessions[sid] }

  /** The session was closed before or is by one of the items. */
  predicate ClosedAfter(sessions: map<string, bool>, batch: seq<Item>, sid: string) {
    IsClosed(sessions, sid) || (sid != "" && ClosingItem(sid) in batch)
  }

  /** Item `k` finds its session's row: a closing needs it earlier, an event anywhere in the batch. */
  predicate FindsRow(sessions: map<string, bool>, batch: seq<Item>, k: nat)
    requires k < |batch|
  {
    match batch[k]
    case OpeningItem(_) => true
    case ClosingItem(sid) => sid == "" || HasRow(sessions, batch[..k], sid)
    case EventItem(sid, _) => HasRow(sessions, batch, sid)
  }

  ghost predicate SessionsFindRows(sessions: map<string, bool>, batch: seq<Item>) {
    forall k :: 0 <= k < |batch| && batch[k].ClosingItem? ==> FindsRow(sessions, batch, k)
  }

  lemma {:induction false} AfterSessionsIff(sessions: map<string, bool>, batch: seq<Item>)
    ensures AfterSessions(sessions, batch).Some? <==> SessionsFindRows(sessions, batch)
    ensures AfterSessions(sessions, batch).Some? ==>
      forall sid :: sid in AfterSessions(sessions, batch).value <==> HasRow(sessions, batch, sid)
    ensures AfterSessions(sessions, batch).Some? ==>
      forall sid :: IsClosed(AfterSessions(sessions, batch).value, sid) <==> ClosedAfter(sessions, batch, sid)
  {
    if batch != [] {
      var before, last := batch[..|batch| - 1], batch[|batch| - 1];
      AfterSessionsIff(sessions, before);
      SessionsStep(sessions, before, last);
      assert batch == before + [last];
    }
  }

  lemma SessionsStep(sessions: map<string, bool>, before: seq<Item>, last: Item)
    ensures SessionsFindRows(sessions, before + [last])
       <==> SessionsFindRows(sessions, before)
            && (last.ClosingItem? ==> last.sid == "" || HasRow(sessions, before, last.sid))
    ensures forall sid :: (HasRow(sessions, before + [last], sid)
                           <==> HasRow(sessions, before, sid) || (sid != "" && last == OpeningItem(sid)))
    ensures forall sid :: (ClosedAfter(sessions, before + [last], sid)
                           <==> ClosedAfter(sessions, before, sid) || (sid != "" && last == ClosingItem(sid)))
  {
    var batch := before + [last];
    assert batch[..|before|] == before && forall k :: 0 <= k < |before| ==> batch[..k] == before[..k];
    if SessionsFindRows(sessions, batch) {
      forall k | 0 <= k < |before| && before[k].ClosingItem? ensures FindsRow(sessions, before, k) {
        assert batch[k] == before[k] && FindsRow(sessions, batch, k);
      }
      assert last.ClosingItem? ==> FindsRow(sessions, batch, |before|);
    }
  }

  lemma {:induction false} RowsMembers(batch: seq<Item>)
    ensures forall r :: r in RowsOf(batch) <==> EventItem(r.sid, r.eventId) in batch
    ensures |RowsOf(batch)| == EventsIn(batch)
  {
    if batch != [] {
      var before, last := batch[..|batch| - 1], batch[|batch| - 1];
      RowsMembers(before);
      assert batch == before + [last];
      EventsInConcat(before, [last]);
      assert [last][1..] == [];
    } else {
      assert RowsOf(batch) == [];
    }
  }

  /** A batch is stored if and only if every item in it finds its session's row; then exactly the sessions that had or
      got an opening have rows, those that were or got closed are marked so, and the batch's events are appended. */
  lemma FlushSucceedsIff(db: Db, batch: seq<Item>)
    ensures WriteBatch(db, batch).Some? <==> forall k :: 0 <= k < |batch| ==> FindsRow(db.sessions, batch, k)
    ensures WriteBatch(db, batch).Some? ==>
      var after := WriteBatch(db, batch).value;
      && after.events == db.events + RowsOf(batch)
      && (forall sid :: sid in after.sessions <==> HasRow(db.sessions, batch, sid))
      && (forall sid :: IsClosed(after.sessions, sid) <==> ClosedAfter(db.sessions, batch, sid))
  {
    hide AfterSessions, HasRow, IsClosed, ClosedAfter;
    AfterSessionsIff(db.sessions, batch);
    RowsMembers(batch);
    var rows := RowsOf(batch);
    if AfterSessions(db.sessions, batch).Some? {
      var sessions := AfterSessions(db.sessions, batch).value;
      if AllReferToRows(rows, sessions) {
        forall k | 0 <= k < |batch| && batch[k].EventItem? ensures FindsRow(db.sessions, batch, k) {
          assert Row(batch[k].sid, batch[k].eventId) in rows;
        }
      }
      if forall k :: 0 <= k < |batch| ==> FindsRow(db.sessions, batch, k) {
        forall i | 0 <= i < |rows| ensures rows[i].sid in sessions {
          assert rows[i] in rows;
          var k :| 0 <= k < |batch| && batch[k] == EventItem(rows[i].sid, rows[i].eventId);
          assert FindsRow(db.sessions, batch, k);
        }
      }
    }
  }

  // ---------------------------------------------------------------- a run of flushes

  function Stored(flushed: seq<seq<Item>>): Db {
    if flushed == [] then EMPTY else AfterWrite(Stored(flushed[..|flushed| - 1]), flushed[|flushed| - 1])
  }

  predicate AllSucceed(flushed: seq<seq<Item>>) {
    flushed == []
    || (AllSucceed(flushed[..|flushed| - 1])
        && WriteBatch(Stored(flushed[..|flushed| - 1]), flushed[|flushed| - 1]).Some?)
  }

  /** The events of the batches that were rolled back. */
  function Lost(flushed: seq<seq<Item>>): nat {
    if flushed == [] then 0
    else
      var before, last := flushed[..|flushed| - 1], flushed[|flushed| - 1];
      Lost(before) + if WriteBatch(Stored(before), last).Some? then 0 else EventsIn(last)
  }

  /** `written` counts stored and lost events alike, and no stored event lacks its session's row. */
  lemma {:induction false} WrittenIsStoredAndLost(flushed: seq<seq<Item>>)
    ensures EventsIn(Concat(flushed)) == |Stored(flushed).events| + Lost(flushed)
    ensures AllReferToRows(Stored(flushed).events, Stored(flushed).sessions)
  {
    hide WriteBatch, FindsRow, HasRow;
    if flushed != [] {
      var before, last := flushed[..|flushed| - 1], flushed[|flushed| - 1];
      WrittenIsStoredAndLost(before);
      EventsInConcat(Concat(before), last);
      RowsMembers(last);
      WriteKeepsReferences(Stored(before), last);
    }
  }

  lemma WriteKeepsReferences(db: Db, batch: seq<Item>)
    requires AllReferToRows(db.events, db.sessions)
    ensures var after := AfterWrite(db, batch);
      && AllReferToRows(after.events, after.sessions)
      && after.events == if WriteBatch(db, batch).Some? then db.events + RowsOf(batch) else db.events
  {
    hide RowsOf, AfterSessions, HasRow, FindsRow;
    if WriteBatch(db, batch).Some? {
      FlushSucceedsIff(db, batch);
      SessionsKept(db.sessions, batch);
    }
  }

  lemma SessionsKept(sessions: map<string, bool>, batch: seq<Item>)
    requires AfterSessions(sessions, batch).Some?
    ensures forall sid :: sid in sessions ==> sid in AfterSessions(sessions, batch).value
  {
    AfterSessionsIff(sessions, batch);
  }

  /** While every flush succeeds, all flushed events are stored in order, and exactly the flushed openings have rows. */
  lemma {:induction false} SuccessStoresAll(flushed: seq<seq<Item>>)
    requires AllSucceed(flushed)
    ensures Stored(flushed).events == RowsOf(Concat(flushed))
    ensures forall sid :: sid in Stored(flushed).sessions <==> sid != "" && OpeningItem(sid) in Concat(flushed)
  {
    hide WriteBatch, FindsRow;
    if flushed != [] {
      var before, last := flushed[..|flushed| - 1], flushed[|flushed| - 1];
      SuccessStoresAll(before);
      FlushSucceedsIff(Stored(before), last);
      RowsConcat(Concat(before), last);
    }
  }

  lemma {:induction false} RowsConcat(a: seq<Item>, b: seq<Item>)
    ensures RowsOf(a + b) == RowsOf(a) + RowsOf(b)
    decreases |b|
  {
    if b == [] {
      assert a + b == a;
    } else {
      assert (a + b)[..|a + b| - 1] == a + b[..|b| - 1];
      RowsConcat(a, b[..|b| - 1]);
    }
  }

  // ----------------------------------------------------- the order of openings and items

  /** The item at position `k` of a batch has an opening of its session where it needs one, in the batch or in what was
      flushed before. The row itself is there only if that opening's batch was stored. */
  predicate HasOpening(earlier: seq<Item>, batch: seq<Item>, k: nat)
    requires k < |batch|
  {
    match batch[k]
    case OpeningItem(_) => true
    case ClosingItem(sid) => sid == "" || OpeningItem(sid) in earlier + batch[..k]
    case EventItem(sid, _) => sid != "" && OpeningItem(sid) in earlier + batch
  }

  /** In every batch every item of the session has its opening in that batch or an earlier one. */
  ghost predicate OpeningsPrecede(flushed: seq<seq<Item>>, sid: string) {
    forall n :: 0 <= n < |flushed| ==> OpeningsPrecedeIn(Concat(flushed[..n]), flushed[n], sid)
  }

  lemma PrecedeStep(before: seq<seq<Item>>, last: seq<Item>, sid: string)
    ensures OpeningsPrecede(before + [last], sid)
       <==> OpeningsPrecede(before, sid) && OpeningsPrecedeIn(Concat(before), last, sid)
  {
    hide OpeningsPrecedeIn, Concat;
    var flushed := before + [last];
    assert flushed[..|before|] == before;
    assert forall n :: 0 <= n < |before| ==> flushed[..n] == before[..n] && flushed[n] == before[n];
    if OpeningsPrecede(flushed, sid) {
      assert OpeningsPrecedeIn(Concat(flushed[..|before|]), flushed[|before|], sid);
      forall n | 0 <= n < |before| ensures OpeningsPrecedeIn(Concat(before[..n]), before[n], sid) {
        assert OpeningsPrecedeIn(Concat(flushed[..n]), flushed[n], sid);
      }
    }
  }

  predicate OpeningsPrecedeIn(earlier: seq<Item>, batch: seq<Item>, sid: string) {
    forall k :: 0 <= k < |batch| && batch[k].sid == sid ==> HasOpening(earlier, batch, k)
  }

  /** Every flush succeeds if and only if every item has its opening in its batch or an earlier one: the first batch to
      fail is the first with an item whose opening is missing from it and from all batches before it. */
  lemma {:induction false} AllSucceedIff(flushed: seq<seq<Item>>)
    ensures AllSucceed(flushed) <==> forall sid :: OpeningsPrecede(flushed, sid)
  {
    hide WriteBatch, OpeningsPrecedeIn;
    if flushed != [] {
      var before, last := flushed[..|flushed| - 1], flushed[|flushed| - 1];
      AllSucceedIff(before);
      if AllSucceed(before) {
        SuccessStoresAll(before);
        NextSucceedsIff(Stored(before), Concat(before), last);
      }
      AllSplit(before, last, Concat(before));
      assert flushed == before + [last];
    }
  }

  lemma AllSplit(before: seq<seq<Item>>, last: seq<Item>, earlier: seq<Item>)
    requires earlier == Concat(before)
    ensures (forall sid :: OpeningsPrecede(before + [last], sid))
       <==> (forall sid :: OpeningsPrecede(before, sid)) && (forall sid :: OpeningsPrecedeIn(earlier, last, sid))
  {
    hide OpeningsPrecedeIn, OpeningsPrecede;
    forall sid
      ensures OpeningsPrecede(before + [last], sid)
         <==> OpeningsPrecede(before, sid) && OpeningsPrecedeIn(earlier, last, sid)
    {
      PrecedeStep(before, last, sid);
    }
  }

  lemma NextSucceedsIff(db: Db, earlier: seq<Item>, batch: seq<Item>)
    requires forall sid :: sid in db.sessions <==> sid != "" && OpeningItem(sid) in earlier
    ensures WriteBatch(db, batch).Some? <==> forall sid :: OpeningsPrecedeIn(earlier, batch, sid)
  {
    hide WriteBatch, FindsRow, HasOpening;
    FlushSucceedsIff(db, batch);
    forall k | 0 <= k < |batch| ensures FindsRow(db.sessions, batch, k) <==> HasOpening(earlier, batch, k) {
      SameRow(db.sessions, earlier, batch, k);
    }
    if forall sid :: OpeningsPrecedeIn(earlier, batch, sid) {
      forall k | 0 <= k < |batch| ensures FindsRow(db.sessions, batch, k) {
        assert OpeningsPrecedeIn(earlier, batch, batch[k].sid);
      }
    }
  }

  lemma SameRow(sessions: map<string, bool>, earlier: seq<Item>, batch: seq<Item>, k: nat)
    requires k < |batch| && forall sid :: sid in sessions <==> sid != "" && OpeningItem(sid) in earlier
    ensures FindsRow(sessions, batch, k) <==> HasOpening(earlier, batch, k)
  {
  }

  // ----------------------------------------------------- from connections to the sinks

  /** The calls that concern one session, in order. */
  function CallsOf(calls: seq<Call>, sid: string): seq<Call> {
    if calls == [] then []
    else
      var last := calls[|calls| - 1];
      CallsOf(calls[..|calls| - 1], sid) + if last.item.sid == sid then [last] else []
  }

  function ItemOf(sid: string, sent: Session.Sent, eventId: nat): Item {
    match sent
    case Opened => OpeningItem(sid)
    case Event(_) => EventItem(sid, eventId)
    case Closed(_, _, _, _, _) => ClosingItem(sid)
  }

  ghost predicate IsItemOf(item: Item, sid: string, sent: Session.Sent) {
    exists eventId: nat :: item == ItemOf(sid, sent, eventId)
  }

  /** The logger has received the first calls of the session's life, in order; all of them once it is finished. */
  ghost predicate Emitting(calls: seq<Call>, sid: string, life: seq<Session.Sent>) {
    var own := CallsOf(calls, sid);
    && |own| <= |life|
    && forall k :: 0 <= k < |own| ==> IsItemOf(own[k].item, sid, life[k])
  }

  /** The session's calls come from a connection that was handled from open to close, or still is. */
  ghost predicate Handled(calls: seq<Call>, sid: string) {
    exists life :: Session.IsLife(life) && Emitting(calls, sid, life)
  }

  /** Only the first call of a session opens it, and none comes before. */
  ghost predicate OpensFirst(calls: seq<Call>, sid: string) {
    var own := CallsOf(calls, sid);
    forall k :: 0 <= k < |own| ==> (own[k].item == OpeningItem(sid) <==> k == 0)
  }

  lemma HandledOpensFirst(calls: seq<Call>, sid: string)
    requires Handled(calls, sid)
    ensures OpensFirst(calls, sid)
  {
    hide Session.IsLife, CallsOf;
    var life :| Session.IsLife(life) && Emitting(calls, sid, life);
    var own := CallsOf(calls, sid);
    forall k | 0 <= k < |own| ensures own[k].item == OpeningItem(sid) <==> k == 0 {
      LifeOpensOnce(life, k);
      var eventId: nat :| own[k].item == ItemOf(sid, life[k], eventId);
    }
  }

  lemma LifeOpensOnce(life: seq<Session.Sent>, k: nat)
    requires Session.IsLife(life) && k < |life|
    ensures life[k] == Session.Opened <==> k == 0
  {
  }

  predicate OpeningAccepted(calls: seq<Call>, sid: string) {
    Call(OpeningItem(sid), true) in calls
  }

  /** Each item but an opening has an opening of its session before it. */
  ghost predicate OpenedBefore(items: seq<Item>, sid: string) {
    forall k :: 0 <= k < |items| && items[k].sid == sid && !items[k].OpeningItem? ==> OpeningItem(sid) in items[..k]
  }

  lemma OpensFirstStep(calls: seq<Call>, c: Call, sid: string)
    requires OpensFirst(calls + [c], sid)
    ensures OpensFirst(calls, sid)
    ensures c.item.sid == sid ==> (c.item == OpeningItem(sid) <==> CallsOf(calls, sid) == [])
  {
    assert (calls + [c])[..|calls|] == calls;
    var own, all := CallsOf(calls, sid), CallsOf(calls + [c], sid);
    assert forall k :: 0 <= k < |own| ==> all[k] == own[k];
    if c.item.sid == sid {
      assert all[|own|] == c;
    }
  }

  lemma {:induction false} AcceptedOpenedBefore(calls: seq<Call>, sid: string)
    requires OpensFirst(calls, sid)
    ensures CallsOf(calls, sid) == [] ==> forall k :: 0 <= k < |calls| ==> calls[k].item.sid != sid
    ensures forall i :: i in Accepted(calls) && i.sid == sid ==> CallsOf(calls, sid) != []
    ensures CallsOf(calls, sid) != [] ==> OpeningAccepted(calls, sid) || OpeningItem(sid) !in Accepted(calls)
    ensures OpeningAccepted(calls, sid) <==> OpeningItem(sid) in Accepted(calls)
    ensures OpeningAccepted(calls, sid) ==> OpenedBefore(Accepted(calls), sid)
  {
    if calls != [] {
      var before, c := calls[..|calls| - 1], calls[|calls| - 1];
      assert calls == before + [c];
      OpensFirstStep(before, c, sid);
      AcceptedOpenedBefore(before, sid);
      OpenedBeforeStep(Accepted(before), c, sid);
    }
  }

  lemma OpenedBeforeStep(items: seq<Item>, c: Call, sid: string)
    ensures OpenedBefore(items, sid) && (c.item.sid == sid ==> c.item.OpeningItem? || OpeningItem(sid) in items)
        ==> OpenedBefore(items + if c.ok then [c.item] else [], sid)
    ensures (forall i :: i in items ==> i.sid != sid) ==> OpenedBefore(items, sid)
  {
    var all := items + if c.ok then [c.item] else [];
    assert forall k :: 0 <= k <= |items| ==> all[..k] == items[..k];
  }

  lemma OpenedBeforePrefix(a: seq<Item>, b: seq<Item>, sid: string)
    requires OpenedBefore(a + b, sid)
    ensures OpenedBefore(a, sid)
  {
    forall k | 0 <= k < |a| && a[k].sid == sid && !a[k].OpeningItem? ensures OpeningItem(sid) in a[..k] {
      assert (a + b)[k] == a[k] && (a + b)[..k] == a[..k];
    }
  }

  /** Items that arrive opening first are flushed with their opening in their batch or an earlier one. */
  lemma {:induction false} ArrivalOrderPrecedes(flushed: seq<seq<Item>>, sid: string)
    requires sid != "" && OpenedBefore(Concat(flushed), sid)
    ensures OpeningsPrecede(flushed, sid)
  {
    if flushed != [] {
      var before, last := flushed[..|flushed| - 1], flushed[|flushed| - 1];
      OpenedBeforePrefix(Concat(before), last, sid);
      ArrivalOrderPrecedes(before, sid);
      assert flushed == before + [last];
      PrecedeStep(before, last, sid);
      forall k | 0 <= k < |last| && last[k].sid == sid ensures HasOpening(Concat(before), last, k) {
        OpeningInOrder(Concat(before), last, k, sid);
      }
    }
  }

  lemma OpeningInOrder(earlier: seq<Item>, batch: seq<Item>, k: nat, sid: string)
    requires sid != "" && k < |batch| && batch[k].sid == sid && OpenedBefore(earlier + batch, sid)
    ensures HasOpening(earlier, batch, k)
  {
    assert (earlier + batch)[|earlier| + k] == batch[k];
    assert (earlier + batch)[..|earlier| + k] == earlier + batch[..k];
  }

  /** Without its opening, no item of a session that is flushed has one. */
  lemma {:induction false} UnopenedFails(flushed: seq<seq<Item>>, sid: string)
    requires sid != "" && OpeningItem(sid) !in Concat(flushed)
    ensures OpeningsPrecede(flushed, sid) <==> NothingFlushed(flushed, sid)
  {
    if flushed != [] {
      var before, last := flushed[..|flushed| - 1], flushed[|flushed| - 1];
      UnopenedFails(before, sid);
      assert flushed == before + [last];
      PrecedeStep(before, last, sid);
      forall k | 0 <= k < |last| && last[k].sid == sid ensures !HasOpening(Concat(before), last, k) {
        assert last[k] in Concat(flushed);
      }
    }
  }

  /** No item of the session has reached the sinks. */
  ghost predicate NothingFlushed(flushed: seq<seq<Item>>, sid: string) {
    forall i :: i in Concat(flushed) ==> i.sid != sid
  }

  /** However connections interleave with each other, with the writer and with `stop`: each flushed item of a handled
      session, finished or not, has its opening in its batch or an earlier one if and only if the opening was accepted,
      or nothing of the session was flushed. */
  lemma HandledOpeningsPrecedeIff(s: State, sid: string)
    requires Reachable(s) && sid != "" && Handled(s.calls, sid)
    ensures OpeningsPrecede(s.flushed, sid) <==> OpeningAccepted(s.calls, sid) || NothingFlushed(s.flushed, sid)
  {
    hide Handled, OpensFirst, OpenedBefore, OpeningsPrecede, CallsOf;
    ReachableInvariant(s);
    HandledOpensFirst(s.calls, sid);
    AcceptedOpenedBefore(s.calls, sid);
    var rest := s.batch + Items(s.queue);
    assert Accepted(s.calls) == Concat(s.flushed) + rest;
    if OpeningAccepted(s.calls, sid) {
      OpenedBeforePrefix(Concat(s.flushed), rest, sid);
      ArrivalOrderPrecedes(s.flushed, sid);
    } else {
      assert OpeningItem(sid) !in Accepted(s.calls);
      UnopenedFails(s.flushed, sid);
    }
  }

  /** In every reachable state of handled connections: every flush succeeded if and only if each session of which
      anything was flushed had its opening accepted; then exactly the flushed events are stored, in order, and
      `written` counts them. In any case `written` also counts the events of the batches that were lost. */
  lemma EveryFlushSucceedsIff(s: State)
    requires Reachable(s) && CallsOf(s.calls, "") == [] && forall sid :: Handled(s.calls, sid)
    ensures AllSucceed(s.flushed)
       <==> forall sid :: OpeningAccepted(s.calls, sid) || NothingFlushed(s.flushed, sid)
    ensures AllSucceed(s.flushed) ==>
      Stored(s.flushed).events == RowsOf(Concat(s.flushed)) && s.written == |Stored(s.flushed).events|
    ensures s.written == |Stored(s.flushed).events| + Lost(s.flushed)
  {
    hide Handled, CallsOf, OpeningsPrecede, OpeningAccepted, NothingFlushed;
    ReachableInvariant(s);
    AllSucceedIff(s.flushed);
    WrittenIsStoredAndLost(s.flushed);
    if AllSucceed(s.flushed) {
      SuccessStoresAll(s.flushed);
      RowsMembers(Concat(s.flushed));
    }
    forall sid
      ensures OpeningsPrecede(s.flushed, sid) <==> OpeningAccepted(s.calls, sid) || NothingFlushed(s.flushed, sid)
    {
      if sid == "" {
        NamelessFlushesNothing(s);
      } else {
        HandledOpeningsPrecedeIff(s, sid);
      }
    }
    if forall sid :: OpeningAccepted(s.calls, sid) || NothingFlushed(s.flushed, sid) {
      forall sid ensures OpeningsPrecede(s.flushed, sid) {
        assert OpeningAccepted(s.calls, sid) || NothingFlushed(s.flushed, sid);
      }
    } else {
      var sid :| !(OpeningAccepted(s.calls, sid) || NothingFlushed(s.flushed, sid));
      assert !OpeningsPrecede(s.flushed, sid);
    }
  }

  lemma NamelessFlushesNothing(s: State)
    requires Conserved(s) && CallsOf(s.calls, "") == []
    ensures NothingFlushed(s.flushed, "") && OpeningsPrecede(s.flushed, "")
  {
    assert OpensFirst(s.calls, "");
    AcceptedOpenedBefore(s.calls, "");
    forall i | i in Concat(s.flushed) ensures i.sid != "" {
      assert i in Accepted(s.calls);
    }
    NothingToOpen(s.flushed, "");
  }

  lemma {:induction false} NothingToOpen(flushed: seq<seq<Item>>, sid: string)
    requires NothingFlushed(flushed, sid)
    ensures OpeningsPrecede(flushed, sid)
  {
    hide HasOpening;
    if flushed != [] {
      var before, last := flushed[..|flushed| - 1], flushed[|flushed| - 1];
      NothingToOpen(before, sid);
      assert flushed == before + [last];
      PrecedeStep(before, last, sid);
      forall k | 0 <= k < |last| ensures last[k].sid != sid {
        assert last[k] in Concat(flushed);
      }
    }
  }
}
