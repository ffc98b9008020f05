/**
  Which session rows say that the session ended (honeypot/logger.py, _write_db): the closing data of a session reaches
  its row with the batch that carries it, and nothing takes it away again.
 */
module ClosedSessions {
  import opened Wrappers
  import opened Sequences
  import opened Writer
  import opened Storage
  import opened LostBatches
  import Session

  /** A closing of the session was stored by one of the first `n` batches. */
  ghost predicate ClosedBy(flushed: seq<seq<Item>>, n: nat, sid: string) {
    sid != "" && exists m: nat :: m < n && Succeeds(flushed, m) && ClosingItem(sid) in flushed[m]
  }

  /** After the first `n` batches exactly the sessions are marked as ended whose closing is in one of them that was
      stored: no later opening and no lost batch changes that. */
  lemma {:induction false} RowClosedIff(flushed: seq<seq<Item>>, n: nat, sid: string)
    requires n <= |flushed|
    ensures IsClosed(Stored(flushed[..n]).sessions, sid) <==> ClosedBy(flushed, n, sid)
  {
    hide WriteBatch, HasRow, FindsRow, IsClosed, ClosedAfter;
    if n > 0 {
      var before, last := flushed[..n - 1], flushed[n - 1];
      RowClosedIff(flushed, n - 1, sid);
      assert flushed[..n] == before + [last];
      StoredStep(before, last);
      FlushSucceedsIff(Stored(before), last);
      ClosingGained(Stored(before).sessions, last, sid);
      ClosedStep(flushed, n - 1, sid);
    } else {
      NothingClosed(sid);
    }
  }

  lemma NothingClosed(sid: string)
    ensures !IsClosed(Stored([]).sessions, sid)
  {
  }

  lemma ClosingGained(sessions: map<string, bool>, batch: seq<Item>, sid: string)
    ensures ClosedAfter(sessions, batch, sid) <==> IsClosed(sessions, sid) || (sid != "" && ClosingItem(sid) in batch)
  {
  }

  lemma ClosedStep(flushed: seq<seq<Item>>, n: nat, sid: string)
    requires n < |flushed|
    ensures ClosedBy(flushed, n + 1, sid)
       <==> ClosedBy(flushed, n, sid) || (sid != "" && Succeeds(flushed, n) && ClosingItem(sid) in flushed[n])
  {
    hide Succeeds;
  }

  // -------------------------------------------------------------- handled sessions

  /** Only the last call of a session closes it. */
  ghost predicate ClosesLast(calls: seq<Call>, sid: string) {
    var own := CallsOf(calls, sid);
    forall k :: 0 <= k < |own| && own[k].item == ClosingItem(sid) ==> k == |own| - 1
  }

  lemma HandledClosesLast(calls: seq<Call>, sid: string)
    requires Handled(calls, sid)
    ensures ClosesLast(calls, sid)
  {
    hide Session.IsLife, CallsOf;
    var life :| Session.IsLife(life) && Emitting(calls, sid, life);
    var own := CallsOf(calls, sid);
    forall k | 0 <= k < |own| && own[k].item == ClosingItem(sid) ensures k == |own| - 1 {
      LifeClosesOnce(life, k);
      var eventId: nat :| own[k].item == ItemOf(sid, life[k], eventId);
    }
  }

  lemma LifeClosesOnce(life: seq<Session.Sent>, k: nat)
    requires Session.IsLife(life) && k < |life|
    ensures life[k].Closed? <==> k == |life| - 1
  {
  }

  /** No item of the session comes after a closing of it; so there is only one. */
  ghost predicate NothingBehindClosing(items: seq<Item>, sid: string) {
    forall i, j :: 0 <= i < j < |items| && items[i] == ClosingItem(sid) ==> items[j].sid != sid
  }

  /** The session's calls up to some point, none of which closes it if another follows. */
  lemma ClosesLastStep(calls: seq<Call>, c: Call, sid: string)
    requires ClosesLast(calls + [c], sid)
    ensures ClosesLast(calls, sid)
    ensures c.item.sid == sid ==> forall k :: 0 <= k < |CallsOf(calls, sid)| ==>
              CallsOf(calls, sid)[k].item != ClosingItem(sid)
  {
    assert (calls + [c])[..|calls|] == calls;
    var own, all := CallsOf(calls, sid), CallsOf(calls + [c], sid);
    assert forall k :: 0 <= k < |own| ==> all[k] == own[k];
  }

  lemma {:induction false} AcceptedWasCalled(calls: seq<Call>, item: Item)
    requires item in Accepted(calls)
    ensures exists k :: 0 <= k < |CallsOf(calls, item.sid)| && CallsOf(calls, item.sid)[k].item == item
  {
    var before, c := calls[..|calls| - 1], calls[|calls| - 1];
    var own, all := CallsOf(before, item.sid), CallsOf(calls, item.sid);
    if item in Accepted(before) {
      AcceptedWasCalled(before, item);
      var k :| 0 <= k < |own| && own[k].item == item;
      assert all[k].item == item;
    } else {
      assert all[|own|].item == item;
    }
  }

  lemma {:induction false} AcceptedNothingBehind(calls: seq<Call>, sid: string)
    requires ClosesLast(calls, sid)
    ensures NothingBehindClosing(Accepted(calls), sid)
  {
    hide ClosesLast, CallsOf;
    if calls != [] {
      var before, c := calls[..|calls| - 1], calls[|calls| - 1];
      assert calls == before + [c];
      ClosesLastStep(before, c, sid);
      AcceptedNothingBehind(before, sid);
      if c.item.sid == sid && ClosingItem(sid) in Accepted(before) {
        AcceptedWasCalled(before, ClosingItem(sid));
      }
    }
  }

  lemma NothingBehindPrefix(a: seq<Item>, b: seq<Item>, sid: string)
    requires NothingBehindClosing(a + b, sid)
    ensures NothingBehindClosing(a, sid)
  {
    forall i, j | 0 <= i < j < |a| && a[i] == ClosingItem(sid) ensures a[j].sid != sid {
      assert (a + b)[i] == a[i] && (a + b)[j] == a[j];
    }
  }

  lemma SameClosing(flushed: seq<seq<Item>>, sid: string, m: nat, n: nat)
    requires NothingBehindClosing(Concat(flushed), sid)
    requires m < |flushed| && ClosingItem(sid) in flushed[m]
    requires n < |flushed| && ClosingItem(sid) in flushed[n]
    ensures m == n
  {
    hide Concat;
    var l :| 0 <= l < |flushed[m]| && flushed[m][l] == ClosingItem(sid);
    var k :| 0 <= k < |flushed[n]| && flushed[n][k] == ClosingItem(sid);
    ItemAt(flushed, m, l);
    ItemAt(flushed, n, k);
  }

  lemma HandledClosesOnce(s: State, sid: string)
    requires Reachable(s) && Handled(s.calls, sid)
    ensures NothingBehindClosing(Concat(s.flushed), sid)
  {
    hide Handled, ClosesLast, Concat, Accepted;
    ReachableInvariant(s);
    HandledClosesLast(s.calls, sid);
    AcceptedNothingBehind(s.calls, sid);
    assert Accepted(s.calls) == Concat(s.flushed) + (s.batch + Items(s.queue));
    NothingBehindPrefix(Concat(s.flushed), s.batch + Items(s.queue), sid);
  }

  /** The row of a handled session whose closing was flushed says that it ended if and only if the batch of its closing
      was stored; before that no row says so. */
  lemma HandledClosedIff(s: State, sid: string, n: nat)
    requires Reachable(s) && sid != "" && Handled(s.calls, sid)
    requires n < |s.flushed| && ClosingItem(sid) in s.flushed[n]
    ensures IsClosed(Stored(s.flushed).sessions, sid) <==> Succeeds(s.flushed, n)
    ensures forall m: nat :: m <= n ==> !IsClosed(Stored(s.flushed[..m]).sessions, sid)
  {
    hide Handled, Succeeds, Stored, IsClosed, NothingBehindClosing;
    HandledClosesOnce(s, sid);
    RowClosedIff(s.flushed, |s.flushed|, sid);
    assert s.flushed[..|s.flushed|] == s.flushed;
    forall m: nat | m < |s.flushed| && ClosingItem(sid) in s.flushed[m] ensures m == n {
      SameClosing(s.flushed, sid, m, n);
    }
    forall m: nat | m <= n ensures !IsClosed(Stored(s.flushed[..m]).sessions, sid) {
      RowClosedIff(s.flushed, m, sid);
    }
  }
}
