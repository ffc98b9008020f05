/**
  What the database keeps once batches are lost (honeypot/logger.py, _flush and _write_db): a batch that is rolled back
  takes the openings in it along, and every later batch with an item of such a session fails in turn.
 */
module LostBatches {
  import opened Wrappers
  import opened Sequences
  import opened Writer
  import opened Storage

  /** Batch `n` of the run was stored. */
  predicate Succeeds(flushed: seq<seq<Item>>, n: nat) {
    n < |flushed| && WriteBatch(Stored(flushed[..n]), flushed[n]).Some?
  }

  /** An opening of the session was stored by one of the first `n` batches. */
  ghost predicate OpenedBy(flushed: seq<seq<Item>>, n: nat, sid: string) {
    sid != "" && exists m: nat :: m < n && Succeeds(flushed, m) && OpeningItem(sid) in flushed[m]
  }

  lemma SucceedsPrefix(flushed: seq<seq<Item>>, n: nat, m: nat)
    requires m < n <= |flushed|
    ensures Succeeds(flushed[..n], m) <==> Succeeds(flushed, m)
  {
    assert flushed[..n][..m] == flushed[..m];
  }

  /** After the first `n` batches exactly the sessions have rows whose opening is in one of them that was stored. */
  lemma {:induction false} RowExistsIff(flushed: seq<seq<Item>>, n: nat, sid: string)
    requires n <= |flushed|
    ensures sid in Stored(flushed[..n]).sessions <==> OpenedBy(flushed, n, sid)
  {
    hide WriteBatch, HasRow, FindsRow;
    if n > 0 {
      var before, last := flushed[..n - 1], flushed[n - 1];
      RowExistsIff(flushed, n - 1, sid);
      assert flushed[..n] == before + [last];
      StoredStep(before, last);
      FlushSucceedsIff(Stored(before), last);
      RowGained(Stored(before).sessions, last, sid);
      OpenedStep(flushed, n - 1, sid);
    } else {
      NothingStored();
    }
  }

  lemma NothingStored()
    ensures Stored([]) == EMPTY
  {
  }

  lemma StoredStep(before: seq<seq<Item>>, last: seq<Item>)
    ensures Stored(before + [last]) == AfterWrite(Stored(before), last)
  {
    hide AfterWrite;
    assert (before + [last])[..|before|] == before;
  }

  lemma RowGained(sessions: map<string, bool>, batch: seq<Item>, sid: string)
    ensures HasRow(sessions, batch, sid) <==> sid in sessions || (sid != "" && OpeningItem(sid) in batch)
  {
  }

  lemma OpenedStep(flushed: seq<seq<Item>>, n: nat, sid: string)
    requires n < |flushed|
    ensures OpenedBy(flushed, n + 1, sid)
       <==> OpenedBy(flushed, n, sid) || (sid != "" && Succeeds(flushed, n) && OpeningItem(sid) in flushed[n])
  {
    hide Succeeds;
  }

  /** The item finds its session's row: an opening in a batch that was stored before, or in its own batch, and for a
      closing earlier in it. */
  ghost predicate ItemFindsRow(flushed: seq<seq<Item>>, n: nat, k: nat)
    requires n < |flushed| && k < |flushed[n]|
  {
    match flushed[n][k]
    case OpeningItem(_) => true
    case ClosingItem(sid) => sid == "" || OpeningItem(sid) in flushed[n][..k] || OpenedBy(flushed, n, sid)
    case EventItem(sid, _) => sid != "" && (OpeningItem(sid) in flushed[n] || OpenedBy(flushed, n, sid))
  }

  lemma ItemFindsRowIff(flushed: seq<seq<Item>>, n: nat, k: nat)
    requires n < |flushed| && k < |flushed[n]|
    ensures ItemFindsRow(flushed, n, k) <==> FindsRow(Stored(flushed[..n]).sessions, flushed[n], k)
  {
    hide Succeeds, Stored;
    RowExistsIff(flushed, n, flushed[n][k].sid);
  }

  /** Batch `n` is stored if and only if every item in it finds its session's row. */
  lemma BatchSucceedsIff(flushed: seq<seq<Item>>, n: nat)
    requires n < |flushed|
    ensures Succeeds(flushed, n) <==> forall k :: 0 <= k < |flushed[n]| ==> ItemFindsRow(flushed, n, k)
  {
    hide WriteBatch, FindsRow, ItemFindsRow, Stored;
    FlushSucceedsIff(Stored(flushed[..n]), flushed[n]);
    forall k | 0 <= k < |flushed[n]|
      ensures ItemFindsRow(flushed, n, k) <==> FindsRow(Stored(flushed[..n]).sessions, flushed[n], k)
    {
      ItemFindsRowIff(flushed, n, k);
    }
  }

  /** An event is stored if and only if it is in a batch that was stored. */
  lemma {:induction false} EventStoredIff(flushed: seq<seq<Item>>, n: nat, row: Row)
    requires n <= |flushed|
    ensures row in Stored(flushed[..n]).events
       <==> exists m: nat :: m < n && Succeeds(flushed, m) && EventItem(row.sid, row.eventId) in flushed[m]
  {
    hide WriteBatch, FindsRow;
    if n > 0 {
      var before, last := flushed[..n - 1], flushed[n - 1];
      EventStoredIff(flushed, n - 1, row);
      assert flushed[..n] == before + [last];
      StoredStep(before, last);
      FlushSucceedsIff(Stored(before), last);
      RowsMembers(last);
    } else {
      NothingStored();
    }
  }

  // -------------------------------------------------------------- handled sessions

  /** The batch has an item of the session that cannot be stored without the session's row. */
  ghost predicate NeedsRow(batch: seq<Item>, sid: string) {
    exists k :: 0 <= k < |batch| && batch[k].sid == sid && !batch[k].OpeningItem?
  }

  /** No item of the session comes before one of its openings; so there is only one. */
  ghost predicate NothingBeforeOpening(items: seq<Item>, sid: string) {
    forall i, j :: 0 <= i < j < |items| && items[j] == OpeningItem(sid) ==> items[i].sid != sid
  }

  lemma {:induction false} AcceptedNothingBefore(calls: seq<Call>, sid: string)
    requires OpensFirst(calls, sid)
    ensures NothingBeforeOpening(Accepted(calls), sid)
  {
    hide OpensFirst, CallsOf;
    if calls != [] {
      var before, c := calls[..|calls| - 1], calls[|calls| - 1];
      assert calls == before + [c];
      OpensFirstStep(before, c, sid);
      AcceptedNothingBefore(before, sid);
      AcceptedOpenedBefore(before, sid);
    }
  }

  /** Where an item of a batch is in the order of writing. */
  lemma {:induction false} ItemAt(flushed: seq<seq<Item>>, n: nat, k: nat)
    requires n < |flushed| && k < |flushed[n]|
    ensures |Concat(flushed[..n])| + k < |Concat(flushed)|
    ensures Concat(flushed)[|Concat(flushed[..n])| + k] == flushed[n][k]
    ensures forall m: nat :: m < n ==> |Concat(flushed[..m])| + |flushed[m]| <= |Concat(flushed[..n])|
    decreases |flushed|
  {
    Lengths(flushed, n);
    var before, last := flushed[..|flushed| - 1], flushed[|flushed| - 1];
    if n < |before| {
      ItemAt(before, n, k);
      assert before[..n] == flushed[..n];
    } else {
      assert flushed[..n] == before;
    }
  }

  lemma {:induction false} Lengths(flushed: seq<seq<Item>>, n: nat)
    requires n <= |flushed|
    ensures forall m: nat :: m < n ==> |Concat(flushed[..m])| + |flushed[m]| <= |Concat(flushed[..n])|
  {
    if n > 0 {
      Lengths(flushed, n - 1);
      assert flushed[..n][..n - 1] == flushed[..n - 1];
    }
  }

  lemma {:induction false} ItemIn(flushed: seq<seq<Item>>, item: Item)
    ensures item in Concat(flushed) <==> exists n: nat :: n < |flushed| && item in flushed[n]
  {
    if flushed != [] {
      var before, last := flushed[..|flushed| - 1], flushed[|flushed| - 1];
      ItemIn(before, item);
      if n: nat :| n < |before| && item in before[n] {
        assert item in flushed[n];
      }
      if n: nat :| n < |flushed| && item in flushed[n] {
        assert n < |before| ==> item in before[n];
      }
    }
  }

  /** Among the flushed items of a session nothing comes before its opening: earlier positions hold no item of it. */
  lemma OpeningFirst(flushed: seq<seq<Item>>, sid: string, m: nat, l: nat, n: nat, k: nat)
    requires NothingBeforeOpening(Concat(flushed), sid)
    requires m < |flushed| && l < |flushed[m]| && flushed[m][l] == OpeningItem(sid)
    requires n < |flushed| && k < |flushed[n]| && flushed[n][k].sid == sid
    ensures m < n || (m == n && l <= k)
  {
    hide Concat;
    ItemAt(flushed, m, l);
    ItemAt(flushed, n, k);
  }

  /** The order of writing that handled sessions leave. */
  lemma HandledOrder(s: State, sid: string)
    requires Reachable(s) && Handled(s.calls, sid)
    ensures NothingBeforeOpening(Concat(s.flushed), sid)
    ensures OpeningItem(sid) in Concat(s.flushed) ==> OpeningAccepted(s.calls, sid)
    ensures OpeningAccepted(s.calls, sid) ==> OpenedBefore(Concat(s.flushed), sid)
  {
    hide Handled, OpensFirst, OpenedBefore, CallsOf, Concat, Accepted;
    ReachableInvariant(s);
    HandledOpensFirst(s.calls, sid);
    AcceptedNothingBefore(s.calls, sid);
    AcceptedOpenedBefore(s.calls, sid);
    var rest := s.batch + Items(s.queue);
    assert Accepted(s.calls) == Concat(s.flushed) + rest;
    NothingBeforePrefix(Concat(s.flushed), rest, sid);
    if OpeningAccepted(s.calls, sid) {
      OpenedBeforePrefix(Concat(s.flushed), rest, sid);
    }
  }

  lemma NothingBeforePrefix(a: seq<Item>, b: seq<Item>, sid: string)
    requires NothingBeforeOpening(a + b, sid)
    ensures NothingBeforeOpening(a, sid)
  {
    forall i, j | 0 <= i < j < |a| && a[j] == OpeningItem(sid) ensures a[i].sid != sid {
      assert (a + b)[j] == a[j] && (a + b)[i] == a[i];
    }
  }

  /** A handled session whose opening was flushed has a row if and only if the batch of its opening was stored. */
  lemma HandledRowIff(s: State, sid: string, n: nat)
    requires Reachable(s) && sid != "" && Handled(s.calls, sid)
    requires n < |s.flushed| && OpeningItem(sid) in s.flushed[n]
    ensures sid in Stored(s.flushed).sessions <==> Succeeds(s.flushed, n)
  {
    hide Handled, Succeeds, Stored;
    HandledOrder(s, sid);
    RowExistsIff(s.flushed, |s.flushed|, sid);
    assert s.flushed[..|s.flushed|] == s.flushed;
    forall m: nat | m < |s.flushed| && OpeningItem(sid) in s.flushed[m] ensures m == n {
      SameOpening(s.flushed, sid, m, n);
    }
  }

  lemma SameOpening(flushed: seq<seq<Item>>, sid: string, m: nat, n: nat)
    requires NothingBeforeOpening(Concat(flushed), sid)
    requires m < |flushed| && OpeningItem(sid) in flushed[m]
    requires n < |flushed| && OpeningItem(sid) in flushed[n]
    ensures m == n
  {
    hide NothingBeforeOpening;
    var l :| 0 <= l < |flushed[m]| && flushed[m][l] == OpeningItem(sid);
    var k :| 0 <= k < |flushed[n]| && flushed[n][k] == OpeningItem(sid);
    OpeningFirst(flushed, sid, m, l, n, k);
    OpeningFirst(flushed, sid, n, k, m, l);
  }

  /** The session's opening is in the batch, or in an earlier one that was stored. */
  ghost predicate OpenedAt(flushed: seq<seq<Item>>, n: nat, sid: string) {
    exists m: nat :: m <= n && m < |flushed| && OpeningItem(sid) in flushed[m] && (m == n || Succeeds(flushed, m))
  }

  /** For a handled session the item finds its row wherever in the batch it is. */
  lemma HandledItemIff(s: State, n: nat, k: nat)
    requires Reachable(s) && n < |s.flushed| && k < |s.flushed[n]|
    requires s.flushed[n][k].sid != "" && !s.flushed[n][k].OpeningItem? && Handled(s.calls, s.flushed[n][k].sid)
    ensures ItemFindsRow(s.flushed, n, k) <==> OpenedAt(s.flushed, n, s.flushed[n][k].sid)
  {
    hide Handled, Succeeds, NothingBeforeOpening, Concat;
    var flushed, sid := s.flushed, s.flushed[n][k].sid;
    HandledOrder(s, sid);
    if OpeningItem(sid) in flushed[n] {
      var l :| 0 <= l < |flushed[n]| && flushed[n][l] == OpeningItem(sid);
      OpeningFirst(flushed, sid, n, l, n, k);
      assert flushed[n][..k][l] == OpeningItem(sid);
    } else {
      assert OpeningItem(sid) !in flushed[n][..k];
    }
  }

  /** A batch of handled sessions is stored if and only if each session with an item in it that needs a row was opened
      in the batch itself or in an earlier one that was stored. */
  lemma HandledBatchSucceedsIff(s: State, n: nat)
    requires Reachable(s) && CallsOf(s.calls, "") == [] && (forall sid :: Handled(s.calls, sid)) && n < |s.flushed|
    ensures Succeeds(s.flushed, n) <==> forall sid :: NeedsRow(s.flushed[n], sid) ==> OpenedAt(s.flushed, n, sid)
  {
    hide Handled, Succeeds, OpenedAt, ItemFindsRow, CallsOf;
    var batch := s.flushed[n];
    BatchSucceedsIff(s.flushed, n);
    NoNameless(s, n);
    forall k | 0 <= k < |batch|
      ensures ItemFindsRow(s.flushed, n, k) <==> batch[k].OpeningItem? || OpenedAt(s.flushed, n, batch[k].sid)
    {
      if batch[k].OpeningItem? {
        OpeningFindsRow(s.flushed, n, k);
      } else {
        HandledItemIff(s, n, k);
      }
    }
    if forall sid :: NeedsRow(batch, sid) ==> OpenedAt(s.flushed, n, sid) {
      forall k | 0 <= k < |batch| ensures ItemFindsRow(s.flushed, n, k) {
        assert !batch[k].OpeningItem? ==> NeedsRow(batch, batch[k].sid);
      }
    }
  }

  lemma OpeningFindsRow(flushed: seq<seq<Item>>, n: nat, k: nat)
    requires n < |flushed| && k < |flushed[n]| && flushed[n][k].OpeningItem?
    ensures ItemFindsRow(flushed, n, k)
  {
  }

  lemma NoNameless(s: State, n: nat)
    requires Reachable(s) && CallsOf(s.calls, "") == [] && n < |s.flushed|
    ensures forall k :: 0 <= k < |s.flushed[n]| ==> s.flushed[n][k].sid != ""
  {
    hide CallsOf;
    ReachableInvariant(s);
    NamelessFlushesNothing(s);
    forall k | 0 <= k < |s.flushed[n]| ensures s.flushed[n][k].sid != "" {
      ItemIn(s.flushed, s.flushed[n][k]);
    }
  }

  // ------------------------------------------------------------ chains of lost batches

  /** A chain of failures: the first session was never opened; each next one was opened in the batch that the previous
      one brought down, and has an item that needs its row in a later batch. */
  ghost predicate IsChain(s: State, batches: seq<nat>, sids: seq<string>) {
    && |batches| == |sids| > 0
    && !OpeningAccepted(s.calls, sids[0])
    && (forall i :: 0 <= i < |batches| ==> batches[i] < |s.flushed| && NeedsRow(s.flushed[batches[i]], sids[i]))
    && (forall i :: 0 < i < |batches| ==>
          batches[i - 1] < batches[i] && OpeningItem(sids[i]) in s.flushed[batches[i - 1]])
  }

  ghost predicate EndsChain(s: State, n: nat) {
    exists batches, sids :: IsChain(s, batches, sids) && batches[|batches| - 1] == n
  }

  lemma ChainStart(s: State, n: nat, sid: string)
    requires n < |s.flushed| && NeedsRow(s.flushed[n], sid) && !OpeningAccepted(s.calls, sid)
    ensures EndsChain(s, n)
  {
    hide NeedsRow, OpeningAccepted;
    assert IsChain(s, [n], [sid]);
  }

  lemma ChainStep(s: State, m: nat, n: nat, sid: string)
    requires EndsChain(s, m) && m < n < |s.flushed|
    requires OpeningItem(sid) in s.flushed[m] && NeedsRow(s.flushed[n], sid)
    ensures EndsChain(s, n)
  {
    hide NeedsRow, OpeningAccepted;
    var batches, sids :| IsChain(s, batches, sids) && batches[|batches| - 1] == m;
    assert IsChain(s, batches + [n], sids + [sid]);
  }

  lemma ChainPrefix(s: State, batches: seq<nat>, sids: seq<string>)
    requires IsChain(s, batches, sids) && |batches| > 1
    ensures IsChain(s, batches[..|batches| - 1], sids[..|sids| - 1])
  {
    hide NeedsRow, OpeningAccepted;
  }

  lemma {:induction false} ChainFails(s: State, batches: seq<nat>, sids: seq<string>)
    requires Reachable(s) && CallsOf(s.calls, "") == [] && (forall sid :: Handled(s.calls, sid))
    requires IsChain(s, batches, sids)
    ensures !Succeeds(s.flushed, batches[|batches| - 1])
    decreases |batches|
  {
    hide Handled, CallsOf, NeedsRow, Succeeds;
    var n, sid := batches[|batches| - 1], sids[|sids| - 1];
    HandledBatchSucceedsIff(s, n);
    HandledOrder(s, sid);
    if |batches| == 1 {
      forall m: nat | m < |s.flushed| ensures OpeningItem(sid) !in s.flushed[m] {
        ItemIn(s.flushed, OpeningItem(sid));
      }
    } else {
      var m := batches[|batches| - 2];
      ChainPrefix(s, batches, sids);
      ChainFails(s, batches[..|batches| - 1], sids[..|sids| - 1]);
      forall l: nat | l < |s.flushed| && OpeningItem(sid) in s.flushed[l] ensures l == m {
        SameOpening(s.flushed, sid, l, m);
      }
    }
    assert !OpenedAt(s.flushed, n, sid);
  }

  lemma {:induction false} FailureHasChain(s: State, n: nat)
    requires Reachable(s) && CallsOf(s.calls, "") == [] && (forall sid :: Handled(s.calls, sid))
    requires n < |s.flushed| && !Succeeds(s.flushed, n)
    ensures EndsChain(s, n)
    decreases n
  {
    hide Handled, CallsOf, NeedsRow, Succeeds, OpenedAt, EndsChain;
    HandledBatchSucceedsIff(s, n);
    var sid :| NeedsRow(s.flushed[n], sid) && !OpenedAt(s.flushed, n, sid);
    if OpeningAccepted(s.calls, sid) {
      var m := OpeningBefore(s, n, sid);
      FailureHasChain(s, m);
      ChainStep(s, m, n, sid);
    } else {
      ChainStart(s, n, sid);
    }
  }

  /** An accepted opening whose row is missing was flushed in an earlier batch that failed. */
  lemma OpeningBefore(s: State, n: nat, sid: string) returns (m: nat)
    requires Reachable(s) && Handled(s.calls, sid) && OpeningAccepted(s.calls, sid)
    requires n < |s.flushed| && NeedsRow(s.flushed[n], sid) && !OpenedAt(s.flushed, n, sid)
    ensures m < n && OpeningItem(sid) in s.flushed[m] && !Succeeds(s.flushed, m)
  {
    hide Handled, Succeeds, Concat, NothingBeforeOpening;
    HandledOrder(s, sid);
    var k :| 0 <= k < |s.flushed[n]| && s.flushed[n][k].sid == sid && !s.flushed[n][k].OpeningItem?;
    ItemAt(s.flushed, n, k);
    ItemIn(s.flushed, OpeningItem(sid));
    m :| m < |s.flushed| && OpeningItem(sid) in s.flushed[m];
    var l :| 0 <= l < |s.flushed[m]| && s.flushed[m][l] == OpeningItem(sid);
    OpeningFirst(s.flushed, sid, m, l, n, k);
  }

  /** Exactly which batches are lost: those at the end of a chain of failures that starts with a session whose opening
      was not accepted. */
  lemma HandledBatchFailsIff(s: State, n: nat)
    requires Reachable(s) && CallsOf(s.calls, "") == [] && (forall sid :: Handled(s.calls, sid)) && n < |s.flushed|
    ensures !Succeeds(s.flushed, n) <==> EndsChain(s, n)
  {
    hide Handled, CallsOf, NeedsRow, Succeeds, OpenedAt;
    if !Succeeds(s.flushed, n) {
      FailureHasChain(s, n);
    }
    if EndsChain(s, n) {
      var batches, sids :| IsChain(s, batches, sids) && batches[|batches| - 1] == n;
      ChainFails(s, batches, sids);
    }
  }

  // ------------------------------------------------------------ references, per session

  /** Every flushed item of the session finds the session's row when its batch is written. */
  ghost predicate ReferencesResolve(flushed: seq<seq<Item>>, sid: string) {
    forall n: nat, k: nat :: n < |flushed| && k < |flushed[n]| && flushed[n][k].sid == sid ==>
      ItemFindsRow(flushed, n, k)
  }

  /** Nothing of the session is flushed after batch `m`. */
  ghost predicate NothingAfter(flushed: seq<seq<Item>>, m: nat, sid: string) {
    forall n: nat, k: nat :: m < n < |flushed| && k < |flushed[n]| ==> flushed[n][k].sid != sid
  }

  /** When the batches with the session's openings are stored, and its items arrive opening first, every item finds the
      session's row. */
  lemma FlushKeepsReferences(flushed: seq<seq<Item>>, sid: string)
    requires sid != "" && OpenedBefore(Concat(flushed), sid)
    requires forall m: nat :: m < |flushed| && OpeningItem(sid) in flushed[m] ==> Succeeds(flushed, m)
    ensures ReferencesResolve(flushed, sid)
  {
    hide Succeeds, Concat, OpenedBefore;
    ArrivalOrderPrecedes(flushed, sid);
    forall n: nat, k: nat | n < |flushed| && k < |flushed[n]| && flushed[n][k].sid == sid
      ensures ItemFindsRow(flushed, n, k)
    {
      assert OpeningsPrecedeIn(Concat(flushed[..n]), flushed[n], sid);
      assert HasOpening(Concat(flushed[..n]), flushed[n], k);
      ItemIn(flushed[..n], OpeningItem(sid));
    }
  }

  /** The session was opened in batch `m`, which was stored or after which nothing of the session was flushed. */
  ghost predicate OpenedInTime(flushed: seq<seq<Item>>, m: nat, sid: string) {
    && m < |flushed| && OpeningItem(sid) in flushed[m]
    && (Succeeds(flushed, m) || NothingAfter(flushed, m, sid))
  }

  /** However connections interleave: every flushed item of a handled session finds the session's row if and only if
      nothing of the session was flushed, or its opening was, in a batch that was stored or after which nothing of the
      session was flushed. */
  lemma HandledSessionResolvesIff(s: State, sid: string)
    requires Reachable(s) && sid != "" && Handled(s.calls, sid)
    ensures ReferencesResolve(s.flushed, sid)
       <==> NothingFlushed(s.flushed, sid) || exists m: nat :: OpenedInTime(s.flushed, m, sid)
  {
    hide Handled, Succeeds, OpenedInTime, ReferencesResolve, NothingFlushed;
    if m: nat :| OpenedInTime(s.flushed, m, sid) {
      InTimeResolves(s, sid, m);
    }
    if NothingFlushed(s.flushed, sid) {
      NothingResolves(s.flushed, sid);
    } else if ReferencesResolve(s.flushed, sid) {
      var m := ResolvedInTime(s, sid);
    }
  }

  lemma NothingResolves(flushed: seq<seq<Item>>, sid: string)
    requires NothingFlushed(flushed, sid)
    ensures ReferencesResolve(flushed, sid)
  {
    hide ItemFindsRow, Concat;
    forall n: nat, k: nat | n < |flushed| && k < |flushed[n]| ensures flushed[n][k].sid != sid {
      ItemIn(flushed, flushed[n][k]);
    }
  }

  lemma InTimeResolves(s: State, sid: string, m: nat)
    requires Reachable(s) && sid != "" && Handled(s.calls, sid) && OpenedInTime(s.flushed, m, sid)
    ensures ReferencesResolve(s.flushed, sid)
  {
    hide Handled, Succeeds, NothingBeforeOpening, Concat, ItemFindsRow, OpenedBefore;
    HandledOrder(s, sid);
    var l :| 0 <= l < |s.flushed[m]| && s.flushed[m][l] == OpeningItem(sid);
    forall n: nat, k: nat | n < |s.flushed| && k < |s.flushed[n]| && s.flushed[n][k].sid == sid
      ensures ItemFindsRow(s.flushed, n, k)
    {
      if s.flushed[n][k].OpeningItem? {
        OpeningFindsRow(s.flushed, n, k);
      } else {
        OpeningFirst(s.flushed, sid, m, l, n, k);
        assert OpenedAt(s.flushed, n, sid);
        HandledItemIff(s, n, k);
      }
    }
  }

  lemma ResolvedInTime(s: State, sid: string) returns (m: nat)
    requires Reachable(s) && sid != "" && Handled(s.calls, sid)
    requires ReferencesResolve(s.flushed, sid) && !NothingFlushed(s.flushed, sid)
    ensures OpenedInTime(s.flushed, m, sid)
  {
    hide Handled, Succeeds, NothingBeforeOpening, Concat, ItemFindsRow, OpenedBefore;
    HandledOrder(s, sid);
    var i :| i in Concat(s.flushed) && i.sid == sid;
    ItemIn(s.flushed, i);
    var n: nat :| n < |s.flushed| && i in s.flushed[n];
    var k: nat :| k < |s.flushed[n]| && s.flushed[n][k] == i;
    if i.OpeningItem? {
      m := n;
    } else {
      HandledItemIff(s, n, k);
      m :| m <= n && OpeningItem(sid) in s.flushed[m] && (m == n || Succeeds(s.flushed, m));
    }
    if !Succeeds(s.flushed, m) {
      forall a: nat, b: nat | m < a < |s.flushed| && b < |s.flushed[a]| ensures s.flushed[a][b].sid != sid {
        if s.flushed[a][b].sid == sid {
          LaterNeedsSuccess(s, sid, m, a, b);
        }
      }
    }
  }

  /** An item after the batch of its opening finds the row only if that batch was stored. */
  lemma LaterNeedsSuccess(s: State, sid: string, m: nat, n: nat, k: nat)
    requires Reachable(s) && sid != "" && Handled(s.calls, sid)
    requires m < n < |s.flushed| && k < |s.flushed[n]| && s.flushed[n][k].sid == sid
    requires OpeningItem(sid) in s.flushed[m] && ItemFindsRow(s.flushed, n, k)
    ensures Succeeds(s.flushed, m)
  {
    hide Handled, Succeeds, NothingBeforeOpening, Concat, ItemFindsRow, OpenedBefore;
    HandledOrder(s, sid);
    if s.flushed[n][k].OpeningItem? {
      SameOpening(s.flushed, sid, m, n);
    } else {
      HandledItemIff(s, n, k);
      var a: nat :| a <= n && OpeningItem(sid) in s.flushed[a] && (a == n || Succeeds(s.flushed, a));
      SameOpening(s.flushed, sid, m, a);
    }
  }
}
