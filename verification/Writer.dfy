/**
  The sensor's write path (honeypot/logger.py): producers put items on a bounded queue, one
  writer thread batches them into the sinks, and `stop` asks it to drain and exit. The protocol
  is a state machine over its atomic steps; EventLogger performs those steps on its fields.
 */
module Writer {
  import opened Sequences

  const QUEUE_MAXSIZE: nat := 10_000
  const BATCH_SIZE: nat := 100

  /** What a producer hands over for the session `sid`: an event, the upsert that opens its row with all required
      columns, or the one that completes it. */
  datatype Item = EventItem(sid: string, eventId: nat) | OpeningItem(sid: string) | ClosingItem(sid: string)

  datatype Slot = Queued(item: Item) | Sentinel

  /** Where the writer thread is: waiting in `get`; between queue.Empty and the flush; between that
      flush and the test of `_running`; about to flush a full batch; about to flush before the
      final drain; draining; about to flush what was drained; gone. */
  datatype Pc = Getting | TimedOut | Checking | Full | GotSentinel | Draining | Drained | Exited

  /** How far `stop` has come. */
  datatype StopPc = NotCalled | Cleared | Joining

  datatype Call = Call(item: Item, ok: bool)

  datatype State = State(
    queue: seq<Slot>,
    running: bool,
    pc: Pc,
    batch: seq<Item>,
    stopPc: StopPc,
    written: nat,
    dropped: nat,
    flushed: seq<seq<Item>>,
    calls: seq<Call>)

  datatype Action = Emit(item: Item) | ClearRunning | PostSentinel | Get | TimeOut | Flush | Check | DrainGet

  const INITIAL := State([], true, Getting, [], NotCalled, 0, 0, [], [])

  function EventsIn(batch: seq<Item>): nat {
    if batch == [] then 0 else (if batch[0].EventItem? then 1 else 0) + EventsIn(batch[1..])
  }

  predicate Enabled(s: State, a: Action) {
    match a
    case Emit(_) => true
    case ClearRunning => s.stopPc == NotCalled
    case PostSentinel => s.stopPc == Cleared
    case Get => s.pc == Getting && s.queue != []
    case TimeOut => s.pc == Getting && s.queue == []
    case Flush => s.pc == TimedOut || s.pc == Full || s.pc == GotSentinel || s.pc == Drained
    case Check => s.pc == Checking
    case DrainGet => s.pc == Draining
  }

  function AfterFlush(pc: Pc): Pc {
    match pc
    case TimedOut => Checking
    case Full => Getting
    case GotSentinel => Draining
    case _ => Exited
  }

  function Next(s: State, a: Action): State
    requires Enabled(s, a)
  {
    match a
    case Emit(item) =>
      if |s.queue| < QUEUE_MAXSIZE
      then s.(queue := s.queue + [Queued(item)], calls := s.calls + [Call(item, true)])
      else s.(dropped := s.dropped + 1, calls := s.calls + [Call(item, false)])
    case ClearRunning => s.(running := false, stopPc := Cleared)
    case PostSentinel =>
      s.(stopPc := Joining, queue := if |s.queue| < QUEUE_MAXSIZE then s.queue + [Sentinel] else s.queue)
    case Get =>
      var rest := s.queue[1..];
      (match s.queue[0]
       case Sentinel => s.(queue := rest, pc := GotSentinel)
       case Queued(item) =>
         s.(queue := rest, batch := s.batch + [item], pc := if |s.batch| + 1 >= BATCH_SIZE then Full else Getting))
    case TimeOut => s.(pc := TimedOut)
    case Flush =>
      if s.batch == [] then s.(pc := AfterFlush(s.pc))
      else s.(pc := AfterFlush(s.pc), batch := [], flushed := s.flushed + [s.batch],
              written := s.written + EventsIn(s.batch))
    case Check => s.(pc := if s.running then Getting else Exited)
    case DrainGet =>
      if s.queue == [] then s.(pc := Drained)
      else
        (match s.queue[0]
         case Sentinel => s.(queue := s.queue[1..])
         case Queued(item) => s.(queue := s.queue[1..], batch := s.batch + [item]))
  }

  /** The object itself; each method is one atomic step of one thread. */
  class EventLogger {
    var queue: seq<Slot>
    var running: bool
    var pc: Pc
    var batch: seq<Item>
    var stopPc: StopPc
    var written: nat
    var dropped: nat
    ghost var flushed: seq<seq<Item>>
    ghost var calls: seq<Call>

    ghost function View(): State
      reads this
    {
      State(queue, running, pc, batch, stopPc, written, dropped, flushed, calls)
    }

    /** Construction and `start`. */
    constructor ()
      ensures View() == INITIAL
    {
      queue, running, pc, batch, stopPc := [], true, Getting, [], NotCalled;
      written, dropped, flushed, calls := 0, 0, [], [];
    }

    /** `emit` and `emit_session`; false when the item was dropped. */
    method Offer(item: Item) returns (ok: bool)
      modifies this
      ensures View() == Next(old(View()), Emit(item))
      ensures ok <==> old(|queue|) < 10_000
      ensures queue == if ok then old(queue) + [Queued(item)] else old(queue)
      ensures dropped == old(dropped) + if ok then 0 else 1
    {
      ok := |queue| < QUEUE_MAXSIZE;
      if ok {
        queue := queue + [Queued(item)];
      } else {
        dropped := dropped + 1;
      }
      calls := calls + [Call(item, ok)];
    }

    method BeginStop()
      requires Enabled(View(), ClearRunning)
      modifies this
      ensures View() == Next(old(View()), ClearRunning)
    {
      running, stopPc := false, Cleared;
    }

    method OfferSentinel()
      requires Enabled(View(), PostSentinel)
      modifies this
      ensures View() == Next(old(View()), PostSentinel)
      ensures queue == if old(|queue|) < 10_000 then old(queue) + [Sentinel] else old(queue)
    {
      stopPc := Joining;
      if |queue| < QUEUE_MAXSIZE {
        queue := queue + [Sentinel];
      }
    }

    /** `get` with a timeout, up to the next point where the batch may have to be flushed. */
    method TakeNext()
      requires pc == Getting
      modifies this
      ensures View() == Next(old(View()), if old(queue) == [] then TimeOut else Get)
      ensures pc == Full <==> old(queue) != [] && old(queue)[0].Queued? && old(|batch|) + 1 >= 100
    {
      if queue == [] {
        pc := TimedOut;
        return;
      }
      var item := queue[0];
      queue := queue[1..];
      if item == Sentinel {
        pc := GotSentinel;
        return;
      }
      batch := batch + [item.item];
      if |batch| >= BATCH_SIZE {
        pc := Full;
      }
    }

    method FlushBatch()
      requires Enabled(View(), Flush)
      modifies this
      ensures View() == Next(old(View()), Flush)
    {
      if batch != [] {
        var events := CountEvents(batch);
        flushed := flushed + [batch];
        written := written + events;
        batch := [];
      }
      pc := AfterFlush(pc);
    }

    method TestRunning()
      requires Enabled(View(), Check)
      modifies this
      ensures View() == Next(old(View()), Check)
    {
      pc := if running then Getting else Exited;
    }

    method DrainNext()
      requires Enabled(View(), DrainGet)
      modifies this
      ensures View() == Next(old(View()), DrainGet)
    {
      if queue == [] {
        pc := Drained;
        return;
      }
      var item := queue[0];
      queue := queue[1..];
      if item != Sentinel {
        batch := batch + [item.item];
      }
    }
  }

  method CountEvents(batch: seq<Item>) returns (n: nat)
    ensures n == EventsIn(batch)
  {
    n := 0;
    for k := 0 to |batch|
      invariant n + EventsIn(batch[k..]) == EventsIn(batch)
    {
      assert batch[k..][1..] == batch[k + 1..];
      if batch[k].EventItem? {
        n := n + 1;
      }
    }
    assert batch[|batch|..] == [];
  }

  // ----------------------------------------------------------------------- runs

  ghost predicate ValidRun(s: State, run: seq<Action>)
    decreases |run|
  {
    run == [] || (Enabled(s, run[0]) && ValidRun(Next(s, run[0]), run[1..]))
  }

  ghost function Exec(s: State, run: seq<Action>): State
    requires ValidRun(s, run)
    decreases |run|
  {
    if run == [] then s else Exec(Next(s, run[0]), run[1..])
  }

  ghost predicate Reachable(s: State) {
    exists run :: ValidRun(INITIAL, run) && Exec(INITIAL, run) == s
  }

  function Items(queue: seq<Slot>): seq<Item> {
    if queue == [] then []
    else (if queue[0].Queued? then [queue[0].item] else []) + Items(queue[1..])
  }

  function Accepted(calls: seq<Call>): seq<Item> {
    if calls == [] then []
    else Accepted(calls[..|calls| - 1]) + if calls[|calls| - 1].ok then [calls[|calls| - 1].item] else []
  }

  lemma {:induction false} ItemsAppend(queue: seq<Slot>, slot: Slot)
    ensures Items(queue + [slot]) == Items(queue) + if slot.Queued? then [slot.item] else []
  {
    hide Items;
    if queue == [] {
      assert queue + [slot] == [slot] + [];
      ItemsCons(slot, []);
      NoItems();
    } else {
      assert queue == [queue[0]] + queue[1..];
      assert queue + [slot] == [queue[0]] + (queue[1..] + [slot]);
      ItemsCons(queue[0], queue[1..] + [slot]);
      ItemsCons(queue[0], queue[1..]);
      ItemsAppend(queue[1..], slot);
    }
  }

  lemma ItemsCons(slot: Slot, rest: seq<Slot>)
    ensures Items([slot] + rest) == (if slot.Queued? then [slot.item] else []) + Items(rest)
  {
    assert ([slot] + rest)[1..] == rest;
  }

  lemma NoItems()
    ensures Items([]) == []
  {
  }

  lemma AcceptedAppend(calls: seq<Call>, c: Call)
    ensures Accepted(calls + [c]) == Accepted(calls) + if c.ok then [c.item] else []
  {
    assert (calls + [c])[..|calls|] == calls;
  }

  lemma ConcatAppend(batches: seq<seq<Item>>, b: seq<Item>)
    ensures Concat(batches + [b]) == Concat(batches) + b
  {
    assert (batches + [b])[..|batches|] == batches;
  }

  lemma {:induction false} EventsInConcat(a: seq<Item>, b: seq<Item>)
    ensures EventsIn(a + b) == EventsIn(a) + EventsIn(b)
  {
    if a == [] {
      assert a + b == b;
    } else {
      assert (a + b)[1..] == a[1..] + b;
      EventsInConcat(a[1..], b);
    }
  }

  // --------------------------------------------------------- what every step keeps

  /** Nothing is lost, duplicated or reordered between `emit` and the sinks. */
  ghost predicate Conserved(s: State) {
    Accepted(s.calls) == Concat(s.flushed) + s.batch + Items(s.queue)
  }

  /** Every call was either accepted or counted as dropped, and `written` counts flushed events. */
  ghost predicate Accounted(s: State) {
    && |s.calls| == |Accepted(s.calls)| + s.dropped
    && s.written == EventsIn(Concat(s.flushed))
  }

  ghost predicate FinalDrain(pc: Pc) { pc == Draining || pc == Drained || pc == Exited }

  ghost predicate Bounded(s: State) {
    && |s.queue| <= 10_000
    && (s.pc == Getting ==> |s.batch| < 100)
    && (s.pc == Full ==> |s.batch| == 100)
    && (!FinalDrain(s.pc) ==> |s.batch| <= 100)
    && (s.pc == Checking || s.pc == Exited ==> s.batch == [])
    && (forall k :: 0 <= k < |s.flushed| ==> s.flushed[k] != [])
    && (forall k :: 0 <= k < |s.flushed| ==>
          |s.flushed[k]| <= 100 || (k == |s.flushed| - 1 && s.pc == Exited))
  }

  /** The sentinel, and everything it causes, comes after `_running` was cleared. */
  ghost predicate StopOrder(s: State) {
    && (s.running <==> s.stopPc == NotCalled)
    && (s.running ==> Sentinel !in s.queue && s.pc != GotSentinel && !FinalDrain(s.pc))
  }

  ghost predicate Invariant(s: State) {
    Conserved(s) && Accounted(s) && Bounded(s) && StopOrder(s)
  }

  lemma ConservedStep(s: State, a: Action)
    requires Conserved(s) && Enabled(s, a)
    ensures Conserved(Next(s, a))
  {
    hide Items, Concat, Accepted;
    match a
    case Emit(item) =>
      ConservedEmit(s, item);
    case PostSentinel =>
      ItemsAppend(s.queue, Sentinel);
      assert Items(s.queue) + [] == Items(s.queue);
    case Flush =>
      ConcatAppend(s.flushed, s.batch);
      assert Concat(s.flushed) + s.batch + [] == Concat(s.flushed) + s.batch;
    case Get =>
      ConservedTake(s);
    case DrainGet =>
      if s.queue != [] {
        ConservedTake(s);
      }
    case _ =>
  }

  lemma ConservedEmit(s: State, item: Item)
    requires Conserved(s)
    ensures Conserved(Next(s, Emit(item)))
  {
    hide Items, Concat, Accepted;
    var ok := |s.queue| < QUEUE_MAXSIZE;
    AcceptedAppend(s.calls, Call(item, ok));
    if ok {
      ItemsAppend(s.queue, Queued(item));
      assert Concat(s.flushed) + s.batch + (Items(s.queue) + [item]) == Accepted(s.calls) + [item];
    } else {
      assert Accepted(s.calls) + [] == Accepted(s.calls);
    }
  }

  lemma ConservedTake(s: State)
    requires s.queue != []
    ensures s.queue[0] == Sentinel ==> Items(s.queue[1..]) == Items(s.queue)
    ensures s.queue[0].Queued? ==>
      Concat(s.flushed) + s.batch + Items(s.queue)
      == Concat(s.flushed) + (s.batch + [s.queue[0].item]) + Items(s.queue[1..])
  {
    assert [] + Items(s.queue[1..]) == Items(s.queue[1..]);
  }

  lemma AccountedStep(s: State, a: Action)
    requires Accounted(s) && Enabled(s, a)
    ensures Accounted(Next(s, a))
  {
    hide Items, Concat, Accepted, EventsIn;
    match a
    case Emit(item) =>
      AcceptedAppend(s.calls, Call(item, |s.queue| < QUEUE_MAXSIZE));
    case Flush =>
      ConcatAppend(s.flushed, s.batch);
      EventsInConcat(Concat(s.flushed), s.batch);
    case _ =>
  }

  lemma BoundedStep(s: State, a: Action)
    requires Bounded(s) && Enabled(s, a)
    ensures Bounded(Next(s, a))
  {
  }

  lemma StopOrderStep(s: State, a: Action)
    requires StopOrder(s) && Enabled(s, a)
    ensures StopOrder(Next(s, a))
  {
  }

  lemma {:induction false} InvariantOverRun(s: State, run: seq<Action>)
    requires Invariant(s) && ValidRun(s, run)
    ensures Invariant(Exec(s, run))
    decreases |run|
  {
    hide Conserved, Accounted, Bounded, StopOrder, Next;
    if run != [] {
      ConservedStep(s, run[0]);
      AccountedStep(s, run[0]);
      BoundedStep(s, run[0]);
      StopOrderStep(s, run[0]);
      InvariantOverRun(Next(s, run[0]), run[1..]);
    }
  }

  /** In every interleaving of producers, `stop` and the writer, from the start on. */
  lemma ReachableInvariant(s: State)
    requires Reachable(s)
    ensures Conserved(s) && Accounted(s) && Bounded(s) && StopOrder(s)
  {
    var run :| ValidRun(INITIAL, run) && Exec(INITIAL, run) == s;
    InvariantOverRun(INITIAL, run);
  }

  // ------------------------------------------------------------------- shutdown

  /** The writer has seen an empty queue but not yet tested `_running`, and something arrived
      in between. */
  predicate AtRisk(s: State) {
    (s.pc == TimedOut || s.pc == Checking) && Items(s.queue) != []
  }

  ghost predicate NoEmit(run: seq<Action>) {
    forall k :: 0 <= k < |run| ==> !run[k].Emit?
  }

  ghost predicate SafeStop(s: State) {
    && !s.running && s.stopPc != NotCalled
    && (s.pc == TimedOut || s.pc == Checking || s.pc == Drained || s.pc == Exited ==> Items(s.queue) == [])
  }

  ghost predicate DoomedStop(s: State) {
    && !s.running && s.stopPc != NotCalled
    && (s.pc == TimedOut || s.pc == Checking || s.pc == Exited) && Items(s.queue) != []
  }

  lemma ShutdownStep(s: State, a: Action)
    requires Enabled(s, a) && !a.Emit?
    ensures SafeStop(s) ==> SafeStop(Next(s, a))
    ensures DoomedStop(s) ==> DoomedStop(Next(s, a))
  {
    if a == PostSentinel {
      ItemsAppend(s.queue, Sentinel);
    }
  }

  lemma {:induction false} ShutdownOverRun(s: State, run: seq<Action>)
    requires ValidRun(s, run) && NoEmit(run)
    ensures SafeStop(s) ==> SafeStop(Exec(s, run))
    ensures DoomedStop(s) ==> DoomedStop(Exec(s, run))
    decreases |run|
  {
    hide SafeStop, DoomedStop, Next;
    if run != [] {
      ShutdownStep(s, run[0]);
      ShutdownOverRun(Next(s, run[0]), run[1..]);
    }
  }

  /** When `stop` is called and nothing is emitted afterwards, the writer exits with every accepted
      item flushed if and only if it was not at risk at the moment `_running` was cleared. */
  lemma StopFlushesEverything(s: State, run: seq<Action>)
    requires Reachable(s) && s.stopPc == NotCalled
    requires ValidRun(Next(s, ClearRunning), run) && NoEmit(run)
    requires Exec(Next(s, ClearRunning), run).pc == Exited
    ensures var end := Exec(Next(s, ClearRunning), run);
      Concat(end.flushed) == Accepted(end.calls) <==> !AtRisk(s)
  {
    var cleared := Next(s, ClearRunning);
    var end := Exec(cleared, run);
    ReachableInvariant(s);
    ConservedStep(s, ClearRunning);
    AccountedStep(s, ClearRunning);
    InvariantOverRun(cleared, run);
    ShutdownOverRun(cleared, run);
    assert Accepted(end.calls) == Concat(end.flushed) + [] + Items(end.queue);
    if AtRisk(s) {
      assert DoomedStop(cleared);
      assert |Accepted(end.calls)| > |Concat(end.flushed)|;
    } else {
      assert SafeStop(cleared);
    }
  }

  /** A run that loses an accepted event: the writer times out, an event arrives, `stop` clears the
      flag and posts its sentinel, and the writer's test of the flag comes last. */
  lemma StopCanLoseAnEvent(e: Item)
    ensures var run := [TimeOut, Emit(e), ClearRunning, PostSentinel, Flush, Check];
      && ValidRun(INITIAL, run)
      && var end := Exec(INITIAL, run);
         end.pc == Exited && Accepted(end.calls) == [e] && end.flushed == []
  {
    var s1 := Next(INITIAL, TimeOut);
    var s2 := Next(s1, Emit(e));
    var s3 := Next(s2, ClearRunning);
    var s4 := Next(s3, PostSentinel);
    var s5 := Next(s4, Flush);
    AcceptedAppend([], Call(e, true));
    assert s5.calls == [] + [Call(e, true)];
    RunCons(s5, Check, []);
    RunCons(s4, Flush, [Check]);
    RunCons(s3, PostSentinel, [Flush, Check]);
    RunCons(s2, ClearRunning, [PostSentinel, Flush, Check]);
    RunCons(s1, Emit(e), [ClearRunning, PostSentinel, Flush, Check]);
    RunCons(INITIAL, TimeOut, [Emit(e), ClearRunning, PostSentinel, Flush, Check]);
  }

  lemma RunCons(s: State, a: Action, rest: seq<Action>)
    requires Enabled(s, a) && ValidRun(Next(s, a), rest)
    ensures ValidRun(s, [a] + rest) && Exec(s, [a] + rest) == Exec(Next(s, a), rest)
  {
    hide Next;
    assert ([a] + rest)[1..] == rest;
  }

  // ------------------------------------------------------------------- progress

  predicate IsWriterStep(a: Action) { a == Get || a == TimeOut || a == Flush || a == Check || a == DrainGet }

  /** The writer's remaining work once `_running` is cleared and nothing more is emitted. */
  function Work(s: State): nat {
    8 * (|s.queue| + if s.stopPc == Cleared then 1 else 0)
    + match s.pc
      case Exited => 0
      case Drained => 1
      case Checking => 1
      case Draining => 2
      case TimedOut => 2
      case GotSentinel => 3
      case Getting => 3
      case Full => 4
  }

  lemma WorkStep(s: State, a: Action)
    requires !s.running && s.stopPc != NotCalled && Enabled(s, a) && !a.Emit?
    ensures Work(Next(s, a)) <= Work(s)
    ensures IsWriterStep(a) ==> Work(Next(s, a)) < Work(s)
    ensures !Next(s, a).running && Next(s, a).stopPc != NotCalled
  {
  }

  function WriterSteps(run: seq<Action>): nat {
    if run == [] then 0 else (if IsWriterStep(run[0]) then 1 else 0) + WriterSteps(run[1..])
  }

  /** After `stop` began and the last emit, the writer takes at most Work(s) more steps, and until
      it has exited some step of it is enabled: it cannot hang or run forever. */
  lemma {:induction false} WriterTerminates(s: State, run: seq<Action>)
    requires !s.running && s.stopPc != NotCalled && ValidRun(s, run) && NoEmit(run)
    ensures WriterSteps(run) + Work(Exec(s, run)) <= Work(s)
    decreases |run|
    ensures Exec(s, run).pc != Exited ==> exists a :: IsWriterStep(a) && Enabled(Exec(s, run), a)
  {
    if run != [] {
      hide Next, Work;
      WorkStep(s, run[0]);
      WriterTerminates(Next(s, run[0]), run[1..]);
    } else {
      var a := match s.pc case Getting => (if s.queue == [] then TimeOut else Get)
               case Checking => Check case Draining => DrainGet case _ => Flush;
      assert s.pc != Exited ==> IsWriterStep(a) && Enabled(s, a);
    }
  }
}
