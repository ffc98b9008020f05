/**
  Admission control (honeypot/session.py, SessionRegistry) over every interleaving of accepted
  connections and closes (honeypot/services/base.py, _handle_client): between the check, the
  registration and the opening of a session the event loop runs nothing else, so the three are
  one step; closing and unregistering are another.
 */
module Admission {

  datatype Limits = Limits(ignoreIps: set<string>, maxConnections: int, maxPerIp: int)

  datatype Reason = Ok | Ignored | GlobalLimit | PerIpLimit

  /** `active` maps a session id to its source address. */
  datatype Registry = Registry(
    active: map<string, string>,
    perIp: map<string, int>,
    rejectedGlobal: nat,
    rejectedPerIp: nat,
    totalAccepted: nat)

  const EMPTY := Registry(map[], map[], 0, 0, 0)

  function Get(m: map<string, int>, key: string, default: int): int {
    if key in m then m[key] else default
  }

  function Decide(l: Limits, r: Registry, ip: string): Reason {
    if ip in l.ignoreIps then Ignored
    else if |r.active| >= l.maxConnections then GlobalLimit
    else if Get(r.perIp, ip, 0) >= l.maxPerIp then PerIpLimit
    else Ok
  }

  function Rejected(r: Registry, reason: Reason): Registry {
    match reason
    case GlobalLimit => r.(rejectedGlobal := r.rejectedGlobal + 1)
    case PerIpLimit => r.(rejectedPerIp := r.rejectedPerIp + 1)
    case _ => r
  }

  function Registered(r: Registry, sid: string, ip: string): Registry {
    r.(active := r.active[sid := ip],
       perIp := r.perIp[ip := Get(r.perIp, ip, 0) + 1],
       totalAccepted := r.totalAccepted + 1)
  }

  function Unregistered(r: Registry, sid: string, ip: string): Registry {
    var remaining := Get(r.perIp, ip, 1) - 1;
    r.(active := r.active - {sid},
       perIp := if remaining <= 0 then r.perIp - {ip} else r.perIp[ip := remaining])
  }

  class SessionRegistry {
    const limits: Limits
    var active: map<string, string>
    var perIp: map<string, int>
    var rejectedGlobal: nat
    var rejectedPerIp: nat
    var totalAccepted: nat

    ghost function View(): Registry
      reads this
    {
      Registry(active, perIp, rejectedGlobal, rejectedPerIp, totalAccepted)
    }

    constructor (limits: Limits)
      ensures View() == EMPTY && this.limits == limits
    {
      this.limits := limits;
      active, perIp := map[], map[];
      rejectedGlobal, rejectedPerIp, totalAccepted := 0, 0, 0;
    }

    method CanAccept(ip: string) returns (ok: bool, reason: Reason)
      modifies this
      ensures reason == Decide(limits, old(View()), ip) && (ok <==> reason == Ok)
      ensures View() == Rejected(old(View()), reason)
    {
      if ip in limits.ignoreIps {
        return false, Ignored;
      }
      if |active| >= limits.maxConnections {
        rejectedGlobal := rejectedGlobal + 1;
        return false, GlobalLimit;
      }
      if Get(perIp, ip, 0) >= limits.maxPerIp {
        rejectedPerIp := rejectedPerIp + 1;
        return false, PerIpLimit;
      }
      return true, Ok;
    }

    method Register(sid: string, ip: string)
      modifies this
      ensures View() == Registered(old(View()), sid, ip)
    {
      active := active[sid := ip];
      perIp := perIp[ip := Get(perIp, ip, 0) + 1];
      totalAccepted := totalAccepted + 1;
    }

    method Unregister(sid: string, ip: string)
      modifies this
      ensures View() == Unregistered(old(View()), sid, ip)
    {
      active := active - {sid};
      var remaining := Get(perIp, ip, 1) - 1;
      if remaining <= 0 {
        perIp := perIp - {ip};
      } else {
        perIp := perIp[ip := remaining];
      }
    }

    /** The first part of `_handle_client`, up to its first await. */
    method HandleConnect(sid: string, ip: string) returns (reason: Reason)
      modifies this
      ensures View() == Step(limits, old(View()), Connect(sid, ip))
      ensures reason == Decide(limits, old(View()), ip)
    {
      var ok;
      ok, reason := CanAccept(ip);
      if ok {
        Register(sid, ip);
      }
    }

    /** The `finally` block of `_handle_client`, for an active session. */
    method HandleClose(sid: string)
      requires sid in active
      modifies this
      ensures View() == Step(limits, old(View()), Close(sid))
    {
      Unregister(sid, active[sid]);
    }
  }

  // ----------------------------------------------------------------------- runs

  datatype Action = Connect(sid: string, ip: string) | Close(sid: string)

  /** Session ids are fresh; only an active session closes. */
  predicate Allowed(r: Registry, a: Action) {
    match a
    case Connect(sid, _) => sid !in r.active
    case Close(sid) => sid in r.active
  }

  function Step(l: Limits, r: Registry, a: Action): Registry
    requires a.Close? ==> a.sid in r.active
  {
    match a
    case Connect(sid, ip) =>
      var reason := Decide(l, r, ip);
      if reason == Ok then Registered(r, sid, ip) else Rejected(r, reason)
    case Close(sid) => Unregistered(r, sid, r.active[sid])
  }

  ghost predicate ValidRun(l: Limits, r: Registry, run: seq<Action>)
    decreases |run|
  {
    run == [] || (Allowed(r, run[0]) && ValidRun(l, Step(l, r, run[0]), run[1..]))
  }

  ghost function Exec(l: Limits, r: Registry, run: seq<Action>): Registry
    requires ValidRun(l, r, run)
    decreases |run|
  {
    if run == [] then r else Exec(l, Step(l, r, run[0]), run[1..])
  }

  function Closes(run: seq<Action>): (n: nat)
    ensures n <= |run|
  {
    if run == [] then 0 else (if run[0].Close? then 1 else 0) + Closes(run[1..])
  }

  function Connects(run: seq<Action>): nat { |run| - Closes(run) }

  // ----------------------------------------------------------------- invariants

  function SessionsFrom(active: map<string, string>, ip: string): set<string> {
    set sid | sid in active && active[sid] == ip
  }

  /** `_per_ip` counts the active sessions of each source, and has no zero entry. */
  ghost predicate Consistent(r: Registry) {
    forall ip :: CountedRight(r, ip)
  }

  ghost predicate CountedRight(r: Registry, ip: string) {
    && (ip in r.perIp <==> SessionsFrom(r.active, ip) != {})
    && Get(r.perIp, ip, 0) == |SessionsFrom(r.active, ip)|
  }

  ghost predicate WithinLimits(l: Limits, r: Registry) {
    && (r.active != map[] ==> |r.active| <= l.maxConnections)
    && (forall ip :: ip in r.perIp ==> r.perIp[ip] <= l.maxPerIp && ip !in l.ignoreIps)
  }

  lemma SessionsAfter(active: map<string, string>, sid: string, ip: string, q: string)
    ensures sid !in active ==>
      SessionsFrom(active[sid := ip], q) == if q == ip then SessionsFrom(active, q) + {sid} else SessionsFrom(active, q)
    ensures sid in active && active[sid] == ip ==>
      && (q == ip ==> sid in SessionsFrom(active, q))
      && SessionsFrom(active - {sid}, q) == if q == ip then SessionsFrom(active, q) - {sid} else SessionsFrom(active, q)
  {
  }

  lemma RegisteredConsistent(r: Registry, sid: string, ip: string)
    requires Consistent(r) && sid !in r.active
    ensures Consistent(Registered(r, sid, ip))
  {
    forall q ensures CountedRight(Registered(r, sid, ip), q) {
      hide SessionsFrom;
      assert CountedRight(r, q);
      SessionsAfter(r.active, sid, ip, q);
      NotCountedYet(r.active, sid, q);
    }
  }

  lemma NotCountedYet(active: map<string, string>, sid: string, q: string)
    ensures sid !in active ==> sid !in SessionsFrom(active, q)
  {
  }

  lemma UnregisteredConsistent(r: Registry, sid: string)
    requires Consistent(r) && sid in r.active
    ensures Consistent(Unregistered(r, sid, r.active[sid]))
  {
    var ip := r.active[sid];
    forall q ensures CountedRight(Unregistered(r, sid, ip), q) {
      hide SessionsFrom;
      assert CountedRight(r, q);
      SessionsAfter(r.active, sid, ip, q);
      assert q == ip ==> |SessionsFrom(r.active, q) - {sid}| == |SessionsFrom(r.active, q)| - 1;
    }
  }

  lemma LimitsKept(l: Limits, r: Registry, a: Action)
    requires WithinLimits(l, r) && Allowed(r, a)
    ensures WithinLimits(l, Step(l, r, a))
  {
    match a
    case Connect(sid, ip) => ConnectWithinLimits(l, r, sid, ip);
    case Close(sid) => CloseWithinLimits(l, r, sid);
  }

  lemma ConnectWithinLimits(l: Limits, r: Registry, sid: string, ip: string)
    requires WithinLimits(l, r) && sid !in r.active
    ensures WithinLimits(l, Step(l, r, Connect(sid, ip)))
  {
    assert r.active[sid := ip].Keys == r.active.Keys + {sid};
  }

  lemma CloseWithinLimits(l: Limits, r: Registry, sid: string)
    requires WithinLimits(l, r) && sid in r.active
    ensures WithinLimits(l, Step(l, r, Close(sid)))
  {
    var after := Step(l, r, Close(sid));
    assert after.active.Keys == r.active.Keys - {sid};
    assert |after.active.Keys| <= |r.active.Keys|;
  }

  lemma SizeOfActive(l: Limits, r: Registry, a: Action)
    requires Allowed(r, a)
    ensures var after := Step(l, r, a);
      |after.active| - |r.active| == (after.totalAccepted - r.totalAccepted) - (if a.Close? then 1 else 0)
  {
    match a
    case Connect(sid, ip) =>
      assert r.active[sid := ip].Keys == r.active.Keys + {sid};
    case Close(sid) =>
      assert (r.active - {sid}).Keys == r.active.Keys - {sid};
  }

  lemma {:induction false} RunKeeps(l: Limits, r: Registry, run: seq<Action>)
    requires ValidRun(l, r, run) && Consistent(r) && WithinLimits(l, r)
    ensures var end := Exec(l, r, run);
      && Consistent(end) && WithinLimits(l, end)
      && end.totalAccepted - r.totalAccepted == |end.active| - |r.active| + Closes(run)
    decreases |run|
  {
    hide Consistent, WithinLimits;
    if run != [] {
      assert Allowed(r, run[0]);
      var next := Step(l, r, run[0]);
      StepConsistent(l, r, run[0]);
      LimitsKept(l, r, run[0]);
      SizeOfActive(l, r, run[0]);
      RunKeeps(l, next, run[1..]);
    }
  }

  lemma StepConsistent(l: Limits, r: Registry, a: Action)
    requires Consistent(r) && Allowed(r, a)
    ensures Consistent(Step(l, r, a))
  {
    match a
    case Connect(sid, ip) =>
      if Decide(l, r, ip) == Ok {
        RegisteredConsistent(r, sid, ip);
      } else {
        forall ip ensures CountedRight(Step(l, r, a), ip) {
          assert CountedRight(r, ip);
        }
      }
    case Close(sid) => UnregisteredConsistent(r, sid);
  }

  /** In every run from the empty registry the per-source counts are the numbers of active sessions,
      with no zero entry; both limits hold, no ignored source is registered, and every accepted
      connection is either active or closed. */
  lemma EveryRunConsistent(l: Limits, run: seq<Action>)
    requires ValidRun(l, EMPTY, run)
    ensures var end := Exec(l, EMPTY, run);
      && (forall ip :: (ip in end.perIp <==> SessionsFrom(end.active, ip) != {})
                    && Get(end.perIp, ip, 0) == |SessionsFrom(end.active, ip)|)
      && (end.active != map[] ==> |end.active| <= l.maxConnections)
      && (forall ip :: ip in end.perIp ==> end.perIp[ip] <= l.maxPerIp && ip !in l.ignoreIps)
      && end.totalAccepted == |end.active| + Closes(run)
  {
    forall ip ensures CountedRight(EMPTY, ip) {
    }
    RunKeeps(l, EMPTY, run);
    var end := Exec(l, EMPTY, run);
    forall ip ensures (ip in end.perIp <==> SessionsFrom(end.active, ip) != {})
                   && Get(end.perIp, ip, 0) == |SessionsFrom(end.active, ip)| {
      assert CountedRight(end, ip);
    }
  }

  /** Connections that `can_accept` turns away without counting them: the ignored sources. */
  ghost function IgnoredConnects(l: Limits, run: seq<Action>): nat {
    if run == [] then 0
    else (if run[0].Connect? && run[0].ip in l.ignoreIps then 1 else 0) + IgnoredConnects(l, run[1..])
  }

  /** Every connection attempt is counted exactly once, as accepted, as rejected by one of the two
      limits, or as coming from an ignored source. */
  lemma {:induction false} EveryAttemptCounted(l: Limits, r: Registry, run: seq<Action>)
    requires ValidRun(l, r, run)
    ensures var end := Exec(l, r, run);
      Connects(run) == (end.totalAccepted - r.totalAccepted) + (end.rejectedGlobal - r.rejectedGlobal)
                     + (end.rejectedPerIp - r.rejectedPerIp) + IgnoredConnects(l, run)
    decreases |run|
  {
    if run != [] {
      EveryAttemptCounted(l, Step(l, r, run[0]), run[1..]);
    }
  }

  // ------------------------------------------------------------------ what each step does

  /** What becomes of a connection, in any reachable registry, by the sessions that are active: it is registered if and
      only if its source is not ignored, there is room, and fewer than the limit of its own sessions are active. A
      refusal changes nothing but the counter of the limit that was reached, the total being checked first. */
  lemma ConnectOutcome(l: Limits, run: seq<Action>, sid: string, ip: string)
    requires ValidRun(l, EMPTY, run) && sid !in Exec(l, EMPTY, run).active
    ensures var r := Exec(l, EMPTY, run);
      var after := Step(l, r, Connect(sid, ip));
      var own := |set s | s in r.active && r.active[s] == ip|;
      var full, crowded := |r.active| >= l.maxConnections, own >= l.maxPerIp;
      && (sid in after.active <==> ip !in l.ignoreIps && !full && !crowded)
      && after.active == (if sid in after.active then r.active[sid := ip] else r.active)
      && after.totalAccepted == r.totalAccepted + (if sid in after.active then 1 else 0)
      && after.rejectedGlobal == r.rejectedGlobal + (if ip !in l.ignoreIps && full then 1 else 0)
      && after.rejectedPerIp == r.rejectedPerIp + (if ip !in l.ignoreIps && !full && crowded then 1 else 0)
  {
    hide Exec, ValidRun;
    var r := Exec(l, EMPTY, run);
    EveryRunConsistent(l, run);
    assert SessionsFrom(r.active, ip) == set s | s in r.active && r.active[s] == ip;
  }

  /** A close takes its session out and touches no counter. */
  lemma CloseOutcome(l: Limits, r: Registry, sid: string)
    requires sid in r.active
    ensures var after := Step(l, r, Close(sid));
      && after.active == r.active - {sid}
      && after.totalAccepted == r.totalAccepted
      && after.rejectedGlobal == r.rejectedGlobal && after.rejectedPerIp == r.rejectedPerIp
  {
  }
}
