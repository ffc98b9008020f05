/**
  `rebuild_attackers` (storage/queries.py): the per-source aggregate, recomputed in chunks from one
  ordered event stream per chunk.
 */
module Attackers {
  import opened Sequences
  import opened EventRows

  const IN_CHUNK: nat := 500

  datatype Row = Row(
    firstSeen: int, lastSeen: int, eventCount: nat, sessionCount: nat, authAttempts: nat, commandsRun: nat,
    distinctUsernames: nat, distinctPasswords: nat, services: seq<string>)

  type Table = map<string, Row>

  // ------------------------------------------------------------- the per-source fold

  function FromIp(ip: string): Event -> bool { (e: Event) => e.srcIp == ip }

  /** The services in order of first appearance. */
  function ServicesSeen(events: seq<Event>): (s: seq<string>)
    ensures forall x :: x in s <==> exists e :: e in events && e.service == x
    ensures forall i, j :: 0 <= i < j < |s| ==> s[i] != s[j]
  {
    if events == [] then []
    else
      var before, e := events[..|events| - 1], events[|events| - 1];
      assert e in events && forall x :: x in events <==> x in before || x == e;
      var s := ServicesSeen(before);
      if e.service in s then s else s + [e.service]
  }

  function Aggregate(events: seq<Event>): Row
    requires events != []
  {
    Row(Least(events, Ts), Greatest(events, Ts), |events|, |Sessions(events)|,
        |Filter(events, IsType("auth_attempt"))|, |Filter(events, IsType("command"))|,
        |Usernames(events)|, |Passwords(events)|, StableSort(ServicesSeen(events), StringLe))
  }

  function GroupOf(events: seq<Event>, ip: string): seq<Event> { Filter(events, FromIp(ip)) }

  lemma SameFilter(a: seq<Event>, b: seq<Event>, keep: Event -> bool)
    requires multiset(a) == multiset(b)
    ensures multiset(Filter(a, keep)) == multiset(Filter(b, keep))
    ensures |Filter(a, keep)| == |Filter(b, keep)|
  {
    FilterMultiset(a, keep);
    FilterMultiset(b, keep);
    assert multiset(Filter(a, keep)) == multiset(Filter(b, keep));
    SameMembers(Filter(a, keep), Filter(b, keep));
  }

  /** The aggregate does not depend on the order in which a source's events arrive. */
  lemma {:induction false} AggregateOrderIrrelevant(a: seq<Event>, b: seq<Event>)
    requires a != [] && b != [] && multiset(a) == multiset(b)
    ensures Aggregate(a) == Aggregate(b)
  {
    hide Filter, StableSort, StringLe, Least, Greatest, ServicesSeen;
    SameMembers(a, b);
    SameFilter(a, b, IsType("auth_attempt"));
    SameFilter(a, b, IsType("command"));
    assert Usernames(a) == Usernames(b) && Passwords(a) == Passwords(b) && Sessions(a) == Sessions(b);
    SameServices(a, b);
    SameExtremes(a, b);
  }

  lemma SameExtremes(a: seq<Event>, b: seq<Event>)
    requires a != [] && b != [] && forall e :: e in a <==> e in b
    ensures Least(a, Ts) == Least(b, Ts) && Greatest(a, Ts) == Greatest(b, Ts)
  {
    hide Least, Greatest;
    var f1, f2, l1, l2 := Least(a, Ts), Least(b, Ts), Greatest(a, Ts), Greatest(b, Ts);
  }

  lemma SameServices(a: seq<Event>, b: seq<Event>)
    requires forall e :: e in a <==> e in b
    ensures StableSort(ServicesSeen(a), StringLe) == StableSort(ServicesSeen(b), StringLe)
  {
    hide StableSort, StringLe, ServicesSeen;
    var s, t := ServicesSeen(a), ServicesSeen(b);
    forall x ensures x in s <==> x in t {
    }
    DistinctMultiset(s);
    DistinctMultiset(t);
    forall x ensures multiset(s)[x] == multiset(t)[x] {
    }
    assert multiset(s) == multiset(t);
    SortStringsCanonical(s, t);
  }

  // ------------------------------------------------------------- what a row says

  /** The columns of a source's row, read off the events table. */
  ghost predicate Describes(row: Row, events: seq<Event>, ip: string) {
    && CountsAre(row, events, ip)
    && DistinctsAre(row, events, ip)
    && ExtremesAre(row, events, ip)
    && ServicesAre(row, events, ip)
  }

  /** How many of the source's events there are, and how many of them are login attempts and commands. */
  ghost predicate CountsAre(row: Row, events: seq<Event>, ip: string) {
    && row.eventCount == |set k | 0 <= k < |events| && events[k].srcIp == ip|
    && row.authAttempts == |set k | 0 <= k < |events| && events[k].srcIp == ip && events[k].eventType == "auth_attempt"|
    && row.commandsRun == |set k | 0 <= k < |events| && events[k].srcIp == ip && events[k].eventType == "command"|
  }

  /** How many different sessions, user names and passwords occur, the missing ones left out. */
  ghost predicate DistinctsAre(row: Row, events: seq<Event>, ip: string) {
    && row.sessionCount == |set e | e in events && e.srcIp == ip && e.sessionId != "" :: e.sessionId|
    && row.distinctUsernames == |set e | e in events && e.srcIp == ip && e.username != "" :: e.username|
    && row.distinctPasswords == |set e | e in events && e.srcIp == ip && e.password != "" :: e.password|
  }

  /** The times of the source's first and last event. */
  ghost predicate ExtremesAre(row: Row, events: seq<Event>, ip: string) {
    && (exists e :: e in events && e.srcIp == ip && e.ts == row.firstSeen)
    && (exists e :: e in events && e.srcIp == ip && e.ts == row.lastSeen)
    && (forall e :: e in events && e.srcIp == ip ==> row.firstSeen <= e.ts <= row.lastSeen)
  }

  /** Exactly the services the source used, each once and in ascending order. */
  ghost predicate ServicesAre(row: Row, events: seq<Event>, ip: string) {
    && (forall i, j :: 0 <= i < j < |row.services| ==> StringLe(row.services[i], row.services[j]))
    && (forall i, j :: 0 <= i < j < |row.services| ==> row.services[i] != row.services[j])
    && (forall x :: x in row.services <==> exists e :: e in events && e.srcIp == ip && e.service == x)
  }

  lemma InGroup(events: seq<Event>, ip: string)
    ensures forall e :: e in GroupOf(events, ip) <==> e in events && e.srcIp == ip
  {
    assert forall e: Event :: FromIp(ip)(e) <==> e.srcIp == ip;
  }

  lemma CountedPositions(events: seq<Event>, ip: string)
    ensures Positions(events, FromIp(ip)) == set k | 0 <= k < |events| && events[k].srcIp == ip
    ensures Positions(events, Both(FromIp(ip), IsType("auth_attempt")))
         == set k | 0 <= k < |events| && events[k].srcIp == ip && events[k].eventType == "auth_attempt"
    ensures Positions(events, Both(FromIp(ip), IsType("command")))
         == set k | 0 <= k < |events| && events[k].srcIp == ip && events[k].eventType == "command"
  {
  }

  lemma CountsDescribe(events: seq<Event>, ip: string)
    requires GroupOf(events, ip) != []
    ensures CountsAre(Aggregate(GroupOf(events, ip)), events, ip)
  {
    hide Filter;
    var attempt, command := IsType("auth_attempt"), IsType("command");
    FilterCount(events, FromIp(ip));
    FilterBoth(events, FromIp(ip), attempt);
    FilterCount(events, Both(FromIp(ip), attempt));
    FilterBoth(events, FromIp(ip), command);
    FilterCount(events, Both(FromIp(ip), command));
    CountedPositions(events, ip);
  }

  lemma DistinctsDescribe(events: seq<Event>, ip: string)
    requires GroupOf(events, ip) != []
    ensures DistinctsAre(Aggregate(GroupOf(events, ip)), events, ip)
  {
    hide GroupOf;
    var group := GroupOf(events, ip);
    InGroup(events, ip);
    assert Sessions(group) == set e | e in events && e.srcIp == ip && e.sessionId != "" :: e.sessionId;
    assert Usernames(group) == set e | e in events && e.srcIp == ip && e.username != "" :: e.username;
    assert Passwords(group) == set e | e in events && e.srcIp == ip && e.password != "" :: e.password;
  }

  lemma ServicesDescribe(events: seq<Event>, ip: string)
    requires GroupOf(events, ip) != []
    ensures ServicesAre(Aggregate(GroupOf(events, ip)), events, ip)
  {
    hide GroupOf, StableSort, StringLe, ServicesSeen, Least, Greatest, Filter;
    InGroup(events, ip);
    var seen := ServicesSeen(GroupOf(events, ip));
    SortedOnce(seen);
    var row := Aggregate(GroupOf(events, ip));
    assert row.services == StableSort(seen, StringLe);
    forall x ensures x in row.services <==> exists e :: e in events && e.srcIp == ip && e.service == x {
      assert x in row.services <==> x in seen;
      assert x in seen <==> exists e :: e in GroupOf(events, ip) && e.service == x;
    }
  }

  lemma SortedOnce(s: seq<string>)
    requires forall i, j :: 0 <= i < j < |s| ==> s[i] != s[j]
    ensures var sorted := StableSort(s, StringLe);
      && (forall i, j :: 0 <= i < j < |sorted| ==> StringLe(sorted[i], sorted[j]) && sorted[i] != sorted[j])
      && (forall x :: x in sorted <==> x in s)
  {
    hide StableSort, StringLe;
    var sorted := StableSort(s, StringLe);
    StringLeIsTotalOrder();
    SortOrdered(s, StringLe);
    SortMultiset(s, StringLe);
    SameMembers(s, sorted);
    DistinctMultiset(s);
    forall i, j | 0 <= i < j < |sorted| ensures sorted[i] != sorted[j] {
      SeenOnce(sorted, i, j);
    }
  }

  lemma SeenOnce(s: seq<string>, i: nat, j: nat)
    requires i < j < |s| && multiset(s)[s[i]] <= 1
    ensures s[i] != s[j]
  {
    assert s == s[..j] + s[j..];
    assert multiset(s) == multiset(s[..j]) + multiset(s[j..]);
    assert s[i] in s[..j] && s[j] in s[j..];
  }

  lemma ExtremesDescribe(events: seq<Event>, ip: string)
    requires GroupOf(events, ip) != []
    ensures ExtremesAre(Aggregate(GroupOf(events, ip)), events, ip)
  {
    hide GroupOf, StableSort, StringLe, ServicesSeen, Least, Greatest, Filter;
    InGroup(events, ip);
  }

  /** The aggregate of a source's events is its row. */
  lemma AggregateDescribes(events: seq<Event>, ip: string)
    requires GroupOf(events, ip) != []
    ensures Describes(Aggregate(GroupOf(events, ip)), events, ip)
  {
    hide GroupOf, Aggregate, CountsAre, DistinctsAre, ExtremesAre, ServicesAre;
    CountsDescribe(events, ip);
    DistinctsDescribe(events, ip);
    ExtremesDescribe(events, ip);
    ServicesDescribe(events, ip);
  }

  /** Nothing about a row is left open by what it says. */
  lemma DescriptionIsUnique(r: Row, q: Row, events: seq<Event>, ip: string)
    requires Describes(r, events, ip) && Describes(q, events, ip)
    ensures r == q
  {
    hide StringLe;
    SameNames(r.services, q.services);
  }

  lemma SameNames(s: seq<string>, t: seq<string>)
    requires Ordered(s, StringLe) && Ordered(t, StringLe) && forall x :: x in s <==> x in t
    requires forall i, j :: 0 <= i < j < |s| ==> s[i] != s[j]
    requires forall i, j :: 0 <= i < j < |t| ==> t[i] != t[j]
    ensures s == t
  {
    hide StringLe;
    StringLeIsTotalOrder();
    DistinctMultiset(s);
    DistinctMultiset(t);
    assert multiset(s) == multiset(t);
    OrderedUnique(s, t, StringLe);
  }

  // ------------------------------------------------------------------- one chunk

  predicate IpLe(a: Event, b: Event) { StringLe(a.srcIp, b.srcIp) }

  /** Equal sources are adjacent: what `groupby` relies on. */
  ghost predicate Contiguous(stream: seq<Event>) {
    forall i, j, k :: 0 <= i < j < k < |stream| && stream[i].srcIp == stream[k].srcIp ==>
      stream[j].srcIp == stream[i].srcIp
  }

  lemma OrderedIsContiguous(stream: seq<Event>)
    requires Ordered(stream, IpLe)
    ensures Contiguous(stream)
  {
    hide StringLe;
    forall i, j, k | 0 <= i < j < k < |stream| && stream[i].srcIp == stream[k].srcIp
      ensures stream[j].srcIp == stream[i].srcIp
    {
      assert IpLe(stream[i], stream[j]) && IpLe(stream[j], stream[k]);
      StringLeAntisymmetric(stream[i].srcIp, stream[j].srcIp);
    }
  }

  function SelectedBy(ips: set<string>): Event -> bool { (e: Event) => e.srcIp in ips }

  /** `select(Event).where(src_ip.in_(batch)).order_by(src_ip)`: the order inside a source is open. */
  method Query(events: seq<Event>, ips: set<string>) returns (stream: seq<Event>)
    ensures multiset(stream) == multiset(Filter(events, SelectedBy(ips)))
    ensures Ordered(stream, IpLe)
  {
    StringLeIsTotalOrder();
    assert TotalPreorder(IpLe);
    stream := StableSort(Filter(events, SelectedBy(ips)), IpLe);
    SortMultiset(Filter(events, SelectedBy(ips)), IpLe);
    SortOrdered(Filter(events, SelectedBy(ips)), IpLe);
  }

  function Ips(events: seq<Event>): set<string> { set e | e in events :: e.srcIp }

  /** The rows after refreshing the sources `done` from `events`. */
  ghost predicate Refreshed(before: Table, after: Table, events: seq<Event>, done: set<string>) {
    && (forall ip :: ip in done && GroupOf(events, ip) != [] ==>
          ip in after && after[ip] == Aggregate(GroupOf(events, ip)))
    && (forall ip :: !(ip in done && GroupOf(events, ip) != []) ==>
          (ip in after <==> ip in before) && (ip in after ==> after[ip] == before[ip]))
  }

  /** The end of the run of equal sources that starts at `i`. */
  function RunEnd(stream: seq<Event>, i: nat, j: nat): (r: nat)
    requires i < j <= |stream|
    requires forall k :: i <= k < j ==> stream[k].srcIp == stream[i].srcIp
    ensures j <= r <= |stream|
    ensures forall k :: i <= k < r ==> stream[k].srcIp == stream[i].srcIp
    ensures r < |stream| ==> stream[r].srcIp != stream[i].srcIp
    decreases |stream| - j
  {
    if j < |stream| && stream[j].srcIp == stream[i].srcIp then RunEnd(stream, i, j + 1) else j
  }

  lemma {:induction false} NoneKept(events: seq<Event>, keep: Event -> bool)
    requires forall e :: e in events ==> !keep(e)
    ensures Filter(events, keep) == []
  {
    if events != [] {
      assert events == [events[0]] + events[1..];
      NoneKept(events[1..], keep);
    }
  }

  lemma AfterRun(stream: seq<Event>, i: nat, j: nat)
    requires Contiguous(stream) && i < j <= |stream|
    requires j < |stream| ==> stream[j].srcIp != stream[i].srcIp
    ensures forall k :: j <= k < |stream| ==> stream[k].srcIp != stream[i].srcIp
  {
  }

  /** In a contiguous stream a run is the whole group of its source. */
  lemma RunIsGroup(stream: seq<Event>, i: nat, j: nat)
    requires i < j <= |stream|
    requires forall k :: 0 <= k < |stream| ==> (i <= k < j <==> stream[k].srcIp == stream[i].srcIp)
    ensures GroupOf(stream, stream[i].srcIp) == stream[i..j]
  {
    hide Filter;
    var keep := FromIp(stream[i].srcIp);
    var a, b, c := stream[..i], stream[i..j], stream[j..];
    assert stream == a + b + c;
    FilterConcat(a + b, c, keep);
    FilterConcat(a, b, keep);
    NoneKept(a, keep);
    FilterAll(b, keep);
    NoneKept(c, keep);
  }

  /** Only the finished prefix of the stream has been turned into rows. */
  ghost predicate Progress(before: Table, after: Table, stream: seq<Event>, i: nat, updated: nat)
    requires i <= |stream|
  {
    && updated == |Ips(stream[..i])|
    && (i < |stream| ==> stream[i].srcIp !in Ips(stream[..i]))
    && (forall ip :: ip in Ips(stream[..i]) ==>
          GroupOf(stream, ip) != [] && ip in after && after[ip] == Aggregate(GroupOf(stream, ip)))
    && (forall ip :: ip !in Ips(stream[..i]) ==>
          (ip in after <==> ip in before) && (ip in after ==> after[ip] == before[ip]))
  }

  lemma IpsStep(stream: seq<Event>, i: nat, j: nat)
    requires i < j <= |stream| && forall k :: i <= k < j ==> stream[k].srcIp == stream[i].srcIp
    ensures Ips(stream[..j]) == Ips(stream[..i]) + {stream[i].srcIp}
  {
    assert stream[..j] == stream[..i] + stream[i..j];
    assert stream[i] in stream[i..j];
    forall e | e in stream[i..j] ensures e.srcIp == stream[i].srcIp {
    }
  }

  lemma NextSourceIsNew(stream: seq<Event>, i: nat, j: nat)
    requires Contiguous(stream) && i < j < |stream|
    requires stream[j].srcIp != stream[j - 1].srcIp
    ensures stream[j].srcIp !in Ips(stream[..j])
  {
    forall e | e in stream[..j] ensures e.srcIp != stream[j].srcIp {
      var k :| 0 <= k < j && stream[k] == e;
      assert k == j - 1 || stream[k].srcIp != stream[j].srcIp;
    }
  }

  /** `_rebuild_group`: one pass over an ordered stream. */
  method RebuildGroup(stream: seq<Event>, before: Table) returns (after: Table, updated: nat)
    requires Contiguous(stream)
    ensures updated == |Ips(stream)|
    ensures forall ip :: ip in Ips(stream) ==>
              GroupOf(stream, ip) != [] && ip in after && after[ip] == Aggregate(GroupOf(stream, ip))
    ensures forall ip :: ip !in Ips(stream) ==>
              (ip in after <==> ip in before) && (ip in after ==> after[ip] == before[ip])
  {
    hide GroupOf, Aggregate, Ips, Contiguous, Progress;
    after, updated := before, 0;
    var i: nat := 0;
    NothingDone(before, stream);
    while i < |stream|
      invariant i <= |stream| && Progress(before, after, stream, i, updated)
    {
      var ip := stream[i].srcIp;
      var j := RunEnd(stream, i, i + 1);
      ProgressStep(before, after, stream, i, updated, j);
      after := after[ip := Aggregate(stream[i..j])];
      updated := updated + 1;
      i := j;
    }
    AllDone(before, after, stream, updated);
  }

  lemma NothingDone(before: Table, stream: seq<Event>)
    ensures Progress(before, before, stream, 0, 0)
  {
    assert Ips(stream[..0]) == {};
  }

  lemma AllDone(before: Table, after: Table, stream: seq<Event>, updated: nat)
    requires Progress(before, after, stream, |stream|, updated)
    ensures updated == |Ips(stream)|
    ensures forall ip :: ip in Ips(stream) ==>
              GroupOf(stream, ip) != [] && ip in after && after[ip] == Aggregate(GroupOf(stream, ip))
    ensures forall ip :: ip !in Ips(stream) ==>
              (ip in after <==> ip in before) && (ip in after ==> after[ip] == before[ip])
  {
    hide GroupOf, Aggregate, Ips;
    assert stream[..|stream|] == stream;
  }

  /** Turning the run that starts at `i` into a row. */
  lemma ProgressStep(before: Table, after: Table, stream: seq<Event>, i: nat, updated: nat, j: nat)
    requires Contiguous(stream) && i < j <= |stream| && Progress(before, after, stream, i, updated)
    requires forall k :: i <= k < j ==> stream[k].srcIp == stream[i].srcIp
    requires j < |stream| ==> stream[j].srcIp != stream[i].srcIp
    ensures Progress(before, after[stream[i].srcIp := Aggregate(stream[i..j])], stream, j, updated + 1)
  {
    hide GroupOf, Aggregate, Ips, Contiguous;
    EarlierDiffer(stream, i);
    AfterRun(stream, i, j);
    RunIsGroup(stream, i, j);
    IpsStep(stream, i, j);
    if j < |stream| {
      NextSourceIsNew(stream, i, j);
    }
  }

  lemma EarlierDiffer(stream: seq<Event>, i: nat)
    requires i < |stream| && stream[i].srcIp !in Ips(stream[..i])
    ensures forall k :: 0 <= k < i ==> stream[k].srcIp != stream[i].srcIp
  {
    forall k | 0 <= k < i ensures stream[k].srcIp != stream[i].srcIp {
      assert stream[..i][k] in stream[..i];
    }
  }

  // ------------------------------------------------------------------- all chunks

  lemma {:induction false} FilterTwice(events: seq<Event>, ips: set<string>, ip: string)
    requires ip in ips
    ensures Filter(Filter(events, SelectedBy(ips)), FromIp(ip)) == Filter(events, FromIp(ip))
  {
    if events != [] {
      var head, tail := [events[0]], events[1..];
      assert events == head + tail;
      FilterTwice(tail, ips, ip);
      FilterConcat(head, tail, SelectedBy(ips));
      FilterConcat(head, tail, FromIp(ip));
      FilterConcat(Filter(head, SelectedBy(ips)), Filter(tail, SelectedBy(ips)), FromIp(ip));
      FilterSingle(events[0], SelectedBy(ips));
      FilterSingle(events[0], FromIp(ip));
    }
  }

  /** A source's group in the chunk's stream is a rearrangement of its group in the table. */
  lemma ChunkGroup(events: seq<Event>, ips: set<string>, stream: seq<Event>, ip: string)
    requires multiset(stream) == multiset(Filter(events, SelectedBy(ips)))
    ensures ip in ips ==> multiset(GroupOf(stream, ip)) == multiset(GroupOf(events, ip))
    ensures ip in Ips(stream) <==> ip in ips && GroupOf(events, ip) != []
  {
    hide Filter;
    var chosen := Filter(events, SelectedBy(ips));
    SameMembers(stream, chosen);
    SameFilter(stream, chosen, FromIp(ip));
    if ip in ips {
      FilterTwice(events, ips, ip);
    }
    if e :| e in stream && e.srcIp == ip {
      assert e in chosen && SelectedBy(ips)(e);
      assert FromIp(ip)(e);
      assert e in GroupOf(events, ip);
    }
    if ip in ips && GroupOf(events, ip) != [] {
      var e := GroupOf(events, ip)[0];
      assert e in GroupOf(events, ip);
      assert FromIp(ip)(e) && SelectedBy(ips)(e);
      assert e in chosen;
    }
  }

  /** Every one of the sources that has events has its row. */
  ghost predicate RowsDescribe(table: Table, events: seq<Event>, ips: set<string>) {
    forall e :: e in events && e.srcIp in ips ==> e.srcIp in table && Describes(table[e.srcIp], events, e.srcIp)
  }

  lemma RefreshedRowsDescribe(before: Table, after: Table, events: seq<Event>, ips: set<string>)
    requires Refreshed(before, after, events, ips)
    ensures RowsDescribe(after, events, ips)
  {
    hide GroupOf, Aggregate, Describes;
    forall e | e in events && e.srcIp in ips
      ensures e.srcIp in after && Describes(after[e.srcIp], events, e.srcIp)
    {
      InGroup(events, e.srcIp);
      assert e in GroupOf(events, e.srcIp);
      AggregateDescribes(events, e.srcIp);
    }
  }

  /** The incremental path, for one batch of sources. */
  method RefreshChunk(events: seq<Event>, ips: set<string>, before: Table) returns (after: Table, updated: nat)
    ensures Refreshed(before, after, events, ips)
    ensures updated == |set ip | ip in ips && GroupOf(events, ip) != []|
  {
    hide GroupOf, Aggregate, Ips, Contiguous, Filter;
    var stream := Query(events, ips);
    OrderedIsContiguous(stream);
    after, updated := RebuildGroup(stream, before);
    forall ip ensures ip in Ips(stream) <==> ip in ips && GroupOf(events, ip) != [] {
      ChunkGroup(events, ips, stream, ip);
    }
    assert Ips(stream) == set ip | ip in ips && GroupOf(events, ip) != [];
    forall ip | ip in ips && GroupOf(events, ip) != []
      ensures ip in after && after[ip] == Aggregate(GroupOf(events, ip))
    {
      ChunkGroup(events, ips, stream, ip);
      AggregateOrderIrrelevant(GroupOf(stream, ip), GroupOf(events, ip));
    }
  }

  /** `list(dict.fromkeys(src_ips))` */
  function Dedupe(ips: seq<string>): (r: seq<string>)
    ensures forall x :: x in r <==> x in ips
    ensures forall i, j :: 0 <= i < j < |r| ==> r[i] != r[j]
  {
    if ips == [] then []
    else
      var before, last := ips[..|ips| - 1], ips[|ips| - 1];
      assert forall x :: x in ips <==> x in before || x == last;
      var r := Dedupe(before);
      if last in r then r else r + [last]
  }

  function Present(events: seq<Event>, ips: set<string>): set<string> {
    set ip | ip in ips && GroupOf(events, ip) != []
  }

  function AsSet(ips: seq<string>): set<string> { set ip | ip in ips }

  lemma RefreshedTwice(t0: Table, t1: Table, t2: Table, events: seq<Event>, a: set<string>, b: set<string>)
    requires Refreshed(t0, t1, events, a) && Refreshed(t1, t2, events, b)
    ensures Refreshed(t0, t2, events, a + b)
  {
    hide GroupOf, Aggregate;
  }

  lemma PresentUnion(events: seq<Event>, a: set<string>, b: set<string>)
    requires a !! b
    ensures |Present(events, a + b)| == |Present(events, a)| + |Present(events, b)|
  {
    hide GroupOf;
    assert Present(events, a + b) == Present(events, a) + Present(events, b);
    assert Present(events, a) !! Present(events, b);
  }

  /** The incremental path, chunk by chunk. */
  method RebuildSome(events: seq<Event>, srcIps: seq<string>, before: Table) returns (after: Table, updated: nat)
    ensures Refreshed(before, after, events, AsSet(srcIps)) && RowsDescribe(after, events, AsSet(srcIps))
    ensures updated == |Present(events, AsSet(srcIps))|
  {
    hide GroupOf, Aggregate, Refreshed, RowsDescribe;
    var ips := Dedupe(srcIps);
    after, updated := before, 0;
    var i: nat := 0;
    assert AsSet(ips[..0]) == {} && Present(events, {}) == {};
    assert Refreshed(before, before, events, {}) by { NothingRefreshed(before, events); }
    while i < |ips|
      invariant i <= |ips| && Refreshed(before, after, events, AsSet(ips[..i]))
      invariant updated == |Present(events, AsSet(ips[..i]))|
    {
      var j := if i + IN_CHUNK < |ips| then i + IN_CHUNK else |ips|;
      var chunk := AsSet(ips[i..j]);
      ghost var table := after;
      var n;
      after, n := RefreshChunk(events, chunk, after);
      RefreshedTwice(before, table, after, events, AsSet(ips[..i]), chunk);
      ChunksDisjoint(ips, i, j);
      PresentUnion(events, AsSet(ips[..i]), chunk);
      updated := updated + n;
      i := j;
    }
    assert ips[..|ips|] == ips;
    assert AsSet(ips) == AsSet(srcIps);
    RefreshedRowsDescribe(before, after, events, AsSet(srcIps));
  }

  lemma NothingRefreshed(before: Table, events: seq<Event>)
    ensures Refreshed(before, before, events, {})
  {
  }

  lemma ChunksDisjoint(ips: seq<string>, i: nat, j: nat)
    requires i <= j <= |ips| && forall a, b :: 0 <= a < b < |ips| ==> ips[a] != ips[b]
    ensures AsSet(ips[..i]) !! AsSet(ips[i..j])
    ensures AsSet(ips[..j]) == AsSet(ips[..i]) + AsSet(ips[i..j])
  {
    assert ips[..j] == ips[..i] + ips[i..j];
    forall x | x in AsSet(ips[..i]) ensures x !in AsSet(ips[i..j]) {
      var a :| 0 <= a < i && ips[a] == x;
      forall b | i <= b < j ensures ips[b] != x {
      }
    }
  }

  /** The full path: one stream over the whole table. */
  method RebuildAll(events: seq<Event>, before: Table) returns (after: Table, updated: nat)
    ensures Refreshed(before, after, events, Ips(events)) && RowsDescribe(after, events, Ips(events))
    ensures updated == |Present(events, Ips(events))|
  {
    hide Refreshed, RowsDescribe, GroupOf;
    after, updated := RefreshChunk(events, Ips(events), before);
    RefreshedRowsDescribe(before, after, events, Ips(events));
  }

  /** An incremental refresh of some sources and a full rebuild agree on every one of those that has
      events, whatever rows either started from. */
  lemma {:induction false} IncrementalEqualsFull(events: seq<Event>, ips: set<string>, t1: Table, some: Table,
                                                 t2: Table, full: Table, ip: string)
    requires Refreshed(t1, some, events, ips) && Refreshed(t2, full, events, Ips(events))
    requires ip in ips && GroupOf(events, ip) != []
    ensures ip in some && ip in full && some[ip] == full[ip] == Aggregate(GroupOf(events, ip))
  {
    hide Aggregate;
    var e := GroupOf(events, ip)[0];
    assert e in GroupOf(events, ip);
    assert FromIp(ip)(e);
    assert ip in Ips(events);
  }
}
