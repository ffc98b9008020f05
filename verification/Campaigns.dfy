/**
  `cluster` (pipeline/analysis/campaigns.py): campaigns are the connected components of the
  graph that joins two usable sources when their similarity reaches the threshold.
 */
module Campaigns {
  import opened Sequences
  import opened Similarity
  import opened UnionFind
  import opened Profiles

  // ------------------------------------------------- the graph and its components

  ghost predicate Linked(u: seq<Fingerprint>, t: real, i: nat, j: nat) {
    i < |u| && j < |u| && i != j && Score(u[i], u[j]) >= t
  }

  ghost predicate IsPath(u: seq<Fingerprint>, t: real, path: seq<nat>) {
    && path != []
    && path[0] < |u|
    && forall k :: 0 <= k < |path| - 1 ==> Linked(u, t, path[k], path[k + 1])
  }

  ghost predicate PathBetween(u: seq<Fingerprint>, t: real, path: seq<nat>, i: nat, j: nat) {
    IsPath(u, t, path) && path[0] == i && path[|path| - 1] == j
  }

  ghost predicate Connected(u: seq<Fingerprint>, t: real, i: nat, j: nat) {
    exists path :: PathBetween(u, t, path, i, j)
  }

  lemma ConnectedReflexive(u: seq<Fingerprint>, t: real, i: nat)
    requires i < |u|
    ensures Connected(u, t, i, i)
  {
    assert PathBetween(u, t, [i], i, i);
  }

  lemma LinkedSymmetric(u: seq<Fingerprint>, t: real, i: nat, j: nat)
    requires Linked(u, t, i, j)
    ensures Linked(u, t, j, i)
  {
    ScoreSymmetric(u[i], u[j]);
  }

  lemma {:induction false} PathInBounds(u: seq<Fingerprint>, t: real, path: seq<nat>, k: nat)
    requires IsPath(u, t, path) && k < |path|
    ensures path[k] < |u|
  {
    if k > 0 {
      assert Linked(u, t, path[k - 1], path[k - 1 + 1]);
    }
  }

  lemma ConnectedLink(u: seq<Fingerprint>, t: real, i: nat, j: nat)
    requires Linked(u, t, i, j)
    ensures Connected(u, t, i, j)
  {
    assert PathBetween(u, t, [i, j], i, j);
  }

  lemma ConnectedTransitive(u: seq<Fingerprint>, t: real, i: nat, j: nat, k: nat)
    requires Connected(u, t, i, j) && Connected(u, t, j, k)
    ensures Connected(u, t, i, k)
  {
    var a :| PathBetween(u, t, a, i, j);
    var b :| PathBetween(u, t, b, j, k);
    var path := a + b[1..];
    forall m | 0 <= m < |path| - 1 ensures Linked(u, t, path[m], path[m + 1]) {
      if m < |a| - 1 {
        assert path[m] == a[m] && path[m + 1] == a[m + 1];
      } else {
        var n := m - (|a| - 1);
        assert path[m] == b[n] && path[m + 1] == b[n + 1];
      }
    }
    assert PathBetween(u, t, path, i, k);
  }

  lemma ConnectedSymmetric(u: seq<Fingerprint>, t: real, i: nat, j: nat)
    requires Connected(u, t, i, j)
    ensures Connected(u, t, j, i)
  {
    hide Score;
    var a :| PathBetween(u, t, a, i, j);
    var path := seq(|a|, k requires 0 <= k < |a| => a[|a| - 1 - k]);
    PathInBounds(u, t, a, |a| - 1);
    forall m | 0 <= m < |path| - 1 ensures Linked(u, t, path[m], path[m + 1]) {
      var n := |a| - 2 - m;
      assert Linked(u, t, a[n], a[n + 1]);
      LinkedSymmetric(u, t, a[n], a[n + 1]);
    }
    assert PathBetween(u, t, path, j, i);
  }

  /** Anything constant along links is constant along paths. */
  lemma {:induction false} PathPreserves(u: seq<Fingerprint>, t: real, path: seq<nat>, mark: seq<nat>)
    requires |mark| == |u| && IsPath(u, t, path)
    requires forall i: nat, j: nat :: Linked(u, t, i, j) ==> mark[i] == mark[j]
    ensures path[|path| - 1] < |u| && mark[path[0]] == mark[path[|path| - 1]]
    decreases |path|
  {
    if |path| > 1 {
      var rest := path[..|path| - 1];
      forall k | 0 <= k < |rest| - 1 ensures Linked(u, t, rest[k], rest[k + 1]) {
        assert Linked(u, t, path[k], path[k + 1]);
      }
      PathPreserves(u, t, rest, mark);
      assert Linked(u, t, path[|path| - 2], path[|path| - 2 + 1]);
    }
  }

  /** The indices from `k` on that belong to the component of `r`, ascending. */
  ghost function ComponentFrom(u: seq<Fingerprint>, t: real, r: nat, k: nat): seq<nat>
    requires k <= |u|
    decreases |u| - k
  {
    if k == |u| then []
    else (if Connected(u, t, r, k) then [k] else []) + ComponentFrom(u, t, r, k + 1)
  }

  ghost function Component(u: seq<Fingerprint>, t: real, r: nat): seq<nat> {
    ComponentFrom(u, t, r, 0)
  }

  ghost predicate Ascending(s: seq<nat>) {
    forall a, b :: 0 <= a < b < |s| ==> s[a] < s[b]
  }

  lemma NoneAscending()
    ensures Ascending([])
  {
  }

  lemma AscendingCons(k: nat, s: seq<nat>)
    requires Ascending(s) && forall j :: 0 <= j < |s| ==> k < s[j]
    ensures Ascending([k] + s)
  {
  }

  lemma {:induction false} ComponentFromMembers(u: seq<Fingerprint>, t: real, r: nat, k: nat)
    requires k <= |u|
    ensures forall i :: i in ComponentFrom(u, t, r, k) <==> k <= i < |u| && Connected(u, t, r, i)
    ensures Ascending(ComponentFrom(u, t, r, k))
    decreases |u| - k
  {
    hide Connected, Ascending;
    if k == |u| {
      NoneAscending();
    } else {
      ComponentFromMembers(u, t, r, k + 1);
      var rest := ComponentFrom(u, t, r, k + 1);
      forall j | 0 <= j < |rest| ensures k < rest[j] {
        assert rest[j] in rest;
      }
      AscendingCons(k, rest);
      assert [] + rest == rest;
    }
  }

  ghost predicate IsLeast(u: seq<Fingerprint>, t: real, r: nat) {
    r < |u| && forall j: nat :: j < r ==> !Connected(u, t, r, j)
  }

  // ------------------------------------------------------------- one campaign

  datatype Campaign = Campaign(members: seq<string>, eventCount: int, cohesion: real, profile: Profile)

  function Mean(scores: seq<real>): real {
    if scores == [] then 0.0 else SumReal(scores) / |scores| as real
  }

  function Select(u: seq<Fingerprint>, indices: seq<nat>): (r: seq<Fingerprint>)
    requires forall i :: i in indices ==> i < |u|
    ensures |r| == |indices|
    ensures forall k :: 0 <= k < |r| ==> indices[k] in indices && r[k] == u[indices[k]]
  {
    seq(|indices|, k requires 0 <= k < |indices| => assert indices[k] in indices; u[indices[k]])
  }

  /** The scores of `f` against each element of `g` that reach the threshold. */
  function ScoresAgainst(f: Fingerprint, g: seq<Fingerprint>, t: real): seq<real> {
    if g == [] then []
    else (if Score(f, g[0]) >= t then [Score(f, g[0])] else []) + ScoresAgainst(f, g[1..], t)
  }

  /** The scores of the pairs of a group that reach the threshold, first element first. */
  function PairScores(g: seq<Fingerprint>, t: real): seq<real> {
    if g == [] then [] else ScoresAgainst(g[0], g[1..], t) + PairScores(g[1..], t)
  }

  function Ip(f: Fingerprint): string { f.srcIp }

  function Events(f: Fingerprint): int { f.eventCount }

  /** `_summarise` */
  function Summarise(group: seq<Fingerprint>, scores: seq<real>): Campaign {
    Campaign(StableSort(Map(group, Ip), StringLe), SumInt(Map(group, Events)), Mean(scores), ProfileOf(group))
  }

  ghost function ComponentGroup(u: seq<Fingerprint>, t: real, r: nat): seq<Fingerprint> {
    ComponentFromMembers(u, t, r, 0);
    Select(u, Component(u, t, r))
  }

  ghost function CampaignOf(u: seq<Fingerprint>, t: real, r: nat): Campaign {
    var g := ComponentGroup(u, t, r);
    Summarise(g, PairScores(g, t))
  }

  // ------------------------------------------------------------- all campaigns

  /** The least source of every component, ascending. */
  ghost function LeastFrom(u: seq<Fingerprint>, t: real, k: nat): (s: seq<nat>)
    requires k <= |u|
    ensures forall i :: i in s <==> k <= i && IsLeast(u, t, i)
    decreases |u| - k
  {
    if k == |u| then [] else (if IsLeast(u, t, k) then [k] else []) + LeastFrom(u, t, k + 1)
  }

  /** The campaigns of the components that start at `roots` and are large enough. */
  ghost function Report(u: seq<Fingerprint>, t: real, minSize: int, roots: seq<nat>): seq<Campaign> {
    if roots == [] then []
    else
      (if |Component(u, t, roots[0])| >= minSize then [CampaignOf(u, t, roots[0])] else [])
      + Report(u, t, minSize, roots[1..])
  }

  predicate IsUsable(f: Fingerprint) { !f.IsEmpty() }

  /** Sort order of the report: more members first, then more events. */
  predicate LargerFirst(a: Campaign, b: Campaign) {
    |a.members| > |b.members| || (|a.members| == |b.members| && a.eventCount >= b.eventCount)
  }

  ghost function Clusters(fps: seq<Fingerprint>, t: real, minSize: int): seq<Campaign> {
    var u := Filter(fps, IsUsable);
    if |u| < 2 then [] else StableSort(Report(u, t, minSize, LeastFrom(u, t, 0)), LargerFirst)
  }

  // ------------------------------------------------------------- the edge table

  /** One entry of `edge_scores`; the table keeps insertion order and never repeats a pair. */
  datatype Edge = Edge(i: nat, j: nat, score: real)

  function RowFrom(u: seq<Fingerprint>, t: real, i: nat, j: nat): seq<Edge>
    requires i < |u| && j <= |u|
    decreases |u| - j
  {
    if j == |u| then []
    else (if Score(u[i], u[j]) >= t then [Edge(i, j, Score(u[i], u[j]))] else []) + RowFrom(u, t, i, j + 1)
  }

  function EdgesFrom(u: seq<Fingerprint>, t: real, i: nat): seq<Edge>
    requires i <= |u|
    decreases |u| - i
  {
    if i == |u| then [] else RowFrom(u, t, i, i + 1) + EdgesFrom(u, t, i + 1)
  }

  /** `[s for (i, j), s in edge_scores.items() if i in members and j in members]` */
  function ScoresWithin(edges: seq<Edge>, members: set<nat>): seq<real> {
    if edges == [] then []
    else
      (if edges[0].i in members && edges[0].j in members then [edges[0].score] else [])
      + ScoresWithin(edges[1..], members)
  }

  lemma {:induction false} ScoresWithinConcat(a: seq<Edge>, b: seq<Edge>, members: set<nat>)
    ensures ScoresWithin(a + b, members) == ScoresWithin(a, members) + ScoresWithin(b, members)
  {
    if a == [] {
      assert a + b == b;
    } else {
      assert (a + b)[1..] == a[1..] + b;
      ScoresWithinConcat(a[1..], b, members);
    }
  }

  ghost predicate AreMembers(u: seq<Fingerprint>, t: real, r: nat, members: set<nat>) {
    forall i: nat :: i in members <==> i < |u| && Connected(u, t, r, i)
  }

  ghost function GroupFrom(u: seq<Fingerprint>, t: real, r: nat, k: nat): seq<Fingerprint>
    requires k <= |u|
  {
    ComponentFromMembers(u, t, r, k);
    Select(u, ComponentFrom(u, t, r, k))
  }

  lemma GroupFromStep(u: seq<Fingerprint>, t: real, r: nat, k: nat)
    requires k < |u|
    ensures GroupFrom(u, t, r, k)
         == if Connected(u, t, r, k) then [u[k]] + GroupFrom(u, t, r, k + 1) else GroupFrom(u, t, r, k + 1)
  {
    hide Connected, ComponentFrom, Select;
    ComponentFromMembers(u, t, r, k);
    ComponentFromMembers(u, t, r, k + 1);
    ComponentFromStep(u, t, r, k);
    if Connected(u, t, r, k) {
      SelectCons(u, k, ComponentFrom(u, t, r, k + 1));
    }
  }

  lemma SelectCons(u: seq<Fingerprint>, k: nat, rest: seq<nat>)
    requires k < |u| && forall i :: i in rest ==> i < |u|
    ensures Select(u, [k] + rest) == [u[k]] + Select(u, rest)
  {
    var all := [k] + rest;
    assert forall n :: 0 < n < |all| ==> all[n] == rest[n - 1];
  }

  lemma ComponentFromStep(u: seq<Fingerprint>, t: real, r: nat, k: nat)
    requires k < |u|
    ensures ComponentFrom(u, t, r, k)
         == if Connected(u, t, r, k) then [k] + ComponentFrom(u, t, r, k + 1) else ComponentFrom(u, t, r, k + 1)
  {
    hide Connected;
    assert [] + ComponentFrom(u, t, r, k + 1) == ComponentFrom(u, t, r, k + 1);
  }

  lemma ScoresWithinStep(e: Edge, rest: seq<Edge>, members: set<nat>)
    ensures ScoresWithin([e] + rest, members)
         == if e.i in members && e.j in members then [e.score] + ScoresWithin(rest, members)
            else ScoresWithin(rest, members)
  {
    assert ([e] + rest)[1..] == rest;
  }

  lemma ScoresAgainstStep(f: Fingerprint, x: Fingerprint, g: seq<Fingerprint>, t: real)
    ensures ScoresAgainst(f, [x] + g, t)
         == if Score(f, x) >= t then [Score(f, x)] + ScoresAgainst(f, g, t) else ScoresAgainst(f, g, t)
  {
    assert ([x] + g)[1..] == g;
  }

  lemma PairScoresStep(x: Fingerprint, g: seq<Fingerprint>, t: real)
    ensures PairScores([x] + g, t) == ScoresAgainst(x, g, t) + PairScores(g, t)
  {
    assert ([x] + g)[1..] == g;
  }

  lemma NoScores(u: seq<Fingerprint>, f: Fingerprint, t: real, r: nat, members: set<nat>)
    ensures GroupFrom(u, t, r, |u|) == []
    ensures ScoresWithin([], members) == [] && ScoresAgainst(f, [], t) == [] && PairScores([], t) == []
  {
  }

  lemma TableEnd(u: seq<Fingerprint>, t: real, r: nat, members: set<nat>)
    ensures ScoresWithin(EdgesFrom(u, t, |u|), members) == PairScores(GroupFrom(u, t, r, |u|), t)
  {
  }

  lemma {:induction false} RowScores(u: seq<Fingerprint>, t: real, r: nat, members: set<nat>, i: nat, j: nat)
    requires i < |u| && j <= |u| && AreMembers(u, t, r, members)
    ensures ScoresWithin(RowFrom(u, t, i, j), members)
         == if i in members then ScoresAgainst(u[i], GroupFrom(u, t, r, j), t) else []
    decreases |u| - j
  {
    hide Score, Connected, GroupFrom, ScoresAgainst, ScoresWithin;
    NoScores(u, u[i], t, r, members);
    if j < |u| {
      RowScores(u, t, r, members, i, j + 1);
      GroupFromStep(u, t, r, j);
      ScoresAgainstStep(u[i], u[j], GroupFrom(u, t, r, j + 1), t);
      if Score(u[i], u[j]) >= t {
        var e := Edge(i, j, Score(u[i], u[j]));
        ScoresWithinStep(e, RowFrom(u, t, i, j + 1), members);
      } else {
        assert RowFrom(u, t, i, j) == RowFrom(u, t, i, j + 1);
      }
    }
  }

  /** Reading the scores of one component off the edge table gives its pair scores. */
  lemma {:induction false} TableScores(u: seq<Fingerprint>, t: real, r: nat, members: set<nat>, i: nat)
    requires i <= |u| && AreMembers(u, t, r, members)
    ensures ScoresWithin(EdgesFrom(u, t, i), members) == PairScores(GroupFrom(u, t, r, i), t)
    decreases |u| - i
  {
    hide Score, Connected, GroupFrom, ScoresAgainst, ScoresWithin, PairScores;
    if i == |u| {
      TableEnd(u, t, r, members);
    } else {
      TableScores(u, t, r, members, i + 1);
      RowScores(u, t, r, members, i, i + 1);
      GroupFromStep(u, t, r, i);
      ScoresWithinConcat(RowFrom(u, t, i, i + 1), EdgesFrom(u, t, i + 1), members);
      PairScoresStep(u[i], GroupFrom(u, t, r, i + 1), t);
    }
  }

  // ------------------------------------------------------------- the algorithm

  /** The partition held by the union-find, after the pairs before (i, j) were compared,
      never joins sources without a path, and has joined every compared pair that is linked. */
  ghost predicate PartitionSound(u: seq<Fingerprint>, t: real, p: seq<nat>) {
    && |p| == |u| && Forest(p)
    && forall a: nat, b: nat :: a < |u| && b < |u| && Root(p, a) == Root(p, b) ==> Connected(u, t, a, b)
  }

  ghost predicate PairsJoined(u: seq<Fingerprint>, t: real, p: seq<nat>, i: nat, j: nat)
    requires |p| == |u| && Forest(p)
  {
    forall a: nat, b: nat ::
      a < b < |u| && (a < i || (a == i && b < j)) && Score(u[a], u[b]) >= t ==> Root(p, a) == Root(p, b)
  }

  lemma MergeSound(u: seq<Fingerprint>, t: real, p: seq<nat>, q: seq<nat>, i: nat, j: nat)
    requires PartitionSound(u, t, p) && Forest(q) && |q| == |p| && Linked(u, t, i, j)
    requires Merged(p, q, i, j)
    ensures PartitionSound(u, t, q)
  {
    ConnectedLink(u, t, i, j);
    ConnectedSymmetric(u, t, i, j);
    forall a: nat, b: nat | a < |u| && b < |u| && Root(q, a) == Root(q, b)
      ensures Connected(u, t, a, b)
    {
      if Root(p, a) != Root(p, b) {
        if Root(p, a) == Root(p, i) {
          ConnectedTransitive(u, t, a, i, j);
          ConnectedTransitive(u, t, a, j, b);
        } else {
          ConnectedTransitive(u, t, a, j, i);
          ConnectedTransitive(u, t, a, i, b);
        }
      }
    }
  }

  lemma MergeJoins(u: seq<Fingerprint>, t: real, p: seq<nat>, q: seq<nat>, i: nat, j: nat)
    requires |p| == |q| == |u| && Forest(p) && Forest(q) && i < |u| && j < |u|
    requires PairsJoined(u, t, p, i, j) && Merged(p, q, i, j)
    ensures PairsJoined(u, t, q, i, j + 1)
  {
    hide Score, Root;
  }

  /** Once every pair was compared, equal roots and connecting paths are the same thing. */
  lemma PartitionComplete(u: seq<Fingerprint>, t: real, p: seq<nat>, a: nat, b: nat)
    requires PartitionSound(u, t, p) && PairsJoined(u, t, p, |u|, 0)
    requires a < |u| && b < |u|
    ensures Root(p, a) == Root(p, b) <==> Connected(u, t, a, b)
  {
    if Connected(u, t, a, b) {
      var path :| PathBetween(u, t, path, a, b);
      var mark := seq(|u|, i requires 0 <= i < |u| => Root(p, i));
      forall i: nat, j: nat | Linked(u, t, i, j) ensures mark[i] == mark[j] {
        LinkedSymmetric(u, t, i, j);
      }
      PathPreserves(u, t, path, mark);
    }
  }

  lemma NothingComparedYet(u: seq<Fingerprint>, t: real, p: seq<nat>)
    requires |p| == |u| && Forest(p) && forall i: nat :: i < |u| ==> Root(p, i) == i
    ensures PartitionSound(u, t, p) && PairsJoined(u, t, p, 0, 0)
  {
    forall a: nat | a < |u| ensures Connected(u, t, a, a) {
      ConnectedReflexive(u, t, a);
    }
  }

  lemma RowBoundaries(u: seq<Fingerprint>, t: real, p: seq<nat>, i: nat)
    requires |p| == |u| && Forest(p) && i < |u|
    ensures PairsJoined(u, t, p, i, 0) ==> PairsJoined(u, t, p, i, i + 1)
    ensures PairsJoined(u, t, p, i, |u|) ==> PairsJoined(u, t, p, i + 1, 0)
  {
  }

  lemma PairSkipped(u: seq<Fingerprint>, t: real, p: seq<nat>, i: nat, j: nat)
    requires |p| == |u| && Forest(p) && i < j < |u| && PairsJoined(u, t, p, i, j)
    requires Score(u[i], u[j]) < t
    ensures PairsJoined(u, t, p, i, j + 1)
  {
    hide Root;
  }

  /** The inner loop: source `i` against every later source. */
  method CompareRow(uf: DisjointSets, u: seq<Fingerprint>, t: real, i: nat, before: seq<Edge>)
    returns (edges: seq<Edge>)
    requires i < |u| && uf.Valid() && uf.parent.Length == |u|
    requires PartitionSound(u, t, uf.parent[..]) && PairsJoined(u, t, uf.parent[..], i, 0)
    modifies uf.parent
    ensures uf.Valid()
    ensures PartitionSound(u, t, uf.parent[..]) && PairsJoined(u, t, uf.parent[..], i + 1, 0)
    ensures edges == before + RowFrom(u, t, i, i + 1)
  {
    hide Score, Connected, PartitionSound, PairsJoined, Root, Merged;
    RowBoundaries(u, t, uf.parent[..], i);
    edges := before;
    for j := i + 1 to |u|
      invariant uf.Valid()
      invariant PartitionSound(u, t, uf.parent[..]) && PairsJoined(u, t, uf.parent[..], i, j)
      invariant edges + RowFrom(u, t, i, j) == before + RowFrom(u, t, i, i + 1)
    {
      ghost var p := uf.parent[..];
      var score := ComputeSimilarity(u[i], u[j]);
      if score >= t {
        uf.Union(i, j);
        MergeSound(u, t, p, uf.parent[..], i, j);
        MergeJoins(u, t, p, uf.parent[..], i, j);
        edges := edges + [Edge(i, j, score)];
      } else {
        PairSkipped(u, t, p, i, j);
      }
    }
    RowBoundaries(u, t, uf.parent[..], i);
  }

  method CompareAll(u: seq<Fingerprint>, t: real) returns (uf: DisjointSets, edges: seq<Edge>)
    ensures fresh(uf) && fresh(uf.parent) && uf.Valid() && uf.parent.Length == |u|
    ensures forall a: nat, b: nat :: a < |u| && b < |u| ==>
              (uf.RootOf(a) == uf.RootOf(b) <==> Connected(u, t, a, b))
    ensures edges == EdgesFrom(u, t, 0)
  {
    hide Score, Connected, PartitionSound, PairsJoined, Root, RowFrom;
    uf := new DisjointSets(|u|);
    edges := [];
    forall i: nat | i < |u| ensures Root(uf.parent[..], i) == i {
      assert uf.RootOf(i) == i;
    }
    NothingComparedYet(u, t, uf.parent[..]);
    for i := 0 to |u|
      invariant uf.Valid() && uf.parent.Length == |u| && fresh(uf.parent)
      invariant PartitionSound(u, t, uf.parent[..]) && PairsJoined(u, t, uf.parent[..], i, 0)
      invariant edges + EdgesFrom(u, t, i) == EdgesFrom(u, t, 0)
    {
      edges := CompareRow(uf, u, t, i, edges);
    }
    forall a: nat, b: nat | a < |u| && b < |u|
      ensures uf.RootOf(a) == uf.RootOf(b) <==> Connected(u, t, a, b)
    {
      PartitionComplete(u, t, uf.parent[..], a, b);
    }
  }

  /** A source is the root of its class exactly when it is the least of its component. */
  lemma RootsAreLeast(u: seq<Fingerprint>, t: real, p: seq<nat>, r: nat)
    requires |p| == |u| && Forest(p) && r < |u|
    requires forall a: nat, b: nat :: a < |u| && b < |u| ==>
               (Root(p, a) == Root(p, b) <==> Connected(u, t, a, b))
    ensures Root(p, r) == r <==> IsLeast(u, t, r)
    ensures IsLeast(u, t, Root(p, r))
  {
    hide Score, Connected;
    var l := Root(p, r);
    assert Root(p, l) == l && Connected(u, t, r, l);
    forall j: nat | j < l ensures !Connected(u, t, l, j) {
      assert Root(p, j) <= j;
    }
  }

  /** Before its least source, a component has no members. */
  lemma {:induction false} ComponentStartsAtLeast(u: seq<Fingerprint>, t: real, r: nat, k: nat)
    requires IsLeast(u, t, r) && k <= r
    ensures Component(u, t, r) == ComponentFrom(u, t, r, k)
  {
    if k > 0 {
      ComponentStartsAtLeast(u, t, r, k - 1);
    }
  }

  /** The state of the grouping dictionary after the indices before `index` were filed. */
  ghost predicate Filed(u: seq<Fingerprint>, t: real, index: nat, order: seq<nat>, groups: map<nat, seq<nat>>) {
    && index <= |u|
    && order + LeastFrom(u, t, index) == LeastFrom(u, t, 0)
    && (forall r: nat :: r in groups <==> r < index && IsLeast(u, t, r))
    && FiledMembers(u, t, index, groups)
  }

  ghost predicate FiledMembers(u: seq<Fingerprint>, t: real, index: nat, groups: map<nat, seq<nat>>)
    requires index <= |u|
  {
    forall r :: r in groups ==> groups[r] + ComponentFrom(u, t, r, index) == Component(u, t, r)
  }

  function FileUnder(groups: map<nat, seq<nat>>, root: nat, index: nat): map<nat, seq<nat>> {
    groups[root := (if root in groups then groups[root] else []) + [index]]
  }

  lemma FileMembersStep(u: seq<Fingerprint>, t: real, index: nat, groups: map<nat, seq<nat>>, root: nat)
    requires index < |u| && FiledMembers(u, t, index, groups) && Connected(u, t, root, index)
    requires forall r :: r in groups && r != root ==> !Connected(u, t, r, index)
    requires root !in groups ==> IsLeast(u, t, root) && root == index
    ensures FiledMembers(u, t, index + 1, FileUnder(groups, root, index))
  {
    hide Score, Connected, IsLeast, Component;
    if root !in groups {
      ComponentStartsAtLeast(u, t, root, index);
    }
    var after := FileUnder(groups, root, index);
    forall r | r in after
      ensures after[r] + ComponentFrom(u, t, r, index + 1) == Component(u, t, r)
    {
      var rest := ComponentFrom(u, t, r, index + 1);
      if r != root {
        assert [] + rest == rest;
      } else if r in groups {
        assert (groups[r] + [index]) + rest == groups[r] + ([index] + rest);
      } else {
        assert [] + [index] + rest == [index] + rest;
      }
    }
  }

  lemma LeastFromStep(u: seq<Fingerprint>, t: real, k: nat)
    requires k < |u|
    ensures LeastFrom(u, t, k)
         == if IsLeast(u, t, k) then [k] + LeastFrom(u, t, k + 1) else LeastFrom(u, t, k + 1)
  {
    hide IsLeast;
  }

  lemma FileStep(u: seq<Fingerprint>, t: real, index: nat, order: seq<nat>, groups: map<nat, seq<nat>>, root: nat)
    requires index < |u| && Filed(u, t, index, order, groups)
    requires root <= index && IsLeast(u, t, root) && Connected(u, t, root, index)
    requires forall r: nat :: IsLeast(u, t, r) && Connected(u, t, r, index) ==> r == root
    requires root == index <==> IsLeast(u, t, index)
    ensures Filed(u, t, index + 1, if root in groups then order else order + [root], FileUnder(groups, root, index))
  {
    hide Score, Connected, IsLeast, FiledMembers, Component, LeastFrom;
    FileMembersStep(u, t, index, groups, root);
    LeastFromStep(u, t, index);
    if root !in groups {
      assert (order + [root]) + LeastFrom(u, t, index + 1) == order + ([root] + LeastFrom(u, t, index + 1));
    }
  }

  /** `groups.setdefault(uf.find(index), []).append(index)`: the dictionary with its key order. */
  method GroupIndices(uf: DisjointSets, u: seq<Fingerprint>, t: real)
    returns (order: seq<nat>, groups: map<nat, seq<nat>>)
    requires uf.Valid() && uf.parent.Length == |u|
    requires forall a: nat, b: nat :: a < |u| && b < |u| ==>
               (uf.RootOf(a) == uf.RootOf(b) <==> Connected(u, t, a, b))
    modifies uf.parent
    ensures order == LeastFrom(u, t, 0)
    ensures forall r :: r in order ==> r in groups && groups[r] == Component(u, t, r)
  {
    hide Score, Connected, Root, IsLeast, LeastFrom, ComponentFrom, Component, Filed, FileUnder, Forest, RootsMatch;
    order, groups := [], map[];
    ghost var p := uf.parent[..];
    RootsMatchPaths(uf, u, t);
    FiledNothing(u, t);
    for index := 0 to |u|
      invariant uf.Valid()
      invariant forall a: nat :: a < |u| ==> uf.RootOf(a) == Root(p, a)
      invariant Filed(u, t, index, order, groups)
    {
      var root := uf.Find(index);
      RootFacts(u, t, p, index);
      FileStep(u, t, index, order, groups, root);
      if root !in groups {
        order := order + [root];
      }
      groups := FileUnder(groups, root, index);
    }
    FiledAll(u, t, order, groups);
  }

  lemma FiledNothing(u: seq<Fingerprint>, t: real)
    ensures Filed(u, t, 0, [], map[])
  {
    hide Connected, IsLeast, LeastFrom;
    assert [] + LeastFrom(u, t, 0) == LeastFrom(u, t, 0);
  }

  ghost predicate RootsMatch(u: seq<Fingerprint>, t: real, p: seq<nat>) {
    && |p| == |u| && Forest(p)
    && forall a: nat, b: nat :: a < |u| && b < |u| ==> (Root(p, a) == Root(p, b) <==> Connected(u, t, a, b))
  }

  lemma RootsMatchPaths(uf: DisjointSets, u: seq<Fingerprint>, t: real)
    requires uf.Valid() && uf.parent.Length == |u|
    requires forall a: nat, b: nat :: a < |u| && b < |u| ==>
               (uf.RootOf(a) == uf.RootOf(b) <==> Connected(u, t, a, b))
    ensures RootsMatch(u, t, uf.parent[..])
  {
    hide Connected, Root;
    forall a: nat, b: nat | a < |u| && b < |u|
      ensures Root(uf.parent[..], a) == Root(uf.parent[..], b) <==> Connected(u, t, a, b)
    {
      assert uf.RootOf(a) == uf.RootOf(b) <==> Connected(u, t, a, b);
    }
  }

  lemma RootFacts(u: seq<Fingerprint>, t: real, p: seq<nat>, index: nat)
    requires RootsMatch(u, t, p) && index < |u|
    ensures var root := Root(p, index);
      && IsLeast(u, t, root) && Connected(u, t, root, index)
      && (forall r: nat :: IsLeast(u, t, r) && Connected(u, t, r, index) ==> r == root)
      && (root == index <==> IsLeast(u, t, index))
  {
    hide Score, Connected;
    RootsAreLeast(u, t, p, index);
    forall r: nat | IsLeast(u, t, r) && Connected(u, t, r, index) ensures r == Root(p, index) {
      RootsAreLeast(u, t, p, r);
    }
  }

  lemma FiledAll(u: seq<Fingerprint>, t: real, order: seq<nat>, groups: map<nat, seq<nat>>)
    requires Filed(u, t, |u|, order, groups)
    ensures order == LeastFrom(u, t, 0)
    ensures forall r :: r in order ==> r in groups && groups[r] == Component(u, t, r)
  {
    hide Score, Connected, IsLeast;
  }

  lemma {:induction false} ReportStep(u: seq<Fingerprint>, t: real, minSize: int, order: seq<nat>, k: nat)
    requires k < |order|
    ensures Report(u, t, minSize, order[k..])
         == (if |Component(u, t, order[k])| < minSize then [] else [CampaignOf(u, t, order[k])])
            + Report(u, t, minSize, order[k + 1..])
  {
    hide Score, Connected, CampaignOf, Component;
    assert order[k..][1..] == order[k + 1..];
  }

  /** What the final loop builds from the edge table is the campaign of the component. */
  lemma SummaryFromTable(u: seq<Fingerprint>, t: real, r: nat, indices: seq<nat>, members: set<nat>)
    requires indices == Component(u, t, r) && members == set i | i in indices
    ensures forall i :: i in indices ==> i < |u|
    ensures Summarise(Select(u, indices), ScoresWithin(EdgesFrom(u, t, 0), members)) == CampaignOf(u, t, r)
  {
    hide Score, Connected, PairScores, ScoresWithin, EdgesFrom, Summarise, Select;
    ComponentFromMembers(u, t, r, 0);
    TableScores(u, t, r, members, 0);
  }

  method Cluster(fps: seq<Fingerprint>, t: real, minSize: int) returns (campaigns: seq<Campaign>)
    ensures campaigns == Clusters(fps, t, minSize)
  {
    hide Score, Connected, Component, EdgesFrom, LeastFrom, ScoresWithin, Summarise, CampaignOf, Filter, Report;
    var u := Filter(fps, IsUsable);
    if |u| < 2 {
      assert Clusters(fps, t, minSize) == [];
      return [];
    }
    var uf, edges := CompareAll(u, t);
    var order, groups := GroupIndices(uf, u, t);
    campaigns := [];
    assert order[0..] == order && order[|order|..] == [];
    for k := 0 to |order|
      invariant campaigns + Report(u, t, minSize, order[k..]) == Report(u, t, minSize, order)
    {
      var indices := groups[order[k]];
      ReportStep(u, t, minSize, order, k);
      if |indices| < minSize {
        continue;
      }
      var members := set i | i in indices;
      SummaryFromTable(u, t, order[k], indices, members);
      campaigns := campaigns + [Summarise(Select(u, indices), ScoresWithin(edges, members))];
    }
    EmptyReport(u, t, minSize);
    assert campaigns == Report(u, t, minSize, order);
    campaigns := StableSort(campaigns, LargerFirst);
    assert campaigns == StableSort(Report(u, t, minSize, LeastFrom(u, t, 0)), LargerFirst);
  }

  lemma EmptyReport(u: seq<Fingerprint>, t: real, minSize: int)
    ensures Report(u, t, minSize, []) == []
  {
  }
}
