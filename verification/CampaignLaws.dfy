/**
  What the report of `cluster` promises about any input: exactly the components, cohesion in
  [threshold, 1], refinement under a higher threshold, and independence of the input order.
 */
module CampaignLaws {
  import opened Sequences
  import opened Similarity
  import opened Campaigns
  import opened Profiles

  // ------------------------------------------------------- exactly the components

  lemma {:induction false} ReportMembers(u: seq<Fingerprint>, t: real, m: int, roots: seq<nat>)
    ensures forall c :: c in Report(u, t, m, roots) <==>
              exists r :: r in roots && |Component(u, t, r)| >= m && c == CampaignOf(u, t, r)
  {
    hide Score, Connected, CampaignOf, Component;
    if roots != [] {
      assert roots == [roots[0]] + roots[1..];
      ReportMembers(u, t, m, roots[1..]);
    }
  }

  /** The components of at least `m` sources, from source `k` on, that are summarised as `c`. */
  ghost function ComponentsOf(u: seq<Fingerprint>, t: real, m: int, c: Campaign, k: nat): set<nat> {
    set r: nat | k <= r < |u| && IsLeast(u, t, r) && |Component(u, t, r)| >= m && CampaignOf(u, t, r) == c
  }

  lemma {:induction false} ReportCounts(u: seq<Fingerprint>, t: real, m: int, c: Campaign, k: nat)
    requires k <= |u|
    ensures multiset(Report(u, t, m, LeastFrom(u, t, k)))[c] == |ComponentsOf(u, t, m, c, k)|
    decreases |u| - k
  {
    hide Score, Connected, CampaignOf, Component, IsLeast, Report, LeastFrom;
    var rest, own := ComponentsOf(u, t, m, c, k + 1), ComponentsOf(u, t, m, c, k);
    if k == |u| {
      NothingReported(u, t, m);
      assert own == {};
    } else {
      ReportCounts(u, t, m, c, k + 1);
      LeastFromStep(u, t, k);
      ReportCons(u, t, m, k, LeastFrom(u, t, k + 1));
      if IsLeast(u, t, k) && |Component(u, t, k)| >= m && CampaignOf(u, t, k) == c {
        assert own == rest + {k} && k !in rest;
      } else {
        assert own == rest;
      }
    }
  }

  lemma NothingReported(u: seq<Fingerprint>, t: real, m: int)
    ensures Report(u, t, m, LeastFrom(u, t, |u|)) == []
  {
  }

  lemma ReportCons(u: seq<Fingerprint>, t: real, m: int, k: nat, rest: seq<nat>)
    ensures Report(u, t, m, [k] + rest)
         == (if |Component(u, t, k)| >= m then [CampaignOf(u, t, k)] else []) + Report(u, t, m, rest)
  {
    hide Score, Connected, CampaignOf, Component;
    assert ([k] + rest)[1..] == rest;
  }

  /** Each component of at least `m` usable sources is reported exactly once: a campaign occurs as often as there are
      components with its summary. */
  lemma OneCampaignPerComponent(fps: seq<Fingerprint>, t: real, m: int, c: Campaign)
    ensures var u := Filter(fps, IsUsable);
      multiset(Clusters(fps, t, m))[c] == if |u| < 2 then 0 else |ComponentsOf(u, t, m, c, 0)|
  {
    hide Score, Connected, ComponentsOf, Report, LeastFrom, StableSort;
    var u := Filter(fps, IsUsable);
    ReportCounts(u, t, m, c, 0);
    SortMultiset(Report(u, t, m, LeastFrom(u, t, 0)), LargerFirst);
  }

  /** The campaigns are the components of at least `m` usable sources, each reported exactly once. */
  lemma CampaignsAreComponents(fps: seq<Fingerprint>, t: real, m: int)
    ensures var u := Filter(fps, IsUsable);
      forall c :: c in Clusters(fps, t, m) <==>
        |u| >= 2 && exists r :: IsLeast(u, t, r) && |Component(u, t, r)| >= m && c == CampaignOf(u, t, r)
    ensures var u := Filter(fps, IsUsable);
      forall c :: multiset(Clusters(fps, t, m))[c] == if |u| < 2 then 0 else |ComponentsOf(u, t, m, c, 0)|
  {
    hide Score, Connected, CampaignOf, Component, IsLeast, ComponentsOf, LeastFrom;
    var u := Filter(fps, IsUsable);
    forall c ensures multiset(Clusters(fps, t, m))[c] == if |u| < 2 then 0 else |ComponentsOf(u, t, m, c, 0)| {
      OneCampaignPerComponent(fps, t, m, c);
    }
    if |u| >= 2 {
      var roots := LeastFrom(u, t, 0);
      var report := Report(u, t, m, roots);
      ReportMembers(u, t, m, roots);
      SortMultiset(report, LargerFirst);
      forall c ensures c in StableSort(report, LargerFirst) <==> c in report {
        assert c in multiset(report) <==> c in multiset(StableSort(report, LargerFirst));
      }
    }
  }

  /** Every usable source lies in the component of exactly one least source. */
  lemma EverySourceHasOneComponent(u: seq<Fingerprint>, t: real, i: nat) returns (r: nat)
    requires i < |u|
    ensures IsLeast(u, t, r) && i in Component(u, t, r)
    ensures forall q: nat :: IsLeast(u, t, q) && i in Component(u, t, q) ==> q == r
  {
    hide Score, Connected;
    ConnectedReflexive(u, t, i);
    r := i;
    while !IsLeast(u, t, r)
      invariant r < |u| && Connected(u, t, r, i)
      decreases r
    {
      var j: nat :| j < r && Connected(u, t, r, j);
      ConnectedSymmetric(u, t, r, j);
      ConnectedTransitive(u, t, j, r, i);
      r := j;
    }
    ComponentFromMembers(u, t, r, 0);
    forall q: nat | IsLeast(u, t, q) && i in Component(u, t, q) ensures q == r {
      ComponentFromMembers(u, t, q, 0);
      ConnectedSymmetric(u, t, r, i);
      ConnectedTransitive(u, t, q, i, r);
      ConnectedSymmetric(u, t, q, r);
    }
  }

  // ------------------------------------------------------------------- cohesion

  lemma {:induction false} AgainstBounds(f: Fingerprint, g: seq<Fingerprint>, t: real)
    ensures forall s :: s in ScoresAgainst(f, g, t) ==> t <= s <= 1.0
    ensures forall k :: 0 <= k < |g| && Score(f, g[k]) >= t ==> ScoresAgainst(f, g, t) != []
  {
    hide Score;
    if g != [] {
      ScoreBounds(f, g[0]);
      AgainstBounds(f, g[1..], t);
      forall k | 0 < k < |g| && Score(f, g[k]) >= t ensures ScoresAgainst(f, g, t) != [] {
        assert g[1..][k - 1] == g[k];
      }
    }
  }

  lemma {:induction false} PairBounds(g: seq<Fingerprint>, t: real)
    ensures forall s :: s in PairScores(g, t) ==> t <= s <= 1.0
  {
    hide Score;
    if g != [] {
      AgainstBounds(g[0], g[1..], t);
      PairBounds(g[1..], t);
    }
  }

  lemma {:induction false} PairFound(g: seq<Fingerprint>, t: real, a: nat, b: nat)
    requires a < b < |g| && Score(g[a], g[b]) >= t
    ensures PairScores(g, t) != []
  {
    hide Score;
    if a == 0 {
      AgainstBounds(g[0], g[1..], t);
      assert g[1..][b - 1] == g[b];
    } else {
      PairFound(g[1..], t, a - 1, b - 1);
    }
  }

  /** `n` times `x` */
  ghost function Multiple(x: real, n: nat): real { x * n as real }

  lemma {:induction false} SumBounds(s: seq<real>, lo: real, hi: real)
    requires forall x :: x in s ==> lo <= x <= hi
    ensures Multiple(lo, |s|) <= SumReal(s) <= Multiple(hi, |s|)
  {
    hide Multiple;
    if s == [] {
      NoMultiple(lo);
      NoMultiple(hi);
    } else {
      assert s[0] in s && forall x :: x in s[1..] ==> x in s;
      SumBounds(s[1..], lo, hi);
      OneMore(lo, |s[1..]|);
      OneMore(hi, |s[1..]|);
    }
  }

  lemma NoMultiple(x: real)
    ensures Multiple(x, 0) == 0.0
  {
  }

  lemma OneMore(x: real, n: nat)
    ensures Multiple(x, n + 1) == x + Multiple(x, n)
  {
  }

  lemma MeanBounds(s: seq<real>, lo: real, hi: real)
    requires s != [] && forall x :: x in s ==> lo <= x <= hi
    ensures lo <= Mean(s) <= hi
  {
    hide Multiple;
    SumBounds(s, lo, hi);
    QuotientBounds(SumReal(s), |s|, lo, hi);
  }

  lemma QuotientBounds(sum: real, n: nat, lo: real, hi: real)
    requires n > 0 && Multiple(lo, n) <= sum <= Multiple(hi, n)
    ensures lo <= sum / n as real <= hi
  {
    var q := sum / n as real;
    assert q * n as real == sum;
  }

  /** A component of two or more sources contains a linked pair. */
  lemma ComponentHasLink(u: seq<Fingerprint>, t: real, r: nat)
    requires r < |u| && |Component(u, t, r)| >= 2
    ensures PairScores(ComponentGroup(u, t, r), t) != []
  {
    hide Score, PairScores;
    var c := Component(u, t, r);
    ComponentFromMembers(u, t, r, 0);
    var other := if c[0] == r then c[1] else c[0];
    assert c[0] < c[1];
    assert other in c;
    var path :| PathBetween(u, t, path, r, other);
    assert |path| > 1;
    assert Linked(u, t, path[0], path[0 + 1]);
    var q := path[1];
    ConnectedLink(u, t, r, q);
    ConnectedReflexive(u, t, r);
    assert r in c && q in c;
    var a :| 0 <= a < |c| && c[a] == r;
    var b :| 0 <= b < |c| && c[b] == q;
    LinkedSymmetric(u, t, r, q);
    if a < b {
      PairFound(ComponentGroup(u, t, r), t, a, b);
    } else {
      PairFound(ComponentGroup(u, t, r), t, b, a);
    }
  }

  /** Cohesion lies in [threshold, 1] for every campaign of two or more sources, whatever the
      minimum size; a campaign of one, possible only when the minimum is below two, has none. */
  lemma CohesionBounds(fps: seq<Fingerprint>, t: real, m: int, c: Campaign)
    requires c in Clusters(fps, t, m)
    ensures if |c.members| >= 2 then t <= c.cohesion <= 1.0 else c.cohesion == 0.0
    ensures |c.members| >= m && |c.members| >= 1
  {
    hide Score, PairScores, Connected, Clusters;
    CampaignsAreComponents(fps, t, m);
    var u := Filter(fps, IsUsable);
    var r: nat :| IsLeast(u, t, r) && |Component(u, t, r)| >= m && c == CampaignOf(u, t, r);
    var g := ComponentGroup(u, t, r);
    ComponentFromMembers(u, t, r, 0);
    ConnectedReflexive(u, t, r);
    assert r in Component(u, t, r);
    if |g| >= 2 {
      ComponentHasLink(u, t, r);
      PairBounds(g, t);
      MeanBounds(PairScores(g, t), t, 1.0);
    } else {
      NoPairs(g, t);
    }
  }

  lemma NoPairs(g: seq<Fingerprint>, t: real)
    requires |g| == 1
    ensures PairScores(g, t) == []
  {
    assert g[1..] == [];
  }

  // ----------------------------------------------------------------- refinement

  lemma ConnectedMonotone(u: seq<Fingerprint>, t1: real, t2: real, i: nat, j: nat)
    requires t1 <= t2 && Connected(u, t2, i, j)
    ensures Connected(u, t1, i, j)
  {
    hide Score;
    var path :| PathBetween(u, t2, path, i, j);
    forall k | 0 <= k < |path| - 1 ensures Linked(u, t1, path[k], path[k + 1]) {
      assert Linked(u, t2, path[k], path[k + 1]);
    }
    assert PathBetween(u, t1, path, i, j);
  }

  lemma {:induction false} SubgroupFrom(u: seq<Fingerprint>, t1: real, r1: nat, t2: real, r2: nat, k: nat)
    requires k <= |u| && forall i: nat :: Connected(u, t2, r2, i) ==> Connected(u, t1, r1, i)
    ensures multiset(Map(GroupFrom(u, t2, r2, k), Ip)) <= multiset(Map(GroupFrom(u, t1, r1, k), Ip))
    ensures |GroupFrom(u, t2, r2, k)| <= |GroupFrom(u, t1, r1, k)|
    decreases |u| - k
  {
    hide Score, Connected, GroupFrom, Map;
    if k < |u| {
      SubgroupFrom(u, t1, r1, t2, r2, k + 1);
      GroupFromStep(u, t1, r1, k);
      GroupFromStep(u, t2, r2, k);
      MembersCons(u[k], GroupFrom(u, t1, r1, k + 1));
      MembersCons(u[k], GroupFrom(u, t2, r2, k + 1));
    } else {
      GroupFromEnd(u, t1, r1);
      GroupFromEnd(u, t2, r2);
    }
  }

  lemma GroupFromEnd(u: seq<Fingerprint>, t: real, r: nat)
    ensures GroupFrom(u, t, r, |u|) == []
  {
  }

  lemma MembersCons(f: Fingerprint, g: seq<Fingerprint>)
    ensures multiset(Map([f] + g, Ip)) == multiset{f.srcIp} + multiset(Map(g, Ip))
  {
    assert ([f] + g)[1..] == g;
    assert multiset([f.srcIp] + Map(g, Ip)) == multiset([f.srcIp]) + multiset(Map(g, Ip));
  }

  /** Raising the threshold only splits: the members of every campaign reported at the higher
      threshold are together in one campaign reported at the lower one. */
  lemma RaisingThresholdRefines(fps: seq<Fingerprint>, t1: real, t2: real, m: int, c2: Campaign)
    requires t1 <= t2 && c2 in Clusters(fps, t2, m)
    ensures exists c1 :: c1 in Clusters(fps, t1, m) && multiset(c2.members) <= multiset(c1.members)
  {
    hide Score, Connected, Clusters, IsLeast, CampaignOf, ComponentFrom, Filter;
    var u := Filter(fps, IsUsable);
    CampaignsAreComponents(fps, t1, m);
    CampaignsAreComponents(fps, t2, m);
    var r2: nat :| IsLeast(u, t2, r2) && |Component(u, t2, r2)| >= m && c2 == CampaignOf(u, t2, r2);
    LeastInRange(u, t2, r2);
    var r1 := EverySourceHasOneComponent(u, t1, r2);
    ComponentFromMembers(u, t1, r1, 0);
    forall i: nat | Connected(u, t2, r2, i) ensures Connected(u, t1, r1, i) {
      ConnectedMonotone(u, t1, t2, r2, i);
      ConnectedTransitive(u, t1, r1, r2, i);
    }
    WiderCampaign(u, t1, r1, t2, r2);
    var c1 := CampaignOf(u, t1, r1);
    assert c1 in Clusters(fps, t1, m);
  }

  lemma WiderCampaign(u: seq<Fingerprint>, t1: real, r1: nat, t2: real, r2: nat)
    requires forall i: nat :: Connected(u, t2, r2, i) ==> Connected(u, t1, r1, i)
    ensures multiset(CampaignOf(u, t2, r2).members) <= multiset(CampaignOf(u, t1, r1).members)
    ensures |Component(u, t2, r2)| <= |Component(u, t1, r1)|
  {
    hide Score, Connected, PairScores, Map, StableSort, ComponentFrom;
    SubgroupFrom(u, t1, r1, t2, r2, 0);
    SortMultiset(Map(ComponentGroup(u, t1, r1), Ip), StringLe);
    SortMultiset(Map(ComponentGroup(u, t2, r2), Ip), StringLe);
  }

  lemma LeastInRange(u: seq<Fingerprint>, t: real, r: nat)
    requires IsLeast(u, t, r)
    ensures r < |u|
  {
  }

  // --------------------------------------------------- independence of input order

  lemma {:induction false} AgainstInsert(f: Fingerprint, a: seq<Fingerprint>, x: Fingerprint, b: seq<Fingerprint>,
                                         t: real)
    ensures multiset(ScoresAgainst(f, a + [x] + b, t))
         == multiset(ScoresAgainst(f, a + b, t)) + (if Score(f, x) >= t then multiset{Score(f, x)} else multiset{})
  {
    hide Score, ScoresAgainst;
    if a == [] {
      assert a + [x] + b == [x] + b && a + b == b;
      ScoresAgainstStep(f, x, b, t);
    } else {
      assert a + [x] + b == [a[0]] + (a[1..] + [x] + b);
      assert a + b == [a[0]] + (a[1..] + b);
      ScoresAgainstStep(f, a[0], a[1..] + [x] + b, t);
      ScoresAgainstStep(f, a[0], a[1..] + b, t);
      AgainstInsert(f, a[1..], x, b, t);
    }
  }

  /** Pulling one element to the front does not change the pair scores as a multiset. */
  lemma {:induction false} PairsPullFront(a: seq<Fingerprint>, x: Fingerprint, b: seq<Fingerprint>, t: real)
    ensures multiset(PairScores(a + [x] + b, t)) == multiset(PairScores([x] + (a + b), t))
  {
    hide Score, ScoresAgainst, PairScores;
    if a == [] {
      assert a + [x] + b == [x] + (a + b);
    } else {
      var y, a' := a[0], a[1..];
      assert a + [x] + b == [y] + (a' + [x] + b);
      assert a + b == [y] + (a' + b);
      PairsPullFront(a', x, b, t);
      PairScoresStep(y, a' + [x] + b, t);
      PairScoresStep(x, a' + b, t);
      PairScoresStep(x, [y] + (a' + b), t);
      PairScoresStep(y, a' + b, t);
      AgainstInsert(y, a', x, b, t);
      ScoresAgainstStep(x, y, a' + b, t);
      ScoreSymmetric(x, y);
    }
  }

  lemma {:induction false} PairsMultiset(g: seq<Fingerprint>, h: seq<Fingerprint>, t: real)
    requires multiset(g) == multiset(h)
    ensures multiset(PairScores(g, t)) == multiset(PairScores(h, t))
    decreases |g|
  {
    hide Score, ScoresAgainst, PairScores;
    if g == [] {
      assert |multiset(h)| == 0;
    } else {
      var x := g[0];
      assert x in multiset(g);
      var a, b := SplitAt(x, h);
      assert g == [x] + g[1..];
      assert multiset(g[1..]) == multiset(g) - multiset{x};
      PairsMultiset(g[1..], a + b, t);
      PairsPullFront(a, x, b, t);
      PairScoresStep(x, g[1..], t);
      PairScoresStep(x, a + b, t);
      AgainstMultiset(x, g[1..], a + b, t);
    }
  }

  lemma {:induction false} AgainstMultiset(f: Fingerprint, g: seq<Fingerprint>, h: seq<Fingerprint>, t: real)
    requires multiset(g) == multiset(h)
    ensures multiset(ScoresAgainst(f, g, t)) == multiset(ScoresAgainst(f, h, t))
    decreases |g|
  {
    hide Score;
    if g == [] {
      assert |multiset(h)| == 0;
    } else {
      assert g[0] in multiset(g);
      var a, b := SplitAt(g[0], h);
      assert g == [g[0]] + g[1..];
      assert multiset(g[1..]) == multiset(g) - multiset{g[0]};
      AgainstMultiset(f, g[1..], a + b, t);
      AgainstInsert(f, a, g[0], b, t);
    }
  }

  /** A campaign depends on the multiset of its sources only. */
  lemma SummaryMultiset(g: seq<Fingerprint>, h: seq<Fingerprint>, t: real)
    requires multiset(g) == multiset(h)
    ensures Summarise(g, PairScores(g, t)) == Summarise(h, PairScores(h, t))
  {
    hide Score, PairScores, StableSort, SumInt, SumReal, ProfileOf;
    SameProfile(g, h);
    MapMultiset(g, h, Ip);
    SortStringsCanonical(Map(g, Ip), Map(h, Ip));
    MapMultiset(g, h, Events);
    SumIntMultiset(Map(g, Events), Map(h, Events));
    PairsMultiset(g, h, t);
    SumRealMultiset(PairScores(g, t), PairScores(h, t));
    SameLength(PairScores(g, t), PairScores(h, t));
  }

  lemma SameProfile(g: seq<Fingerprint>, h: seq<Fingerprint>)
    requires multiset(g) == multiset(h)
    ensures ProfileOf(g) == ProfileOf(h)
  {
    hide ProfileOf;
    Contained(g, h);
    Contained(h, g);
    if g == [] {
      assert h == [];
    } else {
      ProfileByMembers(g, h);
    }
  }

  lemma SameLength(a: seq<real>, b: seq<real>)
    requires multiset(a) == multiset(b)
    ensures |a| == |b|
  {
    assert |multiset(a)| == |a| && |multiset(b)| == |b|;
  }

  /** `v` is `u` with the sources at `n` and `n + 1` exchanged. */
  ghost predicate Swapped(u: seq<Fingerprint>, v: seq<Fingerprint>, n: nat) {
    n + 1 < |u| && v == u[n := u[n + 1]][n + 1 := u[n]]
  }

  function Swap(n: nat, k: nat): nat {
    if k == n then n + 1 else if k == n + 1 then n else k
  }

  lemma ConnectedSwap(u: seq<Fingerprint>, v: seq<Fingerprint>, n: nat, t: real, i: nat, j: nat)
    requires Swapped(u, v, n) && Connected(u, t, i, j)
    ensures Connected(v, t, Swap(n, i), Swap(n, j))
  {
    hide Score;
    var path :| PathBetween(u, t, path, i, j);
    var moved := seq(|path|, k requires 0 <= k < |path| => Swap(n, path[k]));
    forall k | 0 <= k < |moved| - 1 ensures Linked(v, t, moved[k], moved[k + 1]) {
      assert Linked(u, t, path[k], path[k + 1]);
    }
    assert PathBetween(v, t, moved, Swap(n, i), Swap(n, j));
  }

  lemma ConnectedSwapBoth(u: seq<Fingerprint>, v: seq<Fingerprint>, n: nat, t: real)
    requires Swapped(u, v, n)
    ensures forall i: nat, j: nat :: Connected(v, t, Swap(n, i), Swap(n, j)) <==> Connected(u, t, i, j)
  {
    hide Score, Connected;
    forall i: nat, j: nat
      ensures Connected(v, t, Swap(n, i), Swap(n, j)) <==> Connected(u, t, i, j)
    {
      if Connected(u, t, i, j) {
        ConnectedSwap(u, v, n, t, i, j);
      }
      if Connected(v, t, Swap(n, i), Swap(n, j)) {
        assert Swapped(v, u, n);
        ConnectedSwap(v, u, n, t, Swap(n, i), Swap(n, j));
      }
    }
  }

  lemma GroupFromTwoSteps(u: seq<Fingerprint>, t: real, r: nat, n: nat)
    requires n + 1 < |u|
    ensures multiset(GroupFrom(u, t, r, n))
         == (if Connected(u, t, r, n) then multiset{u[n]} else multiset{})
          + (if Connected(u, t, r, n + 1) then multiset{u[n + 1]} else multiset{})
          + multiset(GroupFrom(u, t, r, n + 2))
  {
    hide Score, Connected, GroupFrom;
    GroupFromStep(u, t, r, n);
    GroupFromStep(u, t, r, n + 1);
  }

  lemma {:induction false} GroupSwap(u: seq<Fingerprint>, v: seq<Fingerprint>, n: nat, t: real, r: nat, k: nat)
    requires Swapped(u, v, n) && k <= |u| && k != n + 1
    requires forall i: nat :: Connected(v, t, Swap(n, r), Swap(n, i)) <==> Connected(u, t, r, i)
    ensures multiset(GroupFrom(v, t, Swap(n, r), k)) == multiset(GroupFrom(u, t, r, k))
    decreases |u| - k
  {
    hide Score, Connected, GroupFrom;
    if k == |u| {
      NoScores(u, u[n], t, r, {});
      NoScores(v, u[n], t, Swap(n, r), {});
    } else if k == n {
      GroupSwap(u, v, n, t, r, n + 2);
      assert Swap(n, n) == n + 1 && Swap(n, n + 1) == n;
      GroupFromTwoSteps(u, t, r, n);
      GroupFromTwoSteps(v, t, Swap(n, r), n);
    } else {
      GroupSwap(u, v, n, t, r, k + 1);
      GroupFromStep(u, t, r, k);
      GroupFromStep(v, t, Swap(n, r), k);
      assert Swap(n, k) == k;
    }
  }

  /** Connected sources have the same component, hence the same campaign. */
  lemma {:induction false} SameComponent(u: seq<Fingerprint>, t: real, r: nat, q: nat, k: nat)
    requires Connected(u, t, r, q) && k <= |u|
    ensures ComponentFrom(u, t, r, k) == ComponentFrom(u, t, q, k)
    decreases |u| - k
  {
    hide Score, Connected;
    if k < |u| {
      SameComponent(u, t, r, q, k + 1);
      ConnectedSymmetric(u, t, r, q);
      if Connected(u, t, q, k) {
        ConnectedTransitive(u, t, r, q, k);
      }
      if Connected(u, t, r, k) {
        ConnectedTransitive(u, t, q, r, k);
      }
    }
  }

  /** What source `r` contributes to the report. */
  ghost function Entry(u: seq<Fingerprint>, t: real, m: int, r: nat): multiset<Campaign> {
    if IsLeast(u, t, r) && |Component(u, t, r)| >= m then multiset{CampaignOf(u, t, r)} else multiset{}
  }

  lemma ReportFromStep(u: seq<Fingerprint>, t: real, m: int, k: nat)
    requires k < |u|
    ensures multiset(Report(u, t, m, LeastFrom(u, t, k)))
         == Entry(u, t, m, k) + multiset(Report(u, t, m, LeastFrom(u, t, k + 1)))
  {
    hide Score, IsLeast, Component, CampaignOf;
    LeastFromStep(u, t, k);
    var rest := LeastFrom(u, t, k + 1);
    assert ([k] + rest)[1..] == rest;
  }

  lemma CampaignSwap(u: seq<Fingerprint>, v: seq<Fingerprint>, n: nat, t: real, r: nat)
    requires Swapped(u, v, n)
    ensures |Component(v, t, Swap(n, r))| == |Component(u, t, r)|
    ensures CampaignOf(v, t, Swap(n, r)) == CampaignOf(u, t, r)
  {
    hide Score, Connected, PairScores, Summarise;
    ConnectedSwapBoth(u, v, n, t);
    GroupSwap(u, v, n, t, r, 0);
    var g, h := ComponentGroup(u, t, r), ComponentGroup(v, t, Swap(n, r));
    assert |multiset(g)| == |g| && |multiset(h)| == |h|;
    SummaryMultiset(h, g, t);
  }

  lemma LeastSwapElsewhere(u: seq<Fingerprint>, v: seq<Fingerprint>, n: nat, t: real, r: nat)
    requires Swapped(u, v, n) && (r < n || n + 1 < r)
    ensures IsLeast(v, t, r) <==> IsLeast(u, t, r)
  {
    hide Score, Connected;
    ConnectedSwapBoth(u, v, n, t);
    assert Swap(n, r) == r;
    forall j: nat | j < r
      ensures Swap(n, j) < r && (Connected(v, t, r, Swap(n, j)) <==> Connected(u, t, r, j))
      ensures Connected(v, t, r, j) <==> Connected(u, t, r, Swap(n, j))
    {
      assert Swap(n, Swap(n, j)) == j;
      assert Connected(v, t, Swap(n, r), Swap(n, Swap(n, j))) <==> Connected(u, t, r, Swap(n, j));
    }
  }

  lemma LeastSwapHere(u: seq<Fingerprint>, v: seq<Fingerprint>, n: nat, t: real)
    requires Swapped(u, v, n)
    ensures if Connected(u, t, n, n + 1)
            then !IsLeast(u, t, n + 1) && !IsLeast(v, t, n + 1) && (IsLeast(v, t, n) <==> IsLeast(u, t, n))
            else (IsLeast(v, t, n) <==> IsLeast(u, t, n + 1)) && (IsLeast(v, t, n + 1) <==> IsLeast(u, t, n))
  {
    hide Score, Connected;
    ConnectedSwapBoth(u, v, n, t);
    assert Swap(n, n) == n + 1 && Swap(n, n + 1) == n;
    assert Connected(v, t, Swap(n, n), Swap(n, n + 1)) <==> Connected(u, t, n, n + 1);
    if Connected(u, t, n, n + 1) {
      ConnectedSymmetric(u, t, n, n + 1);
      forall j: nat | j < n ensures Connected(u, t, n, j) <==> Connected(u, t, n + 1, j) {
        if Connected(u, t, n, j) {
          ConnectedTransitive(u, t, n + 1, n, j);
        }
        if Connected(u, t, n + 1, j) {
          ConnectedTransitive(u, t, n, n + 1, j);
        }
      }
    } else if Connected(u, t, n + 1, n) {
      ConnectedSymmetric(u, t, n + 1, n);
    }
    forall j: nat | j < n
      ensures Connected(v, t, n, j) <==> Connected(u, t, n + 1, j)
      ensures Connected(v, t, n + 1, j) <==> Connected(u, t, n, j)
    {
      assert Swap(n, j) == j;
      assert Connected(v, t, Swap(n, n + 1), Swap(n, j)) <==> Connected(u, t, n + 1, j);
      assert Connected(v, t, Swap(n, n), Swap(n, j)) <==> Connected(u, t, n, j);
    }
    var l := n + 1;
    assert Connected(v, t, l, n) <==> Connected(u, t, n, l);
    if IsLeast(u, t, n) && !Connected(u, t, n, l) {
      forall j: nat | j < l ensures !Connected(v, t, l, j) {
        assert j < n ==> !Connected(u, t, n, j);
      }
      assert IsLeast(v, t, l);
    }
    if IsLeast(v, t, l) {
      forall j: nat | j < n ensures !Connected(u, t, n, j) {
        assert !Connected(v, t, l, j);
      }
    }
  }

  lemma EntrySwapHere(u: seq<Fingerprint>, v: seq<Fingerprint>, n: nat, t: real, m: int)
    requires Swapped(u, v, n)
    ensures Entry(v, t, m, n) + Entry(v, t, m, n + 1) == Entry(u, t, m, n) + Entry(u, t, m, n + 1)
  {
    hide Score, Connected, IsLeast, Component, CampaignOf;
    assert Swap(n, n) == n + 1 && Swap(n, n + 1) == n;
    LeastSwapHere(u, v, n, t);
    CampaignSwap(u, v, n, t, n);
    CampaignSwap(u, v, n, t, n + 1);
    if Connected(u, t, n, n + 1) {
      ConnectedCampaign(u, t, n, n + 1);
    }
  }

  lemma ConnectedCampaign(u: seq<Fingerprint>, t: real, r: nat, q: nat)
    requires Connected(u, t, r, q)
    ensures Component(u, t, r) == Component(u, t, q) && CampaignOf(u, t, r) == CampaignOf(u, t, q)
  {
    hide Score, Connected, PairScores;
    SameComponent(u, t, r, q, 0);
  }

  lemma SwappedLength(u: seq<Fingerprint>, v: seq<Fingerprint>, n: nat)
    requires Swapped(u, v, n)
    ensures |v| == |u| && n + 1 < |u|
  {
  }

  lemma RegroupSum<T>(a: multiset<T>, b: multiset<T>, c: multiset<T>)
    ensures a + (b + c) == (a + b) + c
  {
  }

  lemma {:induction false} ReportSwap(u: seq<Fingerprint>, v: seq<Fingerprint>, n: nat, t: real, m: int, k: nat)
    requires Swapped(u, v, n) && k <= |u| && k != n + 1
    ensures multiset(Report(v, t, m, LeastFrom(v, t, k))) == multiset(Report(u, t, m, LeastFrom(u, t, k)))
    decreases |u| - k
  {
    hide Score, Connected, IsLeast, Component, CampaignOf, Entry, Report, LeastFrom, Swapped;
    assert |v| == |u| && n + 1 < |u| by { SwappedLength(u, v, n); }
    if k == |u| {
      NothingReported(u, t, m);
      NothingReported(v, t, m);
    } else if k == n {
      ReportSwap(u, v, n, t, m, n + 2);
      EntrySwapHere(u, v, n, t, m);
      ReportFromStep(u, t, m, n);
      ReportFromStep(u, t, m, n + 1);
      ReportFromStep(v, t, m, n);
      ReportFromStep(v, t, m, n + 1);
      RegroupSum(Entry(v, t, m, n), Entry(v, t, m, n + 1), multiset(Report(v, t, m, LeastFrom(v, t, n + 2))));
      RegroupSum(Entry(u, t, m, n), Entry(u, t, m, n + 1), multiset(Report(u, t, m, LeastFrom(u, t, n + 2))));
    } else {
      ReportSwap(u, v, n, t, m, k + 1);
      EntrySwapElsewhere(u, v, n, t, m, k);
      ReportFromStep(u, t, m, k);
      ReportFromStep(v, t, m, k);
    }
  }

  lemma EntrySwapElsewhere(u: seq<Fingerprint>, v: seq<Fingerprint>, n: nat, t: real, m: int, k: nat)
    requires Swapped(u, v, n) && (k < n || n + 1 < k)
    ensures Entry(v, t, m, k) == Entry(u, t, m, k)
  {
    hide Score, Connected, IsLeast, Component, CampaignOf;
    assert Swap(n, k) == k;
    LeastSwapElsewhere(u, v, n, t, k);
    CampaignSwap(u, v, n, t, k);
  }

  /** The report, as a multiset, before sorting. */
  ghost function ReportSet(u: seq<Fingerprint>, t: real, m: int): multiset<Campaign> {
    if |u| < 2 then multiset{} else multiset(Report(u, t, m, LeastFrom(u, t, 0)))
  }

  /** Moving `x` in front of `a` is a chain of exchanges of neighbours. */
  lemma {:induction false} ReportPullFront(pre: seq<Fingerprint>, a: seq<Fingerprint>, x: Fingerprint,
                                           b: seq<Fingerprint>, t: real, m: int)
    ensures ReportSet(pre + a + [x] + b, t, m) == ReportSet(pre + [x] + a + b, t, m)
    decreases |a|
  {
    hide Score, Connected, IsLeast, Component, Report, LeastFrom;
    if a != [] {
      var front, y := a[..|a| - 1], a[|a| - 1];
      var u, v := pre + a + [x] + b, pre + front + [x] + ([y] + b);
      var n := |pre| + |front|;
      assert a == front + [y];
      assert u == pre + front + [y] + [x] + b;
      assert Swapped(u, v, n);
      ReportSwap(u, v, n, t, m, 0);
      ReportPullFront(pre, front, x, [y] + b, t, m);
      assert pre + [x] + front + ([y] + b) == pre + [x] + a + b;
    } else {
      assert pre + a + [x] + b == pre + [x] + a + b;
    }
  }

  lemma {:induction false} ReportReorder(pre: seq<Fingerprint>, s: seq<Fingerprint>, s': seq<Fingerprint>, t: real,
                                         m: int)
    requires multiset(s) == multiset(s')
    ensures ReportSet(pre + s, t, m) == ReportSet(pre + s', t, m)
    decreases |s|
  {
    hide Score, ReportSet;
    if s == [] {
      assert |multiset(s')| == 0;
    } else {
      var x := s[0];
      assert x in multiset(s);
      var a, b := SplitAt(x, s');
      assert s == [x] + s[1..];
      TailMultiset(s);
      ReportReorder(pre + [x], s[1..], a + b, t, m);
      ReportPullFront(pre, a, x, b, t, m);
      assert pre + s == (pre + [x]) + s[1..];
      assert pre + s' == pre + a + [x] + b;
      assert (pre + [x]) + (a + b) == pre + [x] + a + b;
    }
  }

  lemma ClustersAreReport(fps: seq<Fingerprint>, t: real, m: int)
    ensures multiset(Clusters(fps, t, m)) == ReportSet(Filter(fps, IsUsable), t, m)
  {
    hide Score, Connected, Report, LeastFrom, StableSort;
    var u := Filter(fps, IsUsable);
    SortMultiset(Report(u, t, m, LeastFrom(u, t, 0)), LargerFirst);
  }

  /** Reordering the input yields the same campaigns: the same members, event counts and
      cohesion, each as often as before. */
  lemma OrderIrrelevant(fps: seq<Fingerprint>, fps': seq<Fingerprint>, t: real, m: int)
    requires multiset(fps) == multiset(fps')
    ensures multiset(Clusters(fps, t, m)) == multiset(Clusters(fps', t, m))
  {
    hide Score, Clusters, ReportSet;
    var u, v := Filter(fps, IsUsable), Filter(fps', IsUsable);
    FilterReordered(fps, fps', IsUsable);
    ReportReorder([], u, v, t, m);
    assert [] + u == u && [] + v == v;
    ClustersAreReport(fps, t, m);
    ClustersAreReport(fps', t, m);
  }

  /** The report lists larger campaigns first, and equally large ones by event count. */
  lemma ReportIsSorted(fps: seq<Fingerprint>, t: real, m: int)
    ensures Ordered(Clusters(fps, t, m), LargerFirst)
  {
    hide Score, Connected, Report, LeastFrom, StableSort;
    var u := Filter(fps, IsUsable);
    assert TotalPreorder(LargerFirst);
    SortOrdered(Report(u, t, m, LeastFrom(u, t, 0)), LargerFirst);
  }

  /** A campaign names exactly the sources of its component, in order, and adds up their events. */
  lemma CampaignContents(u: seq<Fingerprint>, t: real, r: nat)
    ensures var c, g := CampaignOf(u, t, r), ComponentGroup(u, t, r);
      && multiset(c.members) == multiset(Map(g, Ip)) && Ordered(c.members, StringLe)
      && c.eventCount == SumInt(Map(g, Events)) && c.profile == ProfileOf(g)
      && forall f :: f in g <==> exists i: nat :: i < |u| && u[i] == f && Connected(u, t, r, i)
  {
    hide Score, Connected, StringLe, PairScores, StableSort, SumInt, Mean, ProfileOf, Map, Component;
    var g := ComponentGroup(u, t, r);
    StringLeIsTotalOrder();
    SortMultiset(Map(g, Ip), StringLe);
    SortOrdered(Map(g, Ip), StringLe);
    GroupMembers(u, t, r);
  }

  lemma GroupMembers(u: seq<Fingerprint>, t: real, r: nat)
    ensures forall f :: f in ComponentGroup(u, t, r) <==>
              exists i: nat :: i < |u| && u[i] == f && Connected(u, t, r, i)
  {
    hide Score, Connected, ComponentFrom;
    var g, indices := ComponentGroup(u, t, r), Component(u, t, r);
    ComponentFromMembers(u, t, r, 0);
    forall f ensures f in g <==> exists i: nat :: i < |u| && u[i] == f && Connected(u, t, r, i) {
      if f in g {
        var k :| 0 <= k < |g| && g[k] == f;
        assert indices[k] in indices;
      }
      if i: nat :| i < |u| && u[i] == f && Connected(u, t, r, i) {
        assert i in indices;
        var k :| 0 <= k < |indices| && indices[k] == i;
        assert g[k] == f;
      }
    }
  }
}
