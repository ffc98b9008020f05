/**
  The similarity score on the fingerprints' own fields (pipeline/analysis/campaigns.py, FACET_WEIGHTS, jaccard and
  similarity): its closed form with the published weights, and what it means for sources that share nothing telling.
 */
module SimilarityLaws {
  import opened Sequences
  import opened Similarity
  import opened Campaigns
  import opened CampaignLaws

  /** The weight of a facet that at least one side has data for. */
  function Observable(w: real, a: set<string>, b: set<string>): real {
    if a == {} && b == {} then 0.0 else w
  }

  /** The shared part of all that was seen on either side, weighted; nothing when nothing was seen. */
  function Shared(w: real, a: set<string>, b: set<string>): real {
    if a == {} && b == {} then 0.0
    else
      SeenSomething(a, b);
      w * (|a * b| as real / |a + b| as real)
  }

  lemma SeenSomething(a: set<string>, b: set<string>)
    ensures a != {} || b != {} ==> |a + b| > 0
  {
    if a != {} || b != {} {
      var x :| x in a + b;
    }
  }

  function Possible(l: Fingerprint, r: Fingerprint): real {
    Observable(3.0, l.payloads, r.payloads) + Observable(2.5, l.credentials, r.credentials)
    + Observable(1.5, l.paths, r.paths) + Observable(1.0, l.usernames, r.usernames)
    + Observable(1.0, l.tags, r.tags) + Observable(0.25, l.services, r.services)
  }

  function Achieved(l: Fingerprint, r: Fingerprint): real {
    Shared(3.0, l.payloads, r.payloads) + Shared(2.5, l.credentials, r.credentials)
    + Shared(1.5, l.paths, r.paths) + Shared(1.0, l.usernames, r.usernames)
    + Shared(1.0, l.tags, r.tags) + Shared(0.25, l.services, r.services)
  }

  lemma JaccardIs(a: set<string>, b: set<string>)
    requires a != {} || b != {}
    ensures |a + b| > 0 && Jaccard(a, b) == |a * b| as real / |a + b| as real
  {
    SeenSomething(a, b);
    if a == {} || b == {} {
      assert a * b == {};
    }
  }

  lemma TermIs(l: Fingerprint, r: Fingerprint, f: Facet, w: real)
    requires w == Weight(f)
    ensures WeightTerm(l, r, f) == Observable(w, l.Get(f), r.Get(f))
    ensures OverlapTerm(l, r, f) == Shared(w, l.Get(f), r.Get(f))
  {
    hide Jaccard;
    if Observed(l, r, f) {
      JaccardIs(l.Get(f), r.Get(f));
    }
  }

  /** The score is the achieved share of the possible weight: 3 for payloads, 2.5 for credentials, 1.5 for paths, 1 each
      for user names and tags, 0.25 for services, each facet left out of both sums when neither side has data for it. */
  lemma ScoreClosedForm(l: Fingerprint, r: Fingerprint)
    ensures Score(l, r) == if Possible(l, r) == 0.0 then 0.0 else Achieved(l, r) / Possible(l, r)
  {
    hide WeightTerm, OverlapTerm, Observable, Shared;
    TermIs(l, r, Payloads, 3.0);
    TermIs(l, r, Credentials, 2.5);
    TermIs(l, r, Paths, 1.5);
    TermIs(l, r, Usernames, 1.0);
    TermIs(l, r, Tags, 1.0);
    TermIs(l, r, Services, 0.25);
    SumOfSix(l, r);
  }

  lemma SumOfSix(l: Fingerprint, r: Fingerprint)
    ensures WeightSum(FACETS, l, r)
         == WeightTerm(l, r, Payloads) + WeightTerm(l, r, Credentials) + WeightTerm(l, r, Paths)
            + WeightTerm(l, r, Usernames) + WeightTerm(l, r, Tags) + WeightTerm(l, r, Services)
    ensures OverlapSum(FACETS, l, r)
         == OverlapTerm(l, r, Payloads) + OverlapTerm(l, r, Credentials) + OverlapTerm(l, r, Paths)
            + OverlapTerm(l, r, Usernames) + OverlapTerm(l, r, Tags) + OverlapTerm(l, r, Services)
  {
    hide WeightTerm, OverlapTerm, WeightSum, OverlapSum;
    SumsStep(Services, [], l, r);
    SumsStep(Tags, [Services], l, r);
    SumsStep(Usernames, [Tags, Services], l, r);
    SumsStep(Paths, [Usernames, Tags, Services], l, r);
    SumsStep(Credentials, [Paths, Usernames, Tags, Services], l, r);
    SumsStep(Payloads, [Credentials, Paths, Usernames, Tags, Services], l, r);
    SumsOfNothing(l, r);
    assert FACETS == [Payloads] + [Credentials, Paths, Usernames, Tags, Services];
    assert [Credentials] + [Paths, Usernames, Tags, Services] == [Credentials, Paths, Usernames, Tags, Services];
    assert [Paths] + [Usernames, Tags, Services] == [Paths, Usernames, Tags, Services];
    assert [Usernames] + [Tags, Services] == [Usernames, Tags, Services] && [Tags] + [Services] == [Tags, Services];
    assert [Services] + [] == [Services];
  }

  lemma SumsStep(f: Facet, rest: seq<Facet>, l: Fingerprint, r: Fingerprint)
    ensures WeightSum([f] + rest, l, r) == WeightTerm(l, r, f) + WeightSum(rest, l, r)
    ensures OverlapSum([f] + rest, l, r) == OverlapTerm(l, r, f) + OverlapSum(rest, l, r)
  {
    hide WeightTerm, OverlapTerm;
    assert ([f] + rest)[1..] == rest;
  }

  /** When all six facets were observed the weights add up to 9.25. */
  lemma FullyObservedScore(l: Fingerprint, r: Fingerprint)
    requires l.payloads + r.payloads != {} && l.credentials + r.credentials != {} && l.paths + r.paths != {}
    requires l.usernames + r.usernames != {} && l.tags + r.tags != {} && l.services + r.services != {}
    ensures Score(l, r) * 9.25 == Achieved(l, r)
  {
    hide Shared;
    ScoreClosedForm(l, r);
    assert Possible(l, r) == 9.25;
  }

  /** A credential, path, payload or user name was seen; tags and services do not make a source comparable. */
  predicate Discriminative(f: Fingerprint) {
    || (exists x :: x in f.credentials) || (exists x :: x in f.paths)
    || (exists x :: x in f.payloads) || (exists x :: x in f.usernames)
  }

  lemma UsableIff(f: Fingerprint)
    ensures IsUsable(f) <==> Discriminative(f)
  {
  }

  /** Nothing but services in common. */
  predicate OnlyServicesShared(l: Fingerprint, r: Fingerprint) {
    && l.payloads !! r.payloads && l.credentials !! r.credentials && l.paths !! r.paths
    && l.usernames !! r.usernames && l.tags !! r.tags
  }

  lemma NothingShared(w: real, a: set<string>, b: set<string>)
    requires a !! b
    ensures Shared(w, a, b) == 0.0
  {
    assert a * b == {};
  }

  lemma PartOf(w: real, a: set<string>, b: set<string>)
    requires w >= 0.0
    ensures 0.0 <= Shared(w, a, b) <= Observable(w, a, b) <= w
  {
    if a != {} || b != {} {
      SeenSomething(a, b);
      assert a + b == a * b + (a + b - a * b) && a * b !! (a + b - a * b);
      DivisionBounds(|a * b|, |a + b|);
      Scale(w, |a * b| as real / |a + b| as real);
    }
  }

  lemma Scale(w: real, x: real)
    requires w >= 0.0 && 0.0 <= x <= 1.0
    ensures 0.0 <= w * x <= w
  {
    assert w * (1.0 - x) >= 0.0;
  }

  lemma SmallQuotient(a: real, s: real, d: real)
    requires 0.0 <= a <= s && s <= 0.25 && d >= 1.0 + s
    ensures a / d <= 0.2
  {
    assert a <= 0.2 * d;
    QuotientAtMost(a, d, 0.2);
  }

  lemma QuotientAtMost(a: real, d: real, q: real)
    requires d > 0.0 && a <= q * d
    ensures a / d <= q
  {
    var p := a / d;
    assert p * d == a;
    if p > q {
      assert (p - q) * d > 0.0;
    }
  }

  /** Two usable sources that share nothing but services score at most 0.2, and so are not joined at the default
      threshold of 0.35. */
  lemma AmbientScore(l: Fingerprint, r: Fingerprint)
    requires Discriminative(l) && Discriminative(r) && OnlyServicesShared(l, r)
    ensures Score(l, r) <= 0.2
  {
    hide Shared;
    ScoreClosedForm(l, r);
    NothingShared(3.0, l.payloads, r.payloads);
    NothingShared(2.5, l.credentials, r.credentials);
    NothingShared(1.5, l.paths, r.paths);
    NothingShared(1.0, l.usernames, r.usernames);
    NothingShared(1.0, l.tags, r.tags);
    PartOf(0.25, l.services, r.services);
    var s := Observable(0.25, l.services, r.services);
    assert Possible(l, r) >= 1.0 + s;
    SmallQuotient(Shared(0.25, l.services, r.services), s, Possible(l, r));
  }

  /** Sources of which no two share anything but services form no campaign at the default threshold. */
  lemma AmbientSourcesNeverCluster(fps: seq<Fingerprint>, m: int)
    requires m >= 2
    requires forall i, j :: 0 <= i < j < |fps| ==> OnlyServicesShared(fps[i], fps[j])
    ensures Clusters(fps, 0.35, m) == []
  {
    hide Score, Clusters, Connected, Component, IsLeast, CampaignOf, OnlyServicesShared;
    var u := Filter(fps, IsUsable);
    CampaignsAreComponents(fps, 0.35, m);
    forall i: nat, j: nat | i < j < |u| ensures !Linked(u, 0.35, i, j) && !Linked(u, 0.35, j, i) {
      var a, b := FilterPair(fps, IsUsable, i, j);
      UsableIff(u[i]);
      UsableIff(u[j]);
      assert u[i] in u && u[j] in u;
      AmbientScore(u[i], u[j]);
      ScoreSymmetric(u[i], u[j]);
    }
    if Clusters(fps, 0.35, m) != [] {
      var c := Clusters(fps, 0.35, m)[0];
      assert c in Clusters(fps, 0.35, m);
      var r: nat :| IsLeast(u, 0.35, r) && |Component(u, 0.35, r)| >= m && c == CampaignOf(u, 0.35, r);
      LeastInRange(u, 0.35, r);
      var i, j := LinkInComponent(u, 0.35, r);
    }
  }

  lemma LinkInComponent(u: seq<Fingerprint>, t: real, r: nat) returns (i: nat, j: nat)
    requires r < |u| && |Component(u, t, r)| >= 2
    ensures Linked(u, t, i, j)
  {
    hide Score;
    var c := Component(u, t, r);
    ComponentFromMembers(u, t, r, 0);
    var other := if c[0] == r then c[1] else c[0];
    assert c[0] < c[1] && other in c;
    var path :| PathBetween(u, t, path, r, other);
    assert |path| > 1;
    i, j := path[0], path[0 + 1];
  }

  /** Two elements that pass the filter stood in the same order before. */
  lemma {:induction false} FilterPair<T>(s: seq<T>, keep: T -> bool, i: nat, j: nat) returns (a: nat, b: nat)
    requires i < j < |Filter(s, keep)|
    ensures a < b < |s| && s[a] == Filter(s, keep)[i] && s[b] == Filter(s, keep)[j]
  {
    hide Filter;
    var rest := Filter(s[1..], keep);
    assert s == [s[0]] + s[1..];
    FilterCons(s[0], s[1..], keep);
    if !keep(s[0]) {
      assert Filter(s, keep) == rest;
      var x, y := FilterPair(s[1..], keep, i, j);
      a, b := x + 1, y + 1;
    } else if i > 0 {
      var x, y := FilterPair(s[1..], keep, i - 1, j - 1);
      a, b := x + 1, y + 1;
    } else {
      assert rest[j - 1] in rest;
      var k :| 0 <= k < |s[1..]| && s[1..][k] == rest[j - 1];
      a, b := 0, k + 1;
    }
  }
}
