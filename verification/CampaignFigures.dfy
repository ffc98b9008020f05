/**
  The figures of a campaign on the fields of its sources (pipeline/analysis/campaigns.py, _summarise and the sort of
  cluster): who is in it, how many events they sent, how alike they are, and where it stands in the report.
 */
module CampaignFigures {
  import opened Sequences
  import opened Similarity
  import opened Campaigns
  import opened CampaignLaws

  /** `total` is reached from 0 by adding one element after the other. */
  ghost predicate AddsUpTo(s: seq<int>, total: int) {
    exists sums: seq<int> :: AreSums(s, sums) && sums[|s|] == total
  }

  ghost predicate AreSums(s: seq<int>, sums: seq<int>) {
    && |sums| == |s| + 1 && sums[0] == 0
    && forall k :: 0 <= k < |s| ==> sums[k + 1] == sums[k] + s[k]
  }

  ghost predicate RealsAddUpTo(s: seq<real>, total: real) {
    exists sums: seq<real> :: AreRealSums(s, sums) && sums[|s|] == total
  }

  ghost predicate AreRealSums(s: seq<real>, sums: seq<real>) {
    && |sums| == |s| + 1 && sums[0] == 0.0
    && forall k :: 0 <= k < |s| ==> sums[k + 1] == sums[k] + s[k]
  }

  lemma {:induction false} SumAddsUp(s: seq<int>)
    ensures AddsUpTo(s, SumInt(s))
  {
    if s == [] {
      assert AreSums(s, [0]);
    } else {
      var before, last := s[..|s| - 1], s[|s| - 1];
      assert s == before + [last];
      SumIntConcat(before, [last]);
      assert [last][1..] == [];
      SumAddsUp(before);
      var sums :| AreSums(before, sums) && sums[|before|] == SumInt(before);
      assert AreSums(s, sums + [SumInt(s)]);
    }
  }

  lemma {:induction false} SumRealAddsUp(s: seq<real>)
    ensures RealsAddUpTo(s, SumReal(s))
  {
    if s == [] {
      assert AreRealSums(s, [0.0]);
    } else {
      var before, last := s[..|s| - 1], s[|s| - 1];
      assert s == before + [last];
      SumRealConcat(before, [last]);
      assert [last][1..] == [];
      SumRealAddsUp(before);
      var sums :| AreRealSums(before, sums) && sums[|before|] == SumReal(before);
      assert AreRealSums(s, sums + [SumReal(s)]);
    }
  }

  // ------------------------------------------------------------------ linked pairs

  type Pair = (nat, nat)

  /** The pairs of `i` with the sources from `j` on that reach the threshold. */
  ghost function PairsOf(g: seq<Fingerprint>, t: real, i: nat, j: nat): (ps: seq<Pair>)
    requires i < j <= |g|
    ensures forall p: Pair :: p in ps <==> p.0 == i && j <= p.1 < |g| && Score(g[p.0], g[p.1]) >= t
    decreases |g| - j
  {
    hide Score;
    if j == |g| then []
    else
      var rest := PairsOf(g, t, i, j + 1);
      if Score(g[i], g[j]) >= t then [(i, j)] + rest else rest
  }

  lemma {:induction false} PairsDiffer(g: seq<Fingerprint>, t: real, i: nat, j: nat)
    requires i < j <= |g|
    ensures forall a, b :: 0 <= a < b < |PairsOf(g, t, i, j)| ==> PairsOf(g, t, i, j)[a] != PairsOf(g, t, i, j)[b]
    decreases |g| - j
  {
    hide Score;
    if j < |g| {
      PairsDiffer(g, t, i, j + 1);
      assert (i, j) !in PairsOf(g, t, i, j + 1);
    }
  }

  ghost function PairsFrom(g: seq<Fingerprint>, t: real, i: nat): (ps: seq<Pair>)
    requires i <= |g|
    ensures forall p: Pair :: p in ps <==> i <= p.0 < p.1 < |g| && Score(g[p.0], g[p.1]) >= t
    ensures forall a, b :: 0 <= a < b < |ps| ==> ps[a] != ps[b]
    decreases |g| - i
  {
    hide Score;
    if i == |g| then []
    else
      var row, rest := PairsOf(g, t, i, i + 1), PairsFrom(g, t, i + 1);
      PairsDiffer(g, t, i, i + 1);
      Apart(row, rest);
      row + rest
  }

  lemma Apart(a: seq<Pair>, b: seq<Pair>)
    requires forall i, j :: 0 <= i < j < |a| ==> a[i] != a[j]
    requires forall i, j :: 0 <= i < j < |b| ==> b[i] != b[j]
    requires forall p :: p in a ==> p !in b
    ensures forall i, j :: 0 <= i < j < |a + b| ==> (a + b)[i] != (a + b)[j]
  {
    forall i, j | 0 <= i < j < |a + b| ensures (a + b)[i] != (a + b)[j] {
      if i < |a| <= j {
        assert a[i] in a && b[j - |a|] in b;
      }
    }
  }

  ghost function ScoresOf(g: seq<Fingerprint>, ps: seq<Pair>): seq<real>
    requires forall p :: p in ps ==> p.0 < |g| && p.1 < |g|
  {
    seq(|ps|, k requires 0 <= k < |ps| => assert ps[k] in ps; Score(g[ps[k].0], g[ps[k].1]))
  }

  lemma {:induction false} RowScores(g: seq<Fingerprint>, t: real, i: nat, j: nat)
    requires i < j <= |g|
    ensures ScoresAgainst(g[i], g[j..], t) == ScoresOf(g, PairsOf(g, t, i, j))
    decreases |g| - j
  {
    hide Score;
    if j < |g| {
      assert g[j..][1..] == g[j + 1..];
      RowScores(g, t, i, j + 1);
    }
  }

  lemma {:induction false} GroupScores(g: seq<Fingerprint>, t: real, i: nat)
    requires i <= |g|
    ensures PairScores(g[i..], t) == ScoresOf(g, PairsFrom(g, t, i))
    decreases |g| - i
  {
    hide Score, ScoresAgainst, PairsOf;
    if i < |g| {
      assert g[i..][1..] == g[i + 1..];
      RowScores(g, t, i, i + 1);
      GroupScores(g, t, i + 1);
    }
  }

  // ---------------------------------------------------------------------- the figures

  /** The pairs of the group that reach the threshold, each once. */
  ghost predicate AreLinks(g: seq<Fingerprint>, t: real, ps: seq<Pair>) {
    && (forall p: Pair :: p in ps <==> p.0 < p.1 < |g| && Score(g[p.0], g[p.1]) >= t)
    && (forall a, b :: 0 <= a < b < |ps| ==> ps[a] != ps[b])
  }

  /** The average of the scores, or 0 without any. */
  ghost predicate IsAverage(scores: seq<real>, average: real) {
    if scores == [] then average == 0.0 else RealsAddUpTo(scores, average * |scores| as real)
  }

  ghost predicate AverageOfLinks(g: seq<Fingerprint>, t: real, cohesion: real) {
    exists ps: seq<Pair> :: AreLinks(g, t, ps) && IsAverage(ScoresOf(g, ps), cohesion)
  }

  lemma MeanIsAverage(g: seq<Fingerprint>, t: real)
    ensures AverageOfLinks(g, t, Mean(PairScores(g, t)))
  {
    hide Score, PairScores, Mean, IsAverage;
    var ps := PairsFrom(g, t, 0);
    assert AreLinks(g, t, ps);
    assert g[0..] == g;
    GroupScores(g, t, 0);
    MeanAverages(PairScores(g, t));
  }

  lemma MeanAverages(scores: seq<real>)
    ensures IsAverage(scores, Mean(scores))
  {
    hide SumReal, RealsAddUpTo;
    SumRealAddsUp(scores);
    if scores != [] {
      Undivided(SumReal(scores), |scores|);
      assert Mean(scores) * |scores| as real == SumReal(scores);
    }
  }

  lemma Undivided(x: real, n: nat)
    requires n > 0
    ensures x / n as real * n as real == x
  {
  }

  /** A campaign names the addresses of its sources in ascending order, adds up their events, and averages the scores of
      the pairs among them that reach the threshold. */
  ghost predicate Describes(c: Campaign, g: seq<Fingerprint>, t: real) {
    && multiset(c.members) == multiset(seq(|g|, k requires 0 <= k < |g| => g[k].srcIp))
    && (forall a, b :: 0 <= a < b < |c.members| ==> StringLe(c.members[a], c.members[b]))
    && AddsUpTo(seq(|g|, k requires 0 <= k < |g| => g[k].eventCount), c.eventCount)
    && AverageOfLinks(g, t, c.cohesion)
  }

  lemma CampaignDescribes(u: seq<Fingerprint>, t: real, r: nat)
    ensures Describes(CampaignOf(u, t, r), ComponentGroup(u, t, r), t)
  {
    hide ComponentGroup, Describes;
    SummaryDescribes(ComponentGroup(u, t, r), t);
  }

  lemma SummaryDescribes(g: seq<Fingerprint>, t: real)
    ensures Describes(Summarise(g, PairScores(g, t)), g, t)
  {
    hide Score, StringLe, PairScores, StableSort, SumInt, Mean, AverageOfLinks, AddsUpTo;
    StringLeIsTotalOrder();
    SortMultiset(Map(g, Ip), StringLe);
    SortOrdered(Map(g, Ip), StringLe);
    assert Map(g, Ip) == seq(|g|, k requires 0 <= k < |g| => g[k].srcIp);
    assert Map(g, Events) == seq(|g|, k requires 0 <= k < |g| => g[k].eventCount);
    SumAddsUp(Map(g, Events));
    MeanIsAverage(g, t);
  }

  /** The report lists campaigns with more sources first, and among those of one size those with more events. */
  lemma LargestFirst(fps: seq<Fingerprint>, t: real, m: int, i: nat, j: nat)
    requires i < j < |Clusters(fps, t, m)|
    ensures var a, b := Clusters(fps, t, m)[i], Clusters(fps, t, m)[j];
      && |a.members| >= |b.members|
      && (|a.members| == |b.members| ==> a.eventCount >= b.eventCount)
  {
    hide Clusters;
    ReportIsSorted(fps, t, m);
  }
}
