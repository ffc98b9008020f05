/**
  Behavioural fingerprints and their weighted overlap
  (pipeline/analysis/campaigns.py, jaccard and similarity). Scores are exact rationals.
 */
module Similarity {
  import opened Wrappers

  datatype Facet = Payloads | Credentials | Paths | Usernames | Tags | Services

  const FACETS: seq<Facet> := [Payloads, Credentials, Paths, Usernames, Tags, Services]

  function Weight(facet: Facet): (w: real)
    ensures w > 0.0
  {
    match facet
    case Payloads => 3.0
    case Credentials => 2.5
    case Paths => 1.5
    case Usernames => 1.0
    case Tags => 1.0
    case Services => 0.25
  }

  /** An absent country or classification is the empty string; times are microseconds. */
  datatype Fingerprint = Fingerprint(
    srcIp: string,
    payloads: set<string>,
    credentials: set<string>,
    paths: set<string>,
    usernames: set<string>,
    tags: set<string>,
    services: set<string>,
    asn: Option<int>,
    country: string,
    classification: string,
    eventCount: int,
    firstSeen: Option<int>,
    lastSeen: Option<int>)
  {
    function Get(facet: Facet): set<string> {
      match facet
      case Payloads => payloads
      case Credentials => credentials
      case Paths => paths
      case Usernames => usernames
      case Tags => tags
      case Services => services
    }

    /** True when nothing discriminative was observed. */
    predicate IsEmpty() {
      credentials == {} && paths == {} && payloads == {} && usernames == {}
    }
  }

  function Jaccard(a: set<string>, b: set<string>): (r: real)
    ensures 0.0 <= r <= 1.0
    ensures r == 1.0 <==> a == b && a != {}
    ensures r == 0.0 <==> a !! b
  {
    if a == {} || b == {} then 0.0
    else
      JaccardParts(a, b);
      |a * b| as real / |a + b| as real
  }

  /** The four facts about the two cardinalities from which Jaccard's contract follows. */
  lemma JaccardParts(a: set<string>, b: set<string>)
    requires a != {} && b != {}
    ensures 0 <= |a * b| <= |a + b| && |a + b| > 0
    ensures |a * b| == |a + b| <==> a == b
    ensures |a * b| == 0 <==> a !! b
    ensures 0.0 <= |a * b| as real / |a + b| as real <= 1.0
    ensures |a * b| as real / |a + b| as real == 1.0 <==> a == b
    ensures |a * b| as real / |a + b| as real == 0.0 <==> a !! b
  {
    var union, both := a + b, a * b;
    assert union == both + (union - both) && both !! (union - both);
    assert |union| == |both| + |union - both|;
    var x :| x in a;
    assert x in union;
    if |both| == |union| {
      assert union - both == {};
      assert a <= both && b <= both;
    }
    DivisionBounds(|both|, |union|);
  }

  lemma DivisionBounds(n: nat, d: nat)
    requires n <= d && d > 0
    ensures 0.0 <= n as real / d as real <= 1.0
    ensures n as real / d as real == 1.0 <==> n == d
    ensures n as real / d as real == 0.0 <==> n == 0
  {
    var q := n as real / d as real;
    assert q * d as real == n as real;
  }

  predicate Observed(l: Fingerprint, r: Fingerprint, facet: Facet) {
    l.Get(facet) != {} || r.Get(facet) != {}
  }

  /** What one facet adds to the denominator, and to the numerator, of the score. */
  function WeightTerm(l: Fingerprint, r: Fingerprint, f: Facet): real {
    if Observed(l, r, f) then Weight(f) else 0.0
  }

  function OverlapTerm(l: Fingerprint, r: Fingerprint, f: Facet): real {
    if Observed(l, r, f) then Weight(f) * Jaccard(l.Get(f), r.Get(f)) else 0.0
  }

  /** Total weight of the facets at least one side has data for. */
  function WeightSum(facets: seq<Facet>, l: Fingerprint, r: Fingerprint): (w: real)
    ensures w >= 0.0
    ensures w == 0.0 <==> forall f :: f in facets ==> !Observed(l, r, f)
  {
    if facets == [] then 0.0
    else
      assert facets == [facets[0]] + facets[1..];
      WeightTerm(l, r, facets[0]) + WeightSum(facets[1..], l, r)
  }

  /** Total weighted overlap of those facets. */
  function OverlapSum(facets: seq<Facet>, l: Fingerprint, r: Fingerprint): real {
    if facets == [] then 0.0
    else OverlapTerm(l, r, facets[0]) + OverlapSum(facets[1..], l, r)
  }

  function Score(l: Fingerprint, r: Fingerprint): real {
    var w := WeightSum(FACETS, l, r);
    if w == 0.0 then 0.0 else OverlapSum(FACETS, l, r) / w
  }

  lemma {:induction false} WeightSumAppend(a: seq<Facet>, f: Facet, l: Fingerprint, r: Fingerprint)
    ensures WeightSum(a + [f], l, r) == WeightSum(a, l, r) + WeightTerm(l, r, f)
  {
    if a == [] {
      assert a + [f] == [f];
      assert [f][1..] == [];
    } else {
      assert (a + [f])[1..] == a[1..] + [f];
      WeightSumAppend(a[1..], f, l, r);
    }
  }

  lemma {:induction false} OverlapSumAppend(a: seq<Facet>, f: Facet, l: Fingerprint, r: Fingerprint)
    ensures OverlapSum(a + [f], l, r) == OverlapSum(a, l, r) + OverlapTerm(l, r, f)
  {
    if a == [] {
      assert a + [f] == [f];
      assert [f][1..] == [];
    } else {
      assert (a + [f])[1..] == a[1..] + [f];
      OverlapSumAppend(a[1..], f, l, r);
    }
  }

  lemma SumsOfNothing(l: Fingerprint, r: Fingerprint)
    ensures WeightSum([], l, r) == 0.0 && OverlapSum([], l, r) == 0.0
  {
  }

  /** The accumulating loop of the source. */
  method ComputeSimilarity(left: Fingerprint, right: Fingerprint) returns (score: real)
    ensures score == Score(left, right)
  {
    hide WeightSum, OverlapSum, Weight, Jaccard;
    SumsOfNothing(left, right);
    var total, weightSum := 0.0, 0.0;
    for k := 0 to |FACETS|
      invariant weightSum == WeightSum(FACETS[..k], left, right)
      invariant total == OverlapSum(FACETS[..k], left, right)
    {
      var facet := FACETS[k];
      var a, b := left.Get(facet), right.Get(facet);
      assert FACETS[..k + 1] == FACETS[..k] + [facet];
      WeightSumAppend(FACETS[..k], facet, left, right);
      OverlapSumAppend(FACETS[..k], facet, left, right);
      if a == {} && b == {} {
        continue;
      }
      var overlap := Weight(facet) * Jaccard(a, b);
      assert overlap == OverlapTerm(left, right, facet);
      weightSum := weightSum + Weight(facet);
      total := total + overlap;
    }
    assert FACETS[..|FACETS|] == FACETS;
    score := if weightSum == 0.0 then 0.0 else total / weightSum;
  }

  // ------------------------------------------------------------- properties

  lemma {:induction false} SumsSymmetric(facets: seq<Facet>, l: Fingerprint, r: Fingerprint)
    ensures WeightSum(facets, l, r) == WeightSum(facets, r, l)
    ensures OverlapSum(facets, l, r) == OverlapSum(facets, r, l)
  {
    if facets != [] {
      var a, b := l.Get(facets[0]), r.Get(facets[0]);
      assert a * b == b * a && a + b == b + a;
      SumsSymmetric(facets[1..], l, r);
    }
  }

  lemma ScoreSymmetric(l: Fingerprint, r: Fingerprint)
    ensures Score(l, r) == Score(r, l)
  {
    SumsSymmetric(FACETS, l, r);
  }

  lemma TermBounds(l: Fingerprint, r: Fingerprint, f: Facet)
    ensures 0.0 <= OverlapTerm(l, r, f) <= WeightTerm(l, r, f)
    ensures OverlapTerm(l, r, f) == WeightTerm(l, r, f) <==> l.Get(f) == r.Get(f)
    ensures OverlapTerm(l, r, f) == 0.0 <==> l.Get(f) !! r.Get(f)
  {
    ScaledBounds(Weight(f), Jaccard(l.Get(f), r.Get(f)));
  }

  lemma {:induction false} OverlapBounds(facets: seq<Facet>, l: Fingerprint, r: Fingerprint)
    ensures 0.0 <= OverlapSum(facets, l, r) <= WeightSum(facets, l, r)
  {
    if facets != [] {
      TermBounds(l, r, facets[0]);
      OverlapBounds(facets[1..], l, r);
    }
  }

  predicate Agree(l: Fingerprint, r: Fingerprint, facets: seq<Facet>)
    ensures Agree(l, r, facets) <==> forall f :: f in facets ==> l.Get(f) == r.Get(f)
  {
    if facets == [] then true
    else
      assert facets == [facets[0]] + facets[1..];
      l.Get(facets[0]) == r.Get(facets[0]) && Agree(l, r, facets[1..])
  }

  lemma {:induction false} FullOverlap(facets: seq<Facet>, l: Fingerprint, r: Fingerprint)
    ensures OverlapSum(facets, l, r) == WeightSum(facets, l, r) <==> Agree(l, r, facets)
  {
    if facets != [] {
      var total, w := OverlapSum(facets[1..], l, r), WeightSum(facets[1..], l, r);
      TermBounds(l, r, facets[0]);
      OverlapBounds(facets[1..], l, r);
      FullOverlap(facets[1..], l, r);
      assert OverlapSum(facets, l, r) == OverlapTerm(l, r, facets[0]) + total;
      assert WeightSum(facets, l, r) == WeightTerm(l, r, facets[0]) + w;
    }
  }

  lemma {:induction false} NoOverlap(facets: seq<Facet>, l: Fingerprint, r: Fingerprint)
    ensures OverlapSum(facets, l, r) == 0.0 <==> forall f :: f in facets ==> l.Get(f) !! r.Get(f)
  {
    if facets != [] {
      assert facets == [facets[0]] + facets[1..];
      TermBounds(l, r, facets[0]);
      OverlapBounds(facets[1..], l, r);
      NoOverlap(facets[1..], l, r);
    }
  }

  lemma ScaledBounds(w: real, j: real)
    requires w > 0.0 && 0.0 <= j <= 1.0
    ensures 0.0 <= w * j <= w
    ensures w * j == w <==> j == 1.0
    ensures w * j == 0.0 <==> j == 0.0
  {
    assert w * (1.0 - j) >= 0.0;
    if j != 1.0 {
      assert w * (1.0 - j) > 0.0;
    }
  }

  lemma RatioBounds(total: real, w: real)
    requires w > 0.0 && 0.0 <= total <= w
    ensures 0.0 <= total / w <= 1.0
    ensures total / w == 1.0 <==> total == w
    ensures total / w == 0.0 <==> total == 0.0
  {
    var q := total / w;
    assert q * w == total;
  }

  lemma AllFacetsListed()
    ensures forall f: Facet :: f in FACETS
  {
    forall f: Facet ensures f in FACETS {
      match f
      case Payloads => assert FACETS[0] == f;
      case Credentials => assert FACETS[1] == f;
      case Paths => assert FACETS[2] == f;
      case Usernames => assert FACETS[3] == f;
      case Tags => assert FACETS[4] == f;
      case Services => assert FACETS[5] == f;
    }
  }

  /** The score is in [0, 1]; it is 1 exactly when all six facets agree and something was
      observed, and 0 exactly when no facet shares a single element. */
  lemma ScoreBounds(l: Fingerprint, r: Fingerprint)
    ensures 0.0 <= Score(l, r) <= 1.0
    ensures Score(l, r) == 1.0 <==>
            && (forall f: Facet :: l.Get(f) == r.Get(f))
            && (exists f: Facet :: l.Get(f) != {})
    ensures Score(l, r) == 0.0 <==> forall f: Facet :: l.Get(f) !! r.Get(f)
  {
    AllFacetsListed();
    var w := WeightSum(FACETS, l, r);
    OverlapBounds(FACETS, l, r);
    FullOverlap(FACETS, l, r);
    NoOverlap(FACETS, l, r);
    if w > 0.0 {
      RatioBounds(OverlapSum(FACETS, l, r), w);
      var f :| f in FACETS && Observed(l, r, f);
    } else {
      assert forall f: Facet :: !Observed(l, r, f);
    }
  }
}
