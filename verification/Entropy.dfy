/**
  `shannon_entropy` (pipeline/analysis/static.py) in exact reals. The binary logarithm is a
  parameter, constrained by the product rule, log 2 = 1, and its tangent at 1.
 */
module Entropy {
  import opened Bytes

  /** A logarithm and the slope of its tangent at 1 (for base 2, one over the natural log of 2). */
  datatype Log = Log(at: real -> real, slope: real)

  /** The product of two reals, named so that proofs can treat it as a whole. */
  function Times(a: real, b: real): real { a * b }

  ghost predicate ProductRule(l: Log, x: real, y: real) {
    x > 0.0 && y > 0.0 ==> l.at(Times(x, y)) == l.at(x) + l.at(y)
  }

  /** The curve stays below its tangent and meets it only at 1. */
  ghost predicate BelowTangent(l: Log, x: real) {
    x > 0.0 ==> l.at(x) <= Times(l.slope, x - 1.0) && (l.at(x) == Times(l.slope, x - 1.0) <==> x == 1.0)
  }

  ghost predicate IsLog2(l: Log) {
    && l.slope > 0.0 && l.at(2.0) == 1.0
    && (forall x, y :: ProductRule(l, x, y))
    && (forall x :: BelowTangent(l, x))
  }

  // ------------------------------------------------------------------ definition

  function Count(data: bytes, b: byte): (n: nat)
    ensures n <= |data| && (n > 0 <==> b in data)
  {
    if data == [] then 0
    else
      assert data == data[..|data| - 1] + [data[|data| - 1]];
      Count(data[..|data| - 1], b) + if data[|data| - 1] == b then 1 else 0
  }

  /** The keys of `Counter(data)`, in order of first appearance. */
  function Distinct(data: bytes): (d: bytes)
    ensures forall b :: b in d <==> b in data
    ensures forall i, j :: 0 <= i < j < |d| ==> d[i] != d[j]
  {
    if data == [] then []
    else
      var before, last := data[..|data| - 1], data[|data| - 1];
      assert data == before + [last];
      var d := Distinct(before);
      if last in d then d else d + [last]
  }

  function Share(n: nat, total: nat): real
    requires total > 0
  {
    n as real / total as real
  }

  function Term(l: Log, n: nat, total: nat): real
    requires total > 0
  {
    Times(Share(n, total), l.at(Share(n, total)))
  }

  function SumTerms(l: Log, keys: bytes, data: bytes): real
    requires data != []
  {
    if keys == [] then 0.0 else SumTerms(l, keys[..|keys| - 1], data) + Term(l, Count(data, keys[|keys| - 1]), |data|)
  }

  function ShannonEntropy(l: Log, data: bytes): real {
    if data == [] then 0.0 else -SumTerms(l, Distinct(data), data)
  }

  // -------------------------------------------------------- facts about logarithms

  lemma LogProduct(l: Log, x: real, y: real, z: real)
    requires IsLog2(l) && x > 0.0 && y > 0.0 && z == Times(x, y)
    ensures l.at(z) == l.at(x) + l.at(y)
  {
    hide Times;
    assert ProductRule(l, x, y);
  }

  lemma LogOne(l: Log)
    requires IsLog2(l)
    ensures l.at(1.0) == 0.0
  {
    LogProduct(l, 1.0, 1.0, 1.0);
  }

  lemma Log256(l: Log)
    requires IsLog2(l)
    ensures l.at(256.0) == 8.0
  {
    LogProduct(l, 2.0, 2.0, 4.0);
    LogProduct(l, 4.0, 4.0, 16.0);
    LogProduct(l, 16.0, 16.0, 256.0);
  }

  lemma Tangent(l: Log, x: real)
    requires IsLog2(l)
    ensures BelowTangent(l, x)
  {
    hide Times;
  }

  lemma LogBelowOne(l: Log, x: real)
    requires IsLog2(l) && 0.0 < x < 1.0
    ensures l.at(x) < 0.0
  {
    hide IsLog2, Times;
    Tangent(l, x);
    SlopePositive(l);
    OppositeSigns(l.slope, x - 1.0);
  }

  lemma SlopePositive(l: Log)
    requires IsLog2(l)
    ensures l.slope > 0.0
  {
    hide Times;
  }

  lemma SmallReciprocal(x: real) returns (y: real)
    requires x > 1.0
    ensures 0.0 < y < 1.0 && Times(x, y) == 1.0
  {
    y := Reciprocal(x);
    if y >= 1.0 {
      AtLeastOne(x, y);
    }
  }

  lemma Reciprocal(x: real) returns (y: real)
    requires x > 0.0
    ensures y > 0.0 && Times(x, y) == 1.0
  {
    y := 1.0 / x;
    assert x * y == 1.0;
  }

  lemma AtLeastOne(x: real, y: real)
    requires x > 1.0 && y >= 1.0
    ensures Times(x, y) > 1.0
  {
    var a, b := x - 1.0, y - 1.0;
    assert a * b >= 0.0;
    assert x * y == a * b + a + b + 1.0;
  }

  /** Above 1 the logarithm is positive, below 1 negative. */
  lemma LogSign(l: Log, x: real)
    requires IsLog2(l) && x > 0.0
    ensures x < 1.0 ==> l.at(x) < 0.0
    ensures x > 1.0 ==> l.at(x) > 0.0
    ensures l.at(1.0) == 0.0
  {
    hide IsLog2, Times;
    LogOne(l);
    if x < 1.0 {
      LogBelowOne(l, x);
    } else if x > 1.0 {
      var y := SmallReciprocal(x);
      LogBelowOne(l, y);
      LogProduct(l, x, y, 1.0);
    }
  }

  // Elementary facts about real products and quotients, kept apart from everything else.

  lemma OppositeSigns(c: real, d: real)
    requires c > 0.0 && d < 0.0
    ensures Times(c, d) < 0.0
  {
  }

  lemma PositiveProduct(p: real, q: real)
    requires p > 0.0 && q > 0.0
    ensures Times(p, q) > 0.0
  {
  }

  lemma TimesOne(p: real)
    ensures Times(p, 1.0) == p && Times(1.0, p) == p && Times(p, 0.0) == 0.0
  {
  }

  lemma TimesSum(p: real, a: real, b: real)
    ensures Times(p, a + b) == Times(p, a) + Times(p, b)
    ensures Times(a + b, p) == Times(a, p) + Times(b, p)
    ensures Times(p, -a) == -Times(p, a)
  {
  }

  lemma TimesOrder(p: real, a: real, b: real)
    requires p > 0.0 && a <= b
    ensures Times(p, a) <= Times(p, b) && (Times(p, a) == Times(p, b) <==> a == b)
  {
    hide Times;
    if a < b {
      PositiveProduct(p, b - a);
      TimesSum(p, a, b - a);
    }
  }

  lemma TimesSwap(a: real, b: real, c: real)
    ensures Times(a, Times(b, c)) == Times(b, Times(a, c))
    ensures Times(Times(a, b), c) == Times(Times(a, c), b)
  {
  }

  lemma ShareBounds(n: nat, total: nat)
    requires total > 0
    ensures Times(Share(n, total), total as real) == n as real
    ensures n > 0 ==> Share(n, total) > 0.0
    ensures n < total ==> Share(n, total) < 1.0
    ensures n == total ==> Share(n, total) == 1.0
  {
    var t := total as real;
    assert n as real / t * t == n as real;
  }

  lemma AddShares(a: nat, b: nat, total: nat)
    requires total > 0
    ensures Share(a + b, total) == Share(a, total) + Share(b, total)
  {
    AddQuotients(a as real, b as real, total as real);
  }

  lemma AddQuotients(a: real, b: real, d: real)
    requires d > 0.0
    ensures (a + b) / d == a / d + b / d
  {
  }

  /** A factor that scales a positive number to itself is one. */
  lemma Cancel(a: real, t: real)
    requires t > 0.0
    ensures Times(a, t) == t <==> a == 1.0
  {
    hide Times;
    TimesOne(t);
    if a > 1.0 {
      PositiveProduct(a - 1.0, t);
      TimesSum(t, a - 1.0, 1.0);
    } else if a < 1.0 {
      PositiveProduct(1.0 - a, t);
      TimesSum(t, 1.0 - a, a);
    }
  }

  // ----------------------------------------------------------------- Gibbs, termwise

  /** Each term is at most zero, and zero exactly for a certain byte. */
  lemma TermSign(l: Log, n: nat, total: nat)
    requires IsLog2(l) && 0 < n <= total
    ensures Term(l, n, total) <= 0.0
    ensures Term(l, n, total) == 0.0 <==> n == total
  {
    hide IsLog2, Times, Share;
    var p := Share(n, total);
    ShareBounds(n, total);
    LogSign(l, p);
    if n < total {
      OppositeSigns(p, l.at(p));
    } else {
      TimesOne(l.at(p));
    }
  }

  /** The tangent bound on bytes of total probability `mass`, measured against a share `share`. */
  ghost function Bound(mass: real, log: real, slope: real, share: real): real {
    Times(mass, log) + Times(slope, share - mass)
  }

  lemma Regroup(mass: real, p: real, log: real, c: real, u: real, v: real)
    ensures Bound(mass + p, log, c, u + v) == Bound(mass, log, c, u) + Bound(p, log, c, v)
  {
    hide Times;
    TimesSum(log, mass, p);
    assert (u + v) - (mass + p) == (u - mass) + (v - p);
    TimesSum(c, u - mass, v - p);
  }

  /** log(1/p) is log q plus the log of the ratio of 1/q to p. */
  lemma LogSplit(l: Log, p: real, q: real, x: real)
    requires IsLog2(l) && p > 0.0 && q > 0.0 && x > 0.0 && Times(Times(p, q), x) == 1.0
    ensures -l.at(p) == l.at(q) + l.at(x)
  {
    hide IsLog2, Times;
    PositiveProduct(p, q);
    LogProduct(l, p, q, Times(p, q));
    LogProduct(l, Times(p, q), x, 1.0);
    LogOne(l);
  }

  /** The inequality for one byte of probability `p`, over plain reals: `share` is 1/q, and `x` is the ratio of
      `share` to `p`. */
  lemma TermBound(p: real, q: real, x: real, share: real, logP: real, logQ: real, logX: real, c: real)
    requires p > 0.0 && q > 0.0 && Times(Times(p, q), x) == 1.0 && Times(share, q) == 1.0
    requires -logP == logQ + logX && logX <= Times(c, x - 1.0)
    ensures -Times(p, logP) <= Bound(p, logQ, c, share)
    ensures -Times(p, logP) == Bound(p, logQ, c, share) <==> logX == Times(c, x - 1.0)
  {
    hide Times;
    TimesSum(p, logP, 0.0);
    TimesSum(p, logQ, logX);
    assert -Times(p, logP) == Times(p, -logP) == Times(p, logQ) + Times(p, logX);
    TimesOrder(p, logX, Times(c, x - 1.0));
    TimesSwap(p, c, x - 1.0);
    TimesSum(p, x, -1.0);
    MinusOne(p);
    RatioToShare(p, q, x, share);
    assert Times(p, x - 1.0) == share - p;
  }

  lemma MinusOne(p: real)
    ensures Times(p, -1.0) == -p
  {
  }

  lemma RatioToShare(p: real, q: real, x: real, share: real)
    requires q > 0.0 && Times(Times(p, q), x) == 1.0 && Times(share, q) == 1.0
    ensures Times(p, x) == share
  {
    hide Times;
    TimesSwap(p, q, x);
    var d := Times(p, x) - share;
    TimesSum(q, d, share);
    if d > 0.0 {
      PositiveProduct(d, q);
    } else if d < 0.0 {
      OppositeSigns(q, d);
      Commute(q, d);
    }
  }

  lemma Commute(a: real, b: real)
    ensures Times(a, b) == Times(b, a)
  {
  }

  /** `n` is exactly one `k`-th of `total`. */
  ghost predicate FairShare(n: nat, total: nat, k: nat) { n * k == total }

  /** What a byte of probability `p` may contribute, measured against `k` equally likely bytes. */
  ghost function Allowance(l: Log, p: real, k: nat): real
    requires k > 0
  {
    Bound(p, l.at(k as real), l.slope, Share(1, k))
  }

  /** Comparison with the uniform distribution over `k` bytes. */
  lemma GibbsTerm(l: Log, n: nat, total: nat, k: nat)
    requires IsLog2(l) && 0 < n <= total && k > 0
    ensures var bound := Allowance(l, Share(n, total), k);
      -Term(l, n, total) <= bound && (-Term(l, n, total) == bound <==> FairShare(n, total, k))
  {
    hide IsLog2, Times, Share, Bound, FairShare;
    var p, q := Share(n, total), k as real;
    ShareBounds(n, total);
    ShareBounds(1, k);
    PositiveProduct(p, q);
    var x := Reciprocal(Times(p, q));
    LogSplit(l, p, q, x);
    Tangent(l, x);
    TermBound(p, q, x, Share(1, k), l.at(p), l.at(q), l.at(x), l.slope);
    UniformExactly(n, total, k, x);
  }

  lemma UniformExactly(n: nat, total: nat, k: nat, x: real)
    requires 0 < n <= total && k > 0 && Times(Times(Share(n, total), k as real), x) == 1.0
    ensures x == 1.0 <==> FairShare(n, total, k)
  {
    hide Times, Share;
    var p, q, t := Share(n, total), k as real, total as real;
    var pq := Times(p, q);
    ShareBounds(n, total);
    TimesSwap(p, q, t);
    assert Times(pq, t) == Times(n as real, q);
    CastProduct(n, k);
    Cancel(pq, t);
    PositiveProduct(p, q);
    Cancel(x, pq);
    Commute(x, pq);
  }

  lemma CastProduct(n: nat, k: nat)
    ensures Times(n as real, k as real) == (n * k) as real
  {
  }

  // ---------------------------------------------------------------------- sums

  function CountAll(keys: bytes, data: bytes): nat {
    if keys == [] then 0 else CountAll(keys[..|keys| - 1], data) + Count(data, keys[|keys| - 1])
  }

  lemma {:induction false} CountAllStep(keys: bytes, before: bytes, b: byte)
    requires forall i, j :: 0 <= i < j < |keys| ==> keys[i] != keys[j]
    ensures CountAll(keys, before + [b]) == CountAll(keys, before) + if b in keys then 1 else 0
  {
    if keys != [] {
      var init, last := keys[..|keys| - 1], keys[|keys| - 1];
      assert keys == init + [last];
      CountAllStep(init, before, b);
      assert (before + [b])[..|before|] == before;
      assert last !in init;
    }
  }

  lemma {:induction false} CountNothing(keys: bytes)
    ensures CountAll(keys, []) == 0
  {
    if keys != [] {
      CountNothing(keys[..|keys| - 1]);
    }
  }

  /** The counts of the distinct bytes add up to the length. */
  lemma {:induction false} CountsAddUp(keys: bytes, data: bytes)
    requires forall i, j :: 0 <= i < j < |keys| ==> keys[i] != keys[j]
    requires forall b :: b in data ==> b in keys
    ensures CountAll(keys, data) == |data|
    decreases |data|
  {
    if data == [] {
      CountNothing(keys);
    } else {
      var before, last := data[..|data| - 1], data[|data| - 1];
      assert data == before + [last] && last in data;
      assert forall b :: b in before ==> b in data;
      CountsAddUp(keys, before);
      CountAllStep(keys, before, last);
    }
  }

  lemma {:induction false} SumSign(l: Log, keys: bytes, data: bytes)
    requires IsLog2(l) && data != [] && forall b :: b in keys ==> b in data
    ensures SumTerms(l, keys, data) <= 0.0
    ensures SumTerms(l, keys, data) == 0.0 <==> forall b :: b in keys ==> Count(data, b) == |data|
  {
    hide IsLog2, Term, Count;
    if keys != [] {
      var init, last := keys[..|keys| - 1], keys[|keys| - 1];
      assert keys == init + [last] && last in keys;
      SumSign(l, init, data);
      assert Count(data, last) > 0;
      TermSign(l, Count(data, last), |data|);
    }
  }

  function Mass(keys: bytes, data: bytes): real
    requires data != []
  {
    Share(CountAll(keys, data), |data|)
  }

  lemma NoShare(total: nat)
    requires total > 0
    ensures Share(0, total) == 0.0
  {
  }

  lemma MassStep(init: bytes, last: byte, data: bytes)
    requires data != []
    ensures Mass(init + [last], data) == Mass(init, data) + Share(Count(data, last), |data|)
    ensures Mass([], data) == 0.0
  {
    hide Count, Share;
    assert (init + [last])[..|init|] == init;
    AddShares(CountAll(init, data), Count(data, last), |data|);
    NoShare(|data|);
  }

  ghost predicate Uniform(keys: bytes, data: bytes, k: nat) {
    forall b :: b in keys ==> FairShare(Count(data, b), |data|, k)
  }

  ghost function GibbsBound(l: Log, keys: bytes, data: bytes, k: nat): real
    requires data != [] && k > 0
  {
    Bound(Mass(keys, data), l.at(k as real), l.slope, Share(|keys|, k))
  }

  lemma BoundStep(l: Log, init: bytes, last: byte, data: bytes, k: nat)
    requires data != [] && k > 0
    ensures GibbsBound(l, init + [last], data, k)
         == GibbsBound(l, init, data, k) + Allowance(l, Share(Count(data, last), |data|), k)
  {
    hide Count, Mass, Bound, Share;
    MassStep(init, last, data);
    AddShares(|init|, 1, k);
    Regroup(Mass(init, data), Share(Count(data, last), |data|), l.at(k as real), l.slope,
            Share(|init|, k), Share(1, k));
  }

  lemma SumTermsStep(l: Log, keys: bytes, data: bytes)
    requires data != []
    ensures SumTerms(l, keys, data)
         == if keys == [] then 0.0
            else SumTerms(l, keys[..|keys| - 1], data) + Term(l, Count(data, keys[|keys| - 1]), |data|)
  {
  }

  lemma UniformStep(keys: bytes, data: bytes, k: nat)
    ensures Uniform(keys, data, k)
       <==> keys == [] || (Uniform(keys[..|keys| - 1], data, k) && FairShare(Count(data, keys[|keys| - 1]), |data|, k))
  {
    hide Count, FairShare;
  }

  lemma {:induction false} GibbsSum(l: Log, keys: bytes, data: bytes, k: nat)
    requires IsLog2(l) && data != [] && k > 0 && forall b :: b in keys ==> b in data
    ensures -SumTerms(l, keys, data) <= GibbsBound(l, keys, data, k)
    ensures -SumTerms(l, keys, data) == GibbsBound(l, keys, data, k) <==> Uniform(keys, data, k)
  {
    hide IsLog2, Term, Count, GibbsBound, SumTerms, Uniform, FairShare, Allowance, Share;
    SumTermsStep(l, keys, data);
    UniformStep(keys, data, k);
    if keys == [] {
      NoBound(l, data, k);
    } else {
      var init, last := keys[..|keys| - 1], keys[|keys| - 1];
      assert keys == init + [last] && last in keys;
      GibbsSum(l, init, data, k);
      var n := Count(data, last);
      GibbsTerm(l, n, |data|, k);
      BoundStep(l, init, last, data, k);
      BothTight(-SumTerms(l, init, data), GibbsBound(l, init, data, k),
                -Term(l, n, |data|), Allowance(l, Share(n, |data|), k));
    }
  }

  /** Two bounds added together are attained exactly when both are. */
  lemma BothTight(a: real, boundA: real, b: real, boundB: real)
    requires a <= boundA && b <= boundB
    ensures a + b <= boundA + boundB && (a + b == boundA + boundB <==> a == boundA && b == boundB)
  {
  }

  lemma NoBound(l: Log, data: bytes, k: nat)
    requires data != [] && k > 0
    ensures GibbsBound(l, [], data, k) == 0.0
  {
    hide Times, Share;
    NoShare(k);
    NoShare(|data|);
    TimesOne(l.slope);
    TimesNothing(l.at(k as real));
  }

  lemma TimesNothing(a: real)
    ensures Times(0.0, a) == 0.0
  {
  }

  /** At most 256 distinct bytes exist. */
  lemma DistinctAtMost256(keys: bytes)
    requires forall i, j :: 0 <= i < j < |keys| ==> keys[i] != keys[j]
    ensures |keys| <= 256
  {
    SetOfDistinct(keys);
    var used := set b: int | b in keys;
    assert used <= UpTo(256);
    assert UpTo(256) == used + (UpTo(256) - used);
  }

  function UpTo(n: nat): (s: set<int>)
    ensures |s| == n && forall b :: b in s <==> 0 <= b < n
  {
    if n == 0 then {} else UpTo(n - 1) + {n - 1}
  }

  lemma {:induction false} SetOfDistinct(keys: bytes)
    requires forall i, j :: 0 <= i < j < |keys| ==> keys[i] != keys[j]
    ensures |set b: int | b in keys| == |keys|
  {
    if keys != [] {
      var init, last := keys[..|keys| - 1], keys[|keys| - 1];
      assert keys == init + [last];
      SetOfDistinct(init);
      assert (set b: int | b in keys) == (set b: int | b in init) + {last as int};
      assert last !in init;
    }
  }

  // -------------------------------------------------------------------- theorems

  /** Entropy is never negative, and zero exactly when at most one distinct byte occurs. */
  lemma {:induction false} EntropyNonNegative(l: Log, data: bytes)
    requires IsLog2(l)
    ensures ShannonEntropy(l, data) >= 0.0
    ensures ShannonEntropy(l, data) == 0.0 <==> |Distinct(data)| <= 1
  {
    hide IsLog2, SumTerms, Distinct, Count, CountAll;
    if data != [] {
      var keys := Distinct(data);
      assert data[0] in data && data[0] in keys;
      SumSign(l, keys, data);
      if |keys| == 1 {
        OnlyOne(keys, data);
      } else {
        assert keys[0] in keys && keys[1] in data;
        NotAll(data, keys[0], keys[1]);
      }
    } else {
      NoBytes();
    }
  }

  lemma NoBytes()
    ensures Distinct([]) == []
  {
  }

  lemma OnlyOne(keys: bytes, data: bytes)
    requires |keys| == 1 && forall b :: b in data ==> b in keys
    ensures forall b :: b in keys ==> Count(data, b) == |data|
  {
    CountsAddUp(keys, data);
    assert keys[..0] == [];
    assert CountAll(keys, data) == CountAll([], data) + Count(data, keys[0]);
  }

  lemma {:induction false} NotAll(data: bytes, a: byte, b: byte)
    requires a != b && b in data
    ensures Count(data, a) < |data|
  {
    var before, last := data[..|data| - 1], data[|data| - 1];
    assert data == before + [last];
    if last != b {
      NotAll(before, a, b);
    }
  }

  /** Entropy is at most the logarithm of the number of distinct bytes, hence at most 8; the bound
      is attained exactly by the uniform distribution. */
  lemma {:induction false} EntropyAtMostLog(l: Log, data: bytes)
    requires IsLog2(l) && data != []
    ensures var k := |Distinct(data)|;
      && k > 0
      && ShannonEntropy(l, data) <= l.at(k as real) <= 8.0
      && (ShannonEntropy(l, data) == l.at(k as real) <==> Uniform(Distinct(data), data, k))
  {
    hide IsLog2, SumTerms;
    var keys := Distinct(data);
    var k := |keys|;
    assert data[0] in data;
    assert k > 0;
    GibbsSum(l, keys, data, k);
    CountsAddUp(keys, data);
    WholeBound(l, keys, data);
    DistinctAtMost256(keys);
    LogAtMost8(l, k);
  }

  lemma WholeBound(l: Log, keys: bytes, data: bytes)
    requires data != [] && keys != [] && CountAll(keys, data) == |data|
    ensures GibbsBound(l, keys, data, |keys|) == l.at(|keys| as real)
  {
    hide CountAll, Times, Share;
    ShareBounds(|data|, |data|);
    ShareBounds(|keys|, |keys|);
    TimesOne(l.at(|keys| as real));
    TimesOne(l.slope);
  }

  lemma LogAtMost8(l: Log, k: nat)
    requires IsLog2(l) && 0 < k <= 256
    ensures l.at(k as real) <= 8.0
    ensures l.at(k as real) == 8.0 <==> k == 256
  {
    hide IsLog2, Times;
    var q := 256.0 / k as real;
    Log256(l);
    QuotientOf256(k, q);
    LogProduct(l, k as real, q, 256.0);
    LogSign(l, q);
  }

  lemma QuotientOf256(k: nat, q: real)
    requires 0 < k <= 256 && q == 256.0 / k as real
    ensures Times(k as real, q) == 256.0 && q >= 1.0 && (q == 1.0 <==> k == 256)
  {
    assert k as real * q == 256.0;
  }

  /** The entropy of any byte string lies in [0, 8]; it is 8 exactly when all 256 bytes occur and
      occur equally often. */
  lemma {:induction false} EntropyRange(l: Log, data: bytes)
    requires IsLog2(l)
    ensures 0.0 <= ShannonEntropy(l, data) <= 8.0
    ensures ShannonEntropy(l, data) == 8.0 <==> |Distinct(data)| == 256 && Uniform(Distinct(data), data, 256)
  {
    hide IsLog2, SumTerms;
    EntropyNonNegative(l, data);
    if data != [] {
      EntropyAtMostLog(l, data);
      DistinctAtMost256(Distinct(data));
      LogAtMost8(l, |Distinct(data)|);
    }
  }
}
