/** Python's `round(x, 2)` and `round(x, 4)`: to the nearest, ties to even, in exact reals. */
module Rounding {

  function RoundHalfEven(x: real): int {
    var f := x.Floor;
    var d := x - f as real;
    if d < 0.5 then f else if d > 0.5 then f + 1 else if f % 2 == 0 then f else f + 1
  }

  function Round2(x: real): real { RoundHalfEven(x * 100.0) as real / 100.0 }

  function Round4(x: real): real { RoundHalfEven(x * 10000.0) as real / 10000.0 }

  lemma RoundMonotone(x: real, y: real)
    requires x <= y
    ensures Round2(x) <= Round2(y) && Round4(x) <= Round4(y)
  {
    NearestMonotone(x * 100.0, y * 100.0);
    NearestMonotone(x * 10000.0, y * 10000.0);
  }

  lemma NearestMonotone(a: real, b: real)
    requires a <= b
    ensures RoundHalfEven(a) <= RoundHalfEven(b)
  {
    assert a.Floor <= b.Floor;
  }

  lemma RoundFixes(n: int)
    ensures Round2(n as real) == n as real
  {
    assert (n as real * 100.0) == (n * 100) as real;
    assert RoundHalfEven((n * 100) as real) == n * 100;
  }

  /** `r` is a multiple of 1/unit nearest to `x`; of two that are equally near it is the even one. */
  ghost predicate IsNearest(r: real, x: real, unit: nat) {
    exists n: int :: IsNumerator(n, r, unit) && IsNearestInt(n, x * unit as real)
  }

  predicate IsNumerator(n: int, r: real, unit: nat) { n as real == r * unit as real }

  predicate IsNearestInt(n: int, y: real) {
    -0.5 <= y - n as real <= 0.5 && (y - n as real == 0.5 || n as real - y == 0.5 ==> n % 2 == 0)
  }

  lemma RoundNearest(x: real, r: real)
    ensures r == Round2(x) <==> IsNearest(r, x, 100)
    ensures r == Round4(x) <==> IsNearest(r, x, 10000)
  {
    NearestUnique(x * 100.0);
    NearestUnique(x * 10000.0);
    assert r == Round2(x) <==> IsNumerator(RoundHalfEven(x * 100.0), r, 100);
    assert r == Round4(x) <==> IsNumerator(RoundHalfEven(x * 10000.0), r, 10000);
  }

  lemma NearestUnique(y: real)
    ensures forall n: int :: n == RoundHalfEven(y) <==> IsNearestInt(n, y)
  {
    var f := y.Floor;
    forall n: int | IsNearestInt(n, y) ensures n == RoundHalfEven(y) {
      assert n == f || n == f + 1;
    }
  }

  /** Whole numbers can be added before or after rounding. */
  lemma RoundShift(x: real, n: int)
    ensures Round2(x + n as real) == Round2(x) + n as real
  {
    var y := x * 100.0;
    assert (x + n as real) * 100.0 == y + (100 * n) as real;
    assert (y + (100 * n) as real).Floor == y.Floor + 100 * n;
  }
}
