/**
 * The quadratic resonance score of diagdevice.py (`compute_spectral_coherence`):
 * the rounded square root of n, the distance of the root from it (the phase
 * offset), and the mean of one cosine term per reference frequency.
 *
 * The decimal square root enters as a parameter `root`, the exact non-negative
 * root of n; the cosine enters as a parameter `cos`, of which only cos(0) = 1
 * and the range [-1, 1] are used.
 */
module Coherence {
  import opened IntRoot

  /** The reference frequencies (imaginary parts of zeta zeros), in order. */
  const Gammas: seq<real> := [14.134725, 21.022040, 25.010857, 30.424876, 32.935061]

  lemma GammasShape()
    ensures |Gammas| == 5
    ensures forall i :: 0 <= i < |Gammas| ==> Gammas[i] > 0.0
    ensures forall i, j :: 0 <= i < j < |Gammas| ==> Gammas[i] < Gammas[j]
  {
  }

  function Abs(x: real): real {
    if x < 0.0 then -x else x
  }

  /**
   * `to_integral_value(rounding=ROUND_HALF_UP)`: the nearest integer, a tie
   * going away from zero.
   */
  function RoundHalfUp(x: real): (k: int)
    ensures x >= 0.0 ==> k as real - 0.5 <= x < k as real + 0.5
    ensures x < 0.0 ==> k as real - 0.5 < x <= k as real + 0.5
  {
    if x >= 0.0 then (x + 0.5).Floor else -((0.5 - x).Floor)
  }

  /** `abs(root - nearest_square_root)`: never more than one half. */
  function PhaseOffset(root: real): (offset: real)
    ensures 0.0 <= offset <= 0.5
  {
    Abs(root - RoundHalfUp(root) as real)
  }

  predicate IsSquareRoot(root: real, n: int) {
    root >= 0.0 && root * root == n as real
  }

  /**
   * What the code needs of the decimal root: non-negative, and its square
   * within a quarter of n. A 100-digit root is this close for every n below
   * about 10^98.
   */
  predicate IsCloseRoot(root: real, n: int) {
    root >= 0.0 && -0.25 < root * root - n as real < 0.25
  }

  /** k is the integer nearest to the square root of n. */
  predicate IsNearestRoot(n: int, k: int) {
    k >= 0 && n <= k * k + k && (k == 0 || k * k - k < n)
  }

  /** The nearest integer to the square root of n, computed on integers only. */
  function NearestRoot(n: nat): (k: nat)
    ensures IsNearestRoot(n, k)
  {
    var s := FloorSqrt(n);
    NearestFromFloor(n, s);
    if n > s * s + s then s + 1 else s
  }

  /** From the floor root s, the nearest root is s + 1 exactly past s*s + s. */
  lemma NearestFromFloor(n: nat, s: nat)
    requires s * s <= n < (s + 1) * (s + 1)
    ensures IsNearestRoot(n, if n > s * s + s then s + 1 else s)
  {
    assert (s + 1) * (s + 1) == s * s + 2 * s + 1;
    if n > s * s + s {
      assert (s + 1) * (s + 1) - (s + 1) == s * s + s;
    } else if s > 0 {
      assert s * s - s < s * s;
    }
  }

  /** For every n >= 0 exactly one k is nearest to its root: no tie is possible. */
  lemma NearestRootUnique(n: nat, k: int)
    requires IsNearestRoot(n, k)
    ensures k == NearestRoot(n)
  {
    var m := NearestRoot(n);
    if k < m {
      LargerRootTooFar(n, k, m);
    } else if m < k {
      LargerRootTooFar(n, m, k);
    }
  }

  /** Above a nearest root a, every b has b*b - b >= n, so b is not nearest. */
  lemma LargerRootTooFar(n: nat, a: nat, b: nat)
    requires a < b && IsNearestRoot(n, a)
    ensures b * b - b >= n
  {
    MulLeft(b - 1, a + 1, b);
    MulLeft(a + 1, a, b - 1);
    assert b * b - b == b * (b - 1);
    assert (a + 1) * a == a * a + a;
  }

  /** Rounding a close root half-up gives the integer nearest root. */
  lemma RoundedRootIsNearest(n: nat, root: real)
    requires IsCloseRoot(root, n)
    ensures RoundHalfUp(root) == NearestRoot(n)
  {
    var k := RoundHalfUp(root);
    assert k >= 0;
    var lo, hi := k as real - 0.5, k as real + 0.5;
    assert root * root < hi * hi by { RealSquareLess(root, hi); }
    assert hi * hi == (k * k + k) as real + 0.25;
    if k >= 1 {
      assert lo * lo <= root * root by { RealSquareLe(lo, root); }
      assert lo * lo == (k * k - k) as real + 0.25;
    }
    NearestRootUnique(n, k);
  }

  lemma RealSquareLess(a: real, b: real)
    requires 0.0 <= a < b
    ensures a * a < b * b
  {
    var d := b - a;
    assert b * b == a * a + 2.0 * a * d + d * d;
    assert a * d >= 0.0;
    assert d * d > 0.0;
  }

  lemma RealSquareLe(a: real, b: real)
    requires 0.0 <= a <= b
    ensures a * a <= b * b
  {
    if a < b { RealSquareLess(a, b); }
  }

  /** Just below a square k*k (k >= 2) the nearest root is still k. */
  lemma NearestRootBelowSquare(k: int)
    requires k >= 2
    ensures NearestRoot(k * k - 1) == k
  {
    NearestRootUnique(k * k - 1, k);
  }

  /** Sample 2, (10^35 + 7)(10^35 + 9) = (10^35 + 8)^2 - 1, rounds to 10^35 + 8. */
  lemma SampleTwoNearestRoot()
    ensures NearestRoot(100000000000000000000000000000000007 * 100000000000000000000000000000000009)
         == 100000000000000000000000000000000008
  {
    var k := 100000000000000000000000000000000008;
    assert 100000000000000000000000000000000007 * 100000000000000000000000000000000009 == k * k - 1;
    NearestRootBelowSquare(k);
  }

  /** The exact root of a perfect square is an integer, so its offset is 0. */
  lemma PerfectSquareHasZeroOffset(m: nat, root: real)
    requires IsSquareRoot(root, m * m)
    ensures RoundHalfUp(root) == m
    ensures PhaseOffset(root) == 0.0
  {
    var x := m as real;
    assert root * root == x * x;
    if root < x {
      RealSquareLess(root, x);
    } else if x < root {
      RealSquareLess(x, root);
    }
    assert root == x;
  }

  /** `sum(resonances)`: a left-to-right sum. */
  function Sum(s: seq<real>): real {
    if |s| == 0 then 0.0 else Sum(s[..|s| - 1]) + s[|s| - 1]
  }

  function Mean(s: seq<real>): real
    requires |s| > 0
  {
    Sum(s) / |s| as real
  }

  /** One term cos(gamma * offset) per reference frequency, in order. */
  function Resonances(gammas: seq<real>, offset: real, cos: real -> real): seq<real> {
    seq(|gammas|, i requires 0 <= i < |gammas| => cos(gammas[i] * offset))
  }

  /** What the code relies on of `math.cos`: cos(0) = 1 and every value in [-1, 1]. */
  ghost predicate CosineLike(cos: real -> real) {
    cos(0.0) == 1.0 && forall x :: -1.0 <= cos(x) <= 1.0
  }

  lemma {:induction false} SumBounded(s: seq<real>)
    requires forall i :: 0 <= i < |s| ==> -1.0 <= s[i] <= 1.0
    ensures -(|s| as real) <= Sum(s) <= |s| as real
  {
    if |s| > 0 {
      SumBounded(s[..|s| - 1]);
    }
  }

  lemma {:induction false} SumOfConstant(s: seq<real>, c: real)
    requires forall i :: 0 <= i < |s| ==> s[i] == c
    ensures Sum(s) == |s| as real * c
  {
    if |s| > 0 {
      SumOfConstant(s[..|s| - 1], c);
    }
  }

  /** A mean of terms in [-1, 1] lies in [-1, 1]. */
  lemma MeanBounded(s: seq<real>)
    requires |s| > 0
    requires forall i :: 0 <= i < |s| ==> -1.0 <= s[i] <= 1.0
    ensures -1.0 <= Mean(s) <= 1.0
  {
    SumBounded(s);
    RatioBounded(Sum(s), |s| as real);
  }

  lemma RatioBounded(x: real, len: real)
    requires len > 0.0 && -len <= x <= len
    ensures -1.0 <= x / len <= 1.0
  {
    var q := x / len;
    assert x == q * len;
    assert (q - 1.0) * len <= 0.0 && (q + 1.0) * len >= 0.0;
  }

  /**
   * The score the source computes: 0.0 when the square root raises (n < 0),
   * otherwise the mean of the resonance terms at the phase offset of `root`.
   */
  function CoherenceScore(n: int, root: real, cos: real -> real): real {
    if n < 0 then 0.0 else Mean(Resonances(Gammas, PhaseOffset(root), cos))
  }

  /** The score lies in [-1, 1]; the documented range [0, 1] is not implied. */
  lemma ScoreBounded(n: int, root: real, cos: real -> real)
    requires CosineLike(cos)
    ensures -1.0 <= CoherenceScore(n, root, cos) <= 1.0
  {
    if n >= 0 {
      MeanBounded(Resonances(Gammas, PhaseOffset(root), cos));
    }
  }

  /** A perfect square m*m, 0 and 1 included, scores exactly 1.0. */
  lemma PerfectSquareScoresOne(m: nat, root: real, cos: real -> real)
    requires IsSquareRoot(root, m * m) && CosineLike(cos)
    ensures CoherenceScore(m * m, root, cos) == 1.0
  {
    PerfectSquareHasZeroOffset(m, root);
    var terms := Resonances(Gammas, 0.0, cos);
    assert forall i :: 0 <= i < |terms| ==> terms[i] == cos(0.0);
    SumOfConstant(terms, 1.0);
  }

  /**
   * The documented range [0, 1] does not follow from what the code uses of
   * the cosine: n = 2 with root 1.4 has offset 0.4, and a cosine that is -1
   * away from 0 gives the score -1.
   */
  lemma DocumentedRangeNotImplied()
    ensures var cos := (x: real) => if x == 0.0 then 1.0 else -1.0;
      CosineLike(cos) && IsCloseRoot(1.4, 2) && CoherenceScore(2, 1.4, cos) == -1.0
  {
    var cos := (x: real) => if x == 0.0 then 1.0 else -1.0;
    assert PhaseOffset(1.4) == 0.4;
    var terms := Resonances(Gammas, 0.4, cos);
    assert forall i :: 0 <= i < |terms| ==> terms[i] == -1.0;
    SumOfConstant(terms, -1.0);
  }

  /**
   * `compute_spectral_coherence(n)`. A negative n makes the decimal square root
   * raise; the exception is caught and 0.0 returned. Otherwise the root is
   * rounded half-up, and the mean of cos(gamma * offset) over Gammas returned.
   */
  method ComputeSpectralCoherence(n: int, root: real, cos: real -> real) returns (score: real)
    requires n >= 0 ==> IsCloseRoot(root, n)
    requires CosineLike(cos)
    ensures score == CoherenceScore(n, root, cos)
    ensures n < 0 ==> score == 0.0
    ensures n >= 0 ==> score == Mean(Resonances(Gammas, Abs(root - NearestRoot(n) as real), cos))
    ensures -1.0 <= score <= 1.0
    ensures n >= 0 && IsPerfectSquare(n) && IsSquareRoot(root, n) ==> score == 1.0
  {
    if n < 0 {
      return 0.0;
    }
    var nearestSquareRoot := RoundHalfUp(root);
    var phaseOffset := Abs(root - nearestSquareRoot as real);
    var resonances: seq<real> := [];
    for i := 0 to |Gammas|
      invariant |resonances| == i
      invariant forall j :: 0 <= j < i ==> resonances[j] == cos(Gammas[j] * phaseOffset)
    {
      resonances := resonances + [cos(Gammas[i] * phaseOffset)];
    }
    score := Sum(resonances) / |resonances| as real;

    assert resonances == Resonances(Gammas, PhaseOffset(root), cos);
    RoundedRootIsNearest(n, root);
    ScoreBounded(n, root, cos);
    if IsPerfectSquare(n) && IsSquareRoot(root, n) {
      var m := FloorSqrt(n);
      PerfectSquareScoresOne(m, root, cos);
    }
  }
}
