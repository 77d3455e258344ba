/**
 * The sieve of Eratosthenes of millionaire_scan.py (`get_primes`): a boolean
 * array of length n, cleared in place, returned as a 0.0/1.0 prime indicator.
 */
module Sieve {
  import opened IntRoot
  import opened Results

  predicate Divides(d: int, k: int) {
    d != 0 && k % d == 0
  }

  predicate IsPrime(k: int) {
    k >= 2 && forall d :: 2 <= d < k ==> !Divides(d, k)
  }

  /**
   * The mark index k carries once the candidates 2 .. i-1 have been processed:
   * k >= 2 and no d in that range with d*d <= k divides k.
   */
  predicate Survives(k: int, i: int) {
    k >= 2 && forall d :: 2 <= d < i && d * d <= k ==> !Divides(d, k)
  }

  // ----- division facts -----

  /** Euclidean quotient and remainder are unique. */
  lemma DivModUnique(x: int, d: int, q: int, r: int)
    requires d > 0 && 0 <= r < d && x == d * q + r
    ensures x / d == q && x % d == r
  {
    var q', r' := x / d, x % d;
    assert d * (q - q') == r' - r;
    if q > q' {
      MulAtLeast(d, q - q');
    } else if q < q' {
      MulAtLeast(d, q' - q);
    }
  }

  lemma MulAtLeast(d: int, t: int)
    requires d > 0 && t >= 1
    ensures d * t >= d
  {
    assert d * t == d * (t - 1) + d;
  }

  lemma DividesMultiple(d: int, q: int)
    requires d > 0
    ensures Divides(d, d * q)
  {
    DivModUnique(d * q, d, q, 0);
  }

  lemma DividesTransitive(d: int, i: int, k: int)
    requires d > 0 && i > 0 && Divides(d, i) && Divides(i, k)
    ensures Divides(d, k)
  {
    var a, b := i / d, k / i;
    assert i == d * a;
    assert k == i * b;
    assert k == d * (a * b);
    DividesMultiple(d, a * b);
  }

  /** The next multiple of i after a multiple j is j + i. */
  lemma DividesNext(i: int, j: int)
    requires i > 0 && Divides(i, j)
    ensures Divides(i, j + i)
  {
    assert j == i * (j / i);
    DivModUnique(j + i, i, j / i + 1, 0);
  }

  /** No multiple of i lies strictly between two consecutive multiples. */
  lemma NoMultipleBetween(i: int, j: int, k: int)
    requires i > 0 && Divides(i, j) && Divides(i, k) && j <= k < j + i
    ensures k == j
  {
    var t := k / i - j / i;
    assert k - j == i * t;
    if t >= 1 { MulAtLeast(i, t); }
    if t <= -1 { MulAtLeast(i, -t); }
  }

  // ----- properties of the marking -----

  /** Processing candidate i clears exactly the multiples of i from i*i up. */
  lemma SurvivesStep(k: int, i: int)
    requires i >= 2
    ensures Survives(k, i + 1) == (Survives(k, i) && !(i * i <= k && Divides(i, k)))
  {
  }

  /** Every index the inner loop clears is composite: primes are never cleared. */
  lemma ClearedIsComposite(i: int, k: int)
    requires i >= 2 && i * i <= k && Divides(i, k)
    ensures !IsPrime(k)
  {
    assert i < i * i by { MulAtLeast(i, i); }
  }

  /**
   * Skipping a candidate i that is no longer marked loses nothing: its
   * multiples from i*i up were already cleared by a smaller divisor of i.
   */
  lemma SkipUnmarked(i: int, k: int)
    requires i >= 2 && !Survives(i, i)
    ensures Survives(k, i + 1) == Survives(k, i)
  {
    SurvivesStep(k, i);
    if Survives(k, i) && i * i <= k && Divides(i, k) {
      var d :| 2 <= d < i && d * d <= i && Divides(d, i);
      DividesTransitive(d, i, k);
      MulAtLeast(i, i);
      assert false;
    }
  }

  /** A prime has no divisor d >= 2 with d*d <= k, so it is never cleared. */
  lemma PrimeSurvives(k: int, i: int)
    requires IsPrime(k)
    ensures Survives(k, i)
  {
    forall d | 2 <= d < i && d * d <= k ensures !Divides(d, k) {
      MulAtLeast(d, d);
    }
  }

  /** A divisor of k and its cofactor cannot both have squares above k. */
  lemma SmallFactor(k: int, d: int)
    requires 2 <= d < k && Divides(d, k)
    ensures exists e :: 2 <= e && e * e <= k && Divides(e, k)
  {
    var e := k / d;
    assert k == d * e;
    assert e >= 2;
    if d * d > k {
      assert e < d by { if d <= e { MulLeft(d, d, e); } }
      assert e * e <= k by { MulLeft(e, e, d); }
      DividesMultiple(e, d);
      assert Divides(e, k);
    }
  }

  /** A mark that survives every candidate whose square is at most k is prime. */
  lemma SurvivorIsPrime(k: int, i: int)
    requires 2 <= i && 0 <= k < i * i && Survives(k, i)
    ensures IsPrime(k)
  {
    if !IsPrime(k) {
      var d :| 2 <= d < k && Divides(d, k);
      SmallFactor(k, d);
      var e :| 2 <= e && e * e <= k && Divides(e, k);
      SquareLessImpliesLess(e, i);
      assert false;
    }
  }

  /**
   * Once every candidate below i has been processed and i*i exceeds k, k is
   * still marked exactly when it is prime.
   */
  lemma SurvivesIffPrime(k: int, i: int)
    requires 2 <= i && 0 <= k < i * i
    ensures Survives(k, i) <==> IsPrime(k)
  {
    if IsPrime(k) { PrimeSurvives(k, i); }
    if Survives(k, i) { SurvivorIsPrime(k, i); }
  }

  /** Every composite k < n has a factor at most FloorSqrt(n), the outer bound. */
  lemma OuterBoundSuffices(n: nat, k: int)
    requires 2 <= k < n && !IsPrime(k)
    ensures exists d :: 2 <= d <= FloorSqrt(n) && Divides(d, k)
  {
    var s := FloorSqrt(n);
    assert s >= 1;
    SurvivesIffPrime(k, s + 1);
    var d :| 2 <= d < s + 1 && d * d <= k && Divides(d, k);
  }

  /** Every candidate 2 <= i <= FloorSqrt(n) is a valid index. */
  lemma CandidateInRange(i: int, s: nat, n: int)
    requires 2 <= i <= s && s * s <= n
    ensures i < n
  {
    SquareMonotone(i, s);
    MulAtLeast(i, i);
  }

  /**
   * The slice assignment `p[i*i::i] = False`: clears every multiple of i from
   * i*i to the end of the array and leaves every other entry as it was.
   */
  method ClearMultiples(p: array<bool>, i: int)
    requires i >= 2
    modifies p
    ensures forall k :: 0 <= k < p.Length ==> p[k] == (old(p[k]) && !(i * i <= k && Divides(i, k)))
  {
    var j := i * i;
    DividesMultiple(i, i);
    while j < p.Length
      invariant i * i <= j && Divides(i, j)
      invariant forall k :: 0 <= k < p.Length ==> p[k] == (old(p[k]) && !(i * i <= k < j && Divides(i, k)))
    {
      forall k | j < k < j + i && Divides(i, k) ensures false {
        NoMultipleBetween(i, j, k);
      }
      DividesNext(i, j);
      p[j] := false;
      j := j + i;
    }
  }

  /**
   * `get_primes(n)`: entry k of the result is 1.0 exactly when k is prime.
   * For n < 0 allocating the array raises.
   */
  method GetPrimes(n: int) returns (r: Result<seq<real>>)
    ensures r.Err? <==> n < 0
    ensures r.Ok? ==> |r.value| == n
    ensures r.Ok? ==> forall k :: 0 <= k < n ==> r.value[k] == if IsPrime(k) then 1.0 else 0.0
    ensures r.Ok? ==> forall k :: 0 <= k < n && k < 2 ==> r.value[k] == 0.0
  {
    if n < 0 {
      return Err("negative dimensions are not allowed");
    }
    var p := new bool[n](_ => true);
    if n > 0 { p[0] := false; }
    if n > 1 { p[1] := false; }
    var s := FloorSqrt(n);
    var i := 2;
    while i <= s
      invariant 2 <= i && (s >= 1 ==> i <= s + 1)
      invariant forall k :: 0 <= k < n ==> p[k] == Survives(k, i)
    {
      CandidateInRange(i, s, n);
      if p[i] {
        ClearMultiples(p, i);
        forall k | 0 <= k < n ensures p[k] == Survives(k, i + 1) {
          SurvivesStep(k, i);
        }
      } else {
        forall k | 0 <= k < n ensures p[k] == Survives(k, i + 1) {
          SkipUnmarked(i, k);
        }
      }
      i := i + 1;
    }
    forall k | 0 <= k < n ensures p[k] == IsPrime(k) {
      SurvivesIffPrime(k, i);
    }
    r := Ok(seq(n, k requires 0 <= k < n reads p => if p[k] then 1.0 else 0.0));
  }
}
