/**
 * Exact integer square roots. The source bounds its loops with floating-point
 * square roots truncated to integers (`int(n**0.5)`, `int(np.sqrt(n-1))`); this
 * module gives the exact value they approximate.
 */
module IntRoot {

  function Square(i: nat): nat { i * i }

  /** Squaring is monotone on the naturals. */
  lemma SquareMonotone(a: nat, b: nat)
    requires a <= b
    ensures a * a <= b * b
  {
    assert a * a <= a * b by { MulLeft(a, a, b); }
    assert a * b <= b * b by { MulLeft(b, a, b); }
  }

  lemma MulLeft(c: nat, a: nat, b: nat)
    requires a <= b
    ensures c * a <= c * b
  {
    assert c * b == c * a + c * (b - a);
  }

  /** A strictly larger square belongs to a strictly larger root. */
  lemma SquareLessImpliesLess(a: nat, b: nat)
    requires a * a < b * b
    ensures a < b
  {
    if b <= a { SquareMonotone(b, a); }
  }

  /**
   * The largest r with r*r <= n, computed from the root of n/4 so that the
   * recursion is logarithmic in n.
   */
  function FloorSqrt(n: nat): (r: nat)
    ensures r * r <= n < (r + 1) * (r + 1)
  {
    if n < 2 then n
    else
      var h := 2 * FloorSqrt(n / 4);
      DoubleRootBounds(n, FloorSqrt(n / 4));
      if (h + 1) * (h + 1) <= n then h + 1 else h
  }

  /** Doubling the root of n/4 gives a root of n that is at most one too small. */
  lemma DoubleRootBounds(n: nat, h0: nat)
    requires h0 * h0 <= n / 4 < (h0 + 1) * (h0 + 1)
    ensures (2 * h0) * (2 * h0) <= n < (2 * h0 + 2) * (2 * h0 + 2)
  {
    var q := n / 4;
    assert n == 4 * q + n % 4;
    assert (2 * h0) * (2 * h0) == 4 * (h0 * h0);
    assert (2 * h0 + 2) * (2 * h0 + 2) == 4 * ((h0 + 1) * (h0 + 1));
  }

  /** FloorSqrt is the only natural r with r*r <= n < (r+1)*(r+1). */
  lemma FloorSqrtUnique(n: nat, r: nat)
    requires r * r <= n < (r + 1) * (r + 1)
    ensures FloorSqrt(n) == r
  {
    var s := FloorSqrt(n);
    if s < r {
      SquareMonotone(s + 1, r);
    } else if r < s {
      SquareMonotone(r + 1, s);
    }
  }

  /** Every i whose square is at most n is at most FloorSqrt(n). */
  lemma FloorSqrtIsLargest(n: nat, i: nat)
    requires Square(i) <= n
    ensures i <= FloorSqrt(n)
  {
    var s := FloorSqrt(n);
    if s < i { SquareMonotone(s + 1, i); }
  }

  lemma FloorSqrtMonotone(m: nat, n: nat)
    requires m <= n
    ensures FloorSqrt(m) <= FloorSqrt(n)
  {
    FloorSqrtIsLargest(n, FloorSqrt(m));
  }

  /** n is a perfect square (0 included) exactly when its floor root squares back to it. */
  predicate IsPerfectSquare(n: nat) {
    FloorSqrt(n) * FloorSqrt(n) == n
  }

  lemma SquareIsPerfect(r: nat)
    ensures FloorSqrt(r * r) == r
    ensures IsPerfectSquare(r * r)
  {
    SquareMonotone(r, r + 1);
    FloorSqrtUnique(r * r, r);
  }

  /** IsPerfectSquare agrees with the existential definition. */
  lemma PerfectSquareIff(n: nat)
    ensures IsPerfectSquare(n) <==> exists r: nat :: Square(r) == n
  {
    if exists r: nat :: Square(r) == n {
      var r: nat :| Square(r) == n;
      SquareIsPerfect(r);
    }
    if IsPerfectSquare(n) {
      assert Square(FloorSqrt(n)) == n;
    }
  }
}
