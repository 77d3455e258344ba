/**
 * The perfect-square field of jinx_square.py (`get_squares`): a zeroed array
 * of length n with 1.0 written at every nonzero perfect square below n.
 */
module SquareField {
  import opened IntRoot
  import opened Results

  predicate IsPositiveSquare(j: nat) {
    j >= 1 && IsPerfectSquare(j)
  }

  /**
   * The loop bound `int(np.sqrt(n-1))`, taken exactly: the largest i whose
   * square is at most n-1.
   */
  function Limit(n: int): (limit: nat)
    requires n >= 1
    ensures Square(limit) <= n - 1 < Square(limit + 1)
    ensures forall i: nat :: Square(i) <= n - 1 ==> i <= limit
  {
    var s := FloorSqrt(n - 1);
    assert forall i: nat :: Square(i) <= n - 1 ==> i <= s by {
      forall i: nat | Square(i) <= n - 1 ensures i <= s {
        FloorSqrtIsLargest(n - 1, i);
      }
    }
    s
  }

  /** Number of entries equal to 1.0. */
  function CountOnes(s: seq<real>): nat {
    if |s| == 0 then 0
    else CountOnes(s[..|s| - 1]) + (if s[|s| - 1] == 1.0 then 1 else 0)
  }

  /** Walking from m-1 to m, the floor root grows by one exactly at a square. */
  lemma FloorSqrtStep(m: nat)
    requires m >= 1
    ensures FloorSqrt(m) == FloorSqrt(m - 1) + (if IsPositiveSquare(m) then 1 else 0)
  {
    var r := FloorSqrt(m - 1);
    if (r + 1) * (r + 1) == m {
      SquareMonotone(r + 1, r + 2);
      FloorSqrtUnique(m, r + 1);
    } else {
      FloorSqrtUnique(m, r);
    }
  }

  /**
   * A square field of length m >= 1 holds FloorSqrt(m-1) ones: distinct roots
   * give distinct squares.
   */
  lemma {:induction false} CountOfSquareField(s: seq<real>)
    requires |s| >= 1
    requires forall j :: 0 <= j < |s| ==> s[j] == if IsPositiveSquare(j) then 1.0 else 0.0
    ensures CountOnes(s) == FloorSqrt(|s| - 1)
  {
    if |s| > 1 {
      var t := s[..|s| - 1];
      CountOfSquareField(t);
      FloorSqrtStep(|s| - 1);
    }
  }

  /** Every write `field[i*i]` of the loop is in bounds. */
  lemma WriteInBounds(n: int, i: nat)
    requires n >= 1 && i <= Limit(n)
    ensures 0 <= i * i < n
  {
    var limit := Limit(n);
    SquareMonotone(i, limit);
    assert Square(limit) == limit * limit;
  }

  /** Writing 1.0 at i*i marks the one positive square whose root is i. */
  lemma MarkStep(j: nat, i: nat)
    requires i >= 1
    ensures (IsPositiveSquare(j) && FloorSqrt(j) < i + 1) == (j == i * i || (IsPositiveSquare(j) && FloorSqrt(j) < i))
  {
    SquareIsPerfect(i);
  }

  /**
   * When the loop ends, every positive square below n has its root at most
   * the limit, so the field marks all of them and holds `limit` ones.
   */
  lemma FinishedField(f: seq<real>, n: int)
    requires n >= 1 && |f| == n
    requires forall j :: 0 <= j < n ==> f[j] == if IsPositiveSquare(j) && FloorSqrt(j) < Limit(n) + 1 then 1.0 else 0.0
    ensures forall j :: 0 <= j < n ==> f[j] == if IsPositiveSquare(j) then 1.0 else 0.0
    ensures forall i: nat :: 1 <= i && Square(i) < n ==> f[Square(i)] == 1.0
    ensures f[0] == 0.0
    ensures CountOnes(f) == Limit(n)
  {
    forall j | 0 <= j < n ensures f[j] == if IsPositiveSquare(j) then 1.0 else 0.0 {
      FloorSqrtMonotone(j, n - 1);
    }
    forall i: nat | 1 <= i && Square(i) < n ensures f[Square(i)] == 1.0 {
      SquareIsPerfect(i);
    }
    CountOfSquareField(f);
  }

  /**
   * `get_squares(n)`: entry j is 1.0 exactly when j = i*i for some i >= 1,
   * and the field holds Limit(n) ones. For n < 1 the call raises: allocating
   * a negative-length array fails, and for n = 0 the square root of -1 is NaN,
   * which `int` rejects.
   */
  method GetSquares(n: int) returns (r: Result<seq<real>>)
    ensures r.Err? <==> n < 1
    ensures r.Ok? ==> |r.value| == n
    ensures r.Ok? ==> forall j :: 0 <= j < n ==> r.value[j] == if IsPositiveSquare(j) then 1.0 else 0.0
    ensures r.Ok? ==> forall i: nat :: 1 <= i && Square(i) < n ==> r.value[Square(i)] == 1.0
    ensures r.Ok? ==> r.value[0] == 0.0
    ensures r.Ok? ==> CountOnes(r.value) == Limit(n)
  {
    if n < 0 {
      return Err("negative dimensions are not allowed");
    }
    var field := new real[n](_ => 0.0);
    if n == 0 {
      return Err("cannot convert float NaN to integer");
    }
    var limit := Limit(n);
    var i := 1;
    while i <= limit
      invariant 1 <= i <= limit + 1
      invariant forall j :: 0 <= j < n ==> field[j] == if IsPositiveSquare(j) && FloorSqrt(j) < i then 1.0 else 0.0
    {
      WriteInBounds(n, i);
      field[i * i] := 1.0;
      forall j | 0 <= j < n ensures field[j] == if IsPositiveSquare(j) && FloorSqrt(j) < i + 1 then 1.0 else 0.0 {
        MarkStep(j, i);
      }
      i := i + 1;
    }
    FinishedField(field[..], n);
    r := Ok(field[..]);
  }

  /** The field of length 17 marks exactly 1, 4, 9 and 16. */
  lemma FieldOfSeventeen()
    ensures forall j :: 0 <= j < 17 ==> (IsPositiveSquare(j) <==> j in {1, 4, 9, 16})
    ensures Limit(17) == 4
  {
    forall j | 0 <= j < 17 ensures IsPositiveSquare(j) <==> j in {1, 4, 9, 16} {
      var r := if j < 1 then 0 else if j < 4 then 1 else if j < 9 then 2 else if j < 16 then 3 else 4;
      FloorSqrtUnique(j, r);
    }
    FloorSqrtUnique(16, 4);
  }
}
