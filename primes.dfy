/**
 * `isPrime` of index.js: trial division by every `i` from 2 while
 * `i <= Math.sqrt(n)`, which for integers is `i * i <= n`.
 */
module Primes {
  import opened Arith

  /** The mathematical definition: at least 2 and no divisor strictly between 1 and itself. */
  predicate Prime(n: int)
  {
    n >= 2 && forall d :: 2 <= d < n ==> n % d != 0
  }

  /** What the loop of `isPrime` checks: no divisor `i >= 2` with `i * i <= n`. */
  ghost predicate PassesTrialDivision(n: int)
  {
    n >= 2 && forall i :: 2 <= i && i * i <= n ==> n % i != 0
  }

  lemma SquareAbove(i: int)
    requires i >= 2
    ensures i < i * i
  {
    ProductMonotone(i, 2, i);
  }

  /**
   * If `n` has a divisor `d` in `[2, n - 1]`, it has one whose square is at
   * most `n`: `d` itself or its cofactor `n / d`.
   */
  lemma SmallDivisor(n: int, d: int) returns (e: int)
    requires 2 <= d < n && n % d == 0
    ensures 2 <= e && e * e <= n && n % e == 0
  {
    var q := n / d;
    assert n == d * q by {
      assert n == (n / d) * d + n % d;
    }
    ProductCancelLess(d, 1, q);
    if d * d <= n {
      e := d;
    } else {
      ProductCancelLess(d, q, d);
      ProductMonotone(q, q, d);
      RemainderOfMultiple(q, d);
      assert q * d == n;
      e := q;
    }
  }

  /** Stopping at the square root loses nothing: the loop's test is the definition. */
  lemma TrialDivisionSound(n: int)
    ensures PassesTrialDivision(n) <==> Prime(n)
  {
    if Prime(n) {
      forall i | 2 <= i && i * i <= n
        ensures n % i != 0
      {
        SquareAbove(i);
      }
    }
    if PassesTrialDivision(n) && !Prime(n) {
      var d :| 2 <= d < n && n % d == 0;
      var e := SmallDivisor(n, d);
      assert false;
    }
  }

  /** The loop of `isPrime`, with its early return on the first divisor found. */
  method IsPrime(n: int) returns (r: bool)
    ensures r <==> Prime(n)
    ensures r <==> PassesTrialDivision(n)
  {
    TrialDivisionSound(n);
    if n < 2 {
      return false;
    }
    var i := 2;
    while i * i <= n
      invariant 2 <= i
      invariant forall d :: 2 <= d < i ==> n % d != 0
      decreases n - i
    {
      SquareAbove(i);
      if n % i == 0 {
        return false;
      }
      i := i + 1;
    }
    forall j | 2 <= j && j * j <= n
      ensures n % j != 0
    {
      ProductMonotone(i, i, j);
      ProductMonotone(j, i, j);
    }
    return true;
  }
}
