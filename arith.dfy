/**
 * Integer arithmetic of the math kernel in index.js: JavaScript's `%`
 * operator on integers, Euclid's `gcd` and the two-argument `lcm`.
 *
 * JavaScript numbers are modelled as unbounded integers plus NaN; the
 * loss of precision above 2^53 is not modelled.
 */
module Arith {

  function Abs(x: int): nat
  {
    if x < 0 then -x else x
  }

  /** `d` divides `n`: sign-agnostic, and 0 divides only 0. */
  ghost predicate Divides(d: int, n: int)
  {
    exists k :: n == d * k
  }

  /** JavaScript's integer quotient, truncated toward zero. */
  function JsQuot(a: int, b: int): int
    requires b != 0
  {
    if a >= 0 then a / b else -((-a) / b)
  }

  /**
   * JavaScript's `a % b` on integers: the remainder of the division that
   * truncates toward zero, so it takes the sign of the dividend (unlike
   * Dafny's `%`, which is never negative).
   */
  function JsRem(a: int, b: int): (r: int)
    requires b != 0
    ensures Abs(r) < Abs(b)
    ensures a >= 0 ==> r >= 0
    ensures a <= 0 ==> r <= 0
    ensures a == JsQuot(a, b) * b + r
  {
    if a >= 0 then a % b else -((-a) % b)
  }

  lemma DividesZero(d: int)
    ensures Divides(d, 0)
  {
    assert 0 == d * 0;
  }

  lemma DividesSelf(d: int)
    ensures Divides(d, d)
  {
    assert d == d * 1;
  }

  lemma DividesMultiple(d: int, k: int)
    ensures Divides(d, d * k)
  {
  }

  /** A common divisor of `x` and `y` divides `x + q * y`. */
  lemma DividesLinear(d: int, x: int, y: int, q: int)
    requires Divides(d, x) && Divides(d, y)
    ensures Divides(d, x + q * y)
  {
    var kx :| x == d * kx;
    var ky :| y == d * ky;
    calc {
      x + q * y;
      d * kx + q * (d * ky);
      { assert q * (d * ky) == d * (q * ky); }
      d * kx + d * (q * ky);
      d * (kx + q * ky);
    }
  }

  lemma DividesTransitive(a: int, b: int, c: int)
    requires Divides(a, b) && Divides(b, c)
    ensures Divides(a, c)
  {
    var k :| b == a * k;
    var j :| c == b * j;
    assert c == a * (k * j);
  }

  lemma AbsProduct(x: int, y: int)
    ensures Abs(x * y) == Abs(x) * Abs(y)
  {
    if x < 0 && y < 0 {
      assert x * y == (-x) * (-y);
    } else if x < 0 {
      assert x * y == -((-x) * y);
    } else if y < 0 {
      assert x * y == -(x * (-y));
    }
  }

  lemma ProductAtLeast(a: nat, b: nat)
    ensures b >= 1 ==> a * b >= a
  {
    if b >= 1 {
      assert a * b == a * (b - 1) + a;
    }
  }

  lemma ProductMonotone(d: int, x: int, y: int)
    ensures d >= 0 && x <= y ==> d * x <= d * y
  {
    if d >= 0 && x <= y {
      assert d * y == d * x + d * (y - x);
    }
  }

  /** A positive factor can be cancelled from a strict inequality. */
  lemma ProductCancelLess(d: int, x: int, y: int)
    requires d > 0 && d * x < d * y
    ensures x < y
  {
    ProductMonotone(d, y, x);
  }

  lemma RemainderOfMultiple(d: int, k: int)
    requires d != 0
    ensures (d * k) % d == 0
  {
    ExactQuotient(d, k);
    assert d * k == ((d * k) / d) * d + (d * k) % d;
  }

  /** Mutual divisibility fixes a number up to its sign. */
  lemma MutualDivisors(x: int, y: int)
    requires Divides(x, y) && Divides(y, x)
    ensures Abs(x) == Abs(y)
  {
    var k :| y == x * k;
    var j :| x == y * j;
    if x != 0 {
      assert x * (k * j) == x * 1;
      assert k * j == 1;
      AbsProduct(k, j);
      ProductAtLeast(Abs(k), Abs(j));
      ProductAtLeast(Abs(j), Abs(k));
      assert Abs(k) == 1;
      AbsProduct(x, k);
    }
  }

  /**
   * Euclid's algorithm exactly as `gcd` in index.js: with JavaScript's
   * remainder it is defined for every pair of integers, and it terminates
   * because the magnitude of the second argument strictly decreases.
   */
  function Gcd(a: int, b: int): (g: int)
    ensures Divides(g, a) && Divides(g, b)
    ensures b == 0 ==> g == a
    ensures g == 0 <==> a == 0 && b == 0
    ensures a >= 0 && b >= 0 ==> g >= 0
    decreases Abs(b)
  {
    if b == 0 then
      DividesSelf(a);
      DividesZero(a);
      a
    else
      var r := JsRem(a, b);
      var g := Gcd(b, r);
      DividesLinear(g, r, b, JsQuot(a, b));
      assert a == r + JsQuot(a, b) * b;
      g
  }

  /** The result of `Gcd` is the greatest common divisor: every common divisor divides it. */
  lemma {:induction false} GcdGreatest(a: int, b: int, d: int)
    requires Divides(d, a) && Divides(d, b)
    ensures Divides(d, Gcd(a, b))
    decreases Abs(b)
  {
    if b != 0 {
      var q := JsQuot(a, b);
      DividesLinear(d, a, b, -q);
      assert JsRem(a, b) == a + (-q) * b;
      GcdGreatest(b, JsRem(a, b), d);
    }
  }

  /** Bezout's identity for `Gcd`, by following its recursion. */
  lemma {:induction false} Bezout(a: int, b: int) returns (x: int, y: int)
    ensures Gcd(a, b) == a * x + b * y
    decreases Abs(b)
  {
    if b == 0 {
      x, y := 1, 0;
    } else {
      var q, r := JsQuot(a, b), JsRem(a, b);
      var x', y' := Bezout(b, r);
      BezoutStep(a, b, q, r, x', y');
      x, y := y', x' - q * y';
    }
  }

  lemma BezoutStep(a: int, b: int, q: int, r: int, x: int, y: int)
    requires a == q * b + r
    ensures b * x + r * y == a * y + b * (x - q * y)
  {
    assert r * y == a * y - q * b * y;
  }

  /** A JavaScript number: an integer, or NaN (produced by `0 / 0`). */
  datatype Num = Fin(v: int) | NaN

  /**
   * `lcm` of index.js on two integers: `(a * b) / gcd(a, b)`, which is
   * `0 / 0`, that is NaN, when both are zero; otherwise the division is exact.
   */
  function Lcm(a: int, b: int): (r: Num)
    ensures r.NaN? <==> a == 0 && b == 0
    ensures r.Fin? ==> Divides(a, r.v) && Divides(b, r.v)
    ensures r.Fin? ==> (r.v == 0 <==> a == 0 || b == 0)
  {
    if a == 0 && b == 0 then NaN
    else
      LcmQuotient(a, b);
      Fin((a * b) / Gcd(a, b))
  }

  /** The quotient in `Lcm` is exact and is a common multiple of the operands. */
  lemma LcmQuotient(a: int, b: int)
    requires !(a == 0 && b == 0)
    ensures Divides(a, (a * b) / Gcd(a, b)) && Divides(b, (a * b) / Gcd(a, b))
    ensures (a * b) / Gcd(a, b) == 0 <==> a == 0 || b == 0
    ensures (a * b) / Gcd(a, b) * Gcd(a, b) == a * b
  {
    var g := Gcd(a, b);
    var ka, kb := Cofactors(a, b);
    var l := (a * b) / g;
    assert l == a * kb && l == ka * b;
    DividesMultiple(a, kb);
    assert Divides(b, b * ka) by { DividesMultiple(b, ka); }
    AbsProduct(a, kb);
    AbsProduct(ka, b);
    if a != 0 && b != 0 {
      assert kb != 0;
      ProductAtLeast(Abs(a), Abs(kb));
    }
  }

  /** The cofactors of `a` and `b` with respect to their gcd. */
  lemma Cofactors(a: int, b: int) returns (ka: int, kb: int)
    requires !(a == 0 && b == 0)
    ensures a == Gcd(a, b) * ka && b == Gcd(a, b) * kb
    ensures (a * b) / Gcd(a, b) == a * kb == ka * b
    ensures (a * b) / Gcd(a, b) * Gcd(a, b) == a * b
  {
    var g := Gcd(a, b);
    ka :| a == g * ka;
    kb :| b == g * kb;
    CofactorAlgebra(a, b, g, ka, kb);
  }

  lemma CofactorAlgebra(a: int, b: int, g: int, ka: int, kb: int)
    requires g != 0 && a == g * ka && b == g * kb
    ensures (a * b) / g == a * kb == ka * b
    ensures (a * b) / g * g == a * b
  {
    assert a * b == g * (a * kb) by {
      assert a * b == a * (g * kb);
    }
    assert a * kb == ka * b by {
      assert a * kb == (g * ka) * kb;
      assert ka * b == ka * (g * kb);
    }
    ExactQuotient(g, a * kb);
  }

  lemma ExactQuotient(g: int, k: int)
    requires g != 0
    ensures (g * k) / g == k
  {
    var q, m := (g * k) / g, (g * k) % g;
    assert g * k == q * g + m;
    assert g * (k - q) == m;
    AbsProduct(g, k - q);
    ProductAtLeast(Abs(g), Abs(k - q));
  }

  lemma CancelFactor(m: int, n: int, g: int)
    requires g != 0 && m * g == n * g
    ensures m == n
  {
    assert (m - n) * g == 0;
    AbsProduct(m - n, g);
    ProductAtLeast(Abs(g), Abs(m - n));
  }

  /** The result of `Lcm` is the least common multiple: it divides every common multiple. */
  lemma LcmLeast(a: int, b: int, m: int)
    requires !(a == 0 && b == 0)
    requires Divides(a, m) && Divides(b, m)
    ensures Divides(Lcm(a, b).v, m)
  {
    var g := Gcd(a, b);
    var ka, kb := Cofactors(a, b);
    var l := (a * b) / g;
    var x, y := Bezout(a, b);
    var s :| m == a * s;
    var t :| m == b * t;
    var c := t * x + s * y;
    MultipleTimesGcd(a, b, g, l, m, s, t, x, y);
    CancelFactor(m, l * c, g);
    DividesMultiple(l, c);
  }

  /** The algebra behind `LcmLeast`: `m * g == l * c * g` when `g` is a Bezout combination. */
  lemma MultipleTimesGcd(a: int, b: int, g: int, l: int, m: int, s: int, t: int, x: int, y: int)
    requires g == a * x + b * y && l * g == a * b
    requires m == a * s && m == b * t
    ensures m * g == (l * (t * x + s * y)) * g
  {
    calc {
      m * g;
      m * (a * x) + m * (b * y);
      { assert m * (a * x) == (b * t) * (a * x) == (a * b) * (t * x);
        assert m * (b * y) == (a * s) * (b * y) == (a * b) * (s * y); }
      (a * b) * (t * x) + (a * b) * (s * y);
      (a * b) * (t * x + s * y);
      (l * g) * (t * x + s * y);
      (l * (t * x + s * y)) * g;
    }
  }
}
