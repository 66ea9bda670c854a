/**
 * The lcm and hcf branches of the `/bfhl` handler in index.js reduce the
 * input array with `reduce` and no seed: the first element is the initial
 * accumulator and each later element is combined into it, left to right.
 */
module Folds {
  import opened Arith

  /** `xs.reduce((acc, n) => gcd(acc, n))` on a non-empty array of integers. */
  function Hcf(xs: seq<int>): (g: int)
    requires |xs| > 0
    ensures forall k :: 0 <= k < |xs| ==> Divides(g, xs[k])
    ensures g == 0 <==> forall k :: 0 <= k < |xs| ==> xs[k] == 0
    decreases |xs|
  {
    if |xs| == 1 then
      DividesSelf(xs[0]);
      xs[0]
    else
      var init, last := xs[..|xs| - 1], xs[|xs| - 1];
      var h := Hcf(init);
      var g := Gcd(h, last);
      assert forall k :: 0 <= k < |xs| ==> Divides(g, xs[k]) by {
        forall k | 0 <= k < |xs| - 1
          ensures Divides(g, xs[k])
        {
          assert xs[k] == init[k];
          DividesTransitive(g, h, init[k]);
        }
      }
      assert (forall k :: 0 <= k < |xs| ==> xs[k] == 0) <==> (forall k :: 0 <= k < |init| ==> init[k] == 0) && last == 0 by {
        assert forall k :: 0 <= k < |init| ==> init[k] == xs[k];
      }
      g
  }

  /** Every common divisor of the array divides `Hcf`: it is the greatest one. */
  lemma {:induction false} HcfGreatest(xs: seq<int>, d: int)
    requires |xs| > 0
    requires forall k :: 0 <= k < |xs| ==> Divides(d, xs[k])
    ensures Divides(d, Hcf(xs))
    decreases |xs|
  {
    if |xs| > 1 {
      var init := xs[..|xs| - 1];
      assert forall k :: 0 <= k < |init| ==> init[k] == xs[k];
      HcfGreatest(init, d);
      GcdGreatest(Hcf(init), xs[|xs| - 1], d);
    }
  }

  /**
   * Reordering the array does not change the magnitude of `Hcf`; on
   * non-negative inputs, where `Hcf` is non-negative, it does not change it at all.
   */
  lemma HcfOrderIrrelevant(xs: seq<int>, ys: seq<int>)
    requires |xs| > 0 && multiset(xs) == multiset(ys)
    ensures |ys| > 0
    ensures Abs(Hcf(xs)) == Abs(Hcf(ys))
  {
    assert |ys| > 0 by {
      assert |multiset(ys)| == |multiset(xs)| == |xs|;
    }
    CommonDivisorsAgree(xs, ys);
    CommonDivisorsAgree(ys, xs);
    MutualDivisors(Hcf(xs), Hcf(ys));
  }

  lemma CommonDivisorsAgree(xs: seq<int>, ys: seq<int>)
    requires |xs| > 0 && |ys| > 0 && multiset(xs) == multiset(ys)
    ensures Divides(Hcf(xs), Hcf(ys))
  {
    forall k | 0 <= k < |ys|
      ensures Divides(Hcf(xs), ys[k])
    {
      assert ys[k] in multiset(xs);
      var j :| 0 <= j < |xs| && xs[j] == ys[k];
    }
    HcfGreatest(ys, Hcf(xs));
  }

  /** On negative inputs the sign of `Hcf` can depend on the order: [4, -4] gives -4, [-4, 4] gives 4. */
  lemma HcfSignDependsOnOrder()
    ensures Hcf([4, -4]) == -4 && Hcf([-4, 4]) == 4
  {
    assert [4, -4][..1] == [4];
    assert [-4, 4][..1] == [-4];
    assert Gcd(4, -4) == -4 by {
      assert JsRem(4, -4) == 0;
    }
    assert Gcd(-4, 4) == 4 by {
      assert JsRem(-4, 4) == 0;
    }
  }

  /**
   * With zeros, the order of the array decides the lcm reduction's outcome:
   * [0, 0, 5] reaches NaN and then throws at 5, while [5, 0, 0] reaches 0
   * and then NaN.
   */
  lemma LcmOutcomeDependsOnOrder()
    ensures LcmAll([0, 0, 5]) == Overflow && LcmAll([5, 0, 0]) == Done(NaN)
  {
    assert [0, 0, 5][..2] == [0, 0] && [0, 0][..1] == [0];
    assert LcmAll([0, 0]) == Done(NaN);
    assert [5, 0, 0][..2] == [5, 0] && [5, 0][..1] == [5];
    assert Lcm(5, 0) == Fin(0);
    assert LcmAll([5, 0]) == Done(Fin(0));
  }

  lemma {:induction false} HcfNonNegative(xs: seq<int>)
    requires |xs| > 0
    requires forall k :: 0 <= k < |xs| ==> xs[k] >= 0
    ensures Hcf(xs) >= 0
    decreases |xs|
  {
    if |xs| > 1 {
      HcfNonNegative(xs[..|xs| - 1]);
    }
  }

  /**
   * The outcome of the lcm reduction: a number (an integer or NaN), or the
   * RangeError that `gcd` throws when its recursion never ends.
   */
  datatype LcmOutcome = Done(n: Num) | Overflow

  /**
   * One step `lcm(acc, x)` of the reduction. From an integer accumulator it
   * is `Lcm`. From NaN it is `(NaN * x) / gcd(NaN, x)`: with `x == 0`,
   * `gcd(NaN, 0)` returns NaN and so does the division; otherwise `gcd`
   * recurses on NaN remainders, never meets `b === 0`, and the call stack
   * overflows.
   */
  function LcmStep(acc: Num, x: int): LcmOutcome
  {
    match acc
    case Fin(a) => Done(Lcm(a, x))
    case NaN => if x == 0 then Done(NaN) else Overflow
  }

  /** `xs.reduce((acc, n) => lcm(acc, n))` on a non-empty array of integers. */
  function LcmAll(xs: seq<int>): (r: LcmOutcome)
    requires |xs| > 0
    ensures (forall k :: 0 <= k < |xs| ==> xs[k] != 0) ==>
              r.Done? && r.n.Fin? && r.n.v != 0 && forall k :: 0 <= k < |xs| ==> Divides(xs[k], r.n.v)
    decreases |xs|
  {
    if |xs| == 1 then
      DividesSelf(xs[0]);
      Done(Fin(xs[0]))
    else
      var init, last := xs[..|xs| - 1], xs[|xs| - 1];
      match LcmAll(init)
      case Overflow => Overflow
      case Done(acc) =>
        var r := LcmStep(acc, last);
        assert (forall k :: 0 <= k < |xs| ==> xs[k] != 0) ==> forall k :: 0 <= k < |xs| ==> Divides(xs[k], r.n.v) by {
          if forall k :: 0 <= k < |xs| ==> xs[k] != 0 {
            assert forall k :: 0 <= k < |init| ==> init[k] == xs[k] && init[k] != 0;
            forall k | 0 <= k < |xs| - 1
              ensures Divides(xs[k], r.n.v)
            {
              DividesTransitive(init[k], acc.v, r.n.v);
            }
          }
        }
        r
  }

  /** Without zeros, the reduction's value divides every common multiple: it is the least one. */
  lemma {:induction false} LcmAllLeast(xs: seq<int>, m: int)
    requires |xs| > 0
    requires forall k :: 0 <= k < |xs| ==> xs[k] != 0
    requires forall k :: 0 <= k < |xs| ==> Divides(xs[k], m)
    ensures Divides(LcmAll(xs).n.v, m)
    decreases |xs|
  {
    if |xs| > 1 {
      var init := xs[..|xs| - 1];
      assert forall k :: 0 <= k < |init| ==> init[k] == xs[k];
      LcmAllLeast(init, m);
      LcmLeast(LcmAll(init).n.v, xs[|xs| - 1], m);
    }
  }

  /**
   * Reordering a zero-free array does not change the magnitude of the
   * reduction's value.
   */
  lemma LcmOrderIrrelevant(xs: seq<int>, ys: seq<int>)
    requires |xs| > 0 && multiset(xs) == multiset(ys)
    requires forall k :: 0 <= k < |xs| ==> xs[k] != 0
    ensures |ys| > 0 && LcmAll(ys).Done? && LcmAll(ys).n.Fin?
    ensures Abs(LcmAll(xs).n.v) == Abs(LcmAll(ys).n.v)
  {
    assert |ys| > 0 by {
      assert |multiset(ys)| == |multiset(xs)| == |xs|;
    }
    forall k | 0 <= k < |ys|
      ensures ys[k] != 0
    {
      assert ys[k] in multiset(xs);
    }
    CommonMultiplesAgree(xs, ys);
    CommonMultiplesAgree(ys, xs);
    MutualDivisors(LcmAll(xs).n.v, LcmAll(ys).n.v);
  }

  lemma CommonMultiplesAgree(xs: seq<int>, ys: seq<int>)
    requires |xs| > 0 && |ys| > 0 && multiset(xs) == multiset(ys)
    requires forall k :: 0 <= k < |xs| ==> xs[k] != 0
    requires forall k :: 0 <= k < |ys| ==> ys[k] != 0
    ensures Divides(LcmAll(ys).n.v, LcmAll(xs).n.v)
  {
    forall k | 0 <= k < |ys|
      ensures Divides(ys[k], LcmAll(xs).n.v)
    {
      assert ys[k] in multiset(xs);
      var j :| 0 <= j < |xs| && xs[j] == ys[k];
    }
    LcmAllLeast(ys, LcmAll(xs).n.v);
  }

  /** Some element after the second zero of `xs` is not zero. */
  ghost predicate NonzeroAfterTwoZeros(xs: seq<int>)
  {
    exists i, j, k :: 0 <= i < j < k < |xs| && xs[i] == 0 && xs[j] == 0 && xs[k] != 0
  }

  function ZeroCount(xs: seq<int>): nat
  {
    multiset(xs)[0]
  }

  /**
   * What zeros do to the lcm reduction: one zero makes the value 0; the
   * second makes it NaN (`0 * 0 / gcd(0, 0)`), which stays NaN through
   * further zeros and throws at the first non-zero element after it.
   */
  lemma {:induction false} LcmAllZeros(xs: seq<int>)
    requires |xs| > 0
    ensures ZeroCount(xs) == 0 ==> LcmAll(xs).Done? && LcmAll(xs).n.Fin? && LcmAll(xs).n.v != 0
    ensures ZeroCount(xs) == 1 ==> LcmAll(xs) == Done(Fin(0))
    ensures ZeroCount(xs) >= 2 && NonzeroAfterTwoZeros(xs) ==> LcmAll(xs) == Overflow
    ensures ZeroCount(xs) >= 2 && !NonzeroAfterTwoZeros(xs) ==> LcmAll(xs) == Done(NaN)
    decreases |xs|
  {
    NoZeros(xs);
    if |xs| == 1 {
      assert !NonzeroAfterTwoZeros(xs);
    } else {
      var init, x := xs[..|xs| - 1], xs[|xs| - 1];
      assert xs == init + [x];
      LcmAllZeros(init);
      NonzeroAfterTwoZerosExtend(init, x);
      NoZeros(init);
      if ZeroCount(init) < 2 {
        TwoZerosCounted(init);
      }
    }
  }

  lemma NoZeros(xs: seq<int>)
    ensures ZeroCount(xs) == 0 <==> forall k :: 0 <= k < |xs| ==> xs[k] != 0
  {
    if ZeroCount(xs) != 0 {
      assert 0 in xs;
    }
  }

  lemma NonzeroAfterTwoZerosExtend(init: seq<int>, x: int)
    ensures NonzeroAfterTwoZeros(init + [x]) <==>
              NonzeroAfterTwoZeros(init) || (x != 0 && ZeroCount(init) >= 2)
  {
    var xs := init + [x];
    if NonzeroAfterTwoZeros(xs) && !NonzeroAfterTwoZeros(init) {
      var i, j, k :| 0 <= i < j < k < |xs| && xs[i] == 0 && xs[j] == 0 && xs[k] != 0;
      assert init[i] == 0 && init[j] == 0;
      TwoZerosCounted(init);
    }
    if x != 0 && ZeroCount(init) >= 2 {
      var i, j := TwoZeros(init);
      assert xs[i] == 0 && xs[j] == 0 && xs[|init|] != 0;
    }
    if NonzeroAfterTwoZeros(init) {
      var i, j, k :| 0 <= i < j < k < |init| && init[i] == 0 && init[j] == 0 && init[k] != 0;
      assert xs[i] == 0 && xs[j] == 0 && xs[k] != 0;
    }
  }

  /** Two zeros at distinct positions count twice; this also bounds the predicate above. */
  lemma TwoZerosCounted(xs: seq<int>)
    ensures (exists i, j :: 0 <= i < j < |xs| && xs[i] == 0 && xs[j] == 0) ==> ZeroCount(xs) >= 2
    ensures NonzeroAfterTwoZeros(xs) ==> ZeroCount(xs) >= 2
  {
    if exists i, j :: 0 <= i < j < |xs| && xs[i] == 0 && xs[j] == 0 {
      var i, j :| 0 <= i < j < |xs| && xs[i] == 0 && xs[j] == 0;
      assert xs == xs[..j] + xs[j..];
      assert xs[..j][i] == 0;
      assert xs[j..][0] == 0;
      assert multiset(xs) == multiset(xs[..j]) + multiset(xs[j..]);
    }
  }

  lemma {:induction false} TwoZeros(xs: seq<int>) returns (i: nat, j: nat)
    requires ZeroCount(xs) >= 2
    ensures i < j < |xs| && xs[i] == 0 && xs[j] == 0
    decreases |xs|
  {
    assert xs != [];
    var init, x := xs[..|xs| - 1], xs[|xs| - 1];
    assert xs == init + [x];
    assert multiset(xs) == multiset(init) + multiset{x};
    if x == 0 {
      assert 0 in multiset(init);
      assert 0 in init;
      var k :| 0 <= k < |init| && init[k] == 0;
      i, j := k, |init|;
    } else {
      i, j := TwoZeros(init);
    }
  }
}
