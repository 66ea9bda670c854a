/**
 * The fibonacci branch of the `/bfhl` handler in index.js: a loop that
 * pushes `a` onto the result and then rotates `(a, b) := (b, a + b)`.
 */
module Fibonacci {

  /** The Fibonacci numbers, starting 0, 1. */
  function Fib(k: nat): nat
  {
    if k < 2 then k else Fib(k - 1) + Fib(k - 2)
  }

  /** The first `n` Fibonacci numbers, built the way the handler builds them. */
  method FibonacciSequence(n: nat) returns (fib: seq<nat>)
    ensures |fib| == n
    ensures forall k :: 0 <= k < n ==> fib[k] == Fib(k)
    ensures n > 0 ==> fib[0] == 0
    ensures n > 1 ==> fib[1] == 1
    ensures forall k :: 2 <= k < n ==> fib[k] == fib[k - 1] + fib[k - 2]
  {
    fib := [];
    var a, b := 0, 1;
    for i := 0 to n
      invariant |fib| == i
      invariant forall k :: 0 <= k < i ==> fib[k] == Fib(k)
      invariant a == Fib(i) && b == Fib(i + 1)
    {
      fib := fib + [a];
      a, b := b, a + b;
    }
  }
}
