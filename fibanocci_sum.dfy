/** `sum_fibanocci_sequence` in fibanocci_sum.py, and the Fibonacci sum it was meant to
  * compute. The loop as written assigns `a = b` before `b = a + b`, so `b` doubles on
  * every turn and the sum collects powers of two; the intended simultaneous update
  * `a, b = b, a + b` walks the Fibonacci numbers.
  */
module FibonacciSum {
  import opened Powers

  /** The number of turns of the loop in `sum_fibanocci_sequence`. */
  const Terms: nat := 50

  // ---------------------------------------------------------------- the loop as written

  /** The value of `a` after `n` turns of the loop as written: 0, then 2^(n-1). */
  function DoublingTerm(n: nat): nat {
    if n == 0 then 0 else Pow2(n - 1)
  }

  /** The sum after `n` turns of the loop as written: 0, then 2^(n-1) - 1. */
  function DoublingSum(n: nat): int {
    if n == 0 then 0 else Pow2(n - 1) - 1
  }

  /** The loop of `sum_fibanocci_sequence`, run for `n` turns instead of 50: after `n`
    * turns `b` is 2^n, `a` is 2^(n-1) (0 before the first turn) and the sum is
    * 2^(n-1) - 1, the sum of the earlier values of `a`.
    */
  method SumLoopAsWritten(n: nat) returns (sum: int, a: int, b: int)
    ensures b == Pow2(n)
    ensures a == DoublingTerm(n)
    ensures sum == DoublingSum(n)
  {
    a, b, sum := 0, 1, 0;
    var i := 0;
    while i < n
      invariant i <= n
      invariant b == Pow2(i)
      invariant a == DoublingTerm(i)
      invariant sum == DoublingSum(i)
    {
      sum := sum + a;
      a := b;
      b := a + b;
      i := i + 1;
    }
  }

  /** `sum_fibanocci_sequence()` as written: 2^49 - 1. */
  method SumFibanocciSequence() returns (sum: int)
    ensures sum == DoublingSum(Terms)
    ensures sum == 562949953421311
  {
    var a, b;
    sum, a, b := SumLoopAsWritten(Terms);
    Pow2Value49();
  }

  lemma Pow2Value49()
    ensures Pow2(49) == 562949953421312
  {
    assert Pow2(2) == 4 by { Pow2Add(1, 1); }
    assert Pow2(4) == 16 by { Pow2Add(2, 2); }
    assert Pow2(8) == 256 by { Pow2Add(4, 4); }
    assert Pow2(16) == 65536 by { Pow2Add(8, 8); }
    assert Pow2(32) == 4294967296 by { Pow2Add(16, 16); }
    assert Pow2(48) == 281474976710656 by { Pow2Add(32, 16); }
  }

  /** Each turn of the loop as written adds the previous `a` to the sum, and none of the
    * sum, `a` and `b` ever decreases.
    */
  lemma {:induction false} AsWrittenGrows(n: nat)
    ensures DoublingSum(n + 1) == DoublingSum(n) + DoublingTerm(n)
    ensures DoublingSum(n) <= DoublingSum(n + 1) && DoublingTerm(n) <= DoublingTerm(n + 1)
    ensures Pow2(n) <= Pow2(n + 1)
  {
    if n > 0 {
      assert Pow2(n) == 2 * Pow2(n - 1);
    }
  }

  // ---------------------------------------------------------------- what was meant

  function Fib(k: nat): nat {
    if k < 2 then k else Fib(k - 1) + Fib(k - 2)
  }

  /** F(0) + F(1) + ... + F(n-1): the sum of the first `n` Fibonacci numbers. */
  function FibSum(n: nat): nat {
    if n == 0 then 0 else FibSum(n - 1) + Fib(n - 1)
  }

  /** The sum of the first `n` Fibonacci numbers is F(n+1) - 1. */
  lemma {:induction false} FibSumClosedForm(n: nat)
    ensures FibSum(n) == Fib(n + 1) - 1
  {
    if n > 0 {
      FibSumClosedForm(n - 1);
    }
  }

  /** The loop with the simultaneous update `a, b = b, a + b`: after `n` turns `a` and
    * `b` are F(n) and F(n+1) and the sum is that of the first `n` Fibonacci numbers.
    */
  method SumFibonacci(n: nat) returns (sum: int)
    ensures sum == FibSum(n)
    ensures sum == Fib(n + 1) - 1
  {
    var a, b := 0, 1;
    sum := 0;
    var i := 0;
    while i < n
      invariant i <= n
      invariant a == Fib(i) && b == Fib(i + 1)
      invariant sum == FibSum(i)
    {
      sum := sum + a;
      a, b := b, a + b;
      i := i + 1;
    }
    FibSumClosedForm(n);
  }

  /** The documented result: the sum of the first 50 Fibonacci numbers, 20365011073. */
  method IntendedFibonacciSum() returns (sum: int)
    ensures sum == Fib(Terms + 1) - 1
    ensures sum == 20365011073
  {
    sum := SumFibonacci(Terms);
    Fib51();
  }

  lemma Fib51()
    ensures Fib(51) == 20365011074
  {
    assert Fib(11) == 89 && Fib(12) == 144;
    assert Fib(23) == 28657 && Fib(24) == 46368;
    assert Fib(35) == 9227465 && Fib(36) == 14930352;
    assert Fib(44) == 701408733 && Fib(45) == 1134903170;
  }

  // ---------------------------------------------------------------- the discrepancy

  /** From the fourth Fibonacci number on, F(k) is strictly less than 2^(k-2). */
  lemma {:induction false} FibBelowPow2(k: nat)
    requires k >= 2
    ensures Fib(k) <= Pow2(k - 2)
    ensures k >= 4 ==> Fib(k) < Pow2(k - 2)
  {
    if k >= 4 {
      FibBelowPow2(k - 1);
      FibBelowPow2(k - 2);
      assert Pow2(k - 2) == 2 * Pow2(k - 3) && Pow2(k - 3) == 2 * Pow2(k - 4);
    }
  }

  /** The loop as written agrees with the Fibonacci sum for at most 2 turns and exceeds it
    * from the third turn on; in particular for the 50 turns of `sum_fibanocci_sequence`.
    */
  lemma {:induction false} AsWrittenIsNotFibonacciSum(n: nat)
    requires n >= 3
    ensures DoublingSum(n) > FibSum(n)
  {
    FibSumClosedForm(n);
    FibBelowPow2(n + 1);
  }
}
