/** Fibonacci numbers with a rolling two-slot memory (dynamic_programming/fib.rs). */
module Fibonacci {
  import opened Common

  /** Reference definition: F(0) = 0, F(1) = 1, F(n) = F(n - 1) + F(n - 2). */
  function F(n: nat): nat
  {
    if n < 2 then n else F(n - 1) + F(n - 2)
  }

  lemma {:induction false} FMonotone(a: nat, b: nat)
    requires a <= b
    ensures F(a) <= F(b)
    decreases b - a
  {
    if a < b {
      FMonotone(a + 1, b);
      if a + 1 >= 2 {
        assert F(a + 1) == F(a) + F(a - 1);
      }
    }
  }

  /** `fib`: the loop keeps `memory == [F(i - 1), F(i)]`. A negative `n` indexes the
      memory array out of range, and the 32-bit additions must not overflow, so both are
      demanded of the caller. */
  method Fib(n: int) returns (r: int)
    requires n >= 0
    requires F(n) <= I32Max
    ensures r == F(n)
    ensures r <= I32Max
  {
    var memory := [0, 1];
    if n < 2 {
      return memory[n];
    }
    var i := 2;
    while i <= n
      invariant 2 <= i <= n + 1
      invariant memory == [F(i - 2), F(i - 1)]
    {
      var current := memory[0] + memory[1];
      assert current <= I32Max by {
        FMonotone(i, n);
      }
      memory := [memory[1], current];
      i := i + 1;
    }
    return memory[1];
  }

  method FibExamples()
  {
    var r := Fib(10);
    assert r == 55;
  }
}
