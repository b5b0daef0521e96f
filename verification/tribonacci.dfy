/** Tribonacci numbers with a rolling three-slot memory (dynamic_programming/tribonacci.rs). */
module Tribonacci {
  import opened Common

  /** Reference definition: T(0) = 0, T(1) = T(2) = 1, T(n) = T(n - 1) + T(n - 2) + T(n - 3). */
  function T(n: nat): nat
  {
    if n == 0 then 0
    else if n < 3 then 1
    else T(n - 1) + T(n - 2) + T(n - 3)
  }

  lemma {:induction false} TMonotone(a: nat, b: nat)
    requires a <= b
    ensures T(a) <= T(b)
    decreases b - a
  {
    if a < b {
      TMonotone(a + 1, b);
      if a + 1 >= 3 {
        assert T(a + 1) == T(a) + T(a - 1) + T(a - 2);
      }
    }
  }

  /** `tribonacci`: the loop keeps `memory == [T(i - 2), T(i - 1), T(i)]`. A negative `n`
      indexes out of range and the 32-bit additions must not overflow. */
  method Tribonacci(n: int) returns (r: int)
    requires n >= 0
    requires T(n) <= I32Max
    ensures r == T(n)
    ensures r <= I32Max
  {
    var memory := [0, 1, 1];
    if n < 3 {
      return memory[n];
    }
    var i := 3;
    while i <= n
      invariant 3 <= i <= n + 1
      invariant memory == [T(i - 3), T(i - 2), T(i - 1)]
    {
      var current := memory[0] + memory[1] + memory[2];
      assert current <= I32Max by {
        TMonotone(i, n);
      }
      memory := [memory[1], memory[2], current];
      i := i + 1;
    }
    return memory[2];
  }

  method TribonacciExamples()
  {
    var r := Tribonacci(4);
    assert r == 4;
  }
}
