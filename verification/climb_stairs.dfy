/** Counting and cheapest ways up a staircase (dynamic_programming/climb_stairs.rs). */
module ClimbStairs {
  import opened Common
  import Fibonacci

  // ---------------------------------------------------------------------------
  // climb_stairs: how many step plans of 1s and 2s reach the top

  /** A plan is a sequence of 1-steps and 2-steps that covers exactly `n` stairs. */
  ghost predicate IsPlan(p: seq<int>, n: int)
  {
    (forall i :: 0 <= i < |p| ==> p[i] == 1 || p[i] == 2) && Sum(p) == n
  }

  ghost function Prepend(x: int, plans: set<seq<int>>): set<seq<int>>
  {
    set p | p in plans :: [x] + p
  }

  /** All plans for `n` stairs, split by their first step. */
  ghost function Plans(n: nat): set<seq<int>>
  {
    if n == 0 then {[]}
    else if n == 1 then {[1]}
    else Prepend(1, Plans(n - 1)) + Prepend(2, Plans(n - 2))
  }

  lemma {:induction false} PlanSumAtLeastLength(p: seq<int>)
    requires forall i :: 0 <= i < |p| ==> p[i] == 1 || p[i] == 2
    ensures Sum(p) >= |p|
    decreases |p|
  {
    if |p| > 0 {
      PlanSumAtLeastLength(p[..|p| - 1]);
    }
  }

  /** Every member of `Plans(n)` is a step plan of `n` stairs. */
  lemma {:induction false} PlansAreSound(n: nat, p: seq<int>)
    requires p in Plans(n)
    ensures IsPlan(p, n)
    decreases n
  {
    if n >= 2 {
      if p in Prepend(1, Plans(n - 1)) {
        var q :| q in Plans(n - 1) && p == [1] + q;
        PlansAreSound(n - 1, q);
        SumCons(1, q);
      } else {
        var q :| q in Plans(n - 2) && p == [2] + q;
        PlansAreSound(n - 2, q);
        SumCons(2, q);
      }
    } else if n == 1 {
      SumOne(1);
    }
  }

  /** Every step plan of `n` stairs is a member of `Plans(n)`. */
  lemma {:induction false} PlansAreComplete(n: nat, p: seq<int>)
    requires IsPlan(p, n)
    ensures p in Plans(n)
    decreases n
  {
    PlanSumAtLeastLength(p);
    if n > 0 {
      var q := p[1..];
      assert p == [p[0]] + q;
      SumCons(p[0], q);
      assert IsPlan(q, n - p[0]) by {
        forall i | 0 <= i < |q| ensures q[i] == 1 || q[i] == 2 {
          assert q[i] == p[i + 1];
        }
      }
      PlanSumAtLeastLength(q);
      if n == 1 {
        assert q == [] && p[0] == 1;
        assert p == [1];
      } else if p[0] == 1 {
        PlansAreComplete(n - 1, q);
        assert p in Prepend(1, Plans(n - 1));
      } else {
        PlansAreComplete(n - 2, q);
        assert p in Prepend(2, Plans(n - 2));
      }
    }
  }

  lemma {:induction false} PrependCard(x: int, plans: set<seq<int>>)
    ensures |Prepend(x, plans)| == |plans|
    decreases |plans|
  {
    if plans != {} {
      var q :| q in plans;
      var rest := plans - {q};
      PrependCard(x, rest);
      forall r | r in rest ensures [x] + r != [x] + q {
        assert ([x] + r)[1..] == r;
        assert ([x] + q)[1..] == q;
      }
      assert Prepend(x, plans) == Prepend(x, rest) + {[x] + q};
    }
  }

  /** The number of plans for `n` stairs is the Fibonacci number F(n + 1). */
  lemma {:induction false} PlanCountIsFibonacci(n: nat)
    ensures |Plans(n)| == Fibonacci.F(n + 1)
    decreases n
  {
    if n >= 2 {
      PlanCountIsFibonacci(n - 1);
      PlanCountIsFibonacci(n - 2);
      PrependCard(1, Plans(n - 1));
      PrependCard(2, Plans(n - 2));
      forall q | q in Plans(n - 1) ensures [1] + q !in Prepend(2, Plans(n - 2)) {
        forall r | r in Plans(n - 2) ensures [2] + r != [1] + q {
          assert ([2] + r)[0] == 2;
        }
      }
      assert Prepend(1, Plans(n - 1)) !! Prepend(2, Plans(n - 2));
    }
  }

  /** `climb_stairs`: after `i` rounds `taking == F(i + 1)` and `skipping == F(i)`.
      A negative `n` runs no round; the 32-bit additions must not overflow. */
  method ClimbStairs(n: int) returns (r: int)
    requires n < 0 || Fibonacci.F(n + 1) <= I32Max
    ensures n < 0 ==> r == 1
    ensures n >= 0 ==> r == Fibonacci.F(n + 1) && r == |Plans(n)|
  {
    var taking := 1;
    var skipping := 0;
    var i := 0;
    while i < n
      invariant 0 <= i && (n >= 0 ==> i <= n) && (n < 0 ==> i == 0)
      invariant taking == Fibonacci.F(i + 1) && skipping == Fibonacci.F(i)
    {
      var next := taking + skipping;
      assert next <= I32Max by {
        Fibonacci.FMonotone(i + 2, n + 1);
      }
      skipping := taking;
      taking := next;
      i := i + 1;
    }
    if n >= 0 {
      PlanCountIsFibonacci(n);
    }
    return taking;
  }

  method ClimbStairsExamples()
  {
    var r := ClimbStairs(3);
    assert r == 3;
    r := ClimbStairs(-4);
    assert r == 1;
  }

  // ---------------------------------------------------------------------------
  // min_cost_climbing_stairs: cheapest route to the top

  /** A route starts on step 0 or 1, moves one or two steps at a time, and ends on one
      of the last two steps, from which the top is one move away. */
  ghost predicate IsRoute(cost: seq<int>, p: seq<int>)
  {
    && |p| > 0
    && (p[0] == 0 || p[0] == 1)
    && IsRouteFrom(cost, p)
  }

  ghost predicate IsRouteFrom(cost: seq<int>, p: seq<int>)
  {
    && |p| > 0
    && (forall j :: 0 <= j < |p| ==> 0 <= p[j] < |cost|)
    && (forall j :: 0 <= j < |p| - 1 ==> p[j + 1] == p[j] + 1 || p[j + 1] == p[j] + 2)
    && p[|p| - 1] >= |cost| - 2
  }

  /** Total paid along a route. */
  function RouteCost(cost: seq<int>, p: seq<int>): int
    requires forall j :: 0 <= j < |p| ==> 0 <= p[j] < |cost|
  {
    if |p| == 0 then 0 else cost[p[0]] + RouteCost(cost, p[1..])
  }

  /** Cheapest cost from step `i` onwards, as the loop accumulates it from the top down. */
  function Best(cost: seq<int>, i: nat): int
    requires |cost| >= 2 && i < |cost|
    decreases |cost| - i
  {
    if i >= |cost| - 2 then cost[i]
    else cost[i] + Min(Best(cost, i + 1), Best(cost, i + 2))
  }

  lemma RouteCostCons(cost: seq<int>, i: int, q: seq<int>)
    requires 0 <= i < |cost|
    requires forall j :: 0 <= j < |q| ==> 0 <= q[j] < |cost|
    ensures RouteCost(cost, [i] + q) == cost[i] + RouteCost(cost, q)
  {
    assert ([i] + q)[1..] == q;
  }

  /** Stepping onto `i` right before a route from `i + 1` or `i + 2` is a route. */
  lemma ExtendRoute(cost: seq<int>, i: int, q: seq<int>)
    requires 0 <= i < |cost| && IsRouteFrom(cost, q)
    requires q[0] == i + 1 || q[0] == i + 2
    ensures IsRouteFrom(cost, [i] + q)
    ensures RouteCost(cost, [i] + q) == cost[i] + RouteCost(cost, q)
  {
    var p := [i] + q;
    forall j | 0 <= j < |p| - 1 ensures p[j + 1] == p[j] + 1 || p[j + 1] == p[j] + 2 {
      if j > 0 {
        assert p[j] == q[j - 1] && p[j + 1] == q[j];
      }
    }
    RouteCostCons(cost, i, q);
  }

  /** The tail of a route of two or more steps is a route. */
  lemma RouteTail(cost: seq<int>, p: seq<int>)
    requires IsRouteFrom(cost, p) && |p| > 1
    ensures IsRouteFrom(cost, p[1..])
    ensures p[1] == p[0] + 1 || p[1] == p[0] + 2
    ensures RouteCost(cost, p) == cost[p[0]] + RouteCost(cost, p[1..])
  {
    var q := p[1..];
    forall j | 0 <= j < |q| - 1 ensures q[j + 1] == q[j] + 1 || q[j + 1] == q[j] + 2 {
      assert q[j] == p[j + 1] && q[j + 1] == p[j + 2];
    }
  }

  /** The route that `Best` follows from step `i`. */
  function BestRoute(cost: seq<int>, i: nat): (p: seq<int>)
    requires |cost| >= 2 && i < |cost|
    ensures IsRouteFrom(cost, p) && p[0] == i
    ensures RouteCost(cost, p) == Best(cost, i)
    decreases |cost| - i
  {
    if i >= |cost| - 2 then [i]
    else if Best(cost, i + 1) <= Best(cost, i + 2) then
      var q := BestRoute(cost, i + 1);
      ExtendRoute(cost, i, q);
      [i] + q
    else
      var q := BestRoute(cost, i + 2);
      ExtendRoute(cost, i, q);
      [i] + q
  }

  lemma {:induction false} RouteCostNonNegative(cost: seq<int>, p: seq<int>)
    requires forall j :: 0 <= j < |cost| ==> cost[j] >= 0
    requires forall j :: 0 <= j < |p| ==> 0 <= p[j] < |cost|
    ensures RouteCost(cost, p) >= 0
    decreases |p|
  {
    if |p| > 0 {
      RouteCostNonNegative(cost, p[1..]);
    }
  }

  /** With non-negative costs no route from step `i` is cheaper than `Best(cost, i)`. */
  lemma {:induction false} BestIsLowerBound(cost: seq<int>, p: seq<int>)
    requires |cost| >= 2
    requires forall j :: 0 <= j < |cost| ==> cost[j] >= 0
    requires IsRouteFrom(cost, p)
    ensures RouteCost(cost, p) >= Best(cost, p[0])
    decreases |p|
  {
    if |p| > 1 {
      RouteTail(cost, p);
      BestIsLowerBound(cost, p[1..]);
      RouteCostNonNegative(cost, p[1..]);
    }
  }

  /** `min_cost_climbing_stairs`: `memory` holds the cheapest costs from the two steps
      above `i`; the answer is the cheaper of starting on step 0 or step 1. Fewer than two
      steps index out of range. */
  method MinCostClimbingStairs(cost: seq<int>) returns (r: int)
    requires |cost| >= 2
    ensures r == Min(Best(cost, 0), Best(cost, 1))
    ensures exists p :: IsRoute(cost, p) && RouteCost(cost, p) == r
    ensures (forall j :: 0 <= j < |cost| ==> cost[j] >= 0) ==>
              forall p :: IsRoute(cost, p) ==> r <= RouteCost(cost, p)
  {
    var steps := |cost|;
    var memory := [cost[steps - 1], cost[steps - 2]];
    var i := steps - 2;
    while i > 0
      invariant 0 <= i <= steps - 2
      invariant memory == [Best(cost, i + 1), Best(cost, i)]
    {
      i := i - 1;
      var current := cost[i] + Min(memory[0], memory[1]);
      memory := [memory[1], current];
    }
    r := Min(memory[0], memory[1]);
    if Best(cost, 0) <= Best(cost, 1) {
      assert IsRoute(cost, BestRoute(cost, 0));
    } else {
      assert IsRoute(cost, BestRoute(cost, 1));
    }
    if forall j :: 0 <= j < |cost| ==> cost[j] >= 0 {
      forall p | IsRoute(cost, p) ensures r <= RouteCost(cost, p) {
        BestIsLowerBound(cost, p);
      }
    }
  }

  method MinCostExamples()
  {
    var r := MinCostClimbingStairs([10, 15, 20]);
    assert r == 15;
  }
}
