/** What both cookie-distribution solvers compute: hand every bag of cookies to one of
    `k` children so that the largest total any child receives is as small as possible. */
module Cookies {
  import opened Common

  /** `a` hands bag `i` to child `a[i]`, for `n` bags and children `0 .. bound - 1`. */
  predicate Assignment(a: seq<nat>, n: nat, bound: nat)
  {
    |a| == n && forall i :: 0 <= i < n ==> a[i] < bound
  }

  /** Child totals after bag `cs[i]` has gone to child `a[i]`, starting from `totals`. */
  function Spread(totals: seq<int>, cs: seq<int>, a: seq<nat>): (r: seq<int>)
    requires Assignment(a, |cs|, |totals|)
    ensures |r| == |totals|
    decreases |cs|
  {
    if |cs| == 0 then totals
    else Spread(totals[a[0] := totals[a[0]] + cs[0]], cs[1..], a[1..])
  }

  function Zeros(k: nat): (z: seq<int>)
    ensures |z| == k && forall c :: 0 <= c < k ==> z[c] == 0
  {
    seq(k, c => 0)
  }

  predicate NonNegative(s: seq<int>)
  {
    forall i :: 0 <= i < |s| ==> s[i] >= 0
  }

  /** `r` is the least unfairness among the assignments that use only children below
      `bound`, when the children already hold `totals`. */
  ghost predicate Best(totals: seq<int>, cs: seq<int>, bound: nat, r: int)
  {
    1 <= bound <= |totals| &&
    (exists a :: Assignment(a, |cs|, bound) && MaxOf(Spread(totals, cs, a)) == r) &&
    forall a :: Assignment(a, |cs|, bound) ==> r <= MaxOf(Spread(totals, cs, a))
  }

  /** `r` is the answer to the puzzle: the least unfairness over all `k^n` assignments. */
  ghost predicate Fairest(cookies: seq<int>, k: nat, r: int)
  {
    Best(Zeros(k), cookies, k, r)
  }

  lemma {:induction false} SumUpdate(t: seq<int>, j: nat, x: int)
    requires j < |t|
    ensures Sum(t[j := t[j] + x]) == Sum(t) + x
    decreases |t|
  {
    var u := t[j := t[j] + x];
    if j < |t| - 1 {
      assert u[..|u| - 1] == t[..|t| - 1][j := t[j] + x];
      SumUpdate(t[..|t| - 1], j, x);
    } else {
      assert u[..|u| - 1] == t[..|t| - 1];
    }
  }

  lemma {:induction false} ElementBelowSum(t: seq<int>, j: nat)
    requires NonNegative(t) && j < |t|
    ensures t[j] <= Sum(t)
    decreases |t|
  {
    if j < |t| - 1 {
      ElementBelowSum(t[..|t| - 1], j);
    }
    SumNonNegative(t[..|t| - 1]);
  }

  lemma {:induction false} SumNonNegative(t: seq<int>)
    requires NonNegative(t)
    ensures Sum(t) >= 0
    decreases |t|
  {
    if |t| > 0 {
      SumNonNegative(t[..|t| - 1]);
    }
  }

  /** Handing out bags moves cookies between nobody: the grand total grows by the bags. */
  lemma {:induction false} SpreadSum(totals: seq<int>, cs: seq<int>, a: seq<nat>)
    requires Assignment(a, |cs|, |totals|)
    ensures Sum(Spread(totals, cs, a)) == Sum(totals) + Sum(cs)
    ensures NonNegative(totals) && NonNegative(cs) ==> NonNegative(Spread(totals, cs, a))
    decreases |cs|
  {
    if |cs| > 0 {
      var t := totals[a[0] := totals[a[0]] + cs[0]];
      SumUpdate(totals, a[0], cs[0]);
      SpreadSum(t, cs[1..], a[1..]);
      assert cs == [cs[0]] + cs[1..];
      SumCons(cs[0], cs[1..]);
    }
  }

  /** With no negative bags, no child ever holds more than everything there is. */
  lemma SpreadBound(totals: seq<int>, cs: seq<int>, a: seq<nat>)
    requires Assignment(a, |cs|, |totals|) && |totals| >= 1
    requires NonNegative(totals) && NonNegative(cs)
    ensures 0 <= MaxOf(Spread(totals, cs, a)) <= Sum(totals) + Sum(cs)
  {
    var s := Spread(totals, cs, a);
    SpreadSum(totals, cs, a);
    var j :| 0 <= j < |s| && s[j] == MaxOf(s);
    ElementBelowSum(s, j);
  }

  /** Unfairness is at least the average: with two children and 61 cookies in all, some
      child gets 31. */
  lemma {:induction false} TwoChildrenHalf(totals: seq<int>, cs: seq<int>, a: seq<nat>)
    requires |totals| == 2 && Assignment(a, |cs|, 2)
    ensures 2 * MaxOf(Spread(totals, cs, a)) >= Sum(totals) + Sum(cs)
  {
    var s := Spread(totals, cs, a);
    SpreadSum(totals, cs, a);
    assert s[..|s| - 1] == [s[0]];
    SumOne(s[0]);
  }

  lemma ExampleTotal()
    ensures Sum([8, 15, 10, 20, 8]) == 61
  {
    assert [8, 15, 10, 20, 8] == [8] + [15, 10, 20, 8] && [15, 10, 20, 8] == [15] + [10, 20, 8];
    assert [10, 20, 8] == [10] + [20, 8] && [20, 8] == [20] + [8];
    SumOne(8);
    SumCons(20, [8]);
    SumCons(10, [20, 8]);
    SumCons(15, [10, 20, 8]);
    SumCons(8, [15, 10, 20, 8]);
  }

  /** The catalogue's example: bags 8, 15, 10, 20, 8 for two children give 31. */
  lemma CookiesExample()
    ensures Fairest([8, 15, 10, 20, 8], 2, 31)
  {
    var cookies := [8, 15, 10, 20, 8];
    var a: seq<nat> := [0, 0, 1, 1, 0];
    assert Assignment(a, 5, 2);
    var s := Spread(Zeros(2), cookies, a);
    assert s == [31, 30];
    assert MaxOf(s) == 31;
    ExampleTotal();
    assert Sum(Zeros(2)) == 0;
    forall b | Assignment(b, 5, 2)
      ensures 31 <= MaxOf(Spread(Zeros(2), cookies, b))
    {
      TwoChildrenHalf(Zeros(2), cookies, b);
    }
  }

  /** The puzzle has one answer, so the backtracking search and the mask
      enumeration (for `k <= 8`) return the same value. */
  lemma FairestUnique(cookies: seq<int>, k: nat, r1: int, r2: int)
    requires Fairest(cookies, k, r1) && Fairest(cookies, k, r2)
    ensures r1 == r2
  {
    var a1 :| Assignment(a1, |cookies|, k) && MaxOf(Spread(Zeros(k), cookies, a1)) == r1;
    var a2 :| Assignment(a2, |cookies|, k) && MaxOf(Spread(Zeros(k), cookies, a2)) == r2;
  }
}
