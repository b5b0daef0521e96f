/** Cookie distribution by backtracking (backtracking/distribute_cookies.rs): every bag is
    tried with every child in turn, and the least leaf unfairness wins. */
module CookieBacktracking {
  import opened Common
  import opened Cookies

  /** No `i32` addition in the search can overflow: no negative bag or total, and all the
      cookies together fit in an `i32`. */
  predicate Fits(cookies: seq<int>, current: nat, distribution: seq<int>)
    requires current <= |cookies|
  {
    NonNegative(cookies) && NonNegative(distribution) &&
    Sum(distribution) + Sum(cookies[current..]) <= I32Max
  }

  /** Giving bag `current` to child `i` first and then `rest` is the assignment `[i] + rest`
      of the remaining bags. */
  lemma Branch(cookies: seq<int>, current: nat, distribution: seq<int>, i: nat, rest: seq<nat>)
    requires current < |cookies| && i < |distribution|
    requires Assignment(rest, |cookies| - current - 1, |distribution|)
    ensures Assignment([i] + rest, |cookies| - current, |distribution|)
    ensures Spread(distribution, cookies[current..], [i] + rest)
         == Spread(distribution[i := distribution[i] + cookies[current]], cookies[current + 1..], rest)
  {
    assert cookies[current..][1..] == cookies[current + 1..];
    assert ([i] + rest)[1..] == rest;
  }

  /** Every assignment of the remaining bags starts with some child for bag `current`. */
  lemma Unbranch(cookies: seq<int>, current: nat, distribution: seq<int>, a: seq<nat>)
    requires current < |cookies|
    requires Assignment(a, |cookies| - current, |distribution|)
    ensures Assignment(a[1..], |cookies| - current - 1, |distribution|)
    ensures Spread(distribution, cookies[current..], a)
         == Spread(distribution[a[0] := distribution[a[0]] + cookies[current]], cookies[current + 1..], a[1..])
  {
    var cs := cookies[current..];
    assert cs[0] == cookies[current];
    assert cs[1..] == cookies[current + 1..];
    assert Assignment(a[1..], |cs| - 1, |distribution|);
    assert Spread(distribution, cs, a) == Spread(distribution[a[0] := distribution[a[0]] + cs[0]], cs[1..], a[1..]);
  }

  /** The best completion after giving bag `current` to child `i` is the best among all
      assignments of the remaining bags that start with `i`. */
  lemma BranchBest(cookies: seq<int>, current: nat, distribution: seq<int>, i: nat, u: int)
    returns (choice: seq<nat>)
    requires current < |cookies| && i < |distribution|
    requires Best(distribution[i := distribution[i] + cookies[current]], cookies[current + 1..], |distribution|, u)
    ensures Assignment(choice, |cookies| - current, |distribution|) && choice[0] == i
    ensures MaxOf(Spread(distribution, cookies[current..], choice)) == u
    ensures forall a :: Assignment(a, |cookies| - current, |distribution|) && a[0] == i ==>
              u <= MaxOf(Spread(distribution, cookies[current..], a))
  {
    var given := distribution[i := distribution[i] + cookies[current]];
    var rest :| Assignment(rest, |cookies| - current - 1, |distribution|) &&
      MaxOf(Spread(given, cookies[current + 1..], rest)) == u;
    Branch(cookies, current, distribution, i, rest);
    choice := [i] + rest;
    forall a | Assignment(a, |cookies| - current, |distribution|) && a[0] == i
      ensures u <= MaxOf(Spread(distribution, cookies[current..], a))
    {
      Unbranch(cookies, current, distribution, a);
    }
  }

  /** Bag `current` goes to child `i` with the other totals unchanged, and the bound on the
      grand total still holds. */
  lemma GiveFits(cookies: seq<int>, current: nat, distribution: seq<int>, i: nat)
    requires current < |cookies| && i < |distribution| && Fits(cookies, current, distribution)
    ensures Fits(cookies, current + 1, distribution[i := distribution[i] + cookies[current]])
  {
    SumUpdate(distribution, i, cookies[current]);
    assert cookies[current..] == [cookies[current]] + cookies[current + 1..];
    SumCons(cookies[current], cookies[current + 1..]);
  }

  /** `distribute`: the least unfairness reachable from `distribution` by handing out the
      bags from `current` on. The vector the source borrows mutably is handed back as
      `restored`, equal to what came in. */
  method Distribute(current: nat, cookies: seq<int>, distribution: seq<int>)
    returns (r: int, restored: seq<int>)
    requires current <= |cookies| && |distribution| >= 1
    requires Fits(cookies, current, distribution)
    ensures restored == distribution
    ensures Best(distribution, cookies[current..], |distribution|, r)
    ensures r <= I32Max
    decreases |cookies| - current, 1
  {
    if current == |cookies| {
      Leaf(cookies, current, distribution);
      r, restored := MaxOf(distribution), distribution;
      return;
    }
    var bag := cookies[current];
    var min := I32Max;
    var dist := distribution;
    ghost var choice: seq<nat> := [];
    var i := 0;
    while i < |dist|
      invariant 0 <= i <= |dist| && dist == distribution
      invariant min <= I32Max && (i == 0 ==> min == I32Max)
      invariant i > 0 ==> Assignment(choice, |cookies| - current, |dist|) && choice[0] < i &&
                          MaxOf(Spread(distribution, cookies[current..], choice)) == min
      invariant forall a :: Assignment(a, |cookies| - current, |dist|) && a[0] < i ==>
                  min <= MaxOf(Spread(distribution, cookies[current..], a))
    {
      var unfairness;
      ghost var branch;
      unfairness, dist, branch := GiveTo(current, cookies, dist, i);
      if unfairness < min || i == 0 {
        choice := branch;
      }
      min := Min(min, unfairness);
      i := i + 1;
    }
    Gather(cookies, current, distribution, min, choice);
    r, restored := min, dist;
  }

  /** One round of the loop in `distribute`: bag `current` goes to child `i`, the rest is
      searched, and the bag is taken back. */
  method GiveTo(current: nat, cookies: seq<int>, distribution: seq<int>, i: nat)
    returns (u: int, restored: seq<int>, ghost choice: seq<nat>)
    requires current < |cookies| && i < |distribution| && Fits(cookies, current, distribution)
    ensures restored == distribution && u <= I32Max
    ensures Assignment(choice, |cookies| - current, |distribution|) && choice[0] == i
    ensures MaxOf(Spread(distribution, cookies[current..], choice)) == u
    ensures forall a :: Assignment(a, |cookies| - current, |distribution|) && a[0] == i ==>
              u <= MaxOf(Spread(distribution, cookies[current..], a))
    decreases |cookies| - current, 0
  {
    var bag := cookies[current];
    GiveFits(cookies, current, distribution, i);
    var dist := distribution[i := distribution[i] + bag];
    var back;
    u, back := Distribute(current + 1, cookies, dist);
    restored := back[i := back[i] - bag];
    choice := BranchBest(cookies, current, distribution, i, u);
  }

  /** With no bags left the only assignment is the empty one, scored by the current
      totals. */
  lemma Leaf(cookies: seq<int>, current: nat, distribution: seq<int>)
    requires current == |cookies| && |distribution| >= 1 && Fits(cookies, current, distribution)
    ensures Best(distribution, cookies[current..], |distribution|, MaxOf(distribution))
    ensures MaxOf(distribution) <= I32Max
  {
    var none: seq<nat> := [];
    assert Assignment(none, 0, |distribution|);
    assert cookies[current..] == [];
    forall a | Assignment(a, 0, |distribution|)
      ensures Spread(distribution, cookies[current..], a) == distribution
    {
    }
    SpreadBound(distribution, [], none);
  }

  /** Once every child has been tried for bag `current`, the running minimum is the best
      over all assignments of the remaining bags. */
  lemma Gather(cookies: seq<int>, current: nat, distribution: seq<int>, min: int, choice: seq<nat>)
    requires current < |cookies| && |distribution| >= 1
    requires Assignment(choice, |cookies| - current, |distribution|)
    requires MaxOf(Spread(distribution, cookies[current..], choice)) == min
    requires forall a :: Assignment(a, |cookies| - current, |distribution|) && a[0] < |distribution| ==>
               min <= MaxOf(Spread(distribution, cookies[current..], a))
    ensures Best(distribution, cookies[current..], |distribution|, min)
  {
  }

  /** `distribute_cookies`: search from all children empty. */
  method DistributeCookies(cookies: seq<int>, k: int) returns (r: int)
    requires k >= 1 && NonNegative(cookies) && Sum(cookies) <= I32Max
    ensures Fairest(cookies, k, r)
  {
    var distribution := Zeros(k);
    assert Sum(distribution) == 0 by {
      SumZeros(k);
    }
    assert cookies[0..] == cookies;
    var restored;
    r, restored := Distribute(0, cookies, distribution);
  }

  lemma {:induction false} SumZeros(k: nat)
    ensures Sum(Zeros(k)) == 0
  {
    if k > 0 {
      assert Zeros(k)[..k - 1] == Zeros(k - 1);
      SumZeros(k - 1);
    }
  }

  method DistributeCookiesExample()
  {
    ExampleTotal();
    var r := DistributeCookies([8, 15, 10, 20, 8], 2);
    CookiesExample();
    FairestUnique([8, 15, 10, 20, 8], 2, r, 31);
    assert r == 31;
  }
}
