/** Cost of hiring `k` workers (two_pointers/total_cost.rs): each session hires the
    cheapest of the first and last `candidates` remaining workers, ties going to the
    smaller index. The source keeps the two candidate groups in min-heaps and refills
    them from a middle range `current_low ..= current_high`. */
module TotalCost {
  import opened Common

  /** With `n` workers left, position `p` is among the first `c` or the last `c`. */
  predicate Eligible(n: nat, c: nat, p: nat)
  {
    p < c || p + c >= n
  }

  /** The worker a session hires among positions `0 .. j - 1`: the lowest cost among the
      eligible ones, and of those the smallest position. */
  function Choice(rest: seq<int>, c: nat, j: nat): (i: nat)
    requires 1 <= j <= |rest| && c >= 1
    ensures i < j && Eligible(|rest|, c, i)
    ensures forall p :: 0 <= p < j && Eligible(|rest|, c, p) ==> rest[i] <= rest[p]
    ensures forall p :: 0 <= p < i && Eligible(|rest|, c, p) ==> rest[i] < rest[p]
    decreases j
  {
    if j == 1 then 0
    else
      var b := Choice(rest, c, j - 1);
      if Eligible(|rest|, c, j - 1) && rest[j - 1] < rest[b] then j - 1 else b
  }

  /** `s` with position `i` taken out; later workers move up one place. */
  function Without(s: seq<int>, i: nat): (r: seq<int>)
    requires i < |s|
    ensures |r| == |s| - 1
  {
    s[..i] + s[i + 1..]
  }

  lemma WithoutCount(s: seq<int>, i: nat)
    requires i < |s|
    ensures multiset(Without(s, i)) == multiset(s) - multiset{s[i]}
  {
    assert s == s[..i] + [s[i]] + s[i + 1..];
  }

  /** The rules of the puzzle: the total cost of `k` sessions over the workers `rest`,
      listed in index order. */
  function Hire(rest: seq<int>, c: nat, k: nat): int
    requires c >= 1 && k <= |rest|
    decreases k
  {
    if k == 0 then 0
    else
      var i := Choice(rest, c, |rest|);
      rest[i] + Hire(Without(rest, i), c, k - 1)
  }

  /** A heap's storage in some order; only its multiset of values matters. */
  function Lowest(heap: seq<int>): (i: nat)
    requires |heap| > 0
    ensures i < |heap| && forall j :: 0 <= j < |heap| ==> heap[i] <= heap[j]
  {
    if |heap| == 1 then 0
    else
      var b := Lowest(heap[..|heap| - 1]);
      if heap[|heap| - 1] < heap[b] then |heap| - 1 else b
  }

  /** `peek().map_or(i32::MAX, ..)` on a min-heap: the least value, `i32::MAX` when empty. */
  function Peek(heap: seq<int>): (v: int)
    ensures |heap| > 0 ==> v in heap && forall x :: x in heap ==> v <= x
    ensures |heap| == 0 ==> v == I32Max
  {
    if |heap| == 0 then I32Max else heap[Lowest(heap)]
  }

  /** `pop()`: one least value leaves the heap. */
  function Pop(heap: seq<int>): (r: seq<int>)
    requires |heap| > 0
    ensures multiset(r) == multiset(heap) - multiset{Peek(heap)}
  {
    WithoutCount(heap, Lowest(heap));
    Without(heap, Lowest(heap))
  }

  predicate Cheap(costs: seq<int>)
  {
    forall i :: 0 <= i < |costs| ==> costs[i] < I32Max
  }

  /** How the heaps stand for the workers still unhired: `rest`, in index order, is the
      group `left` held by `low`, then the untouched middle `costs[lo ..= hi]`, then the
      group `right` held by `high`. While the middle is not empty both groups are full. */
  ghost predicate Pools(costs: seq<int>, c: nat, low: seq<int>, high: seq<int>, lo: nat, hi: nat,
                        rest: seq<int>, left: seq<int>, right: seq<int>)
  {
    1 <= c <= lo <= hi + 1 <= |costs| &&
    rest == left + costs[lo..hi + 1] + right &&
    multiset(left) == multiset(low) && multiset(right) == multiset(high) &&
    |left| <= c && |right| <= c &&
    (lo <= hi ==> |left| == c && |right| == c)
  }

  /** Every position held by a heap is one a session may pick from. */
  lemma GroupsEligible(costs: seq<int>, c: nat, low: seq<int>, high: seq<int>, lo: nat, hi: nat,
                       rest: seq<int>, left: seq<int>, right: seq<int>, p: nat)
    requires Pools(costs, c, low, high, lo, hi, rest, left, right) && p < |rest|
    ensures Eligible(|rest|, c, p) <==> p < |left| || p >= |left| + hi + 1 - lo
  {
  }

  /** The least value of a heap sits at some position of its group. */
  lemma PeekAt(heap: seq<int>, group: seq<int>) returns (j: nat)
    requires |heap| > 0 && multiset(group) == multiset(heap)
    ensures j < |group| && group[j] == Peek(heap)
  {
    assert Peek(heap) in multiset(group);
    j :| 0 <= j < |group| && group[j] == Peek(heap);
  }

  /** A member of a group is no lower than its heap's least value. */
  lemma PeekBelow(heap: seq<int>, group: seq<int>, j: nat)
    requires j < |group| && multiset(group) == multiset(heap)
    ensures |heap| > 0 && Peek(heap) <= group[j]
  {
    assert group[j] in multiset(heap);
  }

  /** When the rules pick from the front group, so does the session on the heaps, and the
      value it takes is the one the rules hire. */
  lemma FrontPick(costs: seq<int>, c: nat, low: seq<int>, high: seq<int>, lo: nat, hi: nat,
                  rest: seq<int>, left: seq<int>, right: seq<int>, i: nat)
    requires Pools(costs, c, low, high, lo, hi, rest, left, right) && |rest| >= 1
    requires Cheap(rest)
    requires i == Choice(rest, c, |rest|) && i < |left|
    ensures |low| > 0 && Peek(low) == rest[i] && rest[i] == left[i] && !(Peek(high) < Peek(low))
  {
    var m := hi + 1 - lo;
    assert rest[i] == left[i];
    PeekBelow(low, left, i);
    var j := PeekAt(low, left);
    assert rest[j] == left[j];
    GroupsEligible(costs, c, low, high, lo, hi, rest, left, right, j);
    if |high| > 0 {
      var q := PeekAt(high, right);
      assert rest[|left| + m + q] == right[q];
      GroupsEligible(costs, c, low, high, lo, hi, rest, left, right, |left| + m + q);
    }
  }

  /** When the rules pick from the back group, the front group's least value is strictly
      higher, so the session on the heaps takes the back one too. */
  lemma BackPick(costs: seq<int>, c: nat, low: seq<int>, high: seq<int>, lo: nat, hi: nat,
                 rest: seq<int>, left: seq<int>, right: seq<int>, i: nat)
    requires Pools(costs, c, low, high, lo, hi, rest, left, right) && |rest| >= 1
    requires Cheap(rest)
    requires i == Choice(rest, c, |rest|) && i >= |left|
    ensures i >= |left| + hi + 1 - lo && |high| > 0 && Peek(high) == rest[i] && Peek(high) < Peek(low)
  {
    var m := hi + 1 - lo;
    GroupsEligible(costs, c, low, high, lo, hi, rest, left, right, i);
    assert rest[i] == right[i - |left| - m];
    PeekBelow(high, right, i - |left| - m);
    var q := PeekAt(high, right);
    assert rest[|left| + m + q] == right[q];
    GroupsEligible(costs, c, low, high, lo, hi, rest, left, right, |left| + m + q);
    if |low| > 0 {
      var j := PeekAt(low, left);
      assert rest[j] == left[j];
      GroupsEligible(costs, c, low, high, lo, hi, rest, left, right, j);
    }
  }

  lemma WithoutFront(s: seq<int>, a: seq<int>, b: seq<int>, i: nat)
    requires s == a + b && i < |a|
    ensures Without(s, i) == Without(a, i) + b
  {
  }

  lemma WithoutBack(s: seq<int>, a: seq<int>, b: seq<int>, j: nat, k: nat)
    requires s == a + b && j < |b| && k == |a| + j
    ensures Without(s, k) == a + Without(b, j)
  {
  }

  /** Taking the first worker off the middle range and putting it at the end of the front
      group leaves the order of `rest` unchanged. */
  lemma ShiftFront(s: seq<int>, lo: nat, hi: nat, a: seq<int>, b: seq<int>)
    requires lo <= hi < |s|
    ensures a + (s[lo..hi + 1] + b) == (a + [s[lo]]) + s[lo + 1..hi + 1] + b
  {
    assert s[lo..hi + 1] == [s[lo]] + s[lo + 1..hi + 1];
  }

  /** Likewise for the last worker of the middle range and the back group. */
  lemma ShiftBack(s: seq<int>, lo: nat, hi: nat, a: seq<int>, b: seq<int>)
    requires lo <= hi < |s|
    ensures a + s[lo..hi + 1] + b == a + s[lo..hi] + ([s[hi]] + b)
  {
    assert s[lo..hi + 1] == s[lo..hi] + [s[hi]];
  }

  lemma Associate(a: seq<int>, b: seq<int>, d: seq<int>)
    ensures a + b + d == a + (b + d)
  {
  }

  /** Hiring from the front group and refilling it from the start of the middle. */
  lemma FrontStep(costs: seq<int>, c: nat, low: seq<int>, high: seq<int>, lo: nat, hi: nat,
                  rest: seq<int>, left: seq<int>, right: seq<int>, i: nat, low': seq<int>, lo': nat)
    returns (left': seq<int>)
    requires Pools(costs, c, low, high, lo, hi, rest, left, right)
    requires i < |left|
    requires multiset(low') == multiset(low) - multiset{left[i]} + if lo <= hi then multiset{costs[lo]} else multiset{}
    requires lo' == if lo <= hi then lo + 1 else lo
    ensures Pools(costs, c, low', high, lo', hi, Without(rest, i), left', right)
  {
    var mid := costs[lo..hi + 1];
    Associate(left, mid, right);
    WithoutFront(rest, left, mid + right, i);
    WithoutCount(left, i);
    left' := Without(left, i);
    if lo <= hi {
      ShiftFront(costs, lo, hi, left', right);
      left' := left' + [costs[lo]];
    } else {
      Associate(left', mid, right);
    }
  }

  /** Hiring from the back group and refilling it from the end of the middle. */
  lemma BackStep(costs: seq<int>, c: nat, low: seq<int>, high: seq<int>, lo: nat, hi: nat,
                 rest: seq<int>, left: seq<int>, right: seq<int>, i: nat, high': seq<int>, hi': nat)
    returns (right': seq<int>)
    requires Pools(costs, c, low, high, lo, hi, rest, left, right)
    requires |left| + hi + 1 - lo <= i < |rest|
    requires multiset(high') == multiset(high) - multiset{rest[i]} + if lo <= hi then multiset{costs[hi]} else multiset{}
    requires hi' == if lo <= hi then hi - 1 else hi
    ensures Pools(costs, c, low, high', lo, hi', Without(rest, i), left, right')
  {
    var mid := costs[lo..hi + 1];
    var front := left + mid;
    var j := i - |front|;
    WithoutBack(rest, front, right, j, i);
    assert rest[i] == right[j];
    WithoutCount(right, j);
    right' := Without(right, j);
    if lo <= hi {
      ShiftBack(costs, lo, hi, left, right');
      right' := [costs[hi]] + right';
    }
  }

  /** One pass of the `while k > 0` loop: the session, then the refill from the middle. */
  method Session(costs: seq<int>, c: nat, low: seq<int>, high: seq<int>, lo: nat, hi: nat, total: int,
                 ghost rest: seq<int>, ghost left: seq<int>, ghost right: seq<int>)
    returns (low': seq<int>, high': seq<int>, lo': nat, hi': nat, total': int,
             ghost rest': seq<int>, ghost left': seq<int>, ghost right': seq<int>)
    requires Pools(costs, c, low, high, lo, hi, rest, left, right) && |rest| >= 1
    requires Cheap(rest)
    ensures Pools(costs, c, low', high', lo', hi', rest', left', right')
    ensures var i := Choice(rest, c, |rest|); rest' == Without(rest, i) && total' == total + rest[i]
    ensures Cheap(rest')
  {
    ghost var i := Choice(rest, c, |rest|);
    if i < |left| {
      FrontPick(costs, c, low, high, lo, hi, rest, left, right, i);
    } else {
      BackPick(costs, c, low, high, lo, hi, rest, left, right, i);
    }
    var highValue := Peek(high);
    var lowValue := Peek(low);
    low', high', lo', hi' := low, high, lo, hi;
    left', right' := left, right;
    if highValue < lowValue {
      high' := Pop(high);
      total' := total + highValue;
      if lo <= hi {
        high' := high' + [costs[hi]];
        hi' := hi - 1;
      }
      assert multiset(high') == multiset(high) - multiset{rest[i]} + if lo <= hi then multiset{costs[hi]} else multiset{};
      right' := BackStep(costs, c, low, high, lo, hi, rest, left, right, i, high', hi');
    } else {
      low' := Pop(low);
      total' := total + lowValue;
      if lo <= hi {
        low' := low' + [costs[lo]];
        lo' := lo + 1;
      }
      assert multiset(low') == multiset(low) - multiset{left[i]} + if lo <= hi then multiset{costs[lo]} else multiset{};
      left' := FrontStep(costs, c, low, high, lo, hi, rest, left, right, i, low', lo');
    }
    rest' := Without(rest, i);
    WithoutCheap(rest, i);
  }

  /** A session as the reference process sees it: `k` sessions to go become `k - 1`, and
      the total grows by what the remaining ones will no longer pay. */
  method Round(costs: seq<int>, c: nat, low: seq<int>, high: seq<int>, lo: nat, hi: nat, total: int,
               ghost rest: seq<int>, ghost left: seq<int>, ghost right: seq<int>, k: nat)
    returns (low': seq<int>, high': seq<int>, lo': nat, hi': nat, total': int,
             ghost rest': seq<int>, ghost left': seq<int>, ghost right': seq<int>, k': nat)
    requires Pools(costs, c, low, high, lo, hi, rest, left, right) && 1 <= k <= |rest|
    requires Cheap(rest)
    ensures Pools(costs, c, low', high', lo', hi', rest', left', right')
    ensures k' == k - 1 && k' <= |rest'| && Cheap(rest')
    ensures total' + Hire(rest', c, k') == total + Hire(rest, c, k)
  {
    ghost var i := HireStep(rest, c, k);
    low', high', lo', hi', total', rest', left', right' := Session(costs, c, low, high, lo, hi, total, rest, left, right);
    k' := k - 1;
  }

  lemma WithoutCheap(s: seq<int>, i: nat)
    requires i < |s| && Cheap(s)
    ensures Cheap(Without(s, i))
  {
    forall p | 0 <= p < |s| - 1 ensures Without(s, i)[p] < I32Max {
      if p < i {
        assert Without(s, i)[p] == s[p];
      } else {
        assert Without(s, i)[p] == s[p + 1];
      }
    }
  }

  /** When every remaining worker is a candidate, the session hires the cheapest one. */
  lemma CheapestFirst(rest: seq<int>, c: nat, t: seq<int>)
    requires c >= 1 && 1 <= |rest| <= 2 * c && |t| == |rest|
    requires Sorted(t) && multiset(t) == multiset(rest)
    ensures rest[Choice(rest, c, |rest|)] == t[0]
  {
    var i := Choice(rest, c, |rest|);
    assert t[0] in multiset(rest);
    var p :| 0 <= p < |rest| && rest[p] == t[0];
    assert Eligible(|rest|, c, p);
    assert rest[i] in multiset(t);
  }

  /** ... so `k` sessions cost the first `k` of the sorted costs. */
  lemma {:induction false} HireSorted(rest: seq<int>, c: nat, k: nat, t: seq<int>)
    requires c >= 1 && k <= |rest| && |rest| <= 2 * c && |t| == |rest|
    requires Sorted(t) && multiset(t) == multiset(rest)
    ensures Hire(rest, c, k) == Sum(t[..k])
    decreases k
  {
    if k > 0 {
      var i := Choice(rest, c, |rest|);
      var r := Without(rest, i);
      assert Hire(rest, c, k) == rest[i] + Hire(r, c, k - 1);
      CheapestFirst(rest, c, t);
      SortedTail(t);
      MultisetTail(t);
      WithoutCount(rest, i);
      assert multiset(t[1..]) == multiset(rest) - multiset{rest[i]} == multiset(r);
      HireSorted(r, c, k - 1, t[1..]);
      SumTake(t, k);
      assert Hire(r, c, k - 1) == Sum(t[1..][..k - 1]);
    }
  }

  lemma HireStep(rest: seq<int>, c: nat, k: nat) returns (i: nat)
    requires c >= 1 && 1 <= k <= |rest|
    ensures i == Choice(rest, c, |rest|) && Hire(rest, c, k) == rest[i] + Hire(Without(rest, i), c, k - 1)
  {
    i := Choice(rest, c, |rest|);
  }

  /** The heaps as `total_cost` first fills them: the first and the last `c` workers, with
      the rest of the line in the middle. */
  lemma Initial(costs: seq<int>, c: nat)
    requires 1 <= c && 2 * c < |costs|
    ensures Pools(costs, c, costs[..c], costs[|costs| - c..], c, |costs| - c - 1,
                  costs, costs[..c], costs[|costs| - c..])
  {
    assert costs == costs[..c] + costs[c..|costs| - c] + costs[|costs| - c..];
  }

  /** `total_cost`. The collection's `i32` arithmetic needs `n + 1` to fit, and the
      empty-heap sentinel `i32::MAX` must lie above every real cost. */
  method TotalCost(costs: seq<int>, k: int, candidates: int) returns (total: int)
    requires |costs| < I32Max && 0 <= k <= |costs| && candidates >= 1 && Cheap(costs)
    ensures total == Hire(costs, candidates, k)
  {
    var n := |costs|;
    var half := (n + 1) / 2;
    if candidates >= half {
      var sorted := Sort(costs);
      HireSorted(costs, candidates, k, sorted);
      return Sum(sorted[..k]);
    }
    var c := Min(candidates, half);
    if n == k && c == half {
      // The first shortcut already returned whenever `candidates >= half`.
      assert false;
    }
    total := Sessions(costs, k, c);
  }

  /** The heap phase of `total_cost`: `k` sessions over the two pools of `c`. */
  method Sessions(costs: seq<int>, k: nat, c: nat) returns (total: int)
    requires 1 <= c && 2 * c < |costs| && k <= |costs| && Cheap(costs)
    ensures total == Hire(costs, c, k)
  {
    var n := |costs|;
    var low := costs[..c];
    var high := costs[n - c..];
    var lo: nat, hi: nat := c, n - c - 1;
    total := 0;
    var sessions := k;
    ghost var rest, left, right := costs, costs[..c], costs[n - c..];
    Initial(costs, c);
    while sessions > 0
      invariant 0 <= sessions <= |rest|
      invariant Pools(costs, c, low, high, lo, hi, rest, left, right)
      invariant Cheap(rest)
      invariant total + Hire(rest, c, sessions) == Hire(costs, c, k)
    {
      low, high, lo, hi, total, rest, left, right, sessions :=
        Round(costs, c, low, high, lo, hi, total, rest, left, right, sessions);
    }
  }

  /** The rules fix the hired worker: the cheapest eligible one, the earliest on ties. */
  lemma ChoiceUnique(rest: seq<int>, c: nat, i: nat)
    requires c >= 1 && i < |rest| && Eligible(|rest|, c, i)
    requires forall p :: 0 <= p < |rest| && Eligible(|rest|, c, p) ==> rest[i] <= rest[p]
    requires forall p :: 0 <= p < i && Eligible(|rest|, c, p) ==> rest[i] < rest[p]
    ensures Choice(rest, c, |rest|) == i
  {
  }

  /** First session of the catalogue's first example: the 2 at position 3 beats the 2 at
      position 5. */
  lemma ExampleFirstSession()
    ensures Hire([17, 12, 10, 2, 7, 2, 11, 20, 8], 4, 3) == 2 + Hire([17, 12, 10, 7, 2, 11, 20, 8], 4, 2)
  {
    var s := [17, 12, 10, 2, 7, 2, 11, 20, 8];
    ChoiceUnique(s, 4, 3);
    FirstLeft();
    HireFirst(s, 4, 3, 3, [17, 12, 10, 7, 2, 11, 20, 8]);
  }

  lemma FirstLeft()
    ensures Without([17, 12, 10, 2, 7, 2, 11, 20, 8], 3) == [17, 12, 10, 7, 2, 11, 20, 8]
  {
    var s := [17, 12, 10, 2, 7, 2, 11, 20, 8];
    assert s[..3] == [17, 12, 10] && s[4..] == [7, 2, 11, 20, 8];
  }

  lemma ExampleSecondSession()
    ensures Hire([17, 12, 10, 7, 2, 11, 20, 8], 4, 2) == 2 + Hire([17, 12, 10, 7, 11, 20, 8], 4, 1)
  {
    var s := [17, 12, 10, 7, 2, 11, 20, 8];
    ChoiceUnique(s, 4, 4);
    SecondLeft();
    HireFirst(s, 4, 2, 4, [17, 12, 10, 7, 11, 20, 8]);
  }

  lemma SecondLeft()
    ensures Without([17, 12, 10, 7, 2, 11, 20, 8], 4) == [17, 12, 10, 7, 11, 20, 8]
  {
    var s := [17, 12, 10, 7, 2, 11, 20, 8];
    assert s[..4] == [17, 12, 10, 7] && s[5..] == [11, 20, 8];
  }

  /** A session that hires position `i` leaves `rest` without it for the next. */
  lemma HireFirst(rest: seq<int>, c: nat, k: nat, i: nat, after: seq<int>)
    requires c >= 1 && 1 <= k <= |rest| && i < |rest| && Choice(rest, c, |rest|) == i
    requires after == Without(rest, i)
    ensures Hire(rest, c, k) == rest[i] + Hire(after, c, k - 1)
  {
  }

  lemma ExampleThirdSession()
    ensures Hire([17, 12, 10, 7, 11, 20, 8], 4, 1) == 7
  {
    ChoiceUnique([17, 12, 10, 7, 11, 20, 8], 4, 3);
  }

  /** The catalogue's first example: three sessions with four candidates cost 11. */
  method TotalCostExample()
  {
    var r := TotalCost([17, 12, 10, 2, 7, 2, 11, 20, 8], 3, 4);
    ExampleFirstSession();
    ExampleSecondSession();
    ExampleThirdSession();
    assert r == 11;
  }
}
