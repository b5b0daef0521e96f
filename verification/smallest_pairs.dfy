/** The `k` pairs with the smallest sums from two sorted arrays
    (search/heap/smallest_pairs.rs), by a best-first walk over the index grid that starts
    at `(0, 0)` and steps to `(i + 1, j)` and `(i, j + 1)`. */
module SmallestPairs {
  import opened Common

  /** A position `(index1, index2)` in the grid of pairs. */
  type Idx = (nat, nat)

  predicate InBounds(nums1: seq<int>, nums2: seq<int>, p: Idx)
  {
    p.0 < |nums1| && p.1 < |nums2|
  }

  /** The value the `Pair` ordering compares: the sum of the two numbers. */
  function PairSum(nums1: seq<int>, nums2: seq<int>, p: Idx): int
    requires InBounds(nums1, nums2, p)
  {
    nums1[p.0] + nums2[p.1]
  }

  /** `Pair::to_vec`. */
  function ToVec(nums1: seq<int>, nums2: seq<int>, p: Idx): (v: seq<int>)
    requires InBounds(nums1, nums2, p)
    ensures |v| == 2 && v[0] == nums1[p.0] && v[1] == nums2[p.1]
  {
    [nums1[p.0], nums2[p.1]]
  }

  /** The two successors a popped pair offers. */
  function Next1(p: Idx): Idx { (p.0 + 1, p.1) }
  function Next2(p: Idx): Idx { (p.0, p.1 + 1) }

  /** `a` lies at or above and at or left of `b`: with sorted inputs its sum is no larger. */
  predicate Below(a: Idx, b: Idx)
  {
    a.0 <= b.0 && a.1 <= b.1
  }

  /** Every position of the `|nums1|` by `|nums2|` grid. */
  function Grid(n1: nat, n2: nat): (g: set<Idx>)
    ensures forall p :: p in g <==> p.0 < n1 && p.1 < n2
  {
    set i: nat, j: nat | i < n1 && j < n2 :: (i, j)
  }

  /** `k as usize` on a 64-bit target: a negative `k` wraps to a huge limit. */
  function AsUsize(k: int): (u: nat)
    requires I32Min <= k <= I32Max
  {
    if k >= 0 then k else k + 0x1_0000_0000_0000_0000
  }

  /** How many pairs the loop emits: it stops after the `limit`-th pop, which never comes
      when `limit` is 0 or beyond the grid, and otherwise on an empty heap. */
  function Emits(limit: nat, cells: nat): nat
  {
    if limit == 0 || limit > cells then cells else limit
  }

  /** Row `i` of the grid, columns below `n2`. */
  function Row(i: nat, n2: nat): (r: set<Idx>)
    ensures forall p :: p in r <==> p.0 == i && p.1 < n2
  {
    set j: nat | j < n2 :: (i, j)
  }

  lemma {:induction false} RowSize(i: nat, n2: nat)
    ensures |Row(i, n2)| == n2
    decreases n2
  {
    if n2 > 0 {
      RowSize(i, n2 - 1);
      assert Row(i, n2) == Row(i, n2 - 1) + {(i, n2 - 1)};
    } else {
      assert Row(i, n2) == {};
    }
  }

  /** The grid is the grid one row shorter plus its last row, and the two do not meet. */
  lemma GridSplit(n1: nat, n2: nat)
    requires n1 > 0
    ensures Grid(n1, n2) == Grid(n1 - 1, n2) + Row(n1 - 1, n2)
    ensures Grid(n1 - 1, n2) !! Row(n1 - 1, n2)
  {
  }

  lemma MulStep(a: nat, b: nat)
    ensures a * b + b == (a + 1) * b
  {
  }

  lemma {:induction false} GridSize(n1: nat, n2: nat)
    ensures |Grid(n1, n2)| == n1 * n2
    decreases n1
  {
    if n1 > 0 {
      var g, r := Grid(n1 - 1, n2), Row(n1 - 1, n2);
      GridSize(n1 - 1, n2);
      RowSize(n1 - 1, n2);
      GridSplit(n1, n2);
      assert |g + r| == |g| + |r|;
      MulStep(n1 - 1, n2);
    } else {
      assert Grid(n1, n2) == {};
    }
  }

  /** A sequence without repeats has as many distinct elements as positions. */
  lemma {:induction false} DistinctSize<T>(s: seq<T>)
    requires Distinct(s)
    ensures |set x | x in s| == |s|
    decreases |s|
  {
    if |s| > 0 {
      var init := s[..|s| - 1];
      DistinctSize(init);
      assert (set x | x in s) == (set x | x in init) + {s[|s| - 1]};
      assert s[|s| - 1] !in init;
    } else {
      assert (set x | x in s) == {};
    }
  }

  lemma {:induction false} SubsetSize<T>(a: set<T>, b: set<T>)
    requires a <= b
    ensures |a| <= |b|
    decreases |a|
  {
    if a != {} {
      var x :| x in a;
      SubsetSize(a - {x}, b - {x});
    }
  }

  predicate AllIn(nums1: seq<int>, nums2: seq<int>, s: seq<Idx>)
  {
    forall i :: 0 <= i < |s| ==> InBounds(nums1, nums2, s[i])
  }

  /** What the walk's bookkeeping keeps: the heap and the emitted positions are in the grid,
      never repeat and never overlap, and together they are `explored` plus the start,
      which the source pushes without recording. */
  ghost predicate Shape(nums1: seq<int>, nums2: seq<int>, heap: seq<Idx>, explored: set<Idx>, taken: seq<Idx>)
  {
    AllIn(nums1, nums2, heap) && AllIn(nums1, nums2, taken) &&
    Distinct(heap) && Distinct(taken) &&
    (forall h, t :: 0 <= h < |heap| && 0 <= t < |taken| ==> heap[h] != taken[t]) &&
    Recorded(heap, explored, taken) &&
    (|taken| == 0 ==> heap == [(0, 0)]) &&
    (|taken| > 0 ==> taken[0] == (0, 0))
  }

  /** A position has been pushed, by the start or a successor step, iff it is on the heap
      or emitted. */
  ghost predicate Recorded(heap: seq<Idx>, explored: set<Idx>, taken: seq<Idx>)
  {
    forall p :: p in explored || p == (0, 0) <==> p in heap || p in taken
  }

  /** Every emitted position has had both in-grid successors recorded. */
  ghost predicate Closed(nums1: seq<int>, nums2: seq<int>, explored: set<Idx>, taken: seq<Idx>)
  {
    forall t :: 0 <= t < |taken| ==>
      (taken[t].0 + 1 < |nums1| ==> Next1(taken[t]) in explored) &&
      (taken[t].1 + 1 < |nums2| ==> Next2(taken[t]) in explored)
  }

  /** Emitted sums never go down, and none lies above a sum still on the heap. */
  ghost predicate Ordered(nums1: seq<int>, nums2: seq<int>, heap: seq<Idx>, taken: seq<Idx>)
    requires AllIn(nums1, nums2, heap) && AllIn(nums1, nums2, taken)
  {
    (forall a, b :: 0 <= a < b < |taken| ==> PairSum(nums1, nums2, taken[a]) <= PairSum(nums1, nums2, taken[b])) &&
    (forall a, h :: 0 <= a < |taken| && 0 <= h < |heap| ==>
       PairSum(nums1, nums2, taken[a]) <= PairSum(nums1, nums2, heap[h]))
  }

  /** The answer the puzzle asks for: the emitted pairs come in order of sum, and no pair
      left out has a smaller sum than one emitted. */
  ghost predicate Smallest(nums1: seq<int>, nums2: seq<int>, taken: seq<Idx>)
    requires AllIn(nums1, nums2, taken)
  {
    (forall a, b :: 0 <= a < b < |taken| ==> PairSum(nums1, nums2, taken[a]) <= PairSum(nums1, nums2, taken[b])) &&
    forall q, a :: InBounds(nums1, nums2, q) && q !in taken && 0 <= a < |taken| ==>
      PairSum(nums1, nums2, taken[a]) <= PairSum(nums1, nums2, q)
  }

  /** A position of least sum on the heap; the heap may pop any of them. */
  function Least(nums1: seq<int>, nums2: seq<int>, heap: seq<Idx>): (m: nat)
    requires |heap| > 0 && AllIn(nums1, nums2, heap)
    ensures m < |heap| && forall x :: 0 <= x < |heap| ==> PairSum(nums1, nums2, heap[m]) <= PairSum(nums1, nums2, heap[x])
  {
    if |heap| == 1 then 0
    else
      var m := Least(nums1, nums2, heap[..|heap| - 1]);
      assert forall x :: 0 <= x < |heap| - 1 ==> heap[..|heap| - 1][x] == heap[x];
      if PairSum(nums1, nums2, heap[|heap| - 1]) < PairSum(nums1, nums2, heap[m]) then |heap| - 1 else m
  }

  /** Every position not yet emitted has a heap entry above and left of it: walk back from
      it towards `(0, 0)` until reaching a position that was recorded but not emitted. */
  lemma {:induction false} Dominated(nums1: seq<int>, nums2: seq<int>, heap: seq<Idx>, explored: set<Idx>,
                                     taken: seq<Idx>, q: Idx)
    requires Recorded(heap, explored, taken) && Closed(nums1, nums2, explored, taken)
    requires InBounds(nums1, nums2, q) && q !in taken
    ensures exists h :: 0 <= h < |heap| && Below(heap[h], q)
    decreases q.0 + q.1
  {
    if q in heap {
      var h :| 0 <= h < |heap| && heap[h] == q;
      assert Below(heap[h], q);
    } else {
      assert q !in explored && q != (0, 0);
      var back: Idx := if q.0 > 0 then (q.0 - 1, q.1) else (q.0, q.1 - 1);
      BackNotTaken(nums1, nums2, explored, taken, back, q);
      Dominated(nums1, nums2, heap, explored, taken, back);
      var h :| 0 <= h < |heap| && Below(heap[h], back);
      assert Below(heap[h], q);
    }
  }

  /** The position a step came from was not emitted, or `q` would have been recorded. */
  lemma BackNotTaken(nums1: seq<int>, nums2: seq<int>, explored: set<Idx>, taken: seq<Idx>, back: Idx, q: Idx)
    requires Closed(nums1, nums2, explored, taken) && InBounds(nums1, nums2, q) && q !in explored
    requires q == Next1(back) || q == Next2(back)
    ensures back !in taken
  {
    forall t | 0 <= t < |taken|
      ensures taken[t] != back
    {
    }
  }

  /** With sorted inputs, a position further down or right has no smaller sum. */
  lemma BelowSum(nums1: seq<int>, nums2: seq<int>, a: Idx, b: Idx)
    requires Sorted(nums1) && Sorted(nums2) && InBounds(nums1, nums2, b) && Below(a, b)
    ensures PairSum(nums1, nums2, a) <= PairSum(nums1, nums2, b)
  {
  }

  /** Popping moves the entry from the heap to the emitted positions. */
  lemma PopStep(nums1: seq<int>, nums2: seq<int>, heap: seq<Idx>, explored: set<Idx>, taken: seq<Idx>,
                m: nat, rest: seq<Idx>)
    requires Shape(nums1, nums2, heap, explored, taken) && m < |heap|
    requires rest == heap[..m] + heap[m + 1..]
    ensures Shape(nums1, nums2, rest, explored, taken + [heap[m]])
  {
    assert heap == heap[..m] + [heap[m]] + heap[m + 1..];
    assert forall x :: 0 <= x < |rest| ==> rest[x] == if x < m then heap[x] else heap[x + 1];
  }

  /** Pushing a position nobody has recorded yet. */
  lemma PushStep(nums1: seq<int>, nums2: seq<int>, heap: seq<Idx>, explored: set<Idx>, taken: seq<Idx>, q: Idx)
    requires Shape(nums1, nums2, heap, explored, taken) && |taken| > 0
    requires InBounds(nums1, nums2, q) && q !in explored && q != (0, 0)
    ensures Shape(nums1, nums2, heap + [q], explored + {q}, taken)
  {
  }

  lemma OrderPop(nums1: seq<int>, nums2: seq<int>, heap: seq<Idx>, taken: seq<Idx>, m: nat, rest: seq<Idx>)
    requires AllIn(nums1, nums2, heap) && AllIn(nums1, nums2, taken) && Ordered(nums1, nums2, heap, taken)
    requires m < |heap| && forall x :: 0 <= x < |heap| ==> PairSum(nums1, nums2, heap[m]) <= PairSum(nums1, nums2, heap[x])
    requires rest == heap[..m] + heap[m + 1..]
    ensures AllIn(nums1, nums2, rest) && AllIn(nums1, nums2, taken + [heap[m]])
    ensures Ordered(nums1, nums2, rest, taken + [heap[m]])
  {
    assert forall x :: 0 <= x < |rest| ==> rest[x] == if x < m then heap[x] else heap[x + 1];
  }

  lemma OrderPush(nums1: seq<int>, nums2: seq<int>, heap: seq<Idx>, taken: seq<Idx>, q: Idx)
    requires AllIn(nums1, nums2, heap) && AllIn(nums1, nums2, taken) && Ordered(nums1, nums2, heap, taken)
    requires InBounds(nums1, nums2, q) && |taken| > 0
    requires PairSum(nums1, nums2, taken[|taken| - 1]) <= PairSum(nums1, nums2, q)
    ensures AllIn(nums1, nums2, heap + [q]) && Ordered(nums1, nums2, heap + [q], taken)
  {
  }

  /** One pass of the `while let Some(..) = heap.pop()` loop, without the counter: pop a
      least-sum entry, push its unrecorded in-grid successors, and emit it. */
  method Visit(nums1: seq<int>, nums2: seq<int>, heap: seq<Idx>, explored: set<Idx>, ghost taken: seq<Idx>)
    returns (heap': seq<Idx>, explored': set<Idx>, pair: seq<int>, ghost p: Idx)
    requires Shape(nums1, nums2, heap, explored, taken) && Closed(nums1, nums2, explored, taken) && |heap| > 0
    requires Sorted(nums1) && Sorted(nums2) ==> Ordered(nums1, nums2, heap, taken)
    ensures Shape(nums1, nums2, heap', explored', taken + [p]) && Closed(nums1, nums2, explored', taken + [p])
    ensures InBounds(nums1, nums2, p) && pair == ToVec(nums1, nums2, p)
    ensures Sorted(nums1) && Sorted(nums2) ==> Ordered(nums1, nums2, heap', taken + [p])
  {
    ghost var least := Least(nums1, nums2, heap);
    var m :| 0 <= m < |heap| && forall x :: 0 <= x < |heap| ==> PairSum(nums1, nums2, heap[m]) <= PairSum(nums1, nums2, heap[x]);
    var top := heap[m];
    p := top;
    var rest := heap[..m] + heap[m + 1..];
    ghost var taken' := taken + [p];
    PopStep(nums1, nums2, heap, explored, taken, m, rest);
    if Sorted(nums1) && Sorted(nums2) {
      OrderPop(nums1, nums2, heap, taken, m, rest);
    }
    heap', explored' := rest, explored;
    var next1 := Next1(top);
    if next1.0 < |nums1| && next1 !in explored' {
      PushStep(nums1, nums2, heap', explored', taken', next1);
      if Sorted(nums1) && Sorted(nums2) {
        BelowSum(nums1, nums2, p, next1);
        OrderPush(nums1, nums2, heap', taken', next1);
      }
      heap', explored' := heap' + [next1], explored' + {next1};
    }
    var next2 := Next2(top);
    if next2.1 < |nums2| && next2 !in explored' {
      PushStep(nums1, nums2, heap', explored', taken', next2);
      if Sorted(nums1) && Sorted(nums2) {
        BelowSum(nums1, nums2, p, next2);
        OrderPush(nums1, nums2, heap', taken', next2);
      }
      heap', explored' := heap' + [next2], explored' + {next2};
    }
    pair := ToVec(nums1, nums2, top);
  }

  /** A heap entry is a grid position not yet emitted, so the emitted ones leave room. */
  lemma Room(nums1: seq<int>, nums2: seq<int>, heap: seq<Idx>, explored: set<Idx>, taken: seq<Idx>)
    requires Shape(nums1, nums2, heap, explored, taken) && |heap| > 0
    ensures |taken| < |nums1| * |nums2|
  {
    var seen := set x | x in taken;
    DistinctSize(taken);
    GridSize(|nums1|, |nums2|);
    SubsetSize(seen + {heap[0]}, Grid(|nums1|, |nums2|));
  }

  /** Once the heap runs dry every grid position has been emitted, each once. */
  lemma Exhausted(nums1: seq<int>, nums2: seq<int>, explored: set<Idx>, taken: seq<Idx>)
    requires Shape(nums1, nums2, [], explored, taken) && Closed(nums1, nums2, explored, taken)
    ensures |taken| == |nums1| * |nums2|
    ensures forall q :: InBounds(nums1, nums2, q) ==> q in taken
  {
    forall q | InBounds(nums1, nums2, q)
      ensures q in taken
    {
      if q !in taken {
        Dominated(nums1, nums2, [], explored, taken, q);
      }
    }
    var seen := set x | x in taken;
    assert seen == Grid(|nums1|, |nums2|);
    DistinctSize(taken);
    GridSize(|nums1|, |nums2|);
  }

  /** With sorted inputs the emitted positions are always the cheapest ones so far. */
  lemma Cheapest(nums1: seq<int>, nums2: seq<int>, heap: seq<Idx>, explored: set<Idx>, taken: seq<Idx>)
    requires Sorted(nums1) && Sorted(nums2)
    requires Shape(nums1, nums2, heap, explored, taken) && Closed(nums1, nums2, explored, taken)
    requires Ordered(nums1, nums2, heap, taken)
    ensures Smallest(nums1, nums2, taken)
  {
    forall q, a | InBounds(nums1, nums2, q) && q !in taken && 0 <= a < |taken|
      ensures PairSum(nums1, nums2, taken[a]) <= PairSum(nums1, nums2, q)
    {
      Dominated(nums1, nums2, heap, explored, taken, q);
      var h :| 0 <= h < |heap| && Below(heap[h], q);
      BelowSum(nums1, nums2, heap[h], q);
    }
  }

  /** The `Pair` ordering adds two `i32`s, which must not overflow. */
  predicate SumsFit(nums1: seq<int>, nums2: seq<int>)
  {
    forall i, j :: 0 <= i < |nums1| && 0 <= j < |nums2| ==> I32Min <= nums1[i] + nums2[j] <= I32Max
  }

  /** `k_smallest_pairs`. Indexing `nums1[0]` and `nums2[0]` needs both arrays non-empty.
      `taken` lists the index pairs behind the emitted pairs, in order. */
  method KSmallestPairs(nums1: seq<int>, nums2: seq<int>, k: int) returns (pairs: seq<seq<int>>, ghost taken: seq<Idx>)
    requires |nums1| >= 1 && |nums2| >= 1 && I32Min <= k <= I32Max && SumsFit(nums1, nums2)
    ensures |pairs| == |taken| == Emits(AsUsize(k), |nums1| * |nums2|)
    ensures AllIn(nums1, nums2, taken) && Distinct(taken) && taken[0] == (0, 0)
    ensures forall t :: 0 <= t < |taken| ==> pairs[t] == ToVec(nums1, nums2, taken[t])
    ensures Sorted(nums1) && Sorted(nums2) ==> Smallest(nums1, nums2, taken)
  {
    var limit := AsUsize(k);
    var current := 0;
    var explored: set<Idx> := {};
    var heap: seq<Idx> := [(0, 0)];
    pairs, taken := [], [];
    while |heap| > 0
      invariant Shape(nums1, nums2, heap, explored, taken) && Closed(nums1, nums2, explored, taken)
      invariant Sorted(nums1) && Sorted(nums2) ==> Ordered(nums1, nums2, heap, taken)
      invariant |pairs| == |taken| == current
      invariant forall t :: 0 <= t < |taken| ==> pairs[t] == ToVec(nums1, nums2, taken[t])
      invariant limit == 0 || current < limit
      decreases |nums1| * |nums2| - |taken|
    {
      Room(nums1, nums2, heap, explored, taken);
      var pair;
      ghost var p;
      heap, explored, pair, p := Visit(nums1, nums2, heap, explored, taken);
      pairs, taken := pairs + [pair], taken + [p];
      current := current + 1;
      if current == limit {
        break;
      }
    }
    if |heap| == 0 {
      Exhausted(nums1, nums2, explored, taken);
    }
    if Sorted(nums1) && Sorted(nums2) {
      Cheapest(nums1, nums2, heap, explored, taken);
    }
  }

  /** Catalogue example with `k = 4`: the fourth pair follows the three that the example
      lists, since the loop stops only after the fourth pop. */
  lemma FirstExampleOrder(nums1: seq<int>, nums2: seq<int>, taken: seq<Idx>)
    requires nums1 == [1, 7, 11] && nums2 == [2, 4, 6]
    requires |taken| == 4 && AllIn(nums1, nums2, taken) && Distinct(taken) && taken[0] == (0, 0)
    requires Smallest(nums1, nums2, taken)
    ensures taken == [(0, 0), (0, 1), (0, 2), (1, 0)]
  {
    assert PairSum(nums1, nums2, taken[1]) <= PairSum(nums1, nums2, taken[2]) <= PairSum(nums1, nums2, taken[3]);
    assert PairSum(nums1, nums2, taken[3]) <= PairSum(nums1, nums2, (0, 1)) || (0, 1) in taken;
    assert PairSum(nums1, nums2, taken[3]) <= PairSum(nums1, nums2, (0, 2)) || (0, 2) in taken;
    assert PairSum(nums1, nums2, taken[3]) <= PairSum(nums1, nums2, (1, 0)) || (1, 0) in taken;
  }

  method KSmallestPairsExample1()
  {
    var nums1, nums2 := [1, 7, 11], [2, 4, 6];
    assert Sorted(nums1) && Sorted(nums2);
    var pairs, taken := KSmallestPairs(nums1, nums2, 4);
    FirstExampleOrder(nums1, nums2, taken);
    assert pairs == [[1, 2], [1, 4], [1, 6], [7, 2]];
  }

  method KSmallestPairsExample2()
  {
    var nums1, nums2 := [1, 1, 2], [1, 2, 3];
    assert Sorted(nums1) && Sorted(nums2);
    var pairs, taken := KSmallestPairs(nums1, nums2, 2);
    assert PairSum(nums1, nums2, taken[1]) <= PairSum(nums1, nums2, (1, 0)) || (1, 0) in taken;
    assert pairs == [[1, 1], [1, 1]];
  }

  /** Asking for more pairs than exist yields all of them. */
  method KSmallestPairsExample3()
  {
    var pairs, taken := KSmallestPairs([1, 2], [3], 3);
    assert taken[1] == (1, 0);
    assert pairs == [[1, 3], [2, 3]];
  }

  lemma FourthExampleOrder(nums1: seq<int>, nums2: seq<int>, taken: seq<Idx>)
    requires nums1 == [1, 2, 4, 5, 6] && nums2 == [3, 5, 7, 9]
    requires |taken| == 3 && AllIn(nums1, nums2, taken) && Distinct(taken) && taken[0] == (0, 0)
    requires Smallest(nums1, nums2, taken)
    ensures taken == [(0, 0), (1, 0), (0, 1)]
  {
    assert PairSum(nums1, nums2, taken[1]) <= PairSum(nums1, nums2, taken[2]);
    assert PairSum(nums1, nums2, taken[2]) <= PairSum(nums1, nums2, (1, 0)) || (1, 0) in taken;
    assert PairSum(nums1, nums2, taken[2]) <= PairSum(nums1, nums2, (0, 1)) || (0, 1) in taken;
  }

  method KSmallestPairsExample4()
  {
    var nums1, nums2 := [1, 2, 4, 5, 6], [3, 5, 7, 9];
    assert Sorted(nums1) && Sorted(nums2);
    var pairs, taken := KSmallestPairs(nums1, nums2, 3);
    FourthExampleOrder(nums1, nums2, taken);
    assert pairs == [[1, 3], [2, 3], [1, 5]];
  }
}
