/** Shortest subarray whose sum reaches a target, by a sliding window
    (two_pointers/shortest_subarray.rs). */
module ShortestSubarray {
  import opened Common

  function WindowSum(nums: seq<int>, a: int, b: int): int
    requires 0 <= a <= b <= |nums|
  {
    Sum(nums[a..b])
  }

  /** The window `nums[a..b]` is non-empty and its sum reaches `target`. */
  ghost predicate Reaches(nums: seq<int>, target: int, a: int, b: int)
  {
    0 <= a < b <= |nums| && Sum(nums[a..b]) >= target
  }

  predicate Positive(nums: seq<int>)
  {
    forall i :: 0 <= i < |nums| ==> nums[i] > 0
  }

  lemma SliceGrow(nums: seq<int>, a: int, b: int)
    requires 0 <= a <= b < |nums|
    ensures Sum(nums[a..b + 1]) == Sum(nums[a..b]) + nums[b]
  {
    assert nums[a..b + 1][..b - a] == nums[a..b];
  }

  lemma SliceShrink(nums: seq<int>, a: int, b: int)
    requires 0 <= a < b <= |nums|
    ensures Sum(nums[a + 1..b]) == Sum(nums[a..b]) - nums[a]
  {
    assert nums[a..b] == [nums[a]] + nums[a + 1..b];
    SumCons(nums[a], nums[a + 1..b]);
  }

  /** With positive elements a window's sum grows with the window. */
  lemma {:induction false} SliceMonotone(nums: seq<int>, a: int, b: int, a': int, b': int)
    requires Positive(nums)
    requires 0 <= a' <= a <= b <= b' <= |nums|
    ensures Sum(nums[a..b]) <= Sum(nums[a'..b'])
    decreases (a - a') + (b' - b)
  {
    if b < b' {
      SliceMonotone(nums, a, b, a', b' - 1);
      SliceGrow(nums, a', b' - 1);
    } else if a' < a {
      SliceMonotone(nums, a, b, a' + 1, b');
      SliceShrink(nums, a', b');
    }
  }

  /** What the loop keeps: `sum` is the window's sum, `minLen` (when below `i32::MAX`) is the
      length of a window from `wa` that reaches the target, every window from `start` shorter
      than the current one falls short, and every window starting before `start` that reaches
      the target is at least `minLen` long. */
  ghost predicate Scanning(nums: seq<int>, target: int, start: int, end: int, sum: int, minLen: int, wa: int)
  {
    0 <= start <= end <= |nums| && sum == Sum(nums[start..end]) && 1 <= minLen <= I32Max &&
    (minLen < I32Max ==> Reaches(nums, target, wa, wa + minLen)) &&
    (forall b :: start <= b < end ==> WindowSum(nums, start, b) < target) &&
    (forall a, b :: Reaches(nums, target, a, b) && a < start ==> minLen <= b - a)
  }

  /** Growing a window that falls short by the next element. */
  lemma Grow(nums: seq<int>, target: int, start: int, end: int, sum: int, minLen: int, wa: int)
    requires Scanning(nums, target, start, end, sum, minLen, wa) && sum < target && end < |nums|
    ensures Scanning(nums, target, start, end + 1, sum + nums[end], minLen, wa)
  {
    SliceGrow(nums, start, end);
  }

  /** Recording a window that reaches the target and dropping its first element. */
  lemma Shrink(nums: seq<int>, target: int, start: int, end: int, sum: int, minLen: int, wa: int,
               minLen': int, wa': int)
    requires Positive(nums) && target >= 1
    requires Scanning(nums, target, start, end, sum, minLen, wa) && sum >= target
    requires minLen' == (if end - start < minLen then end - start else minLen)
    requires wa' == (if end - start < minLen then start else wa)
    ensures start < end
    ensures Scanning(nums, target, start + 1, end, sum - nums[start], minLen', wa')
  {
    assert start < end;
    Shortest(nums, target, start, end);
    ShrinkStep(nums, target, start, start + 1, end);
    SliceShrink(nums, start, end);
  }

  /** Once the window from `start` to the end of the input falls short, no later window
      reaches the target. */
  lemma Exhausted(nums: seq<int>, target: int, start: int)
    requires Positive(nums) && 0 <= start <= |nums| && Sum(nums[start..|nums|]) < target
    ensures forall a, b :: Reaches(nums, target, a, b) ==> a < start
  {
    forall a, b | Reaches(nums, target, a, b) && start <= a
      ensures false
    {
      SliceMonotone(nums, a, b, start, |nums|);
    }
  }

  /** When every shorter window from `start` falls short, `[start, end)` is the shortest one
      from `start` that reaches the target. */
  lemma Shortest(nums: seq<int>, target: int, start: int, end: int)
    requires 0 <= start < end <= |nums|
    requires forall b :: start <= b < end ==> WindowSum(nums, start, b) < target
    ensures forall b :: Reaches(nums, target, start, b) ==> end - start <= b - start
  {
    forall b | Reaches(nums, target, start, b)
      ensures end - start <= b - start
    {
      assert !(WindowSum(nums, start, b) < target);
    }
  }

  /** Dropping the first element keeps every shorter window short of the target. */
  lemma ShrinkStep(nums: seq<int>, target: int, start: int, next: int, end: int)
    requires Positive(nums) && 0 <= start < end <= |nums| && next == start + 1
    requires forall b :: start <= b < end ==> WindowSum(nums, start, b) < target
    ensures forall b :: next <= b < end ==> WindowSum(nums, next, b) < target
  {
    forall b | next <= b < end
      ensures WindowSum(nums, next, b) < target
    {
      assert WindowSum(nums, start, b) < target;
      SliceMonotone(nums, next, b, start, b);
    }
  }

  /** The loop's exit settles the answer: either every window reaching the target was
      considered (the input ran out), or a window of length 1 was found. */
  lemma Finish(nums: seq<int>, target: int, start: int, end: int, sum: int, minLen: int, wa: int,
               exhausted: bool, r: int)
    requires Scanning(nums, target, start, end, sum, minLen, wa) && |nums| < I32Max
    requires exhausted ==> forall a, b :: Reaches(nums, target, a, b) ==> a < start
    requires exhausted || minLen <= 1
    requires r == if minLen == I32Max then 0 else minLen
    ensures r >= 0
    ensures r == 0 <==> forall a, b :: !Reaches(nums, target, a, b)
    ensures r > 0 ==> exists a, b :: Reaches(nums, target, a, b) && b - a == r
    ensures forall a, b :: Reaches(nums, target, a, b) ==> r <= b - a
  {
    if r > 0 {
      assert Reaches(nums, target, wa, wa + minLen);
    }
  }

  /** `min_sub_array_len`: grows the window while its sum is below the target and shrinks it
      from the left otherwise, stopping early at length 1. The result is 0 when no window
      reaches the target, and otherwise the least length of one that does. */
  method MinSubArrayLen(target: int, nums: seq<int>) returns (r: int)
    requires target >= 1 && Positive(nums)
    requires |nums| < I32Max
    ensures r >= 0
    ensures r == 0 <==> forall a, b :: !Reaches(nums, target, a, b)
    ensures r > 0 ==> exists a, b :: Reaches(nums, target, a, b) && b - a == r
    ensures forall a, b :: Reaches(nums, target, a, b) ==> r <= b - a
  {
    var start, end, sum := 0, 0, 0;
    var minLen := I32Max;
    ghost var wa := 0;
    ghost var exhausted := false;
    while minLen > 1
      invariant Scanning(nums, target, start, end, sum, minLen, wa)
      invariant exhausted ==> forall a, b :: Reaches(nums, target, a, b) ==> a < start
      decreases 2 * |nums| - start - end
    {
      if sum < target {
        if end == |nums| {
          Exhausted(nums, target, start);
          exhausted := true;
          break;
        }
        Grow(nums, target, start, end, sum, minLen, wa);
        sum := sum + nums[end];
        end := end + 1;
      } else {
        var minLen', wa' := minLen, wa;
        if end - start < minLen {
          minLen', wa' := end - start, start;
        }
        Shrink(nums, target, start, end, sum, minLen, wa, minLen', wa');
        minLen, wa := minLen', wa';
        sum := sum - nums[start];
        start := start + 1;
      }
    }
    r := if minLen == I32Max then 0 else minLen;
    Finish(nums, target, start, end, sum, minLen, wa, exhausted, r);
  }

  method MinSubArrayLenExamples()
  {
    var r := MinSubArrayLen(7, [2, 3, 1, 2, 4, 3]);
    assert r <= 2 by {
      assert [2, 3, 1, 2, 4, 3][4..6] == [4, 3];
      SumCons(4, [3]);
      SumOne(3);
      assert Reaches([2, 3, 1, 2, 4, 3], 7, 4, 6);
    }
  }
}
