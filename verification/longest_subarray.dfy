/** Longest run of ones after deleting one element (dynamic_programming/longest_subarray.rs). */
module LongestSubarray {
  import opened Common

  /** The window `nums[a..b]` holds at most one value other than 1. Any value other than 1
      acts as a separator, as in the source's match. */
  ghost predicate AtMostOneSeparator(nums: seq<int>, a: int, b: int)
    requires 0 <= a <= b <= |nums|
  {
    forall x, y :: a <= x < y < b ==> nums[x] == 1 || nums[y] == 1
  }

  /** A window with at most one separator starts after any separator that precedes a
      second one inside it. */
  lemma WindowStart(nums: seq<int>, a: int, b: int, x: int, y: int)
    requires 0 <= a <= b <= |nums| && AtMostOneSeparator(nums, a, b)
    requires 0 <= x < y < b && nums[x] != 1 && nums[y] != 1
    ensures x < a
  {
  }

  /** Deleting one element of a window with at most one separator (the separator, if there
      is one) leaves `b - a - 1` ones in a row; the best such window is the answer. */
  ghost function Bound(i: int, maxLen: int, last: int, current: int): int
  {
    if current == i then i - 1 else Max(maxLen, last + current)
  }

  /** `longest_subarray`: `current` is the run of ones ending at the scan position, `last`
      the run before the latest separator, and `max_len` the best joined pair so far, with
      `i32::MIN` meaning that no separator has been seen. The result is the longest window
      with at most one separator, less the one deleted element; an empty input gives -1. */
  method LongestSubarray(nums: seq<int>) returns (r: int)
    ensures forall a, b :: 0 <= a <= b <= |nums| && AtMostOneSeparator(nums, a, b) ==> b - a - 1 <= r
    ensures exists a, b :: 0 <= a <= b <= |nums| && AtMostOneSeparator(nums, a, b) && b - a - 1 == r
    ensures r <= |nums| - 1
    ensures (forall j :: 0 <= j < |nums| ==> nums[j] == 1) ==> r == |nums| - 1
  {
    var n := |nums|;
    var maxLen := I32Min;
    var last := 0;
    var current := 0;
    ghost var wa, wb := 0, 0;
    var i := 0;
    while i < n
      invariant 0 <= i <= n
      invariant 0 <= current <= i
      invariant forall j :: i - current <= j < i ==> nums[j] == 1
      invariant current < i ==> nums[i - current - 1] != 1
      invariant (maxLen == I32Min) == (current == i)
      invariant current == i ==> last == 0
      invariant current < i ==> 0 <= last <= i - current - 1
      invariant current < i ==> forall j :: i - current - 1 - last <= j < i - current - 1 ==> nums[j] == 1
      invariant current < i && last < i - current - 1 ==> nums[i - current - 2 - last] != 1
      invariant current < i ==> 0 <= wa <= wb <= i && AtMostOneSeparator(nums, wa, wb) && wb - wa - 1 == maxLen
      invariant forall a, b :: 0 <= a <= b <= i && AtMostOneSeparator(nums, a, b) ==>
                  b - a - 1 <= Bound(i, maxLen, last, current)
    {
      ghost var bound := Bound(i, maxLen, last, current);
      if nums[i] == 1 {
        forall a, b | 0 <= a <= b <= i + 1 && AtMostOneSeparator(nums, a, b)
          ensures b - a - 1 <= Bound(i + 1, maxLen, last, current + 1)
        {
          if b == i + 1 && current < i {
            var p := i - current - 1;
            if last < p {
              WindowStart(nums, a, b, p - last - 1, p);
            }
          }
        }
        current := current + 1;
      } else {
        forall a, b | 0 <= a <= b <= i + 1 && AtMostOneSeparator(nums, a, b)
          ensures b - a - 1 <= Max(Max(maxLen, last + current), current)
        {
          if b == i + 1 {
            if current < i {
              WindowStart(nums, a, b, i - current - 1, i);
            }
          }
        }
        if current < i && last + current <= maxLen {
        } else {
          if current < i {
            wa, wb := i - current - 1 - last, i;
          } else {
            wa, wb := 0, i + 1;
          }
          assert AtMostOneSeparator(nums, wa, wb);
        }
        maxLen := Max(maxLen, last + current);
        last := current;
        current := 0;
      }
      i := i + 1;
    }
    if maxLen == I32Min {
      r := n - 1;
      assert AtMostOneSeparator(nums, 0, n);
    } else {
      r := Max(maxLen, last + current);
      if last + current > maxLen {
        assert AtMostOneSeparator(nums, n - current - 1 - last, n);
      }
    }
  }

  method LongestSubarrayExamples()
  {
    var r := LongestSubarray([1, 1, 0, 1]);
    assert AtMostOneSeparator([1, 1, 0, 1], 0, 4);
    assert r == 3;
  }
}
