/** Largest variance over all substrings (dynamic_programming/largest_variance.rs): for
    every ordered pair of letters, a Kadane-style scan of the count difference that
    restarts only while another occurrence of the second letter is still to come. */
module LargestVariance {
  import opened Common

  const Chars: nat := 26

  predicate Lowercase(s: string)
  {
    forall i :: 0 <= i < |s| ==> 'a' <= s[i] <= 'z'
  }

  /** Occurrences of `c` in `s[l..r]`. */
  function Occ(s: string, c: char, l: nat, r: nat): nat
    requires l <= r <= |s|
  {
    Count(s[l..r], c)
  }

  /** How many more `a` than `b` the substring `s[l..r]` holds. */
  function Diff(s: string, a: char, b: char, l: nat, r: nat): int
    requires l <= r <= |s|
  {
    Occ(s, a, l, r) - Occ(s, b, l, r)
  }

  /** What one character adds to the difference; `a` is tested first, as in the scan. */
  function Val(a: char, b: char, ch: char): int
  {
    if ch == a then 1 else if ch == b then -1 else 0
  }

  lemma OccStep(s: string, c: char, l: nat, r: nat)
    requires l <= r < |s|
    ensures Occ(s, c, l, r + 1) == Occ(s, c, l, r) + if s[r] == c then 1 else 0
  {
    assert s[l..r + 1][..r - l] == s[l..r];
  }

  lemma DiffStep(s: string, a: char, b: char, l: nat, r: nat)
    requires l <= r < |s| && a != b
    ensures Diff(s, a, b, l, r + 1) == Diff(s, a, b, l, r) + Val(a, b, s[r])
  {
    OccStep(s, a, l, r);
    OccStep(s, b, l, r);
  }

  lemma {:induction false} OccSplit(s: string, c: char, l: nat, m: nat, r: nat)
    requires l <= m <= r <= |s|
    ensures Occ(s, c, l, r) == Occ(s, c, l, m) + Occ(s, c, m, r)
  {
    assert s[l..r] == s[l..m] + s[m..r];
    CountAppend(s[l..m], s[m..r], c);
  }

  lemma DiffSplit(s: string, a: char, b: char, l: nat, m: nat, r: nat)
    requires l <= m <= r <= |s|
    ensures Diff(s, a, b, l, r) == Diff(s, a, b, l, m) + Diff(s, a, b, m, r)
  {
    OccSplit(s, a, l, m, r);
    OccSplit(s, b, l, m, r);
  }

  /** What is still ahead after position `i`: one fewer when `s[i]` is `c`. */
  lemma RemainingStep(s: string, c: char, i: nat)
    requires i < |s|
    ensures Occ(s, c, i, |s|) == Occ(s, c, i + 1, |s|) + if s[i] == c then 1 else 0
  {
    OccSplit(s, c, i, i + 1, |s|);
    OccEmpty(s, c, i);
    OccStep(s, c, i, i);
  }

  lemma OccEmpty(s: string, c: char, l: nat)
    requires l <= |s|
    ensures Occ(s, c, l, l) == 0
  {
    assert s[l..l] == [];
  }

  /** The scan's state after `i` characters: the counts cover the segment `s[L..i]` since
      the last restart, `remaining` counts the `b` still ahead, and a restart only ever
      happened with a `b` still ahead. */
  ghost predicate Segment(s: string, a: char, b: char, i: nat, start: nat, countA: int, countB: int, remaining: int)
  {
    start <= i <= |s| && countA == Occ(s, a, start, i) && countB == Occ(s, b, start, i) &&
    remaining == Occ(s, b, i, |s|) && (start == 0 || Occ(s, b, start, |s|) > 0)
  }

  /** Kadane's bound: from any `l <= m` with a `b` still ahead, the difference up to `i`
      is at most `v`, the segment's, and strictly less when `l` lies before the last
      restart. */
  ghost predicate Kadane(s: string, a: char, b: char, i: nat, m: nat, start: nat, v: int)
    requires m <= i <= |s|
  {
    forall l :: 0 <= l <= m && Occ(s, b, l, |s|) > 0 ==>
      Diff(s, a, b, l, i) <= v - (if l < start then 1 else 0)
  }

  lemma KadaneAdvance(s: string, a: char, b: char, i: nat, start: nat, v: int)
    requires a != b && i < |s| && Kadane(s, a, b, i, i, start, v)
    ensures Kadane(s, a, b, i + 1, i, start, v + Val(a, b, s[i]))
  {
    forall l | 0 <= l <= i && Occ(s, b, l, |s|) > 0
      ensures Diff(s, a, b, l, i + 1) <= v + Val(a, b, s[i]) - (if l < start then 1 else 0)
    {
      DiffStep(s, a, b, l, i);
    }
  }

  /** Without a restart the new start position joins the bound, since a `b` still ahead
      keeps the segment's difference from going negative. */
  lemma KadaneKeep(s: string, a: char, b: char, i: nat, start: nat, v: int)
    requires i < |s| && start <= i + 1 && Kadane(s, a, b, i + 1, i, start, v)
    requires Occ(s, b, i + 1, |s|) > 0 ==> v >= 0
    ensures Kadane(s, a, b, i + 1, i + 1, start, v)
  {
    OccEmpty(s, a, i + 1);
    OccEmpty(s, b, i + 1);
  }

  /** A restart on a negative difference: every earlier start now lies before it. */
  lemma KadaneRestart(s: string, a: char, b: char, i: nat, start: nat, v: int)
    requires i < |s| && Kadane(s, a, b, i + 1, i, start, v) && v < 0
    ensures Kadane(s, a, b, i + 1, i + 1, i + 1, 0)
  {
    OccEmpty(s, a, i + 1);
    OccEmpty(s, b, i + 1);
  }

  /** Every substring ending by `i` that holds a `b` scores at most `max`, or is pending: the
      segment has no `b` yet, one is still ahead, and its arrival will record at least the
      substring's score. */
  ghost predicate Covered(s: string, a: char, b: char, i: nat, countA: int, countB: int, remaining: int, max: int)
    requires i <= |s|
  {
    forall l, q :: 0 <= l < q <= i && Occ(s, b, l, q) > 0 ==>
      Diff(s, a, b, l, q) <= max || (countB == 0 && remaining > 0 && Diff(s, a, b, l, q) <= countA - 1)
  }

  /** `max` is still its starting value, or the score of a substring holding a `b`. */
  ghost predicate Attained(s: string, a: char, b: char, i: nat, max: int, max0: int)
    requires i <= |s|
  {
    max == max0 || exists l, q :: 0 <= l < q <= i && Occ(s, b, l, q) > 0 && Diff(s, a, b, l, q) == max
  }

  /** One character: `countA`/`countB`/`remaining` are the counts after it and before any
      restart, `max` the maximum after recording. */
  lemma CoveredStep(s: string, a: char, b: char, i: nat, start: nat, countA: int, countB: int, remaining: int,
                    max: int, countA': int, countB': int, remaining': int, max': int)
    requires a != b && i < |s|
    requires Segment(s, a, b, i, start, countA, countB, remaining) && Covered(s, a, b, i, countA, countB, remaining, max)
    requires Segment(s, a, b, i + 1, start, countA', countB', remaining')
    requires Kadane(s, a, b, i + 1, i, start, countA' - countB')
    requires max' == if countB' > 0 then Max(max, countA' - countB') else max
    ensures countB' == 0 ==> countA' >= 0
    ensures Covered(s, a, b, i + 1, countA', countB', remaining', max')
  {
    OccStep(s, a, start, i);
    OccStep(s, b, start, i);
    forall l, q | 0 <= l < q <= i + 1 && Occ(s, b, l, q) > 0
      ensures Diff(s, a, b, l, q) <= max' ||
              (countB' == 0 && remaining' > 0 && Diff(s, a, b, l, q) <= countA' - 1)
    {
      if q == i + 1 && countB' == 0 {
        if start <= l {
          OccSplit(s, b, start, l, i + 1);
        }
        OccSplit(s, b, l, i + 1, |s|);
        OccSplit(s, b, start, i + 1, |s|);
      } else if q == i + 1 {
        OccSplit(s, b, l, i + 1, |s|);
      } else {
        RemainingStep(s, b, i);
      }
    }
  }

  /** One character of the scan (the body of the inner loop): count it, record the
      difference once the segment holds a `b`, and restart on a negative difference while
      a `b` is still ahead. The contract is the scan's loop invariant, carried from `i`
      to `i + 1`. */
  method Consume(s: string, a: char, b: char, i: nat, countA: int, countB: int, remaining: int, max: int,
                 ghost start: nat, ghost max0: int)
    returns (i': nat, countA': int, countB': int, remaining': int, max': int, ghost start': nat)
    requires a != b && i < |s|
    requires Segment(s, a, b, i, start, countA, countB, remaining)
    requires Kadane(s, a, b, i, i, start, countA - countB)
    requires Covered(s, a, b, i, countA, countB, remaining, max)
    requires Attained(s, a, b, i, max, max0) && max >= max0
    ensures i' == i + 1
    ensures Segment(s, a, b, i', start', countA', countB', remaining')
    ensures Kadane(s, a, b, i', i', start', countA' - countB')
    ensures Covered(s, a, b, i', countA', countB', remaining', max')
    ensures Attained(s, a, b, i', max', max0) && max' >= max0
  {
    var ch := s[i];
    countA', countB', remaining' := countA, countB, remaining;
    if ch == a {
      countA' := countA' + 1;
    } else if ch == b {
      countB' := countB' + 1;
      remaining' := remaining' - 1;
    }
    var variance := countA' - countB';
    max' := max;
    if countB' > 0 {
      max' := Max(max, variance);
    }
    var preA, preB := countA', countB';
    start' := start;
    if variance < 0 && remaining' > 0 {
      countA', countB' := 0, 0;
      start' := i + 1;
    }
    ConsumeSound(s, a, b, i, start, countA, countB, remaining, max, max0,
                 preA, preB, remaining', max', countA', countB', start');
    i' := i + 1;
  }

  /** The invariant survives one character, with or without a restart. */
  lemma ConsumeSound(s: string, a: char, b: char, i: nat, start: nat, countA: int, countB: int, remaining: int,
                     max: int, max0: int, preA: int, preB: int, remaining': int, max': int,
                     countA': int, countB': int, start': nat)
    requires a != b && i < |s|
    requires Segment(s, a, b, i, start, countA, countB, remaining)
    requires Kadane(s, a, b, i, i, start, countA - countB)
    requires Covered(s, a, b, i, countA, countB, remaining, max)
    requires Attained(s, a, b, i, max, max0) && max >= max0
    requires preA == countA + (if s[i] == a then 1 else 0)
    requires preB == countB + (if s[i] == b then 1 else 0)
    requires remaining' == remaining - (if s[i] == b then 1 else 0)
    requires max' == if preB > 0 then Max(max, preA - preB) else max
    requires if preA - preB < 0 && remaining' > 0 then countA' == 0 && countB' == 0 && start' == i + 1
             else countA' == preA && countB' == preB && start' == start
    ensures Segment(s, a, b, i + 1, start', countA', countB', remaining')
    ensures Kadane(s, a, b, i + 1, i + 1, start', countA' - countB')
    ensures Covered(s, a, b, i + 1, countA', countB', remaining', max')
    ensures Attained(s, a, b, i + 1, max', max0) && max' >= max0
  {
    OccStep(s, a, start, i);
    OccStep(s, b, start, i);
    RemainingStep(s, b, i);
    KadaneAdvance(s, a, b, i, start, countA - countB);
    CoveredStep(s, a, b, i, start, countA, countB, remaining, max, preA, preB, remaining', max');
    AttainedStep(s, a, b, i, start, max, max0, preA, preB, max');
    if preA - preB < 0 && remaining' > 0 {
      KadaneRestart(s, a, b, i, start, preA - preB);
      OccEmpty(s, a, i + 1);
      OccEmpty(s, b, i + 1);
    } else {
      KadaneKeep(s, a, b, i, start, preA - preB);
    }
  }

  lemma AttainedStep(s: string, a: char, b: char, i: nat, start: nat, max: int, max0: int,
                     countA': int, countB': int, max': int)
    requires start <= i < |s| && Attained(s, a, b, i, max, max0)
    requires countA' == Occ(s, a, start, i + 1) && countB' == Occ(s, b, start, i + 1)
    requires max' == if countB' > 0 then Max(max, countA' - countB') else max
    ensures Attained(s, a, b, i + 1, max', max0)
  {
    if max' != max0 {
      if countB' > 0 && max' == countA' - countB' {
        assert Occ(s, b, start, i + 1) > 0 && Diff(s, a, b, start, i + 1) == max';
      } else {
        var l, q :| 0 <= l < q <= i && Occ(s, b, l, q) > 0 && Diff(s, a, b, l, q) == max;
        assert Occ(s, b, l, q) > 0 && Diff(s, a, b, l, q) == max';
      }
    }
  }

  /** Every substring holding a `b` has at most `max` more `a` than `b`. */
  ghost predicate Bounded(s: string, a: char, b: char, max: int)
  {
    forall l, q :: 0 <= l < q <= |s| && Occ(s, b, l, q) > 0 ==> Diff(s, a, b, l, q) <= max
  }

  /** The scan for one ordered pair (lines 27-50): afterwards `max` bounds the pair's
      difference over every substring holding a `b`, and grew only to a difference some
      such substring has. `remaining` starts at the number of `b` in `s`. */
  method Scan(s: string, a: char, b: char, remaining: int, max: int) returns (max': int)
    requires a != b && remaining == Occ(s, b, 0, |s|)
    ensures max' >= max && Bounded(s, a, b, max')
    ensures max' == max ||
            exists l, q :: 0 <= l < q <= |s| && Occ(s, b, l, q) > 0 && Diff(s, a, b, l, q) == max'
  {
    var i: nat, countA, countB, rem := 0, 0, 0, remaining;
    ghost var start: nat := 0;
    max' := max;
    OccEmpty(s, a, 0);
    OccEmpty(s, b, 0);
    while i < |s|
      invariant Segment(s, a, b, i, start, countA, countB, rem)
      invariant Kadane(s, a, b, i, i, start, countA - countB)
      invariant Covered(s, a, b, i, countA, countB, rem, max')
      invariant Attained(s, a, b, i, max', max) && max' >= max
      decreases |s| - i
    {
      i, countA, countB, rem, max', start := Consume(s, a, b, i, countA, countB, rem, max', start, max);
    }
    OccEmpty(s, b, |s|);
  }

  lemma BoundedGrow(s: string, a: char, b: char, max: int, max': int)
    requires Bounded(s, a, b, max) && max <= max'
    ensures Bounded(s, a, b, max')
  {
  }

  /** The letter with index `x`, as `x as u8 + b'a'` in the source. */
  function Letter(x: nat): char
    requires x < Chars
  {
    (x + 'a' as int) as char
  }

  /** The letter counts of lines 9-13: entry `x` holds the occurrences of `Letter(x)`. */
  ghost predicate Tally(s: string, counts: seq<int>)
  {
    |counts| == Chars && forall x :: 0 <= x < Chars ==> counts[x] == Occ(s, Letter(x), 0, |s|)
  }

  method CountLetters(s: string) returns (counts: seq<int>)
    requires Lowercase(s)
    ensures Tally(s, counts)
  {
    counts := seq(Chars, _ => 0);
    var i := 0;
    forall x | 0 <= x < Chars ensures counts[x] == Occ(s, Letter(x), 0, 0) {
      OccEmpty(s, Letter(x), 0);
    }
    while i < |s|
      invariant i <= |s| && |counts| == Chars
      invariant forall x :: 0 <= x < Chars ==> counts[x] == Occ(s, Letter(x), 0, i)
    {
      var idx := s[i] as int - 'a' as int;
      assert Letter(idx) == s[i];
      forall x | 0 <= x < Chars ensures Occ(s, Letter(x), 0, i + 1) == Occ(s, Letter(x), 0, i) + if x == idx then 1 else 0 {
        OccStep(s, Letter(x), 0, i);
      }
      counts := counts[idx := counts[idx] + 1];
      i := i + 1;
    }
  }

  /** The ordered pairs of letters before `(f, g)` in the loops' order, both present and
      distinct, are bounded by `max`. */
  ghost predicate Done(s: string, counts: seq<int>, f: nat, g: nat, max: int)
    requires |counts| == Chars
  {
    forall x, y ::
      0 <= x < Chars && 0 <= y < Chars && (x < f || (x == f && y < g)) && x != y && counts[x] > 0 && counts[y] > 0
      ==> Bounded(s, Letter(x), Letter(y), max)
  }

  /** `max` is zero or the difference of two letters present in some substring. */
  ghost predicate Witnessed(s: string, max: int)
  {
    max == 0 ||
    exists l, q, a, b :: 0 <= l < q <= |s| && Occ(s, a, l, q) > 0 && Occ(s, b, l, q) > 0 &&
      Diff(s, a, b, l, q) == max
  }

  lemma DoneGrow(s: string, counts: seq<int>, f: nat, g: nat, max: int, max': int)
    requires |counts| == Chars && Done(s, counts, f, g, max) && max <= max'
    ensures Done(s, counts, f, g, max')
  {
    forall x, y | 0 <= x < Chars && 0 <= y < Chars && (x < f || (x == f && y < g)) &&
      x != y && counts[x] > 0 && counts[y] > 0
      ensures Bounded(s, Letter(x), Letter(y), max')
    {
      BoundedGrow(s, Letter(x), Letter(y), max, max');
    }
  }

  /** One pass of the inner loop (lines 22-50): pairs of equal letters and absent second
      letters are skipped, the rest scanned. */
  method Pair(s: string, counts: seq<int>, f: nat, g: nat, max: int) returns (g': nat, max': int)
    requires Tally(s, counts) && f < Chars && g < Chars && counts[f] > 0
    requires max >= 0 && Done(s, counts, f, g, max) && Witnessed(s, max)
    ensures g' == g + 1 && max' >= 0 && Done(s, counts, f, g', max') && Witnessed(s, max')
  {
    g' := g + 1;
    if f == g || counts[g] == 0 {
      max' := max;
    } else {
      var a, b := Letter(f), Letter(g);
      max' := Scan(s, a, b, counts[g], max);
      DoneGrow(s, counts, f, g, max, max');
      if max' != max {
        var l, q :| 0 <= l < q <= |s| && Occ(s, b, l, q) > 0 && Diff(s, a, b, l, q) == max';
        assert Occ(s, a, l, q) > 0 && Occ(s, b, l, q) > 0 && Diff(s, a, b, l, q) == max';
      }
    }
  }

  /** One pass of the outer loop (lines 17-52): a first letter absent from `s` is skipped. */
  method Row(s: string, counts: seq<int>, f: nat, max: int) returns (f': nat, max': int)
    requires Tally(s, counts) && f < Chars
    requires max >= 0 && Done(s, counts, f, 0, max) && Witnessed(s, max)
    ensures f' == f + 1 && max' >= 0 && Done(s, counts, f', 0, max') && Witnessed(s, max')
  {
    max' := max;
    if counts[f] != 0 {
      var g: nat := 0;
      while g < Chars
        invariant g <= Chars && max' >= 0 && Done(s, counts, f, g, max') && Witnessed(s, max')
      {
        g, max' := Pair(s, counts, f, g, max');
      }
    }
    f' := f + 1;
  }

  /** The answer's definition: no substring has two present letters whose counts differ
      by more than `v`, and unless `s` is empty some substring has two that differ by
      exactly `v` (a letter paired with itself differs by zero). */
  ghost predicate Largest(s: string, v: int)
  {
    (forall l, q, a, b :: 0 <= l < q <= |s| && Occ(s, a, l, q) > 0 && Occ(s, b, l, q) > 0 ==>
       Diff(s, a, b, l, q) <= v) &&
    (|s| > 0 ==>
       exists l, q, a, b :: 0 <= l < q <= |s| && Occ(s, a, l, q) > 0 && Occ(s, b, l, q) > 0 &&
         Diff(s, a, b, l, q) == v) &&
    (|s| == 0 ==> v == 0)
  }

  /** The answer is determined by the string. */
  lemma LargestUnique(s: string, v: int, w: int)
    requires Largest(s, v) && Largest(s, w)
    ensures v == w
  {
    if |s| > 0 {
      var l, q, a, b :| 0 <= l < q <= |s| && Occ(s, a, l, q) > 0 && Occ(s, b, l, q) > 0 && Diff(s, a, b, l, q) == v;
      var l', q', a', b' :| 0 <= l' < q' <= |s| && Occ(s, a', l', q') > 0 && Occ(s, b', l', q') > 0 &&
        Diff(s, a', b', l', q') == w;
    }
  }

  lemma {:induction false} CountPositive<T>(t: seq<T>, x: T)
    requires Count(t, x) > 0
    ensures exists k :: 0 <= k < |t| && t[k] == x
    decreases |t|
  {
    if t[|t| - 1] != x {
      CountPositive(t[..|t| - 1], x);
      var k :| 0 <= k < |t| - 1 && t[..|t| - 1][k] == x;
      assert t[k] == x;
    }
  }

  /** A letter present in a substring of a lowercase string is counted by the tally. */
  lemma PresentCounted(s: string, counts: seq<int>, c: char, l: nat, q: nat) returns (x: nat)
    requires Lowercase(s) && Tally(s, counts) && l <= q <= |s| && Occ(s, c, l, q) > 0
    ensures x < Chars && Letter(x) == c && counts[x] > 0
  {
    CountPositive(s[l..q], c);
    var k :| 0 <= k < |s[l..q]| && s[l..q][k] == c;
    assert s[l + k] == c;
    x := c as int - 'a' as int;
    OccSplit(s, c, 0, l, |s|);
    OccSplit(s, c, l, q, |s|);
  }

  /** The whole function (lines 8-55): tally the letters, then scan every ordered pair of
      distinct letters present in `s`. */
  method LargestVariance(s: string) returns (max: int)
    requires Lowercase(s)
    ensures Largest(s, max)
  {
    var counts := CountLetters(s);
    max := 0;
    var f: nat := 0;
    while f < Chars
      invariant f <= Chars && max >= 0 && Done(s, counts, f, 0, max) && Witnessed(s, max)
    {
      f, max := Row(s, counts, f, max);
    }
    forall l, q, a, b | 0 <= l < q <= |s| && Occ(s, a, l, q) > 0 && Occ(s, b, l, q) > 0
      ensures Diff(s, a, b, l, q) <= max
    {
      if a != b {
        var x := PresentCounted(s, counts, a, l, q);
        var y := PresentCounted(s, counts, b, l, q);
        assert Bounded(s, Letter(x), Letter(y), max);
      }
    }
    if |s| > 0 && max == 0 {
      OccEmpty(s, s[0], 0);
      OccStep(s, s[0], 0, 0);
      assert Occ(s, s[0], 0, 1) > 0 && Diff(s, s[0], s[0], 0, 1) == 0;
    }
  }
}
