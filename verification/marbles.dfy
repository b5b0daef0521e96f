/** Spread between the largest and smallest score of putting marbles into bags
    (two_pointers/marbles.rs). */
module Marbles {
  import opened Common

  /** Sums of neighbouring weights, one per place a bag may end (`windows(2)`). */
  function Splits(w: seq<int>): (s: seq<int>)
    ensures |s| == if |w| == 0 then 0 else |w| - 1
    ensures forall i :: 0 <= i < |s| ==> s[i] == w[i] + w[i + 1]
  {
    if |w| < 2 then [] else seq(|w| - 1, i requires 0 <= i < |w| - 1 => w[i] + w[i + 1])
  }

  /** A distribution into `k` bags, given by the `k - 1` marbles after which a bag ends,
      in increasing order; every bag is then a non-empty run of neighbours. */
  ghost predicate IsCuts(n: int, k: int, cuts: seq<int>)
  {
    |cuts| == k - 1 &&
    (forall i :: 0 <= i < |cuts| ==> 0 <= cuts[i] < n - 1) &&
    (forall i, j :: 0 <= i < j < |cuts| ==> cuts[i] < cuts[j])
  }

  function Pick(s: seq<int>, idx: seq<int>): (p: seq<int>)
    requires forall i :: 0 <= i < |idx| ==> 0 <= idx[i] < |s|
    ensures |p| == |idx| && forall i :: 0 <= i < |idx| ==> p[i] == s[idx[i]]
  {
    seq(|idx|, i requires 0 <= i < |idx| => s[idx[i]])
  }

  /** Score of a distribution: each bag costs its first and last weight, so the total is
      the two outer weights plus the split sum at every cut. */
  ghost function Score(w: seq<int>, k: int, cuts: seq<int>): int
    requires |w| >= 1 && IsCuts(|w|, k, cuts)
  {
    w[0] + w[|w| - 1] + Sum(Pick(Splits(w), cuts))
  }

  /** Number of split sums `take(k as usize - 1)` keeps: a negative `k` becomes a huge
      `usize`, which keeps them all. */
  function TakeCount(k: int, len: nat): (m: nat)
    requires k != 0
    ensures m <= len
  {
    if k > 0 then Min(k - 1, len) else len
  }

  /** `put_marbles`: the sum of the `k - 1` largest split sums less the sum of the `k - 1`
      smallest ones. `k == 0` underflows `k as usize - 1` in the source, hence the
      precondition. */
  function PutMarbles(w: seq<int>, k: int): (r: int)
    requires k != 0
    ensures k == 1 ==> r == 0
  {
    var t := Sort(Splits(w));
    var m := TakeCount(k, |t|);
    Sum(t[|t| - m..]) - Sum(t[..m])
  }

  lemma {:induction false} PickWithin(s: seq<int>, idx: seq<int>, m: int)
    requires 0 <= m <= |s|
    requires forall i :: 0 <= i < |idx| ==> 0 <= idx[i] < m
    requires forall i, j :: 0 <= i < j < |idx| ==> idx[i] < idx[j]
    ensures multiset(Pick(s, idx)) <= multiset(s[..m])
    decreases |idx|
  {
    if |idx| > 0 {
      var l := idx[|idx| - 1];
      var front := idx[..|idx| - 1];
      PickWithin(s, front, l);
      assert Pick(s, idx) == Pick(s, front) + [s[l]];
      assert s[..l + 1] == s[..l] + [s[l]];
      assert s[..m] == s[..l + 1] + s[l + 1..m];
    }
  }

  /** Removing one position from a sequence removes its value from the sum. */
  lemma SumWithout(u: seq<int>, j: int)
    requires 0 <= j < |u|
    ensures Sum(u) == u[j] + Sum(u[..j] + u[j + 1..])
  {
    var a, x, b := u[..j], u[j], u[j + 1..];
    assert u == a + ([x] + b);
    SumAppend(a, [x] + b);
    SumCons(x, b);
    SumAppend(a, b);
  }

  lemma SortedBounds(t: seq<int>, x: int)
    requires Sorted(t) && x in multiset(t)
    ensures t[0] <= x <= t[|t| - 1]
  {
    assert x in t;
  }

  /** Position of `u` to pair with the extreme element `e` of the sorted sequence: `e`
      itself when `u` holds it, and otherwise any position. */
  lemma ChoosePosition(u: seq<int>, e: int) returns (j: int)
    requires |u| > 0
    ensures 0 <= j < |u|
    ensures e in multiset(u) ==> u[j] == e
  {
    if e in multiset(u) {
      assert e in u;
      j :| 0 <= j < |u| && u[j] == e;
    } else {
      j := 0;
    }
  }

  lemma Remove(u: seq<int>, j: int) returns (rest: seq<int>)
    requires 0 <= j < |u|
    ensures |rest| == |u| - 1
    ensures multiset(rest) == multiset(u) - multiset{u[j]}
    ensures Sum(u) == u[j] + Sum(rest)
  {
    rest := u[..j] + u[j + 1..];
    assert u == u[..j] + [u[j]] + u[j + 1..];
    SumWithout(u, j);
  }

  lemma SubAfterRemove(u: multiset<int>, t: multiset<int>, x: int, e: int)
    requires u <= t && x in u && e in t
    requires e in u ==> x == e
    ensures u - multiset{x} <= t - multiset{e}
  {
  }

  /** The first `|u|` elements of a sorted sequence sum to no more than any `|u|` of its
      elements. */
  lemma {:induction false} SmallestPrefix(t: seq<int>, u: seq<int>)
    requires Sorted(t) && multiset(u) <= multiset(t)
    ensures |u| <= |t|
    ensures Sum(t[..|u|]) <= Sum(u)
    decreases |u|
  {
    if |u| > 0 {
      assert u[0] in multiset(t);
      var e, tail := t[0], t[1..];
      var j := ChoosePosition(u, e);
      var rest := Remove(u, j);
      DropFirst(t);
      SubAfterRemove(multiset(u), multiset(t), u[j], e);
      SmallestPrefix(tail, rest);
      SortedBounds(t, u[j]);
      assert t[..|u|] == [e] + tail[..|rest|];
      SumCons(e, tail[..|rest|]);
    }
  }

  lemma DropFirst(t: seq<int>)
    requires Sorted(t) && |t| > 0
    ensures Sorted(t[1..])
    ensures multiset(t[1..]) == multiset(t) - multiset{t[0]}
  {
    assert t == [t[0]] + t[1..];
  }

  lemma DropLast(t: seq<int>)
    requires Sorted(t) && |t| > 0
    ensures Sorted(t[..|t| - 1])
    ensures multiset(t[..|t| - 1]) == multiset(t) - multiset{t[|t| - 1]}
  {
    assert t == t[..|t| - 1] + [t[|t| - 1]];
  }

  lemma SuffixSum(t: seq<int>, n: int)
    requires 1 <= n <= |t|
    ensures Sum(t[|t| - n..]) == Sum(t[..|t| - 1][|t| - n..]) + t[|t| - 1]
  {
    var suffix := t[|t| - n..];
    assert suffix[..|suffix| - 1] == t[..|t| - 1][|t| - n..];
  }

  /** The last `|u|` elements of a sorted sequence sum to at least any `|u|` of its elements. */
  lemma {:induction false} LargestSuffix(t: seq<int>, u: seq<int>)
    requires Sorted(t) && multiset(u) <= multiset(t)
    ensures |u| <= |t|
    ensures Sum(u) <= Sum(t[|t| - |u|..])
    decreases |u|
  {
    if |u| > 0 {
      assert u[0] in multiset(t);
      var e, front := t[|t| - 1], t[..|t| - 1];
      var j := ChoosePosition(u, e);
      var rest := Remove(u, j);
      DropLast(t);
      SubAfterRemove(multiset(u), multiset(t), u[j], e);
      LargestSuffix(front, rest);
      SortedBounds(t, u[j]);
      SuffixSum(t, |u|);
    }
  }

  lemma SuffixInside(t: seq<int>, a: int)
    requires 0 <= a <= |t|
    ensures multiset(t[a..]) <= multiset(t)
  {
    assert t == t[..a] + t[a..];
  }

  /** Any choice of distinct positions of `s` sums to between the sums of the same number
      of smallest and of largest elements of its sorted copy `t`. */
  lemma PickBounds(s: seq<int>, t: seq<int>, idx: seq<int>)
    requires Sorted(t) && multiset(t) == multiset(s)
    requires forall i :: 0 <= i < |idx| ==> 0 <= idx[i] < |s|
    requires forall i, j :: 0 <= i < j < |idx| ==> idx[i] < idx[j]
    ensures |idx| <= |t|
    ensures Sum(t[..|idx|]) <= Sum(Pick(s, idx)) <= Sum(t[|t| - |idx|..])
  {
    var p := Pick(s, idx);
    PickWithin(s, idx, |s|);
    assert s[..|s|] == s;
    LargestSuffix(t, p);
    SmallestPrefix(t, p);
  }

  /** The score of any distribution into `k` bags lies between the outer weights plus the
      `k - 1` smallest split sums and the outer weights plus the `k - 1` largest ones. */
  lemma CutSumBounds(w: seq<int>, k: int, cuts: seq<int>)
    requires k >= 1 && |w| >= 1 && IsCuts(|w|, k, cuts)
    ensures k <= |w|
    ensures w[0] + w[|w| - 1] + Sum(Sort(Splits(w))[..k - 1]) <= Score(w, k, cuts)
    ensures Score(w, k, cuts) <= w[0] + w[|w| - 1] + Sum(Sort(Splits(w))[|w| - k..])
  {
    var s := Splits(w);
    PickBounds(s, Sort(s), cuts);
  }

  /** The result bounds the difference between the scores of any two distributions into
      `k` bags. */
  lemma PutMarblesSpread(w: seq<int>, k: int, c1: seq<int>, c2: seq<int>)
    requires k >= 1 && |w| >= 1 && IsCuts(|w|, k, c1) && IsCuts(|w|, k, c2)
    ensures Score(w, k, c1) - Score(w, k, c2) <= PutMarbles(w, k)
  {
    CutSumBounds(w, k, c1);
    CutSumBounds(w, k, c2);
    PutMarblesValue(w, k);
  }

  /** The result is never negative. */
  lemma PutMarblesNonNegative(w: seq<int>, k: int)
    requires k != 0
    ensures 0 <= PutMarbles(w, k)
  {
    var t := Sort(Splits(w));
    var m := TakeCount(k, |t|);
    SuffixInside(t, |t| - m);
    SmallestPrefix(t, t[|t| - m..]);
  }

  /** Takes the last element of `s` out of its sorted copy `t`. */
  lemma RemoveLast(s: seq<int>, t: seq<int>) returns (p: int, t': seq<int>)
    requires multiset(t) == multiset(s) && |t| == |s| > 0
    ensures 0 <= p < |t| && t[p] == s[|s| - 1]
    ensures t' == t[..p] + t[p + 1..] && |t'| == |s| - 1
    ensures multiset(t') == multiset(s[..|s| - 1])
  {
    var x := s[|s| - 1];
    assert s == s[..|s| - 1] + [x];
    assert x in multiset(t);
    assert x in t;
    p :| 0 <= p < |t| && t[p] == x;
    t' := t[..p] + t[p + 1..];
    assert t == t[..p] + [x] + t[p + 1..];
    assert multiset(t) == multiset(t[..p]) + multiset{x} + multiset(t[p + 1..]);
    assert multiset(t') == multiset(t[..p]) + multiset(t[p + 1..]);
    assert multiset(s) == multiset(s[..|s| - 1]) + multiset{x};
    assert multiset(t') == multiset(t) - multiset{x};
  }

  lemma PickLast(s: seq<int>, idx: seq<int>)
    requires |s| > 0
    requires forall i :: 0 <= i < |idx| ==> 0 <= idx[i] < |s| - 1
    ensures Sum(Pick(s, idx + [|s| - 1])) == Sum(Pick(s[..|s| - 1], idx)) + s[|s| - 1]
    ensures Pick(s, idx) == Pick(s[..|s| - 1], idx)
  {
    assert Pick(s, idx + [|s| - 1]) == Pick(s[..|s| - 1], idx) + [s[|s| - 1]];
    SumAppend(Pick(s[..|s| - 1], idx), [s[|s| - 1]]);
    SumOne(s[|s| - 1]);
  }

  /** Removing position `p` of `t` inside or outside the first `m` positions. */
  lemma PrefixAfterRemove(t: seq<int>, p: int, m: int)
    requires 0 <= p < |t| && 0 <= m <= |t|
    ensures p < m ==> Sum(t[..m]) == t[p] + Sum((t[..p] + t[p + 1..])[..m - 1])
    ensures m <= p ==> (t[..p] + t[p + 1..])[..m] == t[..m]
  {
    if p < m {
      assert (t[..p] + t[p + 1..])[..m - 1] == t[..m][..p] + t[..m][p + 1..];
      SumWithout(t[..m], p);
    }
  }

  /** Removing position `p` of `t` inside or outside the last `m` positions. */
  lemma SuffixAfterRemove(t: seq<int>, p: int, m: int)
    requires 0 <= p < |t| && 0 <= m <= |t|
    ensures |t| - m <= p ==> Sum(t[|t| - m..]) == t[p] + Sum((t[..p] + t[p + 1..])[|t| - m..])
    ensures p < |t| - m ==> (t[..p] + t[p + 1..])[|t| - 1 - m..] == t[|t| - m..]
  {
    var n := |t|;
    if n - m <= p {
      var suffix := t[n - m..];
      assert (t[..p] + t[p + 1..])[n - m..] == suffix[..p - (n - m)] + suffix[p - (n - m) + 1..];
      SumWithout(suffix, p - (n - m));
    }
  }

  /** The first `m` elements of a permutation `t` of `s` (for the sorted copy: the `m`
      smallest) sit at some `m` increasing positions of `s`. */
  lemma {:induction false} SmallestRealized(s: seq<int>, t: seq<int>, m: int) returns (idx: seq<int>)
    requires multiset(t) == multiset(s) && |t| == |s| && 0 <= m <= |s|
    ensures |idx| == m
    ensures forall i :: 0 <= i < |idx| ==> 0 <= idx[i] < |s|
    ensures forall i, j :: 0 <= i < j < |idx| ==> idx[i] < idx[j]
    ensures Sum(Pick(s, idx)) == Sum(t[..m])
    decreases |s|
  {
    if m == 0 {
      return [];
    }
    var p, t' := RemoveLast(s, t);
    PrefixAfterRemove(t, p, m);
    if p < m {
      var idx' := SmallestRealized(s[..|s| - 1], t', m - 1);
      PickLast(s, idx');
      idx := idx' + [|s| - 1];
    } else {
      idx := SmallestRealized(s[..|s| - 1], t', m);
      PickLast(s, idx);
    }
  }

  /** The last `m` elements of a permutation `t` of `s` (for the sorted copy: the `m`
      largest) sit at some `m` increasing positions of `s`. */
  lemma {:induction false} LargestRealized(s: seq<int>, t: seq<int>, m: int) returns (idx: seq<int>)
    requires multiset(t) == multiset(s) && |t| == |s| && 0 <= m <= |s|
    ensures |idx| == m
    ensures forall i :: 0 <= i < |idx| ==> 0 <= idx[i] < |s|
    ensures forall i, j :: 0 <= i < j < |idx| ==> idx[i] < idx[j]
    ensures Sum(Pick(s, idx)) == Sum(t[|t| - m..])
    decreases |s|
  {
    if m == 0 {
      return [];
    }
    var p, t' := RemoveLast(s, t);
    SuffixAfterRemove(t, p, m);
    if |t| - m <= p {
      var idx' := LargestRealized(s[..|s| - 1], t', m - 1);
      PickLast(s, idx');
      idx := idx' + [|s| - 1];
    } else {
      idx := LargestRealized(s[..|s| - 1], t', m);
      PickLast(s, idx);
    }
  }

  lemma PutMarblesValue(w: seq<int>, k: int)
    requires 1 <= k <= |w|
    ensures PutMarbles(w, k) == Sum(Sort(Splits(w))[|w| - k..]) - Sum(Sort(Splits(w))[..k - 1])
  {
    var t := Sort(Splits(w));
    assert |t| == |w| - 1;
    assert TakeCount(k, |t|) == k - 1;
    assert |t| - (k - 1) == |w| - k;
  }

  /** When `1 <= k <= |weights|`, some two distributions into `k` bags differ in score by
      exactly the result: the maximum and the minimum are both reached. */
  lemma PutMarblesAttained(w: seq<int>, k: int) returns (c1: seq<int>, c2: seq<int>)
    requires 1 <= k <= |w|
    ensures IsCuts(|w|, k, c1) && IsCuts(|w|, k, c2)
    ensures Score(w, k, c1) - Score(w, k, c2) == PutMarbles(w, k)
  {
    var s := Splits(w);
    var t := Sort(s);
    assert |t| == |s| == |w| - 1;
    c1 := LargestRealized(s, t, k - 1);
    c2 := SmallestRealized(s, t, k - 1);
    assert IsCuts(|w|, k, c1) && IsCuts(|w|, k, c2);
    assert Score(w, k, c1) == w[0] + w[|w| - 1] + Sum(t[|w| - k..]);
    assert Score(w, k, c2) == w[0] + w[|w| - 1] + Sum(t[..k - 1]);
    PutMarblesValue(w, k);
  }
}
