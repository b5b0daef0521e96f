/** Cookie distribution by enumeration (dynamic_programming/distribute_cookies.rs): a
    `u32` holds three bits per bag naming the child that gets it, and every such word
    below `2^(3n)` is scored. */
module CookieMasks {
  import opened Common
  import opened Cookies

  const CookieBitSize: nat := 3

  /** `child_idx`: bits `3n .. 3n + 2` of the mask. */
  function ChildIdx(mask: nat, n: nat): (c: nat)
    ensures c < 8
  {
    (mask / Pow2(CookieBitSize * n)) % 8
  }

  /** `child_indices`: the child named for each of the first `count` bags. */
  function ChildIndices(mask: nat, count: nat): (a: seq<nat>)
    ensures Assignment(a, count, 8)
    ensures forall i :: 0 <= i < count ==> a[i] == ChildIdx(mask, i)
  {
    seq(count, (i: int) requires 0 <= i => ChildIdx(mask, i))
  }

  /** The mask names only existing children for the first `count` bags. */
  predicate Valid(mask: nat, count: nat, children: nat)
  {
    forall i :: 0 <= i < count ==> ChildIdx(mask, i) < children
  }

  /** The all-zero mask gives every bag to child 0, so the search never comes up empty. */
  lemma ZeroMaskValid(count: nat, children: nat)
    requires children >= 1
    ensures Valid(0, count, children)
  {
  }

  /** The counting loop of `unfairness`, from bag `i` on. */
  function Tally(mask: nat, cookies: seq<int>, counts: seq<int>, i: nat): (r: seq<int>)
    requires i <= |cookies| && Valid(mask, |cookies|, |counts|)
    ensures r == Spread(counts, cookies[i..], ChildIndices(mask, |cookies|)[i..])
    decreases |cookies| - i
  {
    if i == |cookies| then counts
    else
      var c := ChildIdx(mask, i);
      var r := Tally(mask, cookies, counts[c := counts[c] + cookies[i]], i + 1);
      assert cookies[i..][1..] == cookies[i + 1..];
      assert ChildIndices(mask, |cookies|)[i..][1..] == ChildIndices(mask, |cookies|)[i + 1..];
      r
  }

  /** `unfairness`: the largest child total under the assignment the mask encodes. */
  function Unfairness(mask: nat, cookies: seq<int>, children: nat): (u: int)
    requires children >= 1 && Valid(mask, |cookies|, children)
  {
    MaxOf(Tally(mask, cookies, Zeros(children), 0))
  }

  lemma UnfairnessSpread(mask: nat, cookies: seq<int>, children: nat)
    requires children >= 1 && Valid(mask, |cookies|, children)
    ensures Unfairness(mask, cookies, children) == MaxOf(Spread(Zeros(children), cookies, ChildIndices(mask, |cookies|)))
  {
    assert cookies[0..] == cookies;
  }

  /** Reading the mask back as an assignment: the inverse of `ChildIndices`. */
  function Encode(a: seq<nat>): nat
    requires Assignment(a, |a|, 8)
  {
    if |a| == 0 then 0 else a[0] + 8 * Encode(a[1..])
  }

  /** Shifting by three more bits is dividing by eight first. */
  lemma ChildIdxNext(mask: nat, n: nat)
    ensures ChildIdx(mask, n + 1) == ChildIdx(mask / 8, n)
  {
    Pow2Add(3, CookieBitSize * n);
    assert Pow2(3) == 8;
    assert CookieBitSize * (n + 1) == 3 + CookieBitSize * n;
    DivDiv(mask, 8, Pow2(CookieBitSize * n));
  }

  lemma Pow2Step(n: nat)
    ensures Pow2(CookieBitSize * (n + 1)) == 8 * Pow2(CookieBitSize * n)
  {
    Pow2Add(3, CookieBitSize * n);
    assert Pow2(3) == 8;
    assert CookieBitSize * (n + 1) == 3 + CookieBitSize * n;
  }

  /** Every assignment to at most eight children has a mask below `2^(3n)` that encodes
      it. */
  lemma {:induction false} EncodeDecode(a: seq<nat>)
    requires Assignment(a, |a|, 8)
    ensures Encode(a) < Pow2(CookieBitSize * |a|)
    ensures ChildIndices(Encode(a), |a|) == a
    decreases |a|
  {
    if |a| > 0 {
      var rest := a[1..];
      EncodeDecode(rest);
      var m := Encode(a);
      Pow2Step(|rest|);
      DivUnique(m, 8, Encode(rest), a[0]);
      forall i | 0 <= i < |a|
        ensures ChildIdx(m, i) == a[i]
      {
        if i > 0 {
          ChildIdxNext(m, i - 1);
          assert ChildIndices(Encode(rest), |rest|)[i - 1] == rest[i - 1];
        }
      }
    }
  }

  /** The child totals are the same whether or not the extra children exist: a valid mask
      never names a child the vector does not have. */
  lemma MaskBest(cookies: seq<int>, k: nat, limit: nat, mask: nat, r: int)
    requires 1 <= k && limit == Pow2(CookieBitSize * |cookies|)
    requires Leading(cookies, k, limit, Some(r), mask)
    ensures Best(Zeros(k), cookies, Min(k, 8), r)
    ensures k <= 8 ==> Fairest(cookies, k, r)
  {
    var n := |cookies|;
    var a := ChildIndices(mask, n);
    assert Assignment(a, n, Min(k, 8));
    UnfairnessSpread(mask, cookies, k);
    forall b | Assignment(b, n, Min(k, 8))
      ensures r <= MaxOf(Spread(Zeros(k), cookies, b))
    {
      EncodeDecode(b);
      assert Valid(Encode(b), n, k) by {
        forall i | 0 <= i < n
          ensures ChildIdx(Encode(b), i) < k
        {
          assert ChildIndices(Encode(b), n)[i] == b[i];
        }
      }
      assert r <= Unfairness(Encode(b), cookies, k);
      UnfairnessSpread(Encode(b), cookies, k);
    }
  }

  /** `best` is the least unfairness over the valid masks below `mask`, scored by mask
      `at`; `None` while there has been no valid mask. */
  ghost predicate Leading(cookies: seq<int>, children: nat, mask: nat, best: Option<int>, at: nat)
  {
    children >= 1 &&
    (best.None? ==> forall m :: 0 <= m < mask ==> !Valid(m, |cookies|, children)) &&
    (best.Some? ==>
      at < mask && Valid(at, |cookies|, children) && Unfairness(at, cookies, children) == best.value &&
      forall m :: 0 <= m < mask && Valid(m, |cookies|, children) ==> best.value <= Unfairness(m, cookies, children))
  }

  /** The body of the `filter_map(..).min()` pipeline for one mask: score it if it names
      only existing children and keep the smaller score. */
  method Consider(cookies: seq<int>, children: nat, mask: nat, best: Option<int>, ghost at: nat)
    returns (best': Option<int>, ghost at': nat)
    requires Leading(cookies, children, mask, best, at)
    ensures Leading(cookies, children, mask + 1, best', at')
    ensures best.Some? || Valid(mask, |cookies|, children) ==> best'.Some?
  {
    best', at' := best, at;
    if Valid(mask, |cookies|, children) {
      var u := Unfairness(mask, cookies, children);
      if best.None? || u < best.value {
        best', at' := Some(u), mask;
      }
    }
  }

  /** `distribute_cookies`: the least unfairness over every valid mask. The three-bit code
      names at most eight children, so the search is over assignments to the first
      `min(k, 8)` of them. */
  method DistributeCookies(cookies: seq<int>, k: int) returns (r: int)
    requires k >= 1 && |cookies| <= 10
    requires NonNegative(cookies) && Sum(cookies) <= I32Max
    ensures Best(Zeros(k), cookies, Min(k, 8), r)
    ensures k <= 8 ==> Fairest(cookies, k, r)
  {
    var children := k;
    var count := |cookies|;
    var limit := Pow2(CookieBitSize * count);
    var best: Option<int> := None;
    ghost var at := 0;
    var mask := 0;
    ZeroMaskValid(count, children);
    while mask < limit
      invariant 0 <= mask <= limit
      invariant mask > 0 ==> best.Some?
      invariant Leading(cookies, children, mask, best, at)
    {
      best, at := Consider(cookies, children, mask, best, at);
      mask := mask + 1;
    }
    r := best.value;
    MaskBest(cookies, k, limit, at, r);
  }

  method DistributeCookiesExample()
  {
    ExampleTotal();
    var r := DistributeCookies([8, 15, 10, 20, 8], 2);
    CookiesExample();
    FairestUnique([8, 15, 10, 20, 8], 2, r, 31);
    assert r == 31;
  }
}
