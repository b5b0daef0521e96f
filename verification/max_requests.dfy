/** Maximum number of achievable transfer requests (backtracking/max_requests.rs): every
    subset of the requests, written as a bit mask, is checked for leaving each building's
    head count unchanged. */
module MaxRequests {
  import opened Common

  /** One employee asking to move from building `from` to building `to`. */
  datatype Request = Request(from: int, to: int)

  /** Only the masks below `2^MaxRequests` are enumerated. */
  const MaxRequests: nat := 16

  /** Both ends of every request name one of the `n` buildings. */
  predicate Buildings(n: int, requests: seq<Request>)
  {
    forall i :: 0 <= i < |requests| ==>
      0 <= requests[i].from < n && 0 <= requests[i].to < n
  }

  /** Net change of building `b` when those of the first `k` requests marked in `sel` are
      granted. */
  function Flow(requests: seq<Request>, sel: seq<bool>, b: int, k: nat): int
    requires |sel| == |requests| && k <= |requests|
  {
    if k == 0 then 0
    else
      var r := requests[k - 1];
      Flow(requests, sel, b, k - 1) +
      (if sel[k - 1] then (if r.to == b then 1 else 0) - (if r.from == b then 1 else 0) else 0)
  }

  /** How many of the first `k` requests `sel` grants. */
  function Granted(sel: seq<bool>, k: nat): nat
    requires k <= |sel|
  {
    if k == 0 then 0 else Granted(sel, k - 1) + if sel[k - 1] then 1 else 0
  }

  /** Granting the marked requests leaves every building as full as before. */
  predicate Balanced(n: int, requests: seq<Request>, sel: seq<bool>)
    requires |sel| == |requests|
  {
    forall b :: 0 <= b < n ==> Flow(requests, sel, b, |requests|) == 0
  }

  /** The requests a mask grants: bit `i` stands for request `i`. */
  function Selection(mask: nat, len: nat): (sel: seq<bool>)
    ensures |sel| == len && forall i :: 0 <= i < len ==> sel[i] == Bit(mask, i)
  {
    seq(len, (i: int) requires 0 <= i => Bit(mask, i))
  }

  /** The loop state of `accepted_requests`: per-building net change and granted count. */
  datatype Ledger = Ledger(net: seq<int>, accepted: int)

  /** The ledger after the first `i` requests have been looked at. */
  function Scan(n: nat, mask: nat, requests: seq<Request>, i: nat): (l: Ledger)
    requires i <= |requests| && Buildings(n, requests)
    ensures |l.net| == n
    ensures forall b :: 0 <= b < n ==> l.net[b] == Flow(requests, Selection(mask, |requests|), b, i)
    ensures l.accepted == Granted(Selection(mask, |requests|), i)
  {
    if i == 0 then Ledger(seq(n, b => 0), 0)
    else
      var l := Scan(n, mask, requests, i - 1);
      var r := requests[i - 1];
      if Bit(mask, i - 1) then
        var net := l.net[r.from := l.net[r.from] - 1];
        Ledger(net[r.to := net[r.to] + 1], l.accepted + 1)
      else l
  }

  /** `accepted_requests`: the number of granted requests when the mask keeps every
      building balanced, `None` otherwise. */
  function AcceptedRequests(n: int, mask: nat, requests: seq<Request>): (r: Option<int>)
    requires n >= 0 && Buildings(n, requests)
    ensures r.Some? <==> Balanced(n, requests, Selection(mask, |requests|))
    ensures r.Some? ==> r.value == Granted(Selection(mask, |requests|), |requests|)
  {
    var l := Scan(n, mask, requests, |requests|);
    if forall b :: 0 <= b < n ==> l.net[b] == 0 then Some(l.accepted) else None
  }

  /** Bits at positions past the last request do not matter. */
  lemma HighBitsIgnored(n: int, m1: nat, m2: nat, requests: seq<Request>)
    requires n >= 0 && Buildings(n, requests)
    requires forall i :: 0 <= i < |requests| ==> Bit(m1, i) == Bit(m2, i)
    ensures AcceptedRequests(n, m1, requests) == AcceptedRequests(n, m2, requests)
  {
    assert Selection(m1, |requests|) == Selection(m2, |requests|);
  }

  /** A request from a building to itself never changes any building's balance. */
  lemma {:induction false} SelfLoopNeutral(requests: seq<Request>, sel: seq<bool>, i: nat, b: int, k: nat)
    requires |sel| == |requests| && i < |requests| && requests[i].from == requests[i].to
    requires k <= |requests|
    ensures Flow(requests, sel[i := true], b, k) == Flow(requests, sel[i := false], b, k)
    decreases k
  {
    if k > 0 {
      SelfLoopNeutral(requests, sel, i, b, k - 1);
    }
  }

  lemma MaskZero(n: int, requests: seq<Request>)
    requires n >= 0 && Buildings(n, requests)
    ensures AcceptedRequests(n, 0, requests) == Some(0)
  {
    var none := Selection(0, |requests|);
    NoneSelected(requests, none, |requests|);
  }

  lemma {:induction false} NoneSelected(requests: seq<Request>, sel: seq<bool>, k: nat)
    requires |sel| == |requests| && k <= |sel| && forall i :: 0 <= i < |sel| ==> !sel[i]
    ensures forall b :: Flow(requests, sel, b, k) == 0
    ensures Granted(sel, k) == 0
    decreases k
  {
    if k > 0 {
      NoneSelected(requests, sel, k - 1);
    }
  }

  /** `r` is the most requests that can be granted together, choosing among the first
      `MaxRequests` only. */
  ghost predicate Most(n: int, requests: seq<Request>, r: int)
  {
    (exists sel :: Granting(requests, sel) && Balanced(n, requests, sel) && Granted(sel, |sel|) == r) &&
    forall sel :: Granting(requests, sel) && Balanced(n, requests, sel) ==> Granted(sel, |sel|) <= r
  }

  /** A choice of requests that a mask below `2^MaxRequests` can express. */
  predicate Granting(requests: seq<Request>, sel: seq<bool>)
  {
    |sel| == |requests| && forall i :: MaxRequests <= i < |sel| ==> !sel[i]
  }

  /** The mask that grants exactly the marked requests. */
  function MaskOf(sel: seq<bool>): nat
  {
    if |sel| == 0 then 0 else (if sel[0] then 1 else 0) + 2 * MaskOf(sel[1..])
  }

  lemma BitNext(m: nat, i: nat)
    ensures Bit(m, i + 1) == Bit(m / 2, i)
  {
    DivDiv(m, 2, Pow2(i));
  }

  lemma {:induction false} MaskOfBits(sel: seq<bool>)
    ensures MaskOf(sel) < Pow2(|sel|)
    ensures forall i :: 0 <= i < |sel| ==> Bit(MaskOf(sel), i) == sel[i]
    decreases |sel|
  {
    if |sel| > 0 {
      var rest := sel[1..];
      MaskOfBits(rest);
      var m := MaskOf(sel);
      DivUnique(m, 2, MaskOf(rest), if sel[0] then 1 else 0);
      forall i | 0 <= i < |sel|
        ensures Bit(m, i) == sel[i]
      {
        if i > 0 {
          BitNext(m, i - 1);
        }
      }
    }
  }

  /** A word below `2^k` has no bit set at or above position `k`. */
  lemma HighBitClear(m: nat, k: nat, i: nat)
    requires m < Pow2(k) && k <= i
    ensures !Bit(m, i)
  {
    Pow2Monotone(k, i);
    DivUnique(m, Pow2(i), 0, m);
  }

  /** Every choice a mask can express comes from a mask below `2^MaxRequests`. */
  lemma Expressible(requests: seq<Request>, sel: seq<bool>) returns (mask: nat)
    requires Granting(requests, sel)
    ensures mask < Pow2(MaxRequests) && Selection(mask, |requests|) == sel
  {
    var low := sel[..Min(MaxRequests, |sel|)];
    mask := MaskOf(low);
    MaskOfBits(low);
    Pow2Monotone(|low|, MaxRequests);
    forall i | 0 <= i < |sel|
      ensures Bit(mask, i) == sel[i]
    {
      if i >= |low| {
        HighBitClear(mask, |low|, i);
      }
    }
  }

  /** `best` is the most granted requests among the masks below `mask`. */
  ghost predicate Leading(n: int, requests: seq<Request>, mask: nat, best: Option<int>)
    requires n >= 0 && Buildings(n, requests)
  {
    (best.None? ==> mask == 0) &&
    (best.Some? ==>
      (exists m :: 0 <= m < mask && AcceptedRequests(n, m, requests) == best) &&
      forall m :: 0 <= m < mask && AcceptedRequests(n, m, requests).Some? ==>
        AcceptedRequests(n, m, requests).value <= best.value)
  }

  /** One step of `filter_map(..).max()`: keep the larger count. */
  method Consider(n: int, requests: seq<Request>, mask: nat, best: Option<int>)
    returns (best': Option<int>)
    requires n >= 0 && Buildings(n, requests) && Leading(n, requests, mask, best)
    ensures Leading(n, requests, mask + 1, best') && best'.Some?
  {
    if mask == 0 {
      MaskZero(n, requests);
    }
    var accepted := AcceptedRequests(n, mask, requests);
    best' := best;
    if accepted.Some? && (best.None? || accepted.value > best.value) {
      best' := accepted;
    }
  }

  /** `maximum_requests`: the most requests that can be granted together. Only the first
      `MaxRequests` requests are ever granted, as bit `i` of a mask below `2^16` is clear
      for every `i >= 16`. */
  method MaximumRequests(n: int, requests: seq<Request>) returns (r: int)
    requires n >= 0 && Buildings(n, requests)
    ensures Most(n, requests, r)
    ensures 0 <= r <= |requests|
  {
    var limit := Pow2(MaxRequests);
    var best: Option<int> := None;
    var mask := 0;
    while mask < limit
      invariant 0 <= mask <= limit && Leading(n, requests, mask, best)
      invariant mask > 0 ==> best.Some?
    {
      best := Consider(n, requests, mask, best);
      mask := mask + 1;
    }
    r := best.value;
    Conclude(n, requests, limit, r);
  }

  lemma Conclude(n: int, requests: seq<Request>, limit: nat, r: int)
    requires n >= 0 && Buildings(n, requests) && limit == Pow2(MaxRequests)
    requires Leading(n, requests, limit, Some(r))
    ensures Most(n, requests, r)
    ensures 0 <= r <= |requests|
  {
    var m :| 0 <= m < limit && AcceptedRequests(n, m, requests) == Some(r);
    var sel := Selection(m, |requests|);
    GrantedBound(sel, |sel|);
    assert Granting(requests, sel) by {
      forall i | MaxRequests <= i < |sel|
        ensures !sel[i]
      {
        HighBitClear(m, MaxRequests, i);
      }
    }
    forall s | Granting(requests, s) && Balanced(n, requests, s)
      ensures Granted(s, |s|) <= r
    {
      var ms := Expressible(requests, s);
      var a := AcceptedRequests(n, ms, requests);
      assert a.Some? && a.value == Granted(s, |s|);
    }
  }

  lemma {:induction false} GrantedBound(s: seq<bool>, k: nat)
    requires k <= |s|
    ensures Granted(s, k) <= k
    decreases k
  {
    if k > 0 {
      GrantedBound(s, k - 1);
    }
  }

  /** Dropping requests from a choice moves any building's balance by at most the number
      dropped. */
  lemma {:induction false} DropBound(requests: seq<Request>, sel: seq<bool>, wider: seq<bool>, b: int, k: nat)
    requires |sel| == |wider| == |requests| && k <= |requests|
    requires forall i :: 0 <= i < |sel| && sel[i] ==> wider[i]
    ensures Flow(requests, wider, b, k) - Flow(requests, sel, b, k) <= Granted(wider, k) - Granted(sel, k)
    ensures Flow(requests, sel, b, k) - Flow(requests, wider, b, k) <= Granted(wider, k) - Granted(sel, k)
    decreases k
  {
    if k > 0 {
      DropBound(requests, sel, wider, b, k - 1);
    }
  }

  /** A balanced choice that grants nothing into building `b` grants nothing out of it
      either. */
  lemma SourceDrained(requests: seq<Request>, sel: seq<bool>, b: int)
    requires |sel| == |requests| && Flow(requests, sel, b, |requests|) == 0
    requires forall i :: 0 <= i < |sel| && requests[i].to == b && requests[i].from != b ==> !sel[i]
    ensures forall i :: 0 <= i < |sel| && requests[i].from == b && requests[i].to != b ==> !sel[i]
  {
    forall i | 0 <= i < |sel| && requests[i].from == b && requests[i].to != b
      ensures !sel[i]
    {
      if sel[i] {
        DrainedFlow(requests, sel, b, i, |requests|);
      }
    }
  }

  /** Under the premise of `SourceDrained`, each granted request out of `b` lowers its
      balance below zero. */
  lemma {:induction false} DrainedFlow(requests: seq<Request>, sel: seq<bool>, b: int, i: int, k: nat)
    requires |sel| == |requests| && k <= |requests|
    requires forall j :: 0 <= j < |sel| && requests[j].to == b && requests[j].from != b ==> !sel[j]
    requires 0 <= i < k && requests[i].from == b && requests[i].to != b && sel[i]
    ensures Flow(requests, sel, b, k) <= -1
    decreases k
  {
    if i < k - 1 {
      DrainedFlow(requests, sel, b, i, k - 1);
    } else {
      DrainedNonPositive(requests, sel, b, k - 1);
    }
  }

  lemma {:induction false} DrainedNonPositive(requests: seq<Request>, sel: seq<bool>, b: int, k: nat)
    requires |sel| == |requests| && k <= |requests|
    requires forall j :: 0 <= j < |sel| && requests[j].to == b && requests[j].from != b ==> !sel[j]
    ensures Flow(requests, sel, b, k) <= 0
    decreases k
  {
    if k > 0 {
      DrainedNonPositive(requests, sel, b, k - 1);
    }
  }

  /** Two values meeting `Most` for the same input are equal. */
  lemma MostUnique(n: int, requests: seq<Request>, r1: int, r2: int)
    requires Most(n, requests, r1) && Most(n, requests, r2)
    ensures r1 == r2
  {
    var s1 :| Granting(requests, s1) && Balanced(n, requests, s1) && Granted(s1, |s1|) == r1;
    var s2 :| Granting(requests, s2) && Balanced(n, requests, s2) && Granted(s2, |s2|) == r2;
  }

  /** Request 5 is the only one touching building 3, so it is never granted. */
  lemma Test1Most()
    ensures Most(5, [Request(0, 1), Request(1, 0), Request(0, 1), Request(1, 2), Request(2, 0), Request(3, 4)], 5)
  {
    var requests := [Request(0, 1), Request(1, 0), Request(0, 1), Request(1, 2), Request(2, 0), Request(3, 4)];
    var all := [true, true, true, true, true, true];
    var sel := [true, true, true, true, true, false];
    assert Flow(requests, sel, 0, 6) == 0 && Flow(requests, sel, 1, 6) == 0 && Flow(requests, sel, 2, 6) == 0;
    assert Flow(requests, sel, 3, 6) == 0 && Flow(requests, sel, 4, 6) == 0;
    assert Granting(requests, sel) && Balanced(5, requests, sel) && Granted(sel, 6) == 5;
    assert Flow(requests, all, 3, 6) == -1 && Granted(all, 6) == 6;
    forall s | Granting(requests, s) && Balanced(5, requests, s)
      ensures Granted(s, |s|) <= 5
    {
      DropBound(requests, s, all, 3, 6);
    }
  }

  /** Every request can be granted: the self-loop is harmless and the other two cancel. */
  lemma Test2Most()
    ensures Most(3, [Request(0, 0), Request(1, 2), Request(2, 1)], 3)
  {
    var requests := [Request(0, 0), Request(1, 2), Request(2, 1)];
    var all := [true, true, true];
    assert Flow(requests, all, 0, 3) == 0 && Flow(requests, all, 1, 3) == 0 && Flow(requests, all, 2, 3) == 0;
    assert Granting(requests, all) && Balanced(3, requests, all) && Granted(all, 3) == 3;
    forall s | Granting(requests, s) && Balanced(3, requests, s)
      ensures Granted(s, |s|) <= 3
    {
      GrantedBound(s, 3);
    }
  }

  /** The four requests form one cycle. */
  lemma Test3Most()
    ensures Most(4, [Request(0, 3), Request(3, 1), Request(1, 2), Request(2, 0)], 4)
  {
    var requests := [Request(0, 3), Request(3, 1), Request(1, 2), Request(2, 0)];
    var all := [true, true, true, true];
    assert Flow(requests, all, 0, 4) == 0 && Flow(requests, all, 1, 4) == 0;
    assert Flow(requests, all, 2, 4) == 0 && Flow(requests, all, 3, 4) == 0;
    assert Granting(requests, all) && Balanced(4, requests, all) && Granted(all, 4) == 4;
    forall s | Granting(requests, s) && Balanced(4, requests, s)
      ensures Granted(s, |s|) <= 4
    {
      GrantedBound(s, 4);
    }
  }

  /** Nobody moves into building 0, so request 3 is out; then building 1 can lose only as
      many as it gains. */
  lemma Test4Most()
    ensures Most(3, [Request(1, 2), Request(1, 2), Request(2, 2), Request(0, 2), Request(2, 1), Request(1, 1), Request(1, 2)], 4)
  {
    var requests := [Request(1, 2), Request(1, 2), Request(2, 2), Request(0, 2), Request(2, 1), Request(1, 1), Request(1, 2)];
    var sel := [true, false, true, false, true, true, false];
    assert Flow(requests, sel, 0, 7) == 0 && Flow(requests, sel, 1, 7) == 0 && Flow(requests, sel, 2, 7) == 0;
    assert Granting(requests, sel) && Balanced(3, requests, sel) && Granted(sel, 7) == 4;
    var wider := [true, true, true, false, true, true, true];
    assert Flow(requests, wider, 1, 7) == -2 && Granted(wider, 7) == 6;
    forall s | Granting(requests, s) && Balanced(3, requests, s)
      ensures Granted(s, |s|) <= 4
    {
      SourceDrained(requests, s, 0);
      DropBound(requests, s, wider, 1, 7);
    }
  }

  /** Nobody moves into building 2, so requests 3 and 6 are out; then nobody moves into
      building 0, so requests 7 and 8 are out. */
  lemma Test5Most()
    ensures Most(3, [Request(0, 0), Request(1, 1), Request(0, 0), Request(2, 0), Request(2, 2), Request(1, 1),
                     Request(2, 1), Request(0, 1), Request(0, 1)], 5)
  {
    var requests := [Request(0, 0), Request(1, 1), Request(0, 0), Request(2, 0), Request(2, 2), Request(1, 1),
                     Request(2, 1), Request(0, 1), Request(0, 1)];
    var sel := [true, true, true, false, true, true, false, false, false];
    assert Flow(requests, sel, 0, 9) == 0 && Flow(requests, sel, 1, 9) == 0 && Flow(requests, sel, 2, 9) == 0;
    assert Granting(requests, sel) && Balanced(3, requests, sel) && Granted(sel, 9) == 5;
    var wider := [true, true, true, false, true, true, false, true, true];
    assert Flow(requests, wider, 0, 9) == -2 && Granted(wider, 9) == 7;
    forall s | Granting(requests, s) && Balanced(3, requests, s)
      ensures Granted(s, |s|) <= 5
    {
      SourceDrained(requests, s, 2);
      DropBound(requests, s, wider, 0, 9);
    }
  }

  function Test6(): seq<Request>
  {
    [Request(0, 3), Request(3, 3), Request(3, 1), Request(0, 1), Request(3, 2), Request(2, 2), Request(2, 0),
     Request(1, 0), Request(1, 0), Request(1, 2), Request(2, 0), Request(1, 3), Request(3, 0)]
  }

  /** Refusing requests 7, 8 and 12 balances every building. */
  lemma Test6Witness()
    ensures var sel := [true, true, true, true, true, true, true, false, false, true, true, true, false];
      Granting(Test6(), sel) && Balanced(4, Test6(), sel) && Granted(sel, |sel|) == 10
  {
    var requests := [Request(0, 3), Request(3, 3), Request(3, 1), Request(0, 1), Request(3, 2), Request(2, 2), Request(2, 0),
                     Request(1, 0), Request(1, 0), Request(1, 2), Request(2, 0), Request(1, 3), Request(3, 0)];
    var sel := [true, true, true, true, true, true, true, false, false, true, true, true, false];
    assert Flow(requests, sel, 0, 6) == -2 && Flow(requests, sel, 0, 13) == 0;
    assert Flow(requests, sel, 1, 6) == 2 && Flow(requests, sel, 1, 13) == 0;
    assert Flow(requests, sel, 2, 6) == 1 && Flow(requests, sel, 2, 13) == 0;
    assert Flow(requests, sel, 3, 6) == -1 && Flow(requests, sel, 3, 13) == 0;
    assert Granted(sel, 6) == 6 && Granted(sel, 13) == 10;
  }

  /** Building 0 gains three more than it loses when everything is granted, so at least
      three requests must be refused. */
  lemma Test6Most()
    ensures Most(4, Test6(), 10)
  {
    Test6Witness();
    var requests := [Request(0, 3), Request(3, 3), Request(3, 1), Request(0, 1), Request(3, 2), Request(2, 2), Request(2, 0),
                     Request(1, 0), Request(1, 0), Request(1, 2), Request(2, 0), Request(1, 3), Request(3, 0)];
    var all := [true, true, true, true, true, true, true, true, true, true, true, true, true];
    assert Flow(requests, all, 0, 6) == -2 && Flow(requests, all, 0, 13) == 3;
    assert Granted(all, 6) == 6 && Granted(all, 13) == 13;
    forall s | Granting(requests, s) && Balanced(4, requests, s)
      ensures Granted(s, |s|) <= 10
    {
      DropBound(requests, s, all, 0, 13);
    }
  }

  method MaximumRequestsExample1()
  {
    var r1 := MaximumRequests(5, [Request(0, 1), Request(1, 0), Request(0, 1), Request(1, 2), Request(2, 0), Request(3, 4)]);
    Test1Most();
    MostUnique(5, [Request(0, 1), Request(1, 0), Request(0, 1), Request(1, 2), Request(2, 0), Request(3, 4)], r1, 5);
    assert r1 == 5;
  }
  method MaximumRequestsExample2()
  {
    var r2 := MaximumRequests(3, [Request(0, 0), Request(1, 2), Request(2, 1)]);
    Test2Most();
    MostUnique(3, [Request(0, 0), Request(1, 2), Request(2, 1)], r2, 3);
    assert r2 == 3;
  }
  method MaximumRequestsExample3()
  {
    var t3 := [Request(0, 3), Request(3, 1), Request(1, 2), Request(2, 0)];
    var r3 := MaximumRequests(4, t3);
    Test3Most();
    MostUnique(4, t3, r3, 4);
    assert r3 == 4;
  }
  method MaximumRequestsExample4()
  {
    var t4 := [Request(1, 2), Request(1, 2), Request(2, 2), Request(0, 2), Request(2, 1), Request(1, 1), Request(1, 2)];
    var r4 := MaximumRequests(3, t4);
    Test4Most();
    MostUnique(3, t4, r4, 4);
    assert r4 == 4;
  }
  method MaximumRequestsExample6()
  {
    var r6 := MaximumRequests(4, Test6());
    Test6Most();
    MostUnique(4, Test6(), r6, 10);
    assert r6 == 10;
  }
  method MaximumRequestsExample5()
  {
    var t5 := [Request(0, 0), Request(1, 1), Request(0, 0), Request(2, 0), Request(2, 2), Request(1, 1),
               Request(2, 1), Request(0, 1), Request(0, 1)];
    var r5 := MaximumRequests(3, t5);
    Test5Most();
    MostUnique(3, t5, r5, 5);
    assert r5 == 5;
  }
}
