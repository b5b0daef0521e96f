/** Longest run of equal answers after at most `k` changes, by two run-queue windows
    (two_pointers/confusion.rs). */
module Confusion {
  import opened Common

  /** The source's `Window`: the lengths of at most `capacity` most recent runs, the index
      where the current run started, and the running total of `lens`. */
  datatype Window = Window(lens: seq<int>, start: int, total: int, capacity: int)

  function NewWindow(capacity: int): (w: Window)
    ensures w.lens == [] && w.start == 0 && w.total == Sum(w.lens) && w.capacity == capacity
  {
    Window([], 0, 0, capacity)
  }

  /** `Window::add`: appends a run length and, when that overflows the capacity, drops the
      oldest run. Keeps the total equal to the sum of the queue and the queue within its
      capacity; the queue is the newest runs of the old queue followed by `length`. */
  function Add(w: Window, length: int): (r: Window)
    ensures r.start == w.start && r.capacity == w.capacity
    ensures w.total == Sum(w.lens) ==> r.total == Sum(r.lens)
    ensures 1 <= w.capacity && |w.lens| <= w.capacity ==>
              |r.lens| == Min(|w.lens| + 1, w.capacity) &&
              r.lens == (w.lens + [length])[|w.lens| + 1 - |r.lens|..]
  {
    var lens := w.lens + [length];
    SumAppend(w.lens, [length]);
    SumOne(length);
    if |lens| > w.capacity then
      assert lens == [lens[0]] + lens[1..];
      SumCons(lens[0], lens[1..]);
      Window(lens[1..], w.start, w.total + length - lens[0], w.capacity)
    else
      Window(lens, w.start, w.total + length, w.capacity)
  }

  /** `Window::consecutive`: the runs in the queue together with the separators between
      them, all of which would be changed. */
  function Consecutive(w: Window): int
  {
    w.total + |w.lens| - 1
  }

  /** Number of `sep` characters in `key[a..b]`. */
  function SepCount(key: seq<char>, sep: char, a: int, b: int): nat
    requires 0 <= a <= b <= |key|
  {
    Count(key[a..b], sep)
  }

  lemma SepCountSplit(key: seq<char>, sep: char, a: int, m: int, b: int)
    requires 0 <= a <= m <= b <= |key|
    ensures SepCount(key, sep, a, b) == SepCount(key, sep, a, m) + SepCount(key, sep, m, b)
  {
    assert key[a..b] == key[a..m] + key[m..b];
    CountAppend(key[a..m], key[m..b], sep);
  }

  lemma SepCountOne(key: seq<char>, sep: char, a: int)
    requires 0 <= a < |key|
    ensures SepCount(key, sep, a, a + 1) == if key[a] == sep then 1 else 0
  {
    assert key[a..a + 1] == [key[a]];
    CountOne(key[a], sep);
  }

  /** `lens` describes consecutive runs starting at `w`: each run holds no `sep` and is
      followed by one `sep`. */
  ghost predicate Runs(key: seq<char>, sep: char, w: int, lens: seq<int>)
    decreases |lens|
  {
    |lens| == 0 ||
    (0 <= w && 0 <= lens[0] && w + lens[0] < |key| && key[w + lens[0]] == sep &&
     SepCount(key, sep, w, w + lens[0]) == 0 && Runs(key, sep, w + lens[0] + 1, lens[1..]))
  }

  /** Where the runs described by `lens` from `w` end, each with its separator. */
  ghost function RunsEnd(w: int, lens: seq<int>): int
    decreases |lens|
  {
    if |lens| == 0 then w else RunsEnd(w + lens[0] + 1, lens[1..])
  }

  lemma {:induction false} RunsFacts(key: seq<char>, sep: char, w: int, lens: seq<int>)
    requires 0 <= w <= |key| && Runs(key, sep, w, lens)
    ensures w <= RunsEnd(w, lens) <= |key|
    ensures RunsEnd(w, lens) == w + Sum(lens) + |lens|
    ensures SepCount(key, sep, w, RunsEnd(w, lens)) == |lens|
    decreases |lens|
  {
    if |lens| > 0 {
      var next := w + lens[0] + 1;
      RunsFacts(key, sep, next, lens[1..]);
      assert lens == [lens[0]] + lens[1..];
      SumCons(lens[0], lens[1..]);
      SepCountSplit(key, sep, w, w + lens[0], RunsEnd(w, lens));
      SepCountSplit(key, sep, w + lens[0], next, RunsEnd(w, lens));
      SepCountOne(key, sep, w + lens[0]);
    }
  }

  lemma {:induction false} RunsAppend(key: seq<char>, sep: char, w: int, lens: seq<int>, len: int)
    requires 0 <= w <= |key| && Runs(key, sep, w, lens) && 0 <= len
    requires w <= RunsEnd(w, lens) && RunsEnd(w, lens) + len < |key| && key[RunsEnd(w, lens) + len] == sep
    requires SepCount(key, sep, RunsEnd(w, lens), RunsEnd(w, lens) + len) == 0
    ensures Runs(key, sep, w, lens + [len])
    ensures RunsEnd(w, lens + [len]) == RunsEnd(w, lens) + len + 1
    decreases |lens|
  {
    if |lens| == 0 {
      assert lens + [len] == [len];
      assert [len][1..] == [];
    } else {
      assert (lens + [len])[1..] == lens[1..] + [len];
      RunsFacts(key, sep, w + lens[0] + 1, lens[1..]);
      RunsAppend(key, sep, w + lens[0] + 1, lens[1..], len);
    }
  }

  /** What the loop keeps about one window, whose runs are separated by `sep`, after the
      first `i` answers: the queue describes the runs from `from` up to `w.start`, every
      separator before `w.start` is closed, nothing since is a separator, and `from` is
      either 0 or just past a separator that the full queue had to drop. */
  ghost predicate WindowInv(key: seq<char>, sep: char, k: int, i: int, w: Window, from: int)
  {
    0 <= i <= |key| && w.capacity == k + 1 && |w.lens| <= k + 1 && w.total == Sum(w.lens) &&
    0 <= from <= w.start <= i && Runs(key, sep, from, w.lens) && RunsEnd(from, w.lens) == w.start &&
    SepCount(key, sep, w.start, i) == 0 &&
    (from == 0 || (key[from - 1] == sep && |w.lens| == k + 1))
  }

  /** A window of at most `k` separators whose end is followed only by non-separators up to
      `e` starts no earlier than `from`, when `[from, e)` holds `k` separators after a
      separator at `from - 1` (or `from` is 0). */
  lemma WindowStart(key: seq<char>, sep: char, k: int, a: int, b: int, e: int, from: int)
    requires 0 <= a <= b <= e <= |key| && 0 <= from <= e
    requires SepCount(key, sep, a, b) <= k && SepCount(key, sep, b, e) == 0
    requires from == 0 || (key[from - 1] == sep && SepCount(key, sep, from, e) == k)
    ensures from <= a
  {
    if a < from {
      SepCountSplit(key, sep, a, b, e);
      SepCountSplit(key, sep, a, from - 1, e);
      SepCountSplit(key, sep, from - 1, from, e);
      SepCountOne(key, sep, from - 1);
    }
  }

  /** The queue `w` after closing the run at `e`: it spans `[from, e)`, which holds one
      separator fewer than the queue has runs, and when `e` is a separator it describes the
      runs from `from` up to just past `e`. */
  ghost predicate QueueAt(key: seq<char>, sep: char, k: int, e: int, w: Window, from: int)
  {
    0 <= from <= e <= |key| && Consecutive(w) == e - from && 1 <= |w.lens| <= k + 1 &&
    SepCount(key, sep, from, e) == |w.lens| - 1 && w.total == Sum(w.lens) &&
    (from == 0 || (key[from - 1] == sep && |w.lens| == k + 1)) &&
    (e < |key| && key[e] == sep ==> Runs(key, sep, from, w.lens) && RunsEnd(from, w.lens) == e + 1)
  }

  /** Closing the current run at `e` (a separator, or the end of the input) adds its length
      to the queue: the queue then spans `[from', e)`, which holds `|lens| - 1` separators,
      and when `e` is a separator the window invariant is restored past it. */
  lemma CloseQueue(key: seq<char>, sep: char, k: int, e: int, w: Window, from: int) returns (from': int)
    requires k >= 0 && WindowInv(key, sep, k, e, w, from)
    ensures QueueAt(key, sep, k, e, Add(w, e - w.start), from')
  {
    if |w.lens| + 1 > k + 1 {
      from' := CloseFull(key, sep, k, e, w, from);
    } else {
      CloseRoom(key, sep, k, e, w, from);
      from' := from;
    }
  }

  /** A full queue drops its oldest run, and the span starts past that run's separator. */
  lemma CloseFull(key: seq<char>, sep: char, k: int, e: int, w: Window, from: int) returns (from': int)
    requires k >= 0 && WindowInv(key, sep, k, e, w, from) && |w.lens| == k + 1
    ensures QueueAt(key, sep, k, e, Add(w, e - w.start), from')
  {
    var len := e - w.start;
    RunsFacts(key, sep, from, w.lens);
    var w' := Add(w, len);
    from' := from + w.lens[0] + 1;
    assert w'.lens == w.lens[1..] + [len];
    assert Runs(key, sep, from', w.lens[1..]) && RunsEnd(from', w.lens[1..]) == w.start;
    RunsFacts(key, sep, from', w.lens[1..]);
    QueueSpan(key, sep, e, from', w.lens[1..], len, w.start);
  }

  /** A queue with room keeps every run and its span. */
  lemma CloseRoom(key: seq<char>, sep: char, k: int, e: int, w: Window, from: int)
    requires k >= 0 && WindowInv(key, sep, k, e, w, from) && |w.lens| < k + 1
    ensures QueueAt(key, sep, k, e, Add(w, e - w.start), from)
  {
    var len := e - w.start;
    RunsFacts(key, sep, from, w.lens);
    var w' := Add(w, len);
    assert w'.lens == w.lens + [len];
    QueueSpan(key, sep, e, from, w.lens, len, w.start);
  }

  /** The runs `lens` from `from` up to `start`, followed by a run of `len` non-separators
      ending at `e`. */
  lemma QueueSpan(key: seq<char>, sep: char, e: int, from: int, lens: seq<int>, len: int, start: int)
    requires 0 <= from <= start <= e <= |key| && len == e - start
    requires Runs(key, sep, from, lens) && RunsEnd(from, lens) == start && SepCount(key, sep, start, e) == 0
    ensures e == from + Sum(lens + [len]) + |lens|
    ensures SepCount(key, sep, from, e) == |lens|
    ensures e < |key| && key[e] == sep ==> Runs(key, sep, from, lens + [len]) && RunsEnd(from, lens + [len]) == e + 1
  {
    RunsFacts(key, sep, from, lens);
    SepCountSplit(key, sep, from, start, e);
    if e < |key| && key[e] == sep {
      RunsAppend(key, sep, from, lens, len);
    }
    SumAppend(lens, [len]);
    SumOne(len);
  }

  /** After closing the run at `e`, every window ending between the old `start` and `e`
      with at most `k` separators fits inside the queue's span `[from', e)`. */
  lemma Close(key: seq<char>, sep: char, k: int, e: int, w: Window, from: int) returns (from': int)
    requires k >= 0 && WindowInv(key, sep, k, e, w, from)
    ensures var w' := Add(w, e - w.start);
      0 <= from' <= e && Consecutive(w') == e - from' && SepCount(key, sep, from', e) <= k &&
      |w'.lens| <= k + 1 && w'.total == Sum(w'.lens) &&
      (forall a, b :: 0 <= a <= b <= e && w.start <= b && SepCount(key, sep, a, b) <= k ==> b - a <= e - from') &&
      (e < |key| && key[e] == sep ==>
         Runs(key, sep, from', w'.lens) && RunsEnd(from', w'.lens) == e + 1 &&
         (from' == 0 || (key[from' - 1] == sep && |w'.lens| == k + 1)))
  {
    from' := CloseQueue(key, sep, k, e, w, from);
    forall a, b | 0 <= a <= b <= e && w.start <= b && SepCount(key, sep, a, b) <= k
      ensures b - a <= e - from'
    {
      SepCountSplit(key, sep, w.start, b, e);
      WindowStart(key, sep, k, a, b, e, from');
    }
  }

  /** Windows of `key` that at most `k` changes turn into one repeated answer. */
  ghost predicate Fixable(key: seq<char>, k: int, a: int, b: int)
  {
    0 <= a <= b <= |key| && (SepCount(key, 'F', a, b) <= k || SepCount(key, 'T', a, b) <= k)
  }

  predicate AnswerKey(key: seq<char>)
  {
    forall i :: 0 <= i < |key| ==> key[i] == 'T' || key[i] == 'F'
  }

  /** Every window that ends before `start` and holds at most `k` separators is no longer
      than `max`. */
  ghost predicate Bounded(key: seq<char>, sep: char, k: int, start: int, max: int)
    requires 0 <= start <= |key|
  {
    forall a, b :: 0 <= a <= b < start && SepCount(key, sep, a, b) <= k ==> b - a <= max
  }

  lemma BoundedAfterClose(key: seq<char>, sep: char, k: int, i: int, start: int, from: int, max: int, c: int)
    requires 0 <= start <= i < |key| && Bounded(key, sep, k, start, max) && c == i - from
    requires forall a, b :: 0 <= a <= b <= i && start <= b && SepCount(key, sep, a, b) <= k ==> b - a <= i - from
    ensures Bounded(key, sep, k, i + 1, Max(max, c))
  {
  }

  /** After the separator at `i` closes the current run, the window restarts past it. */
  lemma InvAfterClose(key: seq<char>, sep: char, k: int, i: int, w': Window, from': int)
    requires 0 <= from' <= i < |key| && key[i] == sep && w'.capacity == k + 1
    requires |w'.lens| <= k + 1 && w'.total == Sum(w'.lens)
    requires Runs(key, sep, from', w'.lens) && RunsEnd(from', w'.lens) == i + 1
    requires from' == 0 || (key[from' - 1] == sep && |w'.lens| == k + 1)
    ensures WindowInv(key, sep, k, i + 1, w'.(start := i + 1), from')
  {
    assert SepCount(key, sep, i + 1, i + 1) == 0;
  }

  /** Any other answer extends the current run. */
  lemma AdvanceOther(key: seq<char>, sep: char, k: int, i: int, w: Window, from: int, max: int, max': int)
    requires k >= 0 && WindowInv(key, sep, k, i, w, from) && Bounded(key, sep, k, w.start, max)
    requires i < |key| && key[i] != sep && max <= max'
    ensures WindowInv(key, sep, k, i + 1, w, from) && Bounded(key, sep, k, w.start, max')
  {
    SepCountSplit(key, sep, w.start, i, i + 1);
    SepCountOne(key, sep, i);
  }

  /** At the end of the input the last run is closed as well, and then every window with
      at most `k` separators is no longer than the larger of the recorded maximum and the
      final span. */
  lemma Finish(key: seq<char>, sep: char, k: int, w: Window, w': Window, from: int, max: int) returns (from': int)
    requires k >= 0 && WindowInv(key, sep, k, |key|, w, from) && Bounded(key, sep, k, w.start, max)
    requires w' == Add(w, |key| - w.start)
    ensures 0 <= from' <= |key| && Consecutive(w') == |key| - from' && SepCount(key, sep, from', |key|) <= k
    ensures forall a, b :: 0 <= a <= b <= |key| && SepCount(key, sep, a, b) <= k ==> b - a <= Max(max, Consecutive(w'))
  {
    from' := Close(key, sep, k, |key|, w, from);
  }

  /** One answer equal to the separator `sep` of window `w`: `add` the run it closes, fold
      the window's `consecutive()` into the maximum, and move the window's start past it. */
  method Step(key: seq<char>, sep: char, k: int, i: int, w: Window, max: int,
              ghost from: int, ghost wa: int, ghost wb: int)
    returns (w': Window, max': int, ghost from': int, ghost wa': int, ghost wb': int)
    requires k >= 0 && WindowInv(key, sep, k, i, w, from) && Bounded(key, sep, k, w.start, max)
    requires i < |key| && key[i] == sep && (sep == 'T' || sep == 'F')
    requires Fixable(key, k, wa, wb) && wb - wa == max
    ensures WindowInv(key, sep, k, i + 1, w', from') && Bounded(key, sep, k, w'.start, max')
    ensures Fixable(key, k, wa', wb') && wb' - wa' == max' && max <= max'
  {
    from' := Close(key, sep, k, i, w, from);
    w' := Add(w, i - w.start);
    InvAfterClose(key, sep, k, i, w', from');
    BoundedAfterClose(key, sep, k, i, w.start, from', max, Consecutive(w'));
    wa', wb' := wa, wb;
    if Consecutive(w') > max {
      wa', wb' := from', i;
    }
    max' := Max(max, Consecutive(w'));
    w' := w'.(start := i + 1);
  }

  /** What the scan keeps about both windows after the first `i` answers: `trueWindow`
      counts runs of 'T' separated by 'F', `falseWindow` runs of 'F' separated by 'T', and
      `max` is the length of a fixable window `[wa, wb)` that bounds every fixable window
      ending before either window's current run. */
  ghost predicate ScanInv(key: seq<char>, k: int, i: int, trueWindow: Window, falseWindow: Window,
                          max: int, fromT: int, fromF: int, wa: int, wb: int)
  {
    WindowInv(key, 'F', k, i, trueWindow, fromT) && Bounded(key, 'F', k, trueWindow.start, max) &&
    WindowInv(key, 'T', k, i, falseWindow, fromF) && Bounded(key, 'T', k, falseWindow.start, max) &&
    Fixable(key, k, wa, wb) && wb - wa == max
  }

  /** The body of the source's loop for answer `i`: a 'T' closes a run of the false window and
      an 'F' one of the true window. */
  method Answer(key: seq<char>, k: int, i: int, trueWindow: Window, falseWindow: Window, max: int,
                ghost fromT: int, ghost fromF: int, ghost wa: int, ghost wb: int)
    returns (trueWindow': Window, falseWindow': Window, max': int,
             ghost fromT': int, ghost fromF': int, ghost wa': int, ghost wb': int)
    requires AnswerKey(key) && k >= 0 && 0 <= i < |key|
    requires ScanInv(key, k, i, trueWindow, falseWindow, max, fromT, fromF, wa, wb)
    ensures ScanInv(key, k, i + 1, trueWindow', falseWindow', max', fromT', fromF', wa', wb')
  {
    trueWindow', falseWindow', fromT', fromF' := trueWindow, falseWindow, fromT, fromF;
    if key[i] == 'T' {
      falseWindow', max', fromF', wa', wb' := Step(key, 'T', k, i, falseWindow, max, fromF, wa, wb);
      AdvanceOther(key, 'F', k, i, trueWindow, fromT, max, max');
    } else {
      trueWindow', max', fromT', wa', wb' := Step(key, 'F', k, i, trueWindow, max, fromT, wa, wb);
      AdvanceOther(key, 'T', k, i, falseWindow, fromF, max, max');
    }
  }

  /** Closing both windows at the end of the input settles the answer. */
  lemma Conclude(key: seq<char>, k: int, max: int, wa: int, wb: int, cT: int, cF: int, fT: int, fF: int, r: int)
    requires 0 <= fT <= |key| && cT == |key| - fT && SepCount(key, 'F', fT, |key|) <= k
    requires 0 <= fF <= |key| && cF == |key| - fF && SepCount(key, 'T', fF, |key|) <= k
    requires forall a, b :: 0 <= a <= b <= |key| && SepCount(key, 'F', a, b) <= k ==> b - a <= Max(max, cT)
    requires forall a, b :: 0 <= a <= b <= |key| && SepCount(key, 'T', a, b) <= k ==> b - a <= Max(max, cF)
    requires Fixable(key, k, wa, wb) && wb - wa == max
    requires r == Max(max, Max(cT, cF))
    ensures forall a, b :: Fixable(key, k, a, b) ==> b - a <= r
    ensures exists a, b :: Fixable(key, k, a, b) && b - a == r
    ensures 0 <= r <= |key|
  {
    if r == max {
      assert Fixable(key, k, wa, wb) && wb - wa == r;
    } else if r == cT {
      assert Fixable(key, k, fT, |key|) && |key| - fT == r;
    } else {
      assert Fixable(key, k, fF, |key|) && |key| - fF == r;
    }
  }

  /** `max_consecutive_answers`: the longest window that at most `k` changes make uniform.
      Any other character panics in the source, and a negative `k` is not modelled. */
  method MaxConsecutiveAnswers(key: seq<char>, k: int) returns (r: int)
    requires AnswerKey(key) && k >= 0
    ensures forall a, b :: Fixable(key, k, a, b) ==> b - a <= r
    ensures exists a, b :: Fixable(key, k, a, b) && b - a == r
    ensures 0 <= r <= |key|
  {
    var trueWindow := NewWindow(k + 1);
    var falseWindow := trueWindow;
    var n := 0;
    var max := 0;
    ghost var fromT, fromF := 0, 0;
    ghost var wa, wb := 0, 0;
    assert SepCount(key, 'F', 0, 0) == 0 && SepCount(key, 'T', 0, 0) == 0;
    for i := 0 to |key|
      invariant n == i
      invariant ScanInv(key, k, i, trueWindow, falseWindow, max, fromT, fromF, wa, wb)
    {
      n := n + 1;
      trueWindow, falseWindow, max, fromT, fromF, wa, wb :=
        Answer(key, k, i, trueWindow, falseWindow, max, fromT, fromF, wa, wb);
    }
    var closedFalse := Add(falseWindow, n - falseWindow.start);
    var closedTrue := Add(trueWindow, n - trueWindow.start);
    r := Max(max, Max(Consecutive(closedTrue), Consecutive(closedFalse)));
    Settle(key, k, n, trueWindow, falseWindow, max, fromT, fromF, wa, wb, r);
  }

  /** After the last answer, closing both windows gives the longest fixable window. */
  lemma Settle(key: seq<char>, k: int, n: int, trueWindow: Window, falseWindow: Window, max: int,
               fromT: int, fromF: int, wa: int, wb: int, r: int)
    requires AnswerKey(key) && k >= 0 && n == |key|
    requires ScanInv(key, k, n, trueWindow, falseWindow, max, fromT, fromF, wa, wb)
    requires r == Max(max, Max(Consecutive(Add(trueWindow, n - trueWindow.start)),
                               Consecutive(Add(falseWindow, n - falseWindow.start))))
    ensures forall a, b :: Fixable(key, k, a, b) ==> b - a <= r
    ensures exists a, b :: Fixable(key, k, a, b) && b - a == r
    ensures 0 <= r <= |key|
  {
    var closedFalse := Add(falseWindow, |key| - falseWindow.start);
    var closedTrue := Add(trueWindow, |key| - trueWindow.start);
    var fF := FinishFalse(key, k, n, trueWindow, falseWindow, max, fromT, fromF, wa, wb);
    var fT := Finish(key, 'F', k, trueWindow, closedTrue, fromT, max);
    Conclude(key, k, max, wa, wb, Consecutive(closedTrue), Consecutive(closedFalse), fT, fF, r);
  }

  /** Closing the false window at the end of the input. */
  lemma FinishFalse(key: seq<char>, k: int, n: int, trueWindow: Window, falseWindow: Window, max: int,
                    fromT: int, fromF: int, wa: int, wb: int) returns (fF: int)
    requires AnswerKey(key) && k >= 0 && n == |key|
    requires ScanInv(key, k, n, trueWindow, falseWindow, max, fromT, fromF, wa, wb)
    ensures var closed := Add(falseWindow, |key| - falseWindow.start);
      0 <= fF <= |key| && Consecutive(closed) == |key| - fF && SepCount(key, 'T', fF, |key|) <= k &&
      forall a, b :: 0 <= a <= b <= |key| && SepCount(key, 'T', a, b) <= k ==> b - a <= Max(max, Consecutive(closed))
  {
    fF := Finish(key, 'T', k, falseWindow, Add(falseWindow, |key| - falseWindow.start), fromF, max);
  }
}
