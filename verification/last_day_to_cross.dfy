/** The last day on which the top row of a flooding grid is still joined to the bottom row by
    dry land (search/heap/last_day_to_cross.rs). Each grid cell holds the index of the day it
    floods; a best-first search extends, at every step, the frontier entry whose walk from the
    top row stays dry the longest, and answers with the first entry it takes from the bottom
    row. */
module LastDayToCross {
  import opened Common

  /** A (row, col) cell of the grid. */
  datatype Cell = Cell(row: nat, col: nat)

  /** The largest `i16`: the source steps between cells in `i16` arithmetic and casts the
      grid size to `i16`. */
  const I16Max := 0x7FFF

  predicate InGrid(c: Cell, rows: nat, cols: nat)
  {
    c.row < rows && c.col < cols
  }

  /** `a` and `b` share a side. */
  predicate Adjacent(a: Cell, b: Cell)
  {
    (a.row == b.row && (a.col == b.col + 1 || b.col == a.col + 1)) ||
    (a.col == b.col && (a.row == b.row + 1 || b.row == a.row + 1))
  }

  /** `Cell::try_new`: the cell at `(row, col)` when it lies in a `rows` by `cols` grid. */
  function TryNew(row: int, col: int, rows: nat, cols: nat): (r: Option<Cell>)
    requires rows <= I16Max && cols <= I16Max
    ensures r.Some? <==> 0 <= row < rows && 0 <= col < cols
    ensures r.Some? ==> r.value.row == row && r.value.col == col
  {
    if 0 <= row < rows && 0 <= col < cols then Some(Cell(row, col)) else None
  }

  function Present(o: Option<Cell>): seq<Cell>
  {
    if o.Some? then [o.value] else []
  }

  /** `Cell::expand`: the moves down, up, right and left, kept when they stay in the grid. */
  function Neighbours(c: Cell, rows: nat, cols: nat): (r: seq<Cell>)
    requires InGrid(c, rows, cols) && rows <= I16Max && cols <= I16Max
    ensures |r| <= 4 && Distinct(r)
    ensures forall n :: n in r <==> InGrid(n, rows, cols) && Adjacent(c, n)
  {
    var down, up := Present(TryNew(c.row + 1, c.col, rows, cols)), Present(TryNew(c.row - 1, c.col, rows, cols));
    var right, left := Present(TryNew(c.row, c.col + 1, rows, cols)), Present(TryNew(c.row, c.col - 1, rows, cols));
    assert forall n :: n in down + up + right + left <==> n in down || n in up || n in right || n in left;
    down + up + right + left
  }

  /** A frontier entry: a cell and the last day a walk from the top row to it stays dry. */
  datatype State = State(cell: Cell, limit: nat)

  /** The `Ord` of `State`: the later limit first, and on equal limits the lower row (the
      larger row index). The column is not compared. */
  function Cmp(a: State, b: State): Ordering
  {
    match Compare(a.limit, b.limit)
    case Equal => Compare(a.cell.row, b.cell.row)
    case other => other
  }

  /** With rows below 2^16, as the source's `u16` rows are, `Cmp` ranks states by the single
      number `limit * 2^16 + row`. */
  function Rank(s: State): nat
  {
    s.limit * 0x1_0000 + s.cell.row
  }

  lemma CmpRank(a: State, b: State)
    requires a.cell.row < 0x1_0000 && b.cell.row < 0x1_0000
    ensures Cmp(a, b) == Compare(Rank(a), Rank(b))
  {
    if a.limit < b.limit {
      assert a.limit * 0x1_0000 + 0x1_0000 <= b.limit * 0x1_0000;
    } else if b.limit < a.limit {
      assert b.limit * 0x1_0000 + 0x1_0000 <= a.limit * 0x1_0000;
    }
  }

  /** `Cmp` is a total preorder: flipping the arguments flips the answer, and it is
      transitive, as `BinaryHeap` needs. */
  lemma CmpFlip(a: State, b: State)
    ensures Cmp(a, b) == Less <==> Cmp(b, a) == Greater
    ensures Cmp(a, b) == Equal <==> Cmp(b, a) == Equal
  {
  }

  lemma CmpTrans(a: State, b: State, c: State)
    ensures Cmp(a, b) != Greater && Cmp(b, c) != Greater ==> Cmp(a, c) != Greater
    ensures Cmp(a, b) == Less && Cmp(b, c) != Greater ==> Cmp(a, c) == Less
  {
  }

  /** The position of a greatest entry: the one `BinaryHeap::pop` takes (the first of them
      on ties, whose order the source leaves open). */
  function Top(heap: seq<State>): (m: nat)
    requires |heap| > 0
    ensures m < |heap| && forall j :: 0 <= j < |heap| ==> Cmp(heap[j], heap[m]) != Greater
  {
    if |heap| == 1 then 0
    else
      var m := Top(heap[..|heap| - 1]);
      var last := heap[|heap| - 1];
      if Cmp(last, heap[m]) == Greater then
        assert forall j :: 0 <= j < |heap| - 1 ==> Cmp(heap[j], heap[m]) != Greater;
        forall j | 0 <= j < |heap| - 1 ensures Cmp(heap[j], last) != Greater {
          CmpFlip(last, heap[m]);
          CmpTrans(heap[j], heap[m], last);
        }
        |heap| - 1
      else m
  }

  /** `s` without its entry at `m`, the others kept in order. */
  function Remove<T>(s: seq<T>, m: nat): (r: seq<T>)
    requires m < |s|
    ensures |r| == |s| - 1 && multiset(r) + multiset{s[m]} == multiset(s)
    ensures forall i :: 0 <= i < m ==> r[i] == s[i]
    ensures forall i :: m < i < |s| ==> r[i - 1] == s[i]
  {
    assert s == s[..m] + [s[m]] + s[m + 1..];
    s[..m] + s[m + 1..]
  }

  /** The day index of every cell, as the source's `grid` holds it. */
  datatype Grid = Grid(rows: nat, cols: nat, days: seq<seq<nat>>)

  /** A grid of at least one cell whose sides fit the source's `i16` arithmetic. */
  predicate Valid(g: Grid)
  {
    1 <= g.rows <= I16Max && 1 <= g.cols <= I16Max && |g.days| == g.rows &&
    forall r :: 0 <= r < g.rows ==> |g.days[r]| == g.cols
  }

  function Get(g: Grid, c: Cell): nat
    requires Valid(g) && InGrid(c, g.rows, g.cols)
  {
    g.days[c.row][c.col]
  }

  /** Whether `cells[i]` names the cell at `(r, c)`: the input is 1-based. */
  predicate Names(entry: seq<int>, r: int, c: int)
  {
    |entry| >= 2 && entry[0] - 1 == r && entry[1] - 1 == c
  }

  /** The day index stored at `(r, c)` once `cells` is written in order: the last `i` whose
      `cells[i]` names the cell, and 0, the initial value, when none does. */
  function Flood(cells: seq<seq<int>>, r: int, c: int): nat
  {
    if |cells| == 0 then 0
    else if Names(cells[|cells| - 1], r, c) then |cells| - 1
    else Flood(cells[..|cells| - 1], r, c)
  }

  function FloodRow(cells: seq<seq<int>>, r: int, cols: nat): (row: seq<nat>)
    ensures |row| == cols && forall c :: 0 <= c < cols ==> row[c] == Flood(cells, r, c)
  {
    seq(cols, c => Flood(cells, r, c))
  }

  /** The grid the fill loop produces, stated cell by cell. */
  function FloodGrid(cells: seq<seq<int>>, rows: nat, cols: nat): (g: Grid)
    ensures g.rows == rows && g.cols == cols && |g.days| == rows
    ensures forall r :: 0 <= r < rows ==> g.days[r] == FloodRow(cells, r, cols)
  {
    Grid(rows, cols, seq(rows, r => FloodRow(cells, r, cols)))
  }

  /** Every entry of `cells` names a cell of the grid, as the indexing on line 89 needs. */
  predicate Fits(cells: seq<seq<int>>, rows: nat, cols: nat)
  {
    forall i :: 0 <= i < |cells| ==> |cells[i]| >= 2 && 1 <= cells[i][0] <= rows && 1 <= cells[i][1] <= cols
  }

  /** The fill loop (lines 84-90): each `cells[i]`, made 0-based, receives the day index `i`. */
  method Fill(rows: nat, cols: nat, cells: seq<seq<int>>) returns (days: seq<seq<nat>>)
    requires Fits(cells, rows, cols)
    ensures days == FloodGrid(cells, rows, cols).days
  {
    days := seq(rows, r => seq(cols, c => 0));
    var i: nat := 0;
    while i < |cells|
      invariant i <= |cells| && |days| == rows
      invariant forall r :: 0 <= r < rows ==> days[r] == FloodRow(cells[..i], r, cols)
    {
      var r, c := cells[i][0] - 1, cells[i][1] - 1;
      var line: seq<nat> := days[r][c := i];
      days := days[r := line];
      FloodStep(cells, i, rows, cols);
      i := i + 1;
    }
    assert cells[..|cells|] == cells;
  }

  /** The day index at a cell is the last entry naming it. */
  lemma {:induction false} FloodLast(cells: seq<seq<int>>, r: int, c: int, i: nat)
    requires i < |cells| && Names(cells[i], r, c)
    requires forall j :: i < j < |cells| ==> !Names(cells[j], r, c)
    ensures Flood(cells, r, c) == i
    decreases |cells|
  {
    if i < |cells| - 1 {
      var init := cells[..|cells| - 1];
      assert init[i] == cells[i];
      forall j | i < j < |init| ensures !Names(init[j], r, c) {
        assert init[j] == cells[j];
      }
      FloodLast(init, r, c, i);
    }
  }

  /** Writing entry `i` changes exactly the cell it names. */
  lemma FloodStep(cells: seq<seq<int>>, i: nat, rows: nat, cols: nat)
    requires i < |cells| && Fits(cells, rows, cols)
    ensures forall r, c :: Flood(cells[..i + 1], r, c) ==
                           if Names(cells[i], r, c) then i else Flood(cells[..i], r, c)
  {
    assert cells[..i + 1][..i] == cells[..i];
  }

  /** Every cell of the grid. */
  function AllCells(g: Grid): (s: set<Cell>)
    ensures forall c :: c in s <==> InGrid(c, g.rows, g.cols)
  {
    set r: nat, c: nat | r < g.rows && c < g.cols :: Cell(r, c)
  }

  /** `p` is a walk through the grid that steps between adjacent cells. */
  predicate Walk(g: Grid, p: seq<Cell>)
  {
    |p| >= 1 && (forall i :: 0 <= i < |p| ==> InGrid(p[i], g.rows, g.cols)) &&
    forall i :: 0 <= i < |p| - 1 ==> Adjacent(p[i], p[i + 1])
  }

  /** A walk that starts in the top row. */
  predicate FromTop(g: Grid, p: seq<Cell>)
  {
    Walk(g, p) && p[0].row == 0
  }

  /** A walk from the top row to the bottom row. */
  predicate Crossing(g: Grid, p: seq<Cell>)
  {
    FromTop(g, p) && p[|p| - 1].row == g.rows - 1
  }

  /** The last day a walk stays dry: the earliest flooding day index among its cells. */
  function Driest(g: Grid, p: seq<Cell>): (d: nat)
    requires Valid(g) && Walk(g, p)
    ensures forall i :: 0 <= i < |p| ==> d <= Get(g, p[i])
    ensures exists i :: 0 <= i < |p| && d == Get(g, p[i])
  {
    if |p| == 1 then Get(g, p[0])
    else
      var d := Driest(g, p[..|p| - 1]);
      var last := Get(g, p[|p| - 1]);
      if d <= last then d else last
  }

  /** The answer the problem asks for: the best `Driest` over all crossings. */
  ghost predicate Widest(g: Grid, d: int)
  {
    Valid(g) && (exists p :: Crossing(g, p) && Driest(g, p) == d) &&
    forall p :: Crossing(g, p) ==> Driest(g, p) <= d
  }

  /** There is only one such answer. */
  lemma WidestUnique(g: Grid, d: int, e: int)
    requires Widest(g, d) && Widest(g, e)
    ensures d == e
  {
  }

  /** Stepping from the end of a walk from the top row to an adjacent cell gives a longer
      one, whose dry limit is the smaller of the two, as on line 131. */
  lemma DriestStep(g: Grid, p: seq<Cell>, n: Cell) returns (q: seq<Cell>)
    requires Valid(g) && FromTop(g, p) && InGrid(n, g.rows, g.cols) && Adjacent(p[|p| - 1], n)
    ensures FromTop(g, q) && q[|q| - 1] == n && Driest(g, q) == Min(Driest(g, p), Get(g, n))
  {
    q := p + [n];
    assert q[..|p|] == p;
  }

  /** `s` is backed by a walk from the top row to its cell that stays dry until its limit. */
  ghost predicate Reached(g: Grid, s: State)
  {
    Valid(g) && exists p :: FromTop(g, p) && p[|p| - 1] == s.cell && Driest(g, p) == s.limit
  }

  /** The frontier: the heap of states and the set of cells ever pushed. */
  datatype Frontier = Frontier(heap: seq<State>, explored: set<Cell>)

  /** The cells of the states in a heap. */
  function HeapCells(heap: seq<State>): set<Cell>
  {
    set i | 0 <= i < |heap| :: heap[i].cell
  }

  /** Every state of the heap lies in the grid. */
  predicate Placed(g: Grid, heap: seq<State>)
  {
    forall i :: 0 <= i < |heap| ==> InGrid(heap[i].cell, g.rows, g.cols)
  }

  /** The loop over `expand` (lines 116-135) after a state of dry limit `limit` is popped: each
      neighbour not explored yet is marked explored and pushed with the smaller of `limit` and
      its own day index. */
  function Relax(g: Grid, limit: nat, ns: seq<Cell>, f: Frontier): (r: Frontier)
    requires Valid(g) && forall i :: 0 <= i < |ns| ==> InGrid(ns[i], g.rows, g.cols)
    ensures forall c :: c in r.explored <==> c in f.explored || c in ns
    ensures |f.heap| <= |r.heap| && forall j :: 0 <= j < |f.heap| ==> r.heap[j] == f.heap[j]
    ensures r.explored == f.explored ==> |r.heap| == |f.heap|
    ensures forall j :: |f.heap| <= j < |r.heap| ==>
              r.heap[j].cell in ns && r.heap[j].cell !in f.explored &&
              r.heap[j].limit == Min(limit, Get(g, r.heap[j].cell))
    ensures forall c :: c in ns && c !in f.explored ==> c in HeapCells(r.heap)
    decreases |ns|
  {
    if |ns| == 0 then f
    else
      var n := ns[0];
      if n in f.explored then Relax(g, limit, ns[1..], f)
      else
        var s := State(n, if limit <= Get(g, n) then limit else Get(g, n));
        var r := Relax(g, limit, ns[1..], Frontier(f.heap + [s], f.explored + {n}));
        assert r.heap[|f.heap|] == s;
        r
  }

  /** One round of the `while let` loop (lines 108-135) for a state not in the last row: pop
      the greatest state and relax its neighbours. */
  function Next(g: Grid, f: Frontier): (r: Frontier)
    requires Valid(g) && Placed(g, f.heap) && |f.heap| > 0
    ensures Placed(g, r.heap)
    ensures f.explored <= r.explored
    ensures forall c :: c in r.explored ==> c in f.explored || InGrid(c, g.rows, g.cols)
    ensures r.explored == f.explored ==> |r.heap| < |f.heap|
  {
    var m := Top(f.heap);
    var s := f.heap[m];
    var ns := Neighbours(s.cell, g.rows, g.cols);
    var rest := Remove(f.heap, m);
    RemovePlaced(g, f.heap, m);
    assert forall i :: 0 <= i < |ns| ==> InGrid(ns[i], g.rows, g.cols);
    var r := Relax(g, s.limit, ns, Frontier(rest, f.explored));
    r
  }

  lemma RemovePlaced(g: Grid, heap: seq<State>, m: nat)
    requires Placed(g, heap) && m < |heap|
    ensures Placed(g, Remove(heap, m))
  {
    var rest := Remove(heap, m);
    forall i | 0 <= i < |rest| ensures InGrid(rest[i].cell, g.rows, g.cols) {
      if i >= m { assert rest[i] == heap[i + 1]; }
    }
  }

  /** The search loop of lines 108-139: the limit of the first state popped from the last row,
      and 0 when the heap runs dry. */
  function Run(g: Grid, f: Frontier): (day: nat)
    requires Valid(g) && Placed(g, f.heap)
    decreases AllCells(g) - f.explored, |f.heap|
  {
    if |f.heap| == 0 then 0
    else
      var s := f.heap[Top(f.heap)];
      if s.cell.row == g.rows - 1 then s.limit
      else Run(g, Next(g, f))
  }

  /** The start of the search (lines 93-105): every top-row cell, explored, with its own day
      index as its limit. */
  function Init(g: Grid): (f: Frontier)
    requires Valid(g)
    ensures |f.heap| == g.cols && Placed(g, f.heap)
    ensures forall i :: 0 <= i < g.cols ==> f.heap[i] == State(Cell(0, i), Get(g, Cell(0, i)))
    ensures forall c :: c in f.explored <==> c.row == 0 && c.col < g.cols
  {
    Frontier(seq(g.cols, i requires 0 <= i < g.cols => State(Cell(0, i), Get(g, Cell(0, i)))),
             set i: nat | i < g.cols :: Cell(0, i))
  }

  /** What the search keeps true once the cells of `popped` have been taken off the heap:
      every explored cell was popped or waits in the heap, the top row is explored, no popped
      cell lies in the last row, and every neighbour of a popped cell is explored. */
  ghost predicate Covered(g: Grid, f: Frontier, popped: set<Cell>)
  {
    Valid(g) && Placed(g, f.heap) &&
    (forall c :: c in f.explored ==> c in popped || c in HeapCells(f.heap)) &&
    (forall c :: InGrid(c, g.rows, g.cols) && c.row == 0 ==> c in f.explored) &&
    (forall c :: c in popped ==> c.row != g.rows - 1) &&
    (forall c, n :: c in popped && InGrid(n, g.rows, g.cols) && Adjacent(c, n) ==> n in f.explored)
  }

  /** Every state in the heap is backed by a walk from the top row. */
  ghost predicate Sound(g: Grid, heap: seq<State>)
  {
    forall i :: 0 <= i < |heap| ==> Reached(g, heap[i])
  }

  /** Every state in the heap whose cell lies on `p` has a limit of at least `b`. */
  ghost predicate Above(heap: seq<State>, p: seq<Cell>, b: nat)
  {
    forall i :: 0 <= i < |heap| && heap[i].cell in p ==> heap[i].limit >= b
  }

  /** Any crossing has a cell waiting in the heap: walk along it from the top row while its
      cells are popped; the last cell lies in the last row, so is never popped. */
  lemma Open(g: Grid, f: Frontier, popped: set<Cell>, p: seq<Cell>) returns (i: nat)
    requires Covered(g, f, popped) && Crossing(g, p)
    ensures i < |f.heap| && f.heap[i].cell in p
  {
    var k := 0;
    assert InGrid(p[0], g.rows, g.cols);
    while p[k] in popped
      invariant 0 <= k < |p| && p[k] in f.explored
      decreases |p| - k
    {
      assert k < |p| - 1;
      assert InGrid(p[k + 1], g.rows, g.cols) && Adjacent(p[k], p[k + 1]);
      k := k + 1;
    }
    assert p[k] in HeapCells(f.heap);
    i :| 0 <= i < |f.heap| && f.heap[i].cell == p[k];
  }

  /** The first column is a crossing, so the heap never runs dry before the search returns. */
  function Column(g: Grid): (p: seq<Cell>)
    requires Valid(g)
    ensures Crossing(g, p)
  {
    seq(g.rows, r requires 0 <= r < g.rows => Cell(r, 0))
  }

  /** What a round does to the frontier, stated for the popped state `s` at position `m`: the
      other states keep their order, each pushed state is a neighbour of `s` with the smaller of
      the two limits, and the explored set gains exactly the neighbours of `s`. */
  lemma NextShape(g: Grid, f: Frontier) returns (m: nat, r: Frontier)
    requires Valid(g) && Placed(g, f.heap) && |f.heap| > 0
    ensures m == Top(f.heap) && r == Next(g, f) && |f.heap| - 1 <= |r.heap|
    ensures forall j :: 0 <= j < m ==> r.heap[j] == f.heap[j]
    ensures forall j :: m < j < |f.heap| ==> r.heap[j - 1] == f.heap[j]
    ensures forall j :: |f.heap| - 1 <= j < |r.heap| ==>
              InGrid(r.heap[j].cell, g.rows, g.cols) && Adjacent(f.heap[m].cell, r.heap[j].cell) &&
              r.heap[j].limit == Min(f.heap[m].limit, Get(g, r.heap[j].cell))
    ensures forall c :: c in r.explored <==>
              c in f.explored || (InGrid(c, g.rows, g.cols) && Adjacent(f.heap[m].cell, c))
    ensures forall c :: InGrid(c, g.rows, g.cols) && Adjacent(f.heap[m].cell, c) && c !in f.explored ==>
              c in HeapCells(r.heap)
  {
    m := Top(f.heap);
    var ns := Neighbours(f.heap[m].cell, g.rows, g.cols);
    var rest := Remove(f.heap, m);
    r := Relax(g, f.heap[m].limit, ns, Frontier(rest, f.explored));
  }

  /** A round keeps the bookkeeping of `Covered`, with the popped cell added to `popped`. */
  lemma StepCovered(g: Grid, f: Frontier, popped: set<Cell>)
    requires Covered(g, f, popped) && |f.heap| > 0
    requires f.heap[Top(f.heap)].cell.row != g.rows - 1
    ensures Covered(g, Next(g, f), popped + {f.heap[Top(f.heap)].cell})
  {
    var m, r := NextShape(g, f);
    var s := f.heap[m];
    var popped' := popped + {s.cell};
    ExploredKept(g, f, popped, m, r);
    assert forall c :: InGrid(c, g.rows, g.cols) && c.row == 0 ==> c in r.explored;
    assert forall c :: c in popped' ==> c.row != g.rows - 1;
    assert forall c, n :: c in popped' && InGrid(n, g.rows, g.cols) && Adjacent(c, n) ==> n in r.explored;
  }

  /** After a round every explored cell is popped or still on the heap. */
  lemma ExploredKept(g: Grid, f: Frontier, popped: set<Cell>, m: nat, r: Frontier)
    requires Covered(g, f, popped) && m < |f.heap| && |f.heap| - 1 <= |r.heap|
    requires forall j :: 0 <= j < m ==> r.heap[j] == f.heap[j]
    requires forall j :: m < j < |f.heap| ==> r.heap[j - 1] == f.heap[j]
    requires forall c :: c in r.explored <==>
               c in f.explored || (InGrid(c, g.rows, g.cols) && Adjacent(f.heap[m].cell, c))
    requires forall c :: InGrid(c, g.rows, g.cols) && Adjacent(f.heap[m].cell, c) && c !in f.explored ==>
               c in HeapCells(r.heap)
    ensures forall c :: c in r.explored ==> c in popped + {f.heap[m].cell} || c in HeapCells(r.heap)
  {
    var popped' := popped + {f.heap[m].cell};
    forall c | c in r.explored && c !in popped' ensures c in HeapCells(r.heap) {
      if c in f.explored {
        var i :| 0 <= i < |f.heap| && f.heap[i].cell == c;
        var j := if i < m then i else i - 1;
        assert r.heap[j] == f.heap[i];
      }
    }
  }

  /** A pushed neighbour's walk: the popped state's walk, one step longer. */
  lemma Extend(g: Grid, s: State, n: State)
    requires Reached(g, s) && InGrid(n.cell, g.rows, g.cols) && Adjacent(s.cell, n.cell)
    requires n.limit == Min(s.limit, Get(g, n.cell))
    ensures Reached(g, n)
  {
    var w :| FromTop(g, w) && w[|w| - 1] == s.cell && Driest(g, w) == s.limit;
    var w' := DriestStep(g, w, n.cell);
  }

  /** A round keeps every heap state backed by a walk. */
  lemma StepSound(g: Grid, f: Frontier)
    requires Valid(g) && Placed(g, f.heap) && |f.heap| > 0 && Sound(g, f.heap)
    ensures Sound(g, Next(g, f).heap)
  {
    var m, r := NextShape(g, f);
    forall j | 0 <= j < |r.heap| ensures Reached(g, r.heap[j]) {
      if j < m {
        assert r.heap[j] == f.heap[j];
      } else if j < |f.heap| - 1 {
        assert r.heap[j] == f.heap[j + 1];
      } else {
        Extend(g, f.heap[m], r.heap[j]);
      }
    }
  }

  /** A round keeps `Above` for a crossing `p` whose cells are all dry until `b`, provided the
      popped state's limit is at least `b`. */
  lemma StepAbove(g: Grid, f: Frontier, p: seq<Cell>, b: nat)
    requires Valid(g) && Placed(g, f.heap) && |f.heap| > 0 && Above(f.heap, p, b)
    requires forall k :: 0 <= k < |p| ==> InGrid(p[k], g.rows, g.cols) && Get(g, p[k]) >= b
    requires f.heap[Top(f.heap)].limit >= b
    ensures Above(Next(g, f).heap, p, b)
  {
    var m, r := NextShape(g, f);
    forall j | 0 <= j < |r.heap| && r.heap[j].cell in p ensures r.heap[j].limit >= b {
      if j < m {
        assert r.heap[j] == f.heap[j];
      } else if j < |f.heap| - 1 {
        assert r.heap[j] == f.heap[j + 1];
      } else {
        var k :| 0 <= k < |p| && p[k] == r.heap[j].cell;
      }
    }
  }

  /** What the search returns is the dry limit of some crossing. */
  lemma {:induction false} RunSound(g: Grid, f: Frontier, popped: set<Cell>)
    requires Covered(g, f, popped) && Sound(g, f.heap)
    ensures exists p :: Crossing(g, p) && Driest(g, p) == Run(g, f)
    decreases AllCells(g) - f.explored, |f.heap|
  {
    var i := Open(g, f, popped, Column(g));
    var s := f.heap[Top(f.heap)];
    if s.cell.row == g.rows - 1 {
      assert Reached(g, s);
      var p :| FromTop(g, p) && p[|p| - 1] == s.cell && Driest(g, p) == s.limit;
      assert Crossing(g, p);
    } else {
      StepCovered(g, f, popped);
      StepSound(g, f);
      Progress(g, f);
      RunSound(g, Next(g, f), popped + {s.cell});
    }
  }

  /** What the search returns is at least the dry limit of any crossing `p`: a cell of `p` always
      waits in the heap with a limit of at least `Driest(g, p)`, so the popped state has one too. */
  lemma {:induction false} RunOptimal(g: Grid, f: Frontier, popped: set<Cell>, p: seq<Cell>)
    requires Covered(g, f, popped) && Crossing(g, p) && Above(f.heap, p, Driest(g, p))
    ensures Driest(g, p) <= Run(g, f)
    decreases AllCells(g) - f.explored, |f.heap|
  {
    var i := Open(g, f, popped, p);
    var m := Top(f.heap);
    var s := f.heap[m];
    assert Cmp(f.heap[i], s) != Greater;
    if s.cell.row != g.rows - 1 {
      StepCovered(g, f, popped);
      StepAbove(g, f, p, Driest(g, p));
      Progress(g, f);
      RunOptimal(g, Next(g, f), popped + {s.cell}, p);
    }
  }

  /** Each round either explores a new cell of the grid or shrinks the heap. */
  lemma Progress(g: Grid, f: Frontier)
    requires Valid(g) && Placed(g, f.heap) && |f.heap| > 0
    ensures var r := Next(g, f);
      AllCells(g) - r.explored < AllCells(g) - f.explored ||
      (AllCells(g) - r.explored == AllCells(g) - f.explored && |r.heap| < |f.heap|)
  {
    var r := Next(g, f);
    if r.explored != f.explored {
      var c :| c in r.explored && c !in f.explored;
      assert c in AllCells(g) - f.explored;
    }
  }

  /** The search starts from a state that meets `Covered`, with nothing popped yet. */
  lemma InitCovered(g: Grid)
    requires Valid(g)
    ensures Covered(g, Init(g), {})
  {
    var f := Init(g);
    forall c | c in f.explored ensures c in HeapCells(f.heap) {
      assert f.heap[c.col].cell == c;
    }
  }

  /** Each starting state is backed by the one-cell walk. */
  lemma InitSound(g: Grid)
    requires Valid(g)
    ensures Sound(g, Init(g).heap)
  {
    var f := Init(g);
    forall i | 0 <= i < |f.heap| ensures Reached(g, f.heap[i]) {
      assert FromTop(g, [f.heap[i].cell]);
    }
  }

  /** A starting state on a crossing holds the day index of one of its cells, which is at
      least the crossing's dry limit. */
  lemma InitAbove(g: Grid, p: seq<Cell>)
    requires Valid(g) && Crossing(g, p)
    ensures Above(Init(g).heap, p, Driest(g, p))
  {
  }

  /** `latest_day_to_cross`: fill the grid, then search it. The answer is the best dry limit
      over all crossings. */
  method LatestDayToCross(row: int, col: int, cells: seq<seq<int>>) returns (day: int)
    requires 1 <= row <= I16Max && 1 <= col <= I16Max
    requires |cells| <= 0x1_0000 && Fits(cells, row, col)
    ensures Widest(FloodGrid(cells, row, col), day)
  {
    var days := Fill(row, col, cells);
    var g := Grid(row, col, days);
    assert g == FloodGrid(cells, row, col);
    day := Run(g, Init(g));
    InitCovered(g);
    InitSound(g);
    RunSound(g, Init(g), {});
    forall p | Crossing(g, p) ensures Driest(g, p) <= day {
      InitAbove(g, p);
      RunOptimal(g, Init(g), {}, p);
    }
  }

  /** The test on lines 146-151: on a 2 by 2 grid flooded in the order (1, 1), (2, 1), (1, 2),
      (2, 2) the answer is day 2, reached by the right-hand column. */
  lemma Test1()
    ensures Widest(FloodGrid([[1, 1], [2, 1], [1, 2], [2, 2]], 2, 2), 2)
  {
    var cells: seq<seq<int>> := [[1, 1], [2, 1], [1, 2], [2, 2]];
    var g := FloodGrid(cells, 2, 2);
    assert Valid(g);
    FloodLast(cells, 0, 0, 0);
    FloodLast(cells, 0, 1, 2);
    FloodLast(cells, 1, 1, 3);
    assert Get(g, Cell(0, 0)) == 0;
    assert Get(g, Cell(0, 1)) == 2;
    assert Get(g, Cell(1, 1)) == 3;
    var right := [Cell(0, 1), Cell(1, 1)];
    assert Crossing(g, right) && Driest(g, right) == 2;
    forall p | Crossing(g, p) ensures Driest(g, p) <= 2 {
      assert p[0] == Cell(0, 0) || p[0] == Cell(0, 1);
    }
  }
}
