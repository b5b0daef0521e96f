/** The pieces of the keys-and-locks grid search (search/heap/get_all_keys.rs) that carry a
    precise meaning: the parser from text rows to cells, the geometry of points, the key
    bitmask, the expansion of a search state, the heap order, the estimate tree over the keys,
    and the check that ends the search. */
module GetAllKeys {
  import opened Common

  /** A cell of the grid. Key and lock ids count from 0 for `a` and `A`. */
  datatype Cell = Empty | Wall | Start | Key(id: nat) | Lock(id: nat)

  /** A (row, col) position. */
  datatype Point = Point(row: nat, col: nat)

  // ---------------------------------------------------------------- the parser

  /** The characters `Grid::new` accepts; any other one panics (line 120). */
  predicate Legal(ch: char)
  {
    ch == '.' || ch == '#' || ch == '@' || 'a' <= ch <= 'z' || 'A' <= ch <= 'Z'
  }

  function KeyChar(id: nat): char
    requires id < 26
  {
    ('a' as int + id) as char
  }

  function LockChar(id: nat): char
    requires id < 26
  {
    ('A' as int + id) as char
  }

  /** A cell that some character stands for. */
  predicate Printable(c: Cell)
  {
    (c.Key? ==> c.id < 26) && (c.Lock? ==> c.id < 26)
  }

  /** The character a cell is written with. */
  function Show(c: Cell): char
    requires Printable(c)
  {
    match c
    case Empty => '.'
    case Wall => '#'
    case Start => '@'
    case Key(id) => KeyChar(id)
    case Lock(id) => LockChar(id)
  }

  /** The match on lines 98-120. Nothing is lost: the cell shows as the character it came from. */
  function CellOf(ch: char): (c: Cell)
    requires Legal(ch)
    ensures Printable(c) && Show(c) == ch
  {
    if ch == '.' then Empty
    else if ch == '#' then Wall
    else if ch == '@' then Start
    else if 'a' <= ch <= 'z' then Key(ch as int - 'a' as int)
    else Lock(ch as int - 'A' as int)
  }

  /** The parsed grid. The estimate tree of the source is built separately (`TreeRecurse`). */
  datatype Grid = Grid(cells: seq<seq<Cell>>, keys: seq<Point>, start: Point)

  /** Text the parser accepts: legal characters only, and positions that fit the `u8` casts on
      lines 103 and 112. */
  predicate Parsable(rows: seq<string>)
  {
    |rows| <= 0x100 &&
    forall i :: 0 <= i < |rows| ==> |rows[i]| <= 0x100 && forall j :: 0 <= j < |rows[i]| ==> Legal(rows[i][j])
  }

  /** `p` is a position of the text. */
  predicate At(rows: seq<string>, p: Point)
  {
    p.row < |rows| && p.col < |rows[p.row]|
  }

  /** Row-major order, the order in which the parser visits positions. */
  predicate Before(p: Point, q: Point)
  {
    p.row < q.row || (p.row == q.row && p.col < q.col)
  }

  /** `p` has been visited once the parser stands at row `i`, column `j`. */
  predicate Seen(rows: seq<string>, p: Point, i: nat, j: nat)
  {
    At(rows, p) && Before(p, Point(i, j))
  }

  /** What a recorded position holds after the visit up to `(i, j)`: the last visited position
      of `ch`, or the default `(0, 0)` while none has been visited. */
  ghost predicate Slot(rows: seq<string>, p: Point, ch: char, i: nat, j: nat)
  {
    if exists q :: Seen(rows, q, i, j) && rows[q.row][q.col] == ch then
      Seen(rows, p, i, j) && rows[p.row][p.col] == ch &&
      forall q :: Seen(rows, q, i, j) && rows[q.row][q.col] == ch ==> !Before(p, q)
    else p == Point(0, 0)
  }

  /** The key list after the visit up to `(i, j)`: every key visited has a place in it, its
      last place holds a visited key, and each key id records its last position. */
  ghost predicate KeysScanned(rows: seq<string>, keys: seq<Point>, i: nat, j: nat)
  {
    |keys| <= 26 &&
    (forall q :: Seen(rows, q, i, j) && 'a' <= rows[q.row][q.col] <= 'z' ==>
       rows[q.row][q.col] as int - 'a' as int < |keys|) &&
    (|keys| > 0 ==> exists q :: Seen(rows, q, i, j) && rows[q.row][q.col] == KeyChar(|keys| - 1)) &&
    (forall id :: 0 <= id < |keys| ==> Slot(rows, keys[id], KeyChar(id), i, j))
  }

  /** The parser's state at `(i, j)`: the key list, and `start` recording the last `@`. */
  ghost predicate Scanned(rows: seq<string>, keys: seq<Point>, start: Point, i: nat, j: nat)
  {
    KeysScanned(rows, keys, i, j) && Slot(rows, start, '@', i, j)
  }

  /** Visiting `(i, j)` keeps a slot for a character it does not hold. */
  lemma SlotMiss(rows: seq<string>, p: Point, ch: char, i: nat, j: nat)
    requires i < |rows| && j < |rows[i]| && rows[i][j] != ch && Slot(rows, p, ch, i, j)
    ensures Slot(rows, p, ch, i, j + 1)
  {
    forall q | Seen(rows, q, i, j + 1) && rows[q.row][q.col] == ch ensures Seen(rows, q, i, j) {
    }
  }

  /** Visiting `(i, j)` makes it the slot of the character it holds. */
  lemma SlotHit(rows: seq<string>, ch: char, i: nat, j: nat)
    requires i < |rows| && j < |rows[i]| && rows[i][j] == ch
    ensures Slot(rows, Point(i, j), ch, i, j + 1)
  {
    assert Seen(rows, Point(i, j), i, j + 1);
  }

  /** The end of a row is the start of the next. */
  lemma SlotRow(rows: seq<string>, p: Point, ch: char, i: nat)
    requires i < |rows| && Slot(rows, p, ch, i, |rows[i]|)
    ensures Slot(rows, p, ch, i + 1, 0)
  {
    assert forall q :: Seen(rows, q, i, |rows[i]|) <==> Seen(rows, q, i + 1, 0);
  }

  /** One character of the parser (lines 97-121): the cell it becomes, and the key list and
      start after it. */
  method Visit(rows: seq<string>, i: nat, j: nat, keys: seq<Point>, start: Point)
    returns (cell: Cell, keys': seq<Point>, start': Point)
    requires Parsable(rows) && i < |rows| && j < |rows[i]| && Scanned(rows, keys, start, i, j)
    ensures cell == CellOf(rows[i][j]) && Scanned(rows, keys', start', i, j + 1)
  {
    var ch := rows[i][j];
    cell := CellOf(ch);
    keys', start' := keys, start;
    if ch == '@' {
      start' := Point(i, j);
      SlotHit(rows, '@', i, j);
    } else {
      SlotMiss(rows, start, '@', i, j);
    }
    if 'a' <= ch <= 'z' {
      var id := ch as int - 'a' as int;
      if id >= |keys| {
        keys' := keys + seq(id + 1 - |keys|, _ => Point(0, 0));
      }
      keys' := keys'[id := Point(i, j)];
      KeysHit(rows, keys, keys', id, i, j);
    } else {
      KeysMiss(rows, keys, i, j);
    }
  }

  /** Visiting a position that holds no key keeps the key list. */
  lemma KeysMiss(rows: seq<string>, keys: seq<Point>, i: nat, j: nat)
    requires i < |rows| && j < |rows[i]| && KeysScanned(rows, keys, i, j) && !('a' <= rows[i][j] <= 'z')
    ensures KeysScanned(rows, keys, i, j + 1)
  {
    forall id | 0 <= id < |keys| ensures Slot(rows, keys[id], KeyChar(id), i, j + 1) {
      SlotMiss(rows, keys[id], KeyChar(id), i, j);
    }
    assert forall q :: Seen(rows, q, i, j + 1) ==> Seen(rows, q, i, j) || q == Point(i, j);
    if |keys| > 0 {
      var q :| Seen(rows, q, i, j) && rows[q.row][q.col] == KeyChar(|keys| - 1);
      assert Seen(rows, q, i, j + 1);
    }
  }

  /** Visiting key `id` at `(i, j)`: the list grows to `id + 1` with default positions when it
      is too short (lines 108-110), and position `id` records `(i, j)` (line 112). */
  lemma KeysHit(rows: seq<string>, keys: seq<Point>, keys': seq<Point>, id: nat, i: nat, j: nat)
    requires i < |rows| && j < |rows[i]| && KeysScanned(rows, keys, i, j)
    requires id < 26 && rows[i][j] == KeyChar(id)
    requires |keys'| == (if id < |keys| then |keys| else id + 1) && keys'[id] == Point(i, j)
    requires forall k :: 0 <= k < |keys'| && k != id ==> keys'[k] == if k < |keys| then keys[k] else Point(0, 0)
    ensures KeysScanned(rows, keys', i, j + 1)
  {
    SlotHit(rows, KeyChar(id), i, j);
    forall k | 0 <= k < |keys'| && k != id ensures Slot(rows, keys'[k], KeyChar(k), i, j + 1) {
      if k < |keys| {
        SlotMiss(rows, keys[k], KeyChar(k), i, j);
      } else {
        forall q | Seen(rows, q, i, j + 1) ensures rows[q.row][q.col] != KeyChar(k) {
          if q != Point(i, j) {
            assert Seen(rows, q, i, j);
          }
        }
      }
    }
    if |keys| <= id {
      assert Seen(rows, Point(i, j), i, j + 1);
    } else if |keys| > 0 {
      var q :| Seen(rows, q, i, j) && rows[q.row][q.col] == KeyChar(|keys| - 1);
      assert Seen(rows, q, i, j + 1);
    }
  }

  /** The end of a row is the start of the next, for the whole parser state. */
  lemma ScannedRow(rows: seq<string>, keys: seq<Point>, start: Point, i: nat)
    requires i < |rows| && Scanned(rows, keys, start, i, |rows[i]|)
    ensures Scanned(rows, keys, start, i + 1, 0)
  {
    assert forall q :: Seen(rows, q, i, |rows[i]|) <==> Seen(rows, q, i + 1, 0);
    forall id | 0 <= id < |keys| ensures Slot(rows, keys[id], KeyChar(id), i + 1, 0) {
      SlotRow(rows, keys[id], KeyChar(id), i);
    }
    SlotRow(rows, start, '@', i);
  }

  /** The cells of one text row. */
  predicate RowParsed(line: seq<Cell>, text: string)
  {
    |line| == |text| && forall c :: 0 <= c < |text| ==> Legal(text[c]) && line[c] == CellOf(text[c])
  }

  lemma CellsGrow(cells: seq<Cell>, cell: Cell, text: string, j: nat)
    requires j < |text| && |cells| == j && Legal(text[j]) && cell == CellOf(text[j])
    requires forall c :: 0 <= c < j ==> Legal(text[c]) && cells[c] == CellOf(text[c])
    ensures forall c :: 0 <= c < j + 1 ==> (cells + [cell])[c] == CellOf(text[c])
  {
  }

  /** The inner loop of the parser (lines 95-124): row `i`, from its first character to its
      last, then on to the next row. */
  method ParseRow(rows: seq<string>, i: nat, keys: seq<Point>, start: Point)
    returns (line: seq<Cell>, keys': seq<Point>, start': Point)
    requires Parsable(rows) && i < |rows| && Scanned(rows, keys, start, i, 0)
    ensures RowParsed(line, rows[i]) && Scanned(rows, keys', start', i + 1, 0)
  {
    var ks, st, cells := keys, start, [];
    var j := 0;
    while j < |rows[i]|
      invariant j <= |rows[i]| && |cells| == j
      invariant forall c :: 0 <= c < j ==> cells[c] == CellOf(rows[i][c])
      invariant Scanned(rows, ks, st, i, j)
    {
      var cell;
      cell, ks, st := Visit(rows, i, j, ks, st);
      CellsGrow(cells, cell, rows[i], j);
      cells := cells + [cell];
      j := j + 1;
    }
    line, keys', start' := cells, ks, st;
    ScannedRow(rows, keys', start', i);
  }

  lemma RowsGrow(cells: seq<seq<Cell>>, line: seq<Cell>, rows: seq<string>, i: nat)
    requires i < |rows| && |cells| == i && RowParsed(line, rows[i])
    requires forall r :: 0 <= r < i ==> RowParsed(cells[r], rows[r])
    ensures forall r :: 0 <= r < i + 1 ==> RowParsed((cells + [line])[r], rows[r])
  {
  }

  /** `Grid::new` without the estimate tree (lines 89-126): each character becomes its cell,
      `keys[id]` is the last position of key `id` (the default `(0, 0)` for an id skipped
      over), the list is one longer than the largest key id, and `start` is the last `@`. */
  method NewGrid(rows: seq<string>) returns (g: Grid)
    requires Parsable(rows)
    ensures |g.cells| == |rows|
    ensures forall i :: 0 <= i < |rows| ==> RowParsed(g.cells[i], rows[i])
    ensures Scanned(rows, g.keys, g.start, |rows|, 0)
  {
    var cells: seq<seq<Cell>> := [];
    var keys: seq<Point> := [];
    var start := Point(0, 0);
    var i := 0;
    while i < |rows|
      invariant i <= |rows| && |cells| == i
      invariant forall r :: 0 <= r < i ==> RowParsed(cells[r], rows[r])
      invariant Scanned(rows, keys, start, i, 0)
    {
      var line;
      line, keys, start := ParseRow(rows, i, keys, start);
      RowsGrow(cells, line, rows, i);
      cells := cells + [line];
      i := i + 1;
    }
    g := Grid(cells, keys, start);
  }

  // ---------------------------------------------------------------- points

  /** A point whose coordinates survive `as i8` (line 188) and whose distances fit the `as u8`
      on line 173. */
  predicate InRange(p: Point)
  {
    p.row < 0x80 && p.col < 0x80
  }

  /** A point that can also take one step of `+ 1` in `i8` (line 188). */
  predicate Small(p: Point)
  {
    p.row < 0x7F && p.col < 0x7F
  }

  function Abs(x: int): nat
  {
    if x < 0 then -x else x
  }

  /** `Point::manhattan` (lines 172-174). */
  function Manhattan(p: Point, q: Point): (d: nat)
    requires InRange(p) && InRange(q)
    ensures d < 0x100
  {
    Abs(p.row - q.row) + Abs(p.col - q.col)
  }

  /** The distance is symmetric, zero exactly between equal points, and obeys the triangle
      inequality. */
  lemma ManhattanMetric(p: Point, q: Point, r: Point)
    requires InRange(p) && InRange(q) && InRange(r)
    ensures Manhattan(p, q) == Manhattan(q, p)
    ensures Manhattan(p, q) == 0 <==> p == q
    ensures Manhattan(p, r) <= Manhattan(p, q) + Manhattan(q, r)
  {
  }

  /** A move of `MOVE_DIRECTIONS` (lines 164-169). */
  datatype Dir = Dir(dr: int, dc: int)

  const Moves: seq<Dir> := [Dir(1, 0), Dir(-1, 0), Dir(0, 1), Dir(0, -1)]

  /** `Point + (i8, i8)` (lines 187-193): the moved point, unless a coordinate would become
      negative. */
  function Add(p: Point, d: Dir): (r: Option<Point>)
    requires Small(p) && d in Moves
    ensures r.None? <==> p.row + d.dr < 0 || p.col + d.dc < 0
    ensures r.Some? ==> r.value.row == p.row + d.dr && r.value.col == p.col + d.dc &&
                        InRange(r.value) && Manhattan(p, r.value) == 1
  {
    var x, y := p.row + d.dr, p.col + d.dc;
    if x > -1 && y > -1 then Some(Point(x, y)) else None
  }

  /** The points at distance 1 from `p`, one per move. */
  lemma Unit(p: Point, q: Point)
    requires Small(p) && InRange(q)
    ensures Manhattan(p, q) == 1 <==>
      q == Point(p.row + 1, p.col) || (p.row > 0 && q == Point(p.row - 1, p.col)) ||
      q == Point(p.row, p.col + 1) || (p.col > 0 && q == Point(p.row, p.col - 1))
  {
  }

  /** `Point::expand` (lines 177-181): the moves that stay at non-negative coordinates, in the
      order down, up, right, left. These are exactly the points at distance 1. */
  function Expand(p: Point): (r: seq<Point>)
    requires Small(p)
    ensures |r| <= 4
    ensures forall q :: q in r <==> InRange(q) && Manhattan(p, q) == 1
  {
    var all := [Add(p, Moves[0]), Add(p, Moves[1]), Add(p, Moves[2]), Add(p, Moves[3])];
    var r := Somes(all);
    forall q ensures q in r <==> InRange(q) && Manhattan(p, q) == 1 {
      assert q in r <==> Some(q) in all;
      if InRange(q) { Unit(p, q); }
    }
    r
  }

  /** The values of the `Some` entries, in order: the `filter_map`. */
  function Somes(s: seq<Option<Point>>): (r: seq<Point>)
    ensures |r| <= |s| && forall x :: x in r <==> Some(x) in s
  {
    if |s| == 0 then []
    else (if s[0].Some? then [s[0].value] else []) + Somes(s[1..])
  }

  // ---------------------------------------------------------------- the key mask

  /** `State::has_key` (lines 221-223): bit `id` of the mask. */
  function HasKey(keys: bv8, id: nat): bool
    requires id < 8
  {
    (1 << id) & keys != 0
  }

  /** Picking up key `id` (line 305). */
  function Take(keys: bv8, id: nat): bv8
    requires id < 8
  {
    keys | (1 << id)
  }

  /** Taking a key adds exactly that key. */
  lemma TakeKey(keys: bv8, id: nat, j: nat)
    requires id < 8 && j < 8
    ensures HasKey(Take(keys, id), j) <==> HasKey(keys, j) || j == id
  {
    var b: bv8 := 1 << id;
    var c: bv8 := 1 << j;
    assert id == j ==> b == c;
    assert id != j ==> b & c == 0 by {
      if id != j { assert b == 1 << id && c == 1 << j; }
    }
  }

  /** The mask holding keys `0 .. n - 1`, as on line 307. */
  function Full(n: nat): bv8
    requires n < 8
  {
    (1 << n) - 1
  }

  /** The mask holds exactly the keys `0 .. n - 1`. */
  predicate Exactly(keys: bv8, n: nat)
  {
    forall j :: 0 <= j < 8 ==> (HasKey(keys, j) <==> j < n)
  }

  lemma ExactlyBits(keys: bv8, n: nat)
    ensures Exactly(keys, n) <==>
      (HasKey(keys, 0) <==> 0 < n) && (HasKey(keys, 1) <==> 1 < n) && (HasKey(keys, 2) <==> 2 < n) &&
      (HasKey(keys, 3) <==> 3 < n) && (HasKey(keys, 4) <==> 4 < n) && (HasKey(keys, 5) <==> 5 < n) &&
      (HasKey(keys, 6) <==> 6 < n) && (HasKey(keys, 7) <==> 7 < n)
  {
    if (HasKey(keys, 0) <==> 0 < n) && (HasKey(keys, 1) <==> 1 < n) && (HasKey(keys, 2) <==> 2 < n) &&
       (HasKey(keys, 3) <==> 3 < n) && (HasKey(keys, 4) <==> 4 < n) && (HasKey(keys, 5) <==> 5 < n) &&
       (HasKey(keys, 6) <==> 6 < n) && (HasKey(keys, 7) <==> 7 < n)
    {
      forall j | 0 <= j < 8 ensures HasKey(keys, j) <==> j < n {
        if j == 0 {} else if j == 1 {} else if j == 2 {} else if j == 3 {}
        else if j == 4 {} else if j == 5 {} else if j == 6 {} else {}
      }
    }
  }

  /** The mask equals `(1 << n) - 1` exactly when it holds the keys `0 .. n - 1` and no other. */
  lemma FullKeys(keys: bv8, n: nat)
    requires n < 8
    ensures keys == Full(n) <==> Exactly(keys, n)
  {
    ExactlyBits(keys, n);
    if n == 0 { assert Full(0) == 0; }
    else if n == 1 { assert Full(1) == 1; }
    else if n == 2 { assert Full(2) == 3; }
    else if n == 3 { assert Full(3) == 7; }
    else if n == 4 { assert Full(4) == 15; }
    else if n == 5 { assert Full(5) == 31; }
    else if n == 6 { assert Full(6) == 63; }
    else { assert Full(7) == 127; }
  }

  /** The terminal check of lines 305-309: after picking up key `id`, the mask is
      `(1 << n) - 1` for `n` keys in the grid. */
  function Finished(keys: bv8, id: nat, n: nat): bool
    requires id < 8 && n < 8
  {
    Take(keys, id) == Full(n)
  }

  /** The search stops exactly when the keys held, with the one just picked up, are the keys
      `0 .. n - 1` and no other. */
  lemma FinishedMeaning(keys: bv8, id: nat, n: nat)
    requires id < 8 && n < 8
    ensures Finished(keys, id, n) <==> id < n && forall j :: 0 <= j < 8 && j != id ==> (HasKey(keys, j) <==> j < n)
  {
    FullKeys(Take(keys, id), n);
    forall j | 0 <= j < 8 ensures HasKey(Take(keys, id), j) <==> HasKey(keys, j) || j == id {
      TakeKey(keys, id, j);
    }
  }

  /** The keys among ids 0 to 5 the mask holds. */
  function Held(keys: bv8): set<nat>
  {
    set i | 0 <= i < 6 && HasKey(keys, i)
  }

  /** How many entries are `true`: the `filter(..).count()` of line 250-251. */
  function CountTrue(bs: seq<bool>): (c: nat)
    ensures c <= |bs|
  {
    if |bs| == 0 then 0 else CountTrue(bs[..|bs| - 1]) + if bs[|bs| - 1] then 1 else 0
  }

  /** The positions of the `true` entries. */
  function Singles(bs: seq<bool>): (s: set<nat>)
    ensures forall i: nat :: i in s <==> i < |bs| && bs[i]
  {
    if |bs| == 0 then {}
    else Singles(bs[..|bs| - 1]) + if bs[|bs| - 1] then {|bs| - 1} else {}
  }

  /** Counting the `true` entries counts their positions. */
  lemma {:induction false} SinglesSize(bs: seq<bool>)
    ensures |Singles(bs)| == CountTrue(bs)
  {
    if |bs| > 0 {
      SinglesSize(bs[..|bs| - 1]);
      assert |bs| - 1 !in Singles(bs[..|bs| - 1]);
    }
  }

  /** The bits 0 to 5 of the mask, as `(0..6).map(..)` on lines 248-249 produces them. */
  function Bits(keys: bv8): (bs: seq<bool>)
    ensures |bs| == 6 && forall i :: 0 <= i < 6 ==> bs[i] == HasKey(keys, i)
  {
    [HasKey(keys, 0), HasKey(keys, 1), HasKey(keys, 2), HasKey(keys, 3), HasKey(keys, 4), HasKey(keys, 5)]
  }

  /** `State::key_count` (lines 247-252): how many of the keys 0 to 5 the mask holds. */
  function KeyCount(keys: bv8): (c: nat)
    ensures c == |Held(keys)| && c <= 6
  {
    var bs := Bits(keys);
    assert Held(keys) == Singles(bs);
    SinglesSize(bs);
    CountTrue(bs)
  }

  /** Picking up a key not held before raises the count by one. */
  lemma TakeCount(keys: bv8, id: nat)
    requires id < 6 && !HasKey(keys, id)
    ensures KeyCount(Take(keys, id)) == KeyCount(keys) + 1
  {
    forall j | 0 <= j < 8 ensures HasKey(Take(keys, id), j) <==> HasKey(keys, j) || j == id {
      TakeKey(keys, id, j);
    }
    assert Held(Take(keys, id)) == Held(keys) + {id};
  }

  // ---------------------------------------------------------------- search states

  /** A search state (lines 197-205): the walk from key `src` (or the start) towards key `dst`,
      now at `cell` after `steps` moves holding the `keys` mask, and `node` the tree node of
      `dst`. */
  datatype State = State(cell: Point, src: Point, dst: Point, keys: bv8, steps: nat, node: Node, cost: nat)

  /** The cost `State::new` (line 216) gives: the moves so far, plus the estimated route left
      after `dst`, plus the distance to `dst`, all of it inside a `u8`. */
  predicate Costed(s: State)
  {
    InRange(s.cell) && InRange(s.dst) && s.node.estimate <= s.node.total &&
    s.cost == s.steps + (s.node.total - s.node.estimate) + Manhattan(s.cell, s.dst) && s.cost < 0x100
  }

  /** `State::new` (lines 208-218). */
  function NewState(cell: Point, src: Point, dst: Point, keys: bv8, steps: nat, node: Node): (s: State)
    requires InRange(cell) && InRange(dst) && node.estimate <= node.total
    requires steps + (node.total - node.estimate) + Manhattan(cell, dst) < 0x100
    ensures Costed(s)
  {
    State(cell, src, dst, keys, steps, node, steps + ((node.total - node.estimate) + Manhattan(cell, dst)))
  }

  /** A grid `State::expand` can work on: at least one row, every row as long as the first,
      both sides below `0x80` so that `rows() as u8` and `cols() as u8` (lines 137-143) and the
      `as i8` of line 188 keep their values, and every lock id below 8 so that the `1 << key`
      of line 222 stays inside a `u8`. */
  predicate Board(cells: seq<seq<Cell>>)
  {
    1 <= |cells| < 0x80 && |cells[0]| < 0x80 &&
    (forall r :: 0 <= r < |cells| ==> |cells[r]| == |cells[0]|) &&
    forall r, c :: 0 <= r < |cells| && 0 <= c < |cells[r]| && cells[r][c].Lock? ==> cells[r][c].id < 8
  }

  /** The cells a walk may enter (lines 233-241): inside the grid, not a wall, not already
      explored for this walk, and not a lock whose key is missing. */
  predicate Enterable(cells: seq<seq<Cell>>, exclude: set<Point>, keys: bv8, q: Point)
    requires Board(cells)
  {
    q.row < |cells| && q.col < |cells[0]| && cells[q.row][q.col] != Wall && q !in exclude &&
    !(cells[q.row][q.col].Lock? && !HasKey(keys, cells[q.row][q.col].id))
  }

  /** `t` is one move on from `s` on the same walk: a neighbouring cell, one more step, the
      same keys, endpoints and tree node, and a cost that either stays or grows by two. */
  predicate Step(s: State, t: State)
  {
    Costed(s) && Costed(t) && Manhattan(s.cell, t.cell) == 1 && t.steps == s.steps + 1 &&
    t.src == s.src && t.dst == s.dst && t.keys == s.keys && t.node == s.node &&
    (t.cost == s.cost || t.cost == s.cost + 2)
  }

  /** Moving one cell changes the distance to any point by exactly one. */
  lemma Shift(p: Point, q: Point, d: Point)
    requires Small(p) && InRange(q) && InRange(d) && Manhattan(p, q) == 1
    ensures Manhattan(q, d) == Manhattan(p, d) + 1 || Manhattan(q, d) + 1 == Manhattan(p, d)
  {
    Unit(p, q);
  }

  /** The `filter_map` of lines 230-243 over the neighbours `ps`. */
  function Successors(cells: seq<seq<Cell>>, exclude: set<Point>, s: State, ps: seq<Point>): (r: seq<State>)
    requires Board(cells) && Costed(s) && Small(s.cell) && s.cost + 2 < 0x100
    requires forall j :: 0 <= j < |ps| ==> InRange(ps[j]) && Manhattan(s.cell, ps[j]) == 1
    ensures |r| <= |ps|
    ensures forall i :: 0 <= i < |r| ==> Step(s, r[i]) && Enterable(cells, exclude, s.keys, r[i].cell)
    ensures Reaches(cells, exclude, s, ps, r)
  {
    if |ps| == 0 then []
    else
      var rest := Successors(cells, exclude, s, ps[1..]);
      var q := ps[0];
      if Enterable(cells, exclude, s.keys, q) then
        Shift(s.cell, q, s.dst);
        var t := NewState(q, s.src, s.dst, s.keys, s.steps + 1, s.node);
        assert Step(s, t);
        SuccessorsCons(cells, exclude, s, ps, t, rest);
        [t] + rest
      else
        SuccessorsSkip(cells, exclude, s, ps, rest);
        rest
  }

  /** The neighbours `ps` all have a successor in `r` when they may be entered. */
  ghost predicate Reaches(cells: seq<seq<Cell>>, exclude: set<Point>, s: State, ps: seq<Point>, r: seq<State>)
    requires Board(cells)
  {
    forall q :: q in ps && Enterable(cells, exclude, s.keys, q) ==> exists i :: 0 <= i < |r| && r[i].cell == q
  }

  /** Putting the first neighbour, enterable, in front of the successors of the others. */
  lemma SuccessorsCons(cells: seq<seq<Cell>>, exclude: set<Point>, s: State, ps: seq<Point>, t: State, rest: seq<State>)
    requires Board(cells) && |ps| > 0 && t.cell == ps[0]
    requires Step(s, t) && Enterable(cells, exclude, s.keys, t.cell)
    requires forall i :: 0 <= i < |rest| ==> Step(s, rest[i]) && Enterable(cells, exclude, s.keys, rest[i].cell)
    requires Reaches(cells, exclude, s, ps[1..], rest)
    ensures forall i :: 0 <= i < |[t] + rest| ==>
      Step(s, ([t] + rest)[i]) && Enterable(cells, exclude, s.keys, ([t] + rest)[i].cell)
    ensures Reaches(cells, exclude, s, ps, [t] + rest)
  {
    var r := [t] + rest;
    forall q | q in ps && Enterable(cells, exclude, s.keys, q)
      ensures exists i :: 0 <= i < |r| && r[i].cell == q
    {
      if q == t.cell {
        assert r[0].cell == q;
      } else {
        assert q in ps[1..];
        var i :| 0 <= i < |rest| && rest[i].cell == q;
        assert r[i + 1] == rest[i];
      }
    }
  }

  /** Skipping the first neighbour, which may not be entered. */
  lemma SuccessorsSkip(cells: seq<seq<Cell>>, exclude: set<Point>, s: State, ps: seq<Point>, rest: seq<State>)
    requires Board(cells) && |ps| > 0 && !Enterable(cells, exclude, s.keys, ps[0])
    requires Reaches(cells, exclude, s, ps[1..], rest)
    ensures Reaches(cells, exclude, s, ps, rest)
  {
    forall q | q in ps && Enterable(cells, exclude, s.keys, q)
      ensures exists i :: 0 <= i < |rest| && rest[i].cell == q
    {
      assert q in ps[1..];
    }
  }

  /** `State::expand` (lines 226-244): one successor for each neighbouring cell the walk may
      enter, and no other. */
  function StateExpand(cells: seq<seq<Cell>>, exclude: set<Point>, s: State): (r: seq<State>)
    requires Board(cells) && Costed(s) && s.cell.row < |cells| && s.cell.col < |cells[0]|
    requires s.cost + 2 < 0x100
    ensures |r| <= 4
    ensures forall i :: 0 <= i < |r| ==> Step(s, r[i]) && Enterable(cells, exclude, s.keys, r[i].cell)
    ensures forall q :: Enterable(cells, exclude, s.keys, q) && Manhattan(s.cell, q) == 1 ==>
      exists i :: 0 <= i < |r| && r[i].cell == q
  {
    var ps := Expand(s.cell);
    Successors(cells, exclude, s, ps)
  }

  /** What happens to a state popped at its destination key. */
  datatype Arrival = Done(steps: nat) | Continue(next: set<State>)

  /** The walks `shortest_path` starts from key `s.dst` once it is reached (lines 311-314):
      one per key the tree still lists, each entry's estimate being the distance to it. */
  predicate Onward(s: State)
  {
    InRange(s.dst) &&
    forall q :: q in s.node.next ==>
      InRange(q) && s.node.next[q].estimate == Manhattan(s.dst, q) &&
      s.node.next[q].estimate <= s.node.next[q].total && s.steps + s.node.next[q].total < 0x100
  }

  /** A state that has reached its destination key `id` (lines 298-314): pick the key up;
      when that completes the `n` keys of the grid the answer is the steps taken, and
      otherwise one walk starts towards each key left, from here. */
  function Arrive(s: State, id: nat, n: nat): (a: Arrival)
    requires id < 8 && n < 8 && s.cell == s.dst && Onward(s)
    ensures a.Done? <==> Finished(s.keys, id, n)
    ensures a.Done? ==> a.steps == s.steps
    ensures a.Continue? ==>
      (forall q :: q in s.node.next ==> exists t :: t in a.next && t.dst == q) &&
      forall t :: t in a.next ==>
        t.dst in s.node.next && t.node == s.node.next[t.dst] && t.cell == s.dst && t.src == s.dst &&
        t.keys == Take(s.keys, id) && t.steps == s.steps && t.cost == s.steps + t.node.total && Costed(t)
  {
    var keys := Take(s.keys, id);
    if keys == Full(n) then Done(s.steps)
    else
      var next := set q | q in s.node.next :: NewState(s.dst, s.dst, q, keys, s.steps, s.node.next[q]);
      assert forall q :: q in s.node.next ==> NewState(s.dst, s.dst, q, keys, s.steps, s.node.next[q]) in next;
      Continue(next)
  }

  // ---------------------------------------------------------------- the heap order

  /** `Ord for State` (lines 263-276): `BinaryHeap` pops the greatest, so the reversed cost
      comparison puts the cheapest state first, and on equal costs the one holding more keys. */
  function Cmp(a: State, b: State): Ordering
  {
    match Compare(b.cost, a.cost)
    case Equal => Compare(KeyCount(a.keys), KeyCount(b.keys))
    case other => other
  }

  /** What the order ranks by, in terms of costs and the sets of keys held. */
  lemma CmpMeaning(a: State, b: State)
    ensures Cmp(a, b) == Greater <==>
      a.cost < b.cost || (a.cost == b.cost && |Held(a.keys)| > |Held(b.keys)|)
    ensures Cmp(a, b) == Equal <==> a.cost == b.cost && |Held(a.keys)| == |Held(b.keys)|
    ensures Cmp(a, b) == Less <==>
      a.cost > b.cost || (a.cost == b.cost && |Held(a.keys)| < |Held(b.keys)|)
  {
  }

  // ---------------------------------------------------------------- the estimate tree

  /** `EstimateNode` (lines 17-22): `estimate` is the distance from the parent's point to this
      key, `total` that distance plus the cheapest estimated route through the keys left after
      this one, and `next` one subtree per key left. */
  datatype Node = Node(estimate: nat, total: nat, next: map<Point, Node>)

  /** The arguments of a tree build: at most six keys, one `explored` flag per slot of the
      `[bool; 6]` of lines 36 and 52, and points inside the range of `Point::manhattan`. */
  predicate Route(keys: seq<Point>, from: Point, explored: seq<bool>)
  {
    |keys| <= 6 && |explored| == 6 && InRange(from) && forall k :: 0 <= k < |keys| ==> InRange(keys[k])
  }

  const Fresh: seq<bool> := [false, false, false, false, false, false]

  /** The indices of the keys not yet on the route. */
  function Unexplored(keys: seq<Point>, explored: seq<bool>): set<nat>
    requires |keys| <= |explored|
  {
    set k | 0 <= k < |keys| && !explored[k]
  }

  lemma Drop(keys: seq<Point>, explored: seq<bool>, k: nat)
    requires |keys| <= |explored| && k < |keys| && !explored[k]
    ensures Unexplored(keys, explored[k := true]) == Unexplored(keys, explored) - {k}
    ensures |Unexplored(keys, explored[k := true])| < |Unexplored(keys, explored)|
  {
    assert Unexplored(keys, explored[k := true]) == Unexplored(keys, explored) - {k};
  }

  /** The length of the cheapest route from `from` through every key left, in Manhattan
      distance, or 0 when none is left. */
  ghost function Tour(keys: seq<Point>, from: Point, explored: seq<bool>): nat
    requires Route(keys, from, explored)
    decreases |Unexplored(keys, explored)|, 1, 0
  {
    match Least(keys, from, explored, |keys|)
    case None => 0
    case Some(m) => m
  }

  /** The cheapest of the routes whose next key is one of `0 .. i - 1`, if any is left. */
  ghost function Least(keys: seq<Point>, from: Point, explored: seq<bool>, i: nat): Option<nat>
    requires Route(keys, from, explored) && i <= |keys|
    decreases |Unexplored(keys, explored)|, 0, i
  {
    if i == 0 then None
    else
      var best := Least(keys, from, explored, i - 1);
      if explored[i - 1] then best
      else
        var leg := Via(keys, from, explored, i - 1);
        match best
        case None => Some(leg)
        case Some(m) => Some(if m <= leg then m else leg)
  }

  /** The cheapest route whose next key is `k`. */
  ghost function Via(keys: seq<Point>, from: Point, explored: seq<bool>, k: nat): nat
    requires Route(keys, from, explored) && k < |keys| && !explored[k]
    decreases |Unexplored(keys, explored)|, 0, 0
  {
    Drop(keys, explored, k);
    Manhattan(from, keys[k]) + Tour(keys, keys[k], explored[k := true])
  }

  /** Every total the build computes fits its `u8` sum (lines 43 and 63), below `cap` at this
      level and, deeper down, below the `u8::MAX` that line 55 uses to mean "no key left". */
  ghost predicate Fits(keys: seq<Point>, from: Point, explored: seq<bool>, cap: nat)
    requires Route(keys, from, explored)
    decreases |Unexplored(keys, explored)|
  {
    forall k :: 0 <= k < |keys| && !explored[k] ==>
      Via(keys, from, explored, k) < cap &&
      (Drop(keys, explored, k); Fits(keys, keys[k], explored[k := true], 0xFF))
  }

  /** `node` is the node of key `k` below a point `from`: its estimate is the distance from
      `from`, its total the cheapest route through `k`, and its subtree describes the keys left
      after `k`. */
  ghost predicate Entry(keys: seq<Point>, from: Point, explored: seq<bool>, k: nat, node: Node)
    requires Route(keys, from, explored) && k < |keys| && !explored[k]
    decreases |Unexplored(keys, explored)|, 0
  {
    node.estimate == Manhattan(from, keys[k]) && node.total == Via(keys, from, explored, k) &&
    (Drop(keys, explored, k); Describes(keys, keys[k], explored[k := true], node.next, |keys|))
  }

  /** `tree` holds a node for each key among `0 .. n - 1` left, keyed by its point, and
      nothing else. */
  ghost predicate Describes(keys: seq<Point>, from: Point, explored: seq<bool>, tree: map<Point, Node>, n: nat)
    requires Route(keys, from, explored) && n <= |keys|
    decreases |Unexplored(keys, explored)|, 1
  {
    (forall q :: q in tree <==> exists k :: 0 <= k < n && !explored[k] && keys[k] == q) &&
    forall k :: 0 <= k < n && !explored[k] ==> keys[k] in tree && Entry(keys, from, explored, k, tree[keys[k]])
  }

  /** The cheapest route found so far as `tree_recurse` keeps it: `u8::MAX` while there is
      none (line 55). */
  function Sentinel(best: Option<nat>): nat
  {
    match best
    case None => 0xFF
    case Some(m) => m
  }

  /** One more key considered. */
  lemma LeastStep(keys: seq<Point>, from: Point, explored: seq<bool>, i: nat)
    requires Route(keys, from, explored) && i < |keys|
    ensures explored[i] ==> Least(keys, from, explored, i + 1) == Least(keys, from, explored, i)
    ensures !explored[i] && Least(keys, from, explored, i).None? ==>
      Least(keys, from, explored, i + 1) == Some(Via(keys, from, explored, i))
    ensures !explored[i] && Least(keys, from, explored, i).Some? ==>
      Least(keys, from, explored, i + 1) == Some(Min(Least(keys, from, explored, i).value, Via(keys, from, explored, i)))
  {
  }

  /** What `Fits` promises for the subtree of key `k`. */
  lemma FitsChild(keys: seq<Point>, from: Point, explored: seq<bool>, cap: nat, k: nat)
    requires Route(keys, from, explored) && Fits(keys, from, explored, cap) && k < |keys| && !explored[k]
    ensures Route(keys, keys[k], explored[k := true])
    ensures Via(keys, from, explored, k) < cap && Fits(keys, keys[k], explored[k := true], 0xFF)
    ensures |Unexplored(keys, explored[k := true])| < |Unexplored(keys, explored)|
  {
    Drop(keys, explored, k);
  }

  /** Adding the node of key `i`, or nothing when `i` is explored, extends the description to
      the keys `0 .. i`. */
  lemma DescribesAdd(keys: seq<Point>, from: Point, explored: seq<bool>, tree: map<Point, Node>, i: nat, node: Node)
    requires Route(keys, from, explored) && i < |keys| && Distinct(keys)
    requires Describes(keys, from, explored, tree, i)
    requires !explored[i] ==> Entry(keys, from, explored, i, node)
    ensures explored[i] ==> Describes(keys, from, explored, tree, i + 1)
    ensures !explored[i] ==> Describes(keys, from, explored, tree[keys[i] := node], i + 1)
  {
  }

  /** The body shared by the loops of lines 38-46 and 57-67 for a key `i` not yet explored:
      mark it explored, build its subtree, restore the flag, and make its node with the
      distance from `from` and that distance added to the subtree's estimate. */
  method Subtree(from: Point, keys: seq<Point>, explored: seq<bool>, i: nat, cap: nat)
    returns (node: Node, explored': seq<bool>)
    requires Route(keys, from, explored) && Distinct(keys) && i < |keys| && !explored[i]
    requires Fits(keys, from, explored, cap)
    ensures explored' == explored
    ensures Entry(keys, from, explored, i, node) && node.total < cap
    decreases |Unexplored(keys, explored)|, 0
  {
    explored' := explored[i := true];
    var next := keys[i];
    var estimate := Manhattan(from, next);
    FitsChild(keys, from, explored, cap, i);
    var total, subtree, restored := TreeRecurse(i, keys, explored');
    node := Node(estimate, total + estimate, subtree);
    explored' := restored[i := false];
  }

  /** `EstimateNode::tree_recurse` (lines 52-75): from key `current`, the estimate of the
      cheapest route through the keys not yet explored and the tree of those keys; `explored`
      comes back as it went in. */
  method TreeRecurse(current: nat, keys: seq<Point>, explored: seq<bool>)
    returns (cost: nat, tree: map<Point, Node>, explored': seq<bool>)
    requires current < |keys| && Route(keys, keys[current], explored) && Distinct(keys)
    requires Fits(keys, keys[current], explored, 0xFF)
    ensures explored' == explored
    ensures cost == Tour(keys, keys[current], explored)
    ensures Describes(keys, keys[current], explored, tree, |keys|)
    decreases |Unexplored(keys, explored)|, 1
  {
    var key := keys[current];
    tree := map[];
    cost := 0xFF;
    explored' := explored;
    var i := 0;
    while i < |keys|
      invariant i <= |keys| && explored' == explored
      invariant cost == Sentinel(Least(keys, key, explored, i)) && cost <= 0xFF
      invariant Least(keys, key, explored, i).Some? ==> cost < 0xFF
      invariant Describes(keys, key, explored, tree, i)
    {
      LeastStep(keys, key, explored, i);
      if !explored'[i] {
        var node;
        node, explored' := Subtree(key, keys, explored', i, 0xFF);
        cost := Min(cost, node.total);
        DescribesAdd(keys, key, explored, tree, i, node);
        tree := tree[keys[i] := node];
      } else {
        DescribesAdd(keys, key, explored, tree, i, Node(0, 0, map[]));
      }
      i := i + 1;
    }
    if cost == 0xFF {
      cost := 0;
    }
  }

  /** `EstimateNode::tree` (lines 34-49): the tree of every order in which the keys can be
      collected from `start`. */
  method Tree(start: Point, keys: seq<Point>) returns (tree: map<Point, Node>)
    requires Route(keys, start, Fresh) && Distinct(keys) && Fits(keys, start, Fresh, 0x100)
    ensures Describes(keys, start, Fresh, tree, |keys|)
  {
    tree := map[];
    var explored := Fresh;
    var i := 0;
    while i < |keys|
      invariant i <= |keys| && explored == Fresh
      invariant Describes(keys, start, Fresh, tree, i)
    {
      assert !Fresh[i];
      var node;
      node, explored := Subtree(start, keys, explored, i, 0x100);
      DescribesAdd(keys, start, Fresh, tree, i, node);
      tree := tree[keys[i] := node];
      i := i + 1;
    }
  }

  // ---------------------------------------------------------------- what the estimate means

  /** The length of collecting the keys in `order`, starting at `from`. */
  function Length(keys: seq<Point>, from: Point, order: seq<nat>): nat
    requires InRange(from) && forall j :: 0 <= j < |order| ==> order[j] < |keys| && InRange(keys[order[j]])
    decreases |order|
  {
    if |order| == 0 then 0
    else Manhattan(from, keys[order[0]]) + Length(keys, keys[order[0]], order[1..])
  }

  /** `order` lists every key left exactly once, and nothing else. */
  predicate Covers(keys: seq<Point>, explored: seq<bool>, order: seq<nat>)
    requires |keys| <= |explored|
  {
    Distinct(order) && (forall j :: 0 <= j < |order| ==> order[j] < |keys| && !explored[order[j]]) &&
    forall k :: 0 <= k < |keys| && !explored[k] ==> k in order
  }

  lemma {:induction false} LeastNone(keys: seq<Point>, from: Point, explored: seq<bool>, i: nat)
    requires Route(keys, from, explored) && i <= |keys|
    ensures Least(keys, from, explored, i).None? <==> forall k :: 0 <= k < i ==> explored[k]
  {
    if i > 0 {
      LeastNone(keys, from, explored, i - 1);
    }
  }

  lemma {:induction false} LeastBelow(keys: seq<Point>, from: Point, explored: seq<bool>, i: nat, k: nat)
    requires Route(keys, from, explored) && k < i <= |keys| && !explored[k]
    ensures Least(keys, from, explored, i).Some? && Least(keys, from, explored, i).value <= Via(keys, from, explored, k)
  {
    if k < i - 1 {
      LeastBelow(keys, from, explored, i - 1, k);
    }
  }

  lemma {:induction false} LeastArg(keys: seq<Point>, from: Point, explored: seq<bool>, i: nat) returns (k: nat)
    requires Route(keys, from, explored) && i <= |keys| && Least(keys, from, explored, i).Some?
    ensures k < i && !explored[k] && Via(keys, from, explored, k) == Least(keys, from, explored, i).value
  {
    var best := Least(keys, from, explored, i - 1);
    if explored[i - 1] {
      k := LeastArg(keys, from, explored, i - 1);
    } else if best.Some? && best.value <= Via(keys, from, explored, i - 1) {
      k := LeastArg(keys, from, explored, i - 1);
    } else {
      k := i - 1;
    }
  }

  /** No order of the keys left is shorter than the estimate. */
  lemma {:induction false} TourMinimal(keys: seq<Point>, from: Point, explored: seq<bool>, order: seq<nat>)
    requires Route(keys, from, explored) && Covers(keys, explored, order)
    ensures Tour(keys, from, explored) <= Length(keys, from, order)
    decreases |order|
  {
    if |order| == 0 {
      LeastNone(keys, from, explored, |keys|);
    } else {
      var k := order[0];
      var rest := order[1..];
      Drop(keys, explored, k);
      var e := explored[k := true];
      forall j | 0 <= j < |keys| && !e[j] ensures j in rest {
        var m :| 0 <= m < |order| && order[m] == j;
        assert m != 0 && rest[m - 1] == j;
      }
      assert Covers(keys, e, rest);
      TourMinimal(keys, keys[k], e, rest);
      LeastBelow(keys, from, explored, |keys|, k);
    }
  }

  /** Some order of the keys left is exactly as long as the estimate. */
  lemma {:induction false} TourAttained(keys: seq<Point>, from: Point, explored: seq<bool>) returns (order: seq<nat>)
    requires Route(keys, from, explored)
    ensures Covers(keys, explored, order) && Length(keys, from, order) == Tour(keys, from, explored)
    decreases |Unexplored(keys, explored)|
  {
    if Least(keys, from, explored, |keys|).None? {
      LeastNone(keys, from, explored, |keys|);
      order := [];
    } else {
      var k := LeastArg(keys, from, explored, |keys|);
      Drop(keys, explored, k);
      var e := explored[k := true];
      var rest := TourAttained(keys, keys[k], e);
      order := [k] + rest;
      assert order[1..] == rest;
      forall j | 0 <= j < |keys| && !explored[j] ensures j in order {
        if j != k { assert j in rest; }
      }
    }
  }
}
