/** The backend's row-major arrays and the deferred-write index, as values: how they stand for the
    rows of the logical screen. */
module FlatScreens {
  import opened Basics
  import opened Screens
  import opened Pixels

  datatype Item = Item(x: nat, y: nat, c: Cell)

  function Index(cols: nat, x: nat, y: nat): nat {
    y * cols + x
  }

  /** The rows of a row-major array of cells. */
  function Lines(rows: nat, cols: nat, flat: seq<Cell>): (lines: seq<seq<Cell>>)
    requires |flat| == rows * cols
    ensures |lines| == rows && forall y :: 0 <= y < rows ==> |lines[y]| == cols
  {
    seq(rows, y requires 0 <= y < rows =>
      seq(cols, x requires 0 <= x < cols => (FlatIndex(x, y, rows, cols); flat[y * cols + x])))
  }

  lemma LinesAt(rows: nat, cols: nat, flat: seq<Cell>, x: nat, y: nat)
    requires |flat| == rows * cols && x < cols && y < rows
    ensures Index(cols, x, y) < |flat|
    ensures Lines(rows, cols, flat)[y][x] == flat[Index(cols, x, y)]
  {
    FlatIndex(x, y, rows, cols);
  }

  lemma LinesUpdate(rows: nat, cols: nat, flat: seq<Cell>, x: nat, y: nat, c: Cell)
    requires |flat| == rows * cols && x < cols && y < rows
    ensures Index(cols, x, y) < |flat|
    ensures var lines := Lines(rows, cols, flat);
      Lines(rows, cols, flat[Index(cols, x, y) := c]) == lines[y := lines[y][x := c]]
  {
    LinesAt(rows, cols, flat, x, y);
    var flat' := flat[Index(cols, x, y) := c];
    var lines, lines' := Lines(rows, cols, flat), Lines(rows, cols, flat');
    forall v, u | 0 <= v < rows && 0 <= u < cols
      ensures lines'[v][u] == lines[y := lines[y][x := c]][v][u]
    {
      FlatIndex(u, v, rows, cols);
      FlatIndex(x, y, rows, cols);
    }
    forall v | 0 <= v < rows ensures lines'[v] == lines[y := lines[y][x := c]][v] {
    }
  }

  lemma LinesEqual(rows: nat, cols: nat, flat: seq<Cell>, lines: seq<seq<Cell>>)
    requires |flat| == rows * cols && |lines| == rows
    requires forall y :: 0 <= y < rows ==> |lines[y]| == cols
    requires forall x, y :: 0 <= x < cols && 0 <= y < rows ==>
      Index(cols, x, y) < |flat| && flat[Index(cols, x, y)] == lines[y][x]
    ensures Lines(rows, cols, flat) == lines
  {
    var flatLines := Lines(rows, cols, flat);
    forall y | 0 <= y < rows ensures flatLines[y] == lines[y] {
      forall x | 0 <= x < cols ensures flatLines[y][x] == lines[y][x] {
        LinesAt(rows, cols, flat, x, y);
      }
    }
  }

  function CellsPut(rows: nat, cols: nat, flat: seq<Cell>, c: Cell, x: nat, y: nat): seq<Cell>
    requires |flat| == rows * cols
  {
    if x < cols && y < rows then (FlatIndex(x, y, rows, cols); flat[Index(cols, x, y) := c]) else flat
  }

  /** Row-major positions compare with a row boundary as their rows do. */
  lemma RowBoundary(cols: nat, x: nat, y: nat, row: int)
    requires x < cols
    ensures row * cols <= Index(cols, x, y) <==> row <= y
  {
    if row <= y {
      MulMonotone(row, y, cols);
    } else {
      MulMonotone(y + 1, row, cols);
    }
  }

  /** `n` positions from `first` on hold `c`. */
  function Filled(flat: seq<Cell>, first: nat, n: nat, c: Cell): (r: seq<Cell>)
    ensures |r| == |flat|
  {
    seq(|flat|, j requires 0 <= j < |flat| => if first <= j < first + n then c else flat[j])
  }

  lemma FilledStep(flat: seq<Cell>, first: nat, n: nat, c: Cell)
    requires first + n < |flat|
    ensures Filled(flat, first, n, c)[first + n := c] == Filled(flat, first, n + 1, c)
  {
  }

  /** Positions [lo, i - cols) hold what was `cols` further on. */
  function ShiftedDown(flat: seq<Cell>, cols: nat, lo: nat, i: nat): (r: seq<Cell>)
    requires i <= |flat| || i <= lo + cols
    ensures |r| == |flat|
  {
    seq(|flat|, j requires 0 <= j < |flat| => if lo <= j < i - cols then flat[j + cols] else flat[j])
  }

  /** Copying in ascending order reads a position before it is overwritten. */
  lemma ShiftedDownStep(flat: seq<Cell>, cols: nat, lo: nat, i: nat)
    requires cols >= 1 && lo + cols <= i < |flat|
    ensures var r := ShiftedDown(flat, cols, lo, i);
      r[i - cols := r[i]] == ShiftedDown(flat, cols, lo, i + 1)
  {
  }

  /** Positions [i + cols, hi) hold what was `cols` before. */
  function ShiftedUp(flat: seq<Cell>, cols: nat, i: nat, hi: nat): (r: seq<Cell>)
    ensures |r| == |flat|
  {
    seq(|flat|, j requires 0 <= j < |flat| => if i + cols <= j < hi then flat[j - cols] else flat[j])
  }

  /** Copying in descending order does too. */
  lemma ShiftedUpStep(flat: seq<Cell>, cols: nat, i: nat, hi: nat)
    requires cols >= 1 && 1 <= i && i + cols <= hi <= |flat|
    ensures var r := ShiftedUp(flat, cols, i, hi);
      r[i - 1 + cols := r[i - 1]] == ShiftedUp(flat, cols, i - 1, hi)
  {
  }

  lemma ScrollBounds(rows: nat, cols: nat, top: nat, bottom: nat)
    requires top < rows && 1 <= bottom <= rows
    ensures 0 <= top * cols && (top + 1) * cols == top * cols + cols <= rows * cols
    ensures 0 <= (bottom - 1) * cols == bottom * cols - cols
    ensures bottom * cols <= rows * cols
  {
    MulMonotone(top + 1, rows, cols);
    MulMonotone(bottom, rows, cols);
  }

  lemma ClearLines(s: Screen, before: seq<Cell>, after: seq<Cell>)
    requires |before| == |after| == s.rows * s.cols
    requires after == Filled(before, 0, |before|, Blank(s))
    ensures Lines(s.rows, s.cols, after) == Clear(s, false).lines
  {
    var lines := Clear(s, false).lines;
    forall x, y | 0 <= x < s.cols && 0 <= y < s.rows
      ensures Index(s.cols, x, y) < |after| && after[Index(s.cols, x, y)] == lines[y][x]
    {
      FlatIndex(x, y, s.rows, s.cols);
    }
    LinesEqual(s.rows, s.cols, after, lines);
  }

  lemma InitialLines(rows: nat, cols: nat, flat: seq<Cell>, fg: u32)
    requires 1 <= rows < U64_LIMIT && 1 <= cols < U64_LIMIT && |flat| == rows * cols
    requires forall i :: 0 <= i < |flat| ==> flat[i] == Cell(SPACE, fg, TRANSPARENT)
    ensures Lines(rows, cols, flat) == InitialScreen(rows, cols, fg).lines
  {
    var lines := InitialScreen(rows, cols, fg).lines;
    forall x, y | 0 <= x < cols && 0 <= y < rows
      ensures Index(cols, x, y) < |flat| && flat[Index(cols, x, y)] == lines[y][x]
    {
      FlatIndex(x, y, rows, cols);
    }
    LinesEqual(rows, cols, flat, lines);
  }

  /** The scrolled value of position `j`: in the region, the value one row further on; in its last
      row, blank. */
  function FlatScrolled(s: Screen, flat: seq<Cell>, j: nat): Cell
    requires j < |flat| && s.bottom * s.cols <= |flat|
  {
    if (s.bottom - 1) * s.cols <= j < s.bottom * s.cols then Blank(s)
    else if s.top * s.cols <= j && j + s.cols < s.bottom * s.cols then flat[j + s.cols]
    else flat[j]
  }

  lemma ScrollLines(s: Screen, before: seq<Cell>, i: nat, after: seq<Cell>)
    requires |before| == |after| == s.rows * s.cols
    requires s.lines == Lines(s.rows, s.cols, before)
    requires 0 <= s.top * s.cols && 0 <= (s.bottom - 1) * s.cols == s.bottom * s.cols - s.cols
    requires s.bottom * s.cols <= |before| && s.top * s.cols + s.cols <= i
    requires i == s.bottom * s.cols || (i == s.top * s.cols + s.cols && s.bottom * s.cols <= i)
    requires after == Filled(ShiftedDown(before, s.cols, s.top * s.cols, i), (s.bottom - 1) * s.cols, s.cols, Blank(s))
    ensures Lines(s.rows, s.cols, after) == Scroll(s).lines
  {
    var lines := Scroll(s).lines;
    forall j | 0 <= j < |after| ensures after[j] == FlatScrolled(s, before, j) {
    }
    forall x, y | 0 <= x < s.cols && 0 <= y < s.rows
      ensures Index(s.cols, x, y) < |after| && after[Index(s.cols, x, y)] == lines[y][x]
    {
      LinesAt(s.rows, s.cols, after, x, y);
      ScrollAt(s, before, x, y);
    }
    LinesEqual(s.rows, s.cols, after, lines);
  }

  lemma ScrollAt(s: Screen, before: seq<Cell>, x: nat, y: nat)
    requires |before| == s.rows * s.cols
    requires s.lines == Lines(s.rows, s.cols, before)
    requires s.bottom * s.cols <= |before|
    requires x < s.cols && y < s.rows && Index(s.cols, x, y) < |before|
    ensures FlatScrolled(s, before, Index(s.cols, x, y)) == ScrolledLine(s, y)[x]
  {
    var j := Index(s.cols, x, y);
    RowBoundary(s.cols, x, y, s.bottom - 1);
    RowBoundary(s.cols, x, y, s.bottom);
    RowBoundary(s.cols, x, y, s.top);
    RowBoundary(s.cols, x, y + 1, s.bottom);
    NextMultiple(y, s.cols);
    assert j + s.cols == Index(s.cols, x, y + 1);
    if s.top <= y < s.bottom - 1 {
      LinesAt(s.rows, s.cols, before, x, y + 1);
    } else {
      LinesAt(s.rows, s.cols, before, x, y);
    }
  }

  function FlatRevScrolled(s: Screen, flat: seq<Cell>, j: nat): Cell
    requires j < |flat|
  {
    if s.top * s.cols <= j < (s.top + 1) * s.cols then Blank(s)
    else if (s.top + 1) * s.cols <= j < s.bottom * s.cols && s.cols <= j then flat[j - s.cols]
    else flat[j]
  }

  lemma RevScrollLines(s: Screen, before: seq<Cell>, after: seq<Cell>)
    requires |before| == |after| == s.rows * s.cols
    requires s.lines == Lines(s.rows, s.cols, before)
    requires 0 <= s.top * s.cols && (s.top + 1) * s.cols == s.top * s.cols + s.cols
    requires 0 <= s.bottom * s.cols
    requires after == Filled(ShiftedUp(before, s.cols, s.top * s.cols, s.bottom * s.cols), s.top * s.cols, s.cols,
      Blank(s))
    ensures Lines(s.rows, s.cols, after) == RevScroll(s).lines
  {
    var lines := RevScroll(s).lines;
    forall j | 0 <= j < |after| ensures after[j] == FlatRevScrolled(s, before, j) {
    }
    forall x, y | 0 <= x < s.cols && 0 <= y < s.rows
      ensures Index(s.cols, x, y) < |after| && after[Index(s.cols, x, y)] == lines[y][x]
    {
      LinesAt(s.rows, s.cols, after, x, y);
      RevScrollAt(s, before, x, y);
    }
    LinesEqual(s.rows, s.cols, after, lines);
  }

  lemma RevScrollAt(s: Screen, before: seq<Cell>, x: nat, y: nat)
    requires |before| == s.rows * s.cols
    requires s.lines == Lines(s.rows, s.cols, before)
    requires x < s.cols && y < s.rows && Index(s.cols, x, y) < |before|
    ensures FlatRevScrolled(s, before, Index(s.cols, x, y)) == RevScrolledLine(s, y)[x]
  {
    var j := Index(s.cols, x, y);
    RowBoundary(s.cols, x, y, s.top);
    RowBoundary(s.cols, x, y, s.top + 1);
    RowBoundary(s.cols, x, y, s.bottom);
    if s.top < y < s.bottom {
      NextMultiple(y - 1, s.cols);
      assert j - s.cols == Index(s.cols, x, y - 1);
      LinesAt(s.rows, s.cols, before, x, y - 1);
    } else {
      LinesAt(s.rows, s.cols, before, x, y);
    }
  }

  /** The first `n` queue items stand for distinct cells, and a slot of `pending` refers to an item
      only if that item carries the slot's coordinates. */
  ghost predicate Indexed(rows: nat, cols: nat, queue: seq<Item>, pending: seq<Option<nat>>, n: nat) {
    && |queue| == |pending| == rows * cols
    && n <= |queue|
    && (forall k :: 0 <= k < n ==> ItemOnScreen(rows, cols, queue, k))
    && (forall j, k :: 0 <= j < k < n ==> OtherCell(cols, queue, j, k))
    && (forall i :: 0 <= i < |pending| ==> SlotOk(cols, queue, pending, n, i))
  }

  ghost predicate ItemOnScreen(rows: nat, cols: nat, queue: seq<Item>, k: nat)
    requires k < |queue|
  {
    queue[k].x < cols && queue[k].y < rows && Index(cols, queue[k].x, queue[k].y) < rows * cols
  }

  ghost predicate OtherCell(cols: nat, queue: seq<Item>, j: nat, k: nat)
    requires j < |queue| && k < |queue|
  {
    Index(cols, queue[j].x, queue[j].y) != Index(cols, queue[k].x, queue[k].y)
  }

  ghost predicate SlotOk(cols: nat, queue: seq<Item>, pending: seq<Option<nat>>, n: nat, i: nat)
    requires n <= |queue| && i < |pending|
  {
    pending[i].Some? ==>
      pending[i].value < n && Index(cols, queue[pending[i].value].x, queue[pending[i].value].y) == i
  }

  /** Between flushes, moreover, every queue item is referred to by the slot of its cell. */
  ghost predicate Live(rows: nat, cols: nat, queue: seq<Item>, pending: seq<Option<nat>>, n: nat) {
    && Indexed(rows, cols, queue, pending, n)
    && forall k :: 0 <= k < n ==> ItemLive(cols, queue, pending, k)
  }

  ghost predicate ItemLive(cols: nat, queue: seq<Item>, pending: seq<Option<nat>>, k: nat)
    requires k < |queue|
  {
    var i := Index(cols, queue[k].x, queue[k].y);
    i < |pending| && pending[i] == Some(k)
  }

  /** The logical screen: a cell with a deferred write holds what the queue says, any other cell what
      was last painted. */
  ghost function Logical(rows: nat, cols: nat, grid: seq<Cell>, queue: seq<Item>, pending: seq<Option<nat>>,
    n: nat): (cells: seq<Cell>)
    requires |grid| == rows * cols && Indexed(rows, cols, queue, pending, n)
    ensures |cells| == |grid|
  {
    seq(|grid|, i requires 0 <= i < |grid| =>
      assert SlotOk(cols, queue, pending, n, i);
      if pending[i].Some? then queue[pending[i].value].c else grid[i])
  }

  function Below(n: nat): (r: set<nat>)
    ensures |r| == n && forall i: nat :: i in r <==> i < n
  {
    if n == 0 then {} else Below(n - 1) + {n - 1}
  }

  /** The pigeonhole principle, for distinct numbers below a limit. */
  lemma Pigeonhole(s: seq<nat>, limit: nat)
    requires forall k :: 0 <= k < |s| ==> s[k] < limit
    requires forall j, k :: 0 <= j < k < |s| ==> s[j] != s[k]
    ensures |s| <= limit
    ensures |s| == limit ==> forall i :: 0 <= i < limit ==> i in s
  {
    var values := set k | 0 <= k < |s| :: s[k];
    SizeOfDistinct(s, values);
    assert values <= Below(limit);
    SubsetSize(values, Below(limit));
    forall i | |s| == limit && 0 <= i < limit ensures i in s {
      assert i in values;
    }
  }

  lemma {:induction false} SizeOfDistinct(s: seq<nat>, values: set<nat>)
    requires values == set k | 0 <= k < |s| :: s[k]
    requires forall j, k :: 0 <= j < k < |s| ==> s[j] != s[k]
    ensures |values| == |s|
  {
    if |s| == 0 {
      assert values == {};
    } else {
      var last := |s| - 1;
      var rest := set k | 0 <= k < last :: s[..last][k];
      SizeOfDistinct(s[..last], rest);
      forall v | v in values ensures v in rest + {s[last]} {
        var k :| 0 <= k < |s| && s[k] == v;
        assert k < last ==> s[..last][k] == v;
      }
      assert values == rest + {s[last]};
    }
  }

  lemma SubsetSize(a: set<nat>, b: set<nat>)
    requires a <= b
    ensures |a| <= |b|
    ensures |a| == |b| ==> a == b
  {
    assert b == a + (b - a);
  }

  /** A free slot means the queue has room: queue items are at most as many as cells. */
  lemma QueueHasRoom(rows: nat, cols: nat, queue: seq<Item>, pending: seq<Option<nat>>, n: nat, i: nat)
    requires Live(rows, cols, queue, pending, n)
    requires i < |pending| && pending[i].None?
    ensures n < |queue|
  {
    forall k | 0 <= k < n ensures ItemOnScreen(rows, cols, queue, k) && ItemLive(cols, queue, pending, k) {
    }
    var cells := seq(n, k requires 0 <= k < n => Index(cols, queue[k].x, queue[k].y));
    forall j, k | 0 <= j < k < n ensures cells[j] != cells[k] {
      assert OtherCell(cols, queue, j, k);
    }
    forall k | 0 <= k < n ensures cells[k] < |pending| && cells[k] != i {
      assert ItemOnScreen(rows, cols, queue, k) && ItemLive(cols, queue, pending, k);
    }
    assert i !in cells;
    Pigeonhole(cells, |pending|);
  }

  /** Overwriting the queue item of a cell changes that cell of the logical screen and no other. */
  lemma PushPending(rows: nat, cols: nat, grid: seq<Cell>, queue: seq<Item>, pending: seq<Option<nat>>, n: nat, x: nat,
    y: nat, c: Cell)
    requires |grid| == rows * cols && Live(rows, cols, queue, pending, n)
    requires x < cols && y < rows && Index(cols, x, y) < |grid| && pending[Index(cols, x, y)].Some?
    ensures pending[Index(cols, x, y)].value < n
    ensures var k := pending[Index(cols, x, y)].value;
      var queue' := queue[k := queue[k].(c := c)];
      && Live(rows, cols, queue', pending, n)
      && Logical(rows, cols, grid, queue', pending, n) ==
        Logical(rows, cols, grid, queue, pending, n)[Index(cols, x, y) := c]
  {
    var i := Index(cols, x, y);
    assert SlotOk(cols, queue, pending, n, i);
    var k := pending[i].value;
    var queue' := queue[k := queue[k].(c := c)];
    SamePlaces(rows, cols, queue, queue', pending, n);
    var before, after := Logical(rows, cols, grid, queue, pending, n), Logical(rows, cols, grid, queue', pending, n);
    forall j | 0 <= j < |grid| ensures after[j] == before[i := c][j] {
      assert SlotOk(cols, queue, pending, n, j);
    }
  }

  /** The index only depends on where the queue items are, not on what they hold. */
  lemma SamePlaces(rows: nat, cols: nat, queue: seq<Item>, queue': seq<Item>, pending: seq<Option<nat>>, n: nat)
    requires Live(rows, cols, queue, pending, n) && |queue'| == |queue|
    requires forall k :: 0 <= k < n ==> queue'[k].x == queue[k].x && queue'[k].y == queue[k].y
    ensures Live(rows, cols, queue', pending, n)
  {
    forall k | 0 <= k < n ensures ItemOnScreen(rows, cols, queue', k) && ItemLive(cols, queue', pending, k) {
      assert ItemOnScreen(rows, cols, queue, k) && ItemLive(cols, queue, pending, k);
    }
    forall j, k | 0 <= j < k < n ensures OtherCell(cols, queue', j, k) {
      assert OtherCell(cols, queue, j, k);
    }
    forall i | 0 <= i < |pending| ensures SlotOk(cols, queue', pending, n, i) {
      assert SlotOk(cols, queue, pending, n, i);
    }
  }

  /** Appending a queue item for a cell that had none does the same. */
  lemma PushNew(rows: nat, cols: nat, grid: seq<Cell>, queue: seq<Item>, pending: seq<Option<nat>>, n: nat, x: nat,
    y: nat, c: Cell)
    requires |grid| == rows * cols && Live(rows, cols, queue, pending, n)
    requires x < cols && y < rows && Index(cols, x, y) < |grid| && pending[Index(cols, x, y)].None?
    ensures n < |queue|
    ensures var queue', pending' := queue[n := Item(x, y, c)], pending[Index(cols, x, y) := Some(n)];
      && Live(rows, cols, queue', pending', n + 1)
      && Logical(rows, cols, grid, queue', pending', n + 1) ==
        Logical(rows, cols, grid, queue, pending, n)[Index(cols, x, y) := c]
  {
    var i := Index(cols, x, y);
    QueueHasRoom(rows, cols, queue, pending, n, i);
    var queue', pending' := queue[n := Item(x, y, c)], pending[i := Some(n)];
    forall k | 0 <= k <= n
      ensures ItemOnScreen(rows, cols, queue', k) && ItemLive(cols, queue', pending', k)
      ensures k < n ==> OtherCell(cols, queue', k, n)
    {
      assert k < n ==> ItemOnScreen(rows, cols, queue, k) && ItemLive(cols, queue, pending, k);
    }
    forall j, k | 0 <= j < k < n + 1 ensures OtherCell(cols, queue', j, k) {
      assert k < n ==> OtherCell(cols, queue, j, k);
    }
    var m := n + 1;
    forall j | 0 <= j < |grid| ensures SlotOk(cols, queue', pending', m, j) {
      assert SlotOk(cols, queue, pending, n, j);
    }
    var before, after := Logical(rows, cols, grid, queue, pending, n), Logical(rows, cols, grid, queue', pending', m);
    forall j | 0 <= j < |grid| ensures after[j] == before[i := c][j] {
      assert SlotOk(cols, queue, pending, n, j);
    }
  }
}
