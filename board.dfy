/** The board: its well-formedness, session start and row injection. */
module Board {
  import opened Types

  function IdOf(b: Block): nat { b.id }
  function RowOf(b: Block): int { b.row }
  function PosOf(b: Block): (int, int) { (b.row, b.col) }

  /** No two entries of `g` agree on `key`. */
  ghost predicate DistinctBy<K>(g: seq<Block>, key: Block -> K) {
    forall i, j :: 0 <= i < j < |g| ==> key(g[i]) != key(g[j])
  }

  /** Every block lies on the board and carries a value in [1,9]. */
  ghost predicate InBounds(cfg: Config, g: seq<Block>) {
    forall b :: b in g ==>
      && 0 <= b.row < cfg.rows
      && 0 <= b.col < cfg.cols
      && MIN_VALUE <= b.value <= MAX_VALUE
  }

  /** No two blocks share a cell. */
  ghost predicate UniquePositions(g: seq<Block>) {
    forall i, j :: 0 <= i < j < |g| ==> g[i].row != g[j].row || g[i].col != g[j].col
  }

  /** No two blocks share an id. */
  ghost predicate UniqueIds(g: seq<Block>) {
    forall i, j :: 0 <= i < j < |g| ==> g[i].id != g[j].id
  }

  /** The grid invariant: blocks in bounds, positions unique, ids unique. */
  ghost predicate WellFormed(cfg: Config, g: seq<Block>) {
    InBounds(cfg, g) && UniquePositions(g) && UniqueIds(g)
  }

  /** The ids of the blocks on the grid. */
  ghost function IdSet(g: seq<Block>): set<nat> {
    set b | b in g :: b.id
  }

  ghost predicate Occupied(g: seq<Block>, row: int, col: int) {
    exists b :: b in g && b.row == row && b.col == col
  }

  lemma DistinctTail<K>(g: seq<Block>, key: Block -> K)
    requires g != [] && DistinctBy(g, key)
    ensures DistinctBy(g[1..], key)
    ensures forall y :: y in g[1..] ==> key(g[0]) != key(y)
  {
    forall i, j | 0 <= i < j < |g[1..]| ensures key(g[1..][i]) != key(g[1..][j]) {
      assert g[1..][i] == g[i + 1] && g[1..][j] == g[j + 1];
    }
    forall y | y in g[1..] ensures key(g[0]) != key(y) {
      var j :| 0 <= j < |g[1..]| && g[1..][j] == y;
      assert g[j + 1] == y;
    }
  }

  lemma DistinctConcat<K>(a: seq<Block>, b: seq<Block>, key: Block -> K)
    requires DistinctBy(a, key) && DistinctBy(b, key)
    requires forall x, y :: x in a && y in b ==> key(x) != key(y)
    ensures DistinctBy(a + b, key)
  {
    var ab := a + b;
    forall i, j | 0 <= i < j < |ab| ensures key(ab[i]) != key(ab[j]) {
      if j < |a| {
        assert ab[i] == a[i] && ab[j] == a[j];
      } else if i >= |a| {
        assert ab[i] == b[i - |a|] && ab[j] == b[j - |a|];
      } else {
        assert ab[i] in a && ab[j] in b;
      }
    }
  }

  /** The board is full when some block sits in the top row. */
  predicate HasTopRow(g: seq<Block>) {
    exists b :: b in g && b.row == 0
  }

  /** Every block with its row decreased by one, everything else kept. */
  function ShiftUp(g: seq<Block>): seq<Block> {
    seq(|g|, i requires 0 <= i < |g| => g[i].(row := g[i].row - 1))
  }

  /** The number of blocks the counting loop places: it runs `min(pool, cols)`
      times, which is no time at all when the pool is negative. */
  function Placed(pool: int, cols: nat): nat {
    if pool <= 0 then 0 else if pool < cols then pool else cols
  }

  /** How many blocks a row injection draws from the pool: none on a full board. */
  function Drawn(g: seq<Block>, pool: int, cols: nat): nat {
    if HasTopRow(g) then 0 else Placed(pool, cols)
  }

  /** The new bottom row: `n` fresh blocks in columns 0 upward. */
  function BottomRow(cfg: Config, n: nat, values: seq<int>, firstId: nat): seq<Block>
    requires n <= |values|
  {
    seq(n, c requires 0 <= c < n => Block(firstId + c, values[c], cfg.rows - 1, c))
  }

  /** The grid after a row injection: unchanged on a full board, otherwise
      shifted up with a new bottom row appended. */
  function Injected(cfg: Config, g: seq<Block>, pool: int, values: seq<int>, firstId: nat): seq<Block>
    requires |values| >= cfg.cols
  {
    if HasTopRow(g) then g
    else ShiftUp(g) + BottomRow(cfg, Placed(pool, cfg.cols), values, firstId)
  }

  /** The pool accounting of a row injection: it takes `min(pool, cols)` blocks,
      never more than the pool holds, and never drives a non-negative pool below zero. */
  lemma PlacedIsPoolBounded(pool: int, cols: nat)
    ensures Placed(pool, cols) <= cols
    ensures pool >= 0 ==> Placed(pool, cols) == (if pool < cols then pool else cols)
    ensures pool >= 0 ==> pool - Placed(pool, cols) >= 0
    ensures pool < 0 ==> Placed(pool, cols) == 0
  {
  }

  /** A full board is left exactly as it was. */
  lemma InjectOnFullBoard(cfg: Config, g: seq<Block>, pool: int, values: seq<int>, firstId: nat)
    requires |values| >= cfg.cols
    requires HasTopRow(g)
    ensures Injected(cfg, g, pool, values, firstId) == g
    ensures Drawn(g, pool, cfg.cols) == 0
  {
  }

  /** Otherwise every old block moves up exactly one row with id, value and
      column unchanged, and exactly `Placed(pool, cols)` fresh blocks follow,
      all on the bottom row, in columns 0 upward, with consecutive fresh ids. */
  lemma InjectShiftsAndFills(cfg: Config, g: seq<Block>, pool: int, values: seq<int>, firstId: nat)
    requires |values| >= cfg.cols
    requires !HasTopRow(g)
    ensures var r := Injected(cfg, g, pool, values, firstId);
      var n := Placed(pool, cfg.cols);
      && n == Drawn(g, pool, cfg.cols)
      && |r| == |g| + n
      && (forall i :: 0 <= i < |g| ==>
            r[i].id == g[i].id && r[i].value == g[i].value
            && r[i].col == g[i].col && r[i].row == g[i].row - 1)
      && (forall c :: 0 <= c < n ==>
            r[|g| + c] == Block(firstId + c, values[c], cfg.rows - 1, c))
  {
  }

  /** A row injection into a well-formed board whose ids are all below
      `firstId` and whose top row is free keeps the board well-formed:
      positions stay unique and in bounds and ids stay unique. */
  lemma InjectKeepsWellFormed(cfg: Config, g: seq<Block>, pool: int, values: seq<int>, firstId: nat)
    requires ValidConfig(cfg) && WellFormed(cfg, g)
    requires |values| >= cfg.cols && ValidValues(values)
    requires forall b :: b in g ==> b.id < firstId
    ensures var r := Injected(cfg, g, pool, values, firstId);
      && WellFormed(cfg, r)
      && (forall b :: b in r ==> b.id < firstId + Drawn(g, pool, cfg.cols))
  {
    if !HasTopRow(g) {
      var n := Placed(pool, cfg.cols);
      var up := ShiftUp(g);
      var row := BottomRow(cfg, n, values, firstId);
      forall b | b in up
        ensures 0 <= b.row < cfg.rows - 1 && 0 <= b.col < cfg.cols
        ensures MIN_VALUE <= b.value <= MAX_VALUE && b.id < firstId
      {
        var i :| 0 <= i < |up| && up[i] == b;
        assert g[i] in g;
      }
      forall i, j | 0 <= i < j < |up|
        ensures PosOf(up[i]) != PosOf(up[j]) && IdOf(up[i]) != IdOf(up[j])
      {
        assert PosOf(g[i]) != PosOf(g[j]) && IdOf(g[i]) != IdOf(g[j]);
      }
      forall x, y | x in up && y in row
        ensures PosOf(x) != PosOf(y) && IdOf(x) != IdOf(y)
      {
      }
      DistinctConcat(up, row, PosOf);
      DistinctConcat(up, row, IdOf);
    }
  }

  /** A row injection keeps every block of the grid, by id: a selected block
      is still on the board afterwards. */
  lemma InjectKeepsIds(cfg: Config, g: seq<Block>, pool: int, values: seq<int>, firstId: nat)
    requires |values| >= cfg.cols
    ensures IdSet(g) <= IdSet(Injected(cfg, g, pool, values, firstId))
  {
    var r := Injected(cfg, g, pool, values, firstId);
    forall id | id in IdSet(g) ensures id in IdSet(r) {
      var b :| b in g && b.id == id;
      var i :| 0 <= i < |g| && g[i] == b;
      if !HasTopRow(g) {
        assert r[i] == ShiftUp(g)[i];
        assert r[i] in r;
      }
    }
  }

  /** Blocks numbered consecutively from `firstId` all have ids below
      `firstId + |g|`. */
  lemma ConsecutiveIdsBelow(g: seq<Block>, firstId: nat)
    requires forall i :: 0 <= i < |g| ==> g[i].id == firstId + i
    ensures forall b :: b in g ==> firstId <= b.id < firstId + |g|
  {
    forall b | b in g ensures firstId <= b.id < firstId + |g| {
      var i :| 0 <= i < |g| && g[i] == b;
    }
  }

  /** The bottom-row loop of a row injection (App.tsx, `addRow`): it runs
      `min(pool, cols)` times and returns the new row and how many blocks it used. */
  method FillBottomRow(cfg: Config, pool: int, values: seq<int>, firstId: nat)
    returns (newRow: seq<Block>, usedInRow: nat)
    requires |values| >= cfg.cols
    ensures usedInRow == Placed(pool, cfg.cols)
    ensures newRow == BottomRow(cfg, usedInRow, values, firstId)
  {
    var canAdd := if pool < cfg.cols then pool else cfg.cols;
    newRow := [];
    usedInRow := 0;
    var c := 0;
    while c < canAdd
      invariant 0 <= c <= Placed(pool, cfg.cols)
      invariant usedInRow == c
      invariant newRow == BottomRow(cfg, c, values, firstId)
    {
      newRow := newRow + [Block(firstId + c, values[c], cfg.rows - 1, c)];
      usedInRow := usedInRow + 1;
      c := c + 1;
    }
  }

  /** The grid update of a row injection: a full board is returned as it
      is; otherwise every block moves up one row and the bottom row is
      filled from the pool. Reports whether the board was full. */
  method InjectRow(cfg: Config, g: seq<Block>, pool: int, values: seq<int>, firstId: nat)
    returns (newGrid: seq<Block>, usedInRow: nat, isFull: bool)
    requires |values| >= cfg.cols
    ensures isFull == HasTopRow(g)
    ensures newGrid == Injected(cfg, g, pool, values, firstId)
    ensures usedInRow == Drawn(g, pool, cfg.cols)
  {
    isFull := exists b :: b in g && b.row == 0;
    if isFull {
      return g, 0, true;
    }
    var movedGrid := ShiftUp(g);
    var newRow;
    newRow, usedInRow := FillBottomRow(cfg, pool, values, firstId);
    newGrid := movedGrid + newRow;
  }

  lemma ProductStep(r: nat, k: nat, n: nat)
    requires r < k
    ensures r * n + n <= k * n
  {
    assert r * n + n == (r + 1) * n;
  }

  /** One step of the session-start fill: the block for cell (`rows - 1 - r`, `c`)
      goes on a free cell with a fresh id, and the occupied band grows by that cell. */
  lemma PlaceInitialBlock(cfg: Config, g: seq<Block>, b: Block, firstId: nat, r: nat, c: nat)
    requires WellFormed(cfg, g)
    requires r < cfg.initialRows <= cfg.rows && c < cfg.cols
    requires forall i :: 0 <= i < |g| ==> g[i].id == firstId + i
    requires forall x :: x in g ==> x.row >= cfg.rows - r || (x.row == cfg.rows - 1 - r && x.col < c)
    requires b.id == firstId + |g| && b.row == cfg.rows - 1 - r && b.col == c
    requires MIN_VALUE <= b.value <= MAX_VALUE
    ensures WellFormed(cfg, g + [b])
    ensures forall x :: x in g + [b] ==>
      x.row >= cfg.rows - r || (x.row == cfg.rows - 1 - r && x.col < c + 1)
    ensures forall row, col :: Occupied(g, row, col) ==> Occupied(g + [b], row, col)
    ensures Occupied(g + [b], cfg.rows - 1 - r, c)
  {
    forall x | x in g ensures PosOf(x) != PosOf(b) && IdOf(x) != IdOf(b) {
      var i :| 0 <= i < |g| && g[i] == x;
    }
    DistinctConcat(g, [b], PosOf);
    DistinctConcat(g, [b], IdOf);
    assert b in g + [b];
    forall row, col | Occupied(g, row, col) ensures Occupied(g + [b], row, col) {
      var x :| x in g && x.row == row && x.col == col;
      assert x in g + [b];
    }
  }

  /** The nested loops of session start (App.tsx, `initGame`): they fill the
      bottom `initialRows` rows, row by row from the bottom, columns 0 upward,
      with consecutive fresh ids and the supplied values. */
  method FillInitialRows(cfg: Config, values: seq<int>, firstId: nat)
    returns (initialGrid: seq<Block>, usedInInitial: nat)
    requires ValidConfig(cfg)
    requires |values| >= cfg.initialRows * cfg.cols && ValidValues(values)
    ensures usedInInitial == |initialGrid| == cfg.initialRows * cfg.cols
    ensures forall i :: 0 <= i < |initialGrid| ==>
      initialGrid[i].id == firstId + i && initialGrid[i].value == values[i]
    ensures WellFormed(cfg, initialGrid)
    ensures forall b :: b in initialGrid ==> b.row >= cfg.rows - cfg.initialRows
    ensures forall row, col :: cfg.rows - cfg.initialRows <= row < cfg.rows && 0 <= col < cfg.cols ==>
      Occupied(initialGrid, row, col)
  {
    initialGrid := [];
    usedInInitial := 0;
    for r := 0 to cfg.initialRows
      invariant usedInInitial == |initialGrid| == r * cfg.cols
      invariant forall i :: 0 <= i < |initialGrid| ==>
        initialGrid[i].id == firstId + i && initialGrid[i].value == values[i]
      invariant WellFormed(cfg, initialGrid)
      invariant forall b :: b in initialGrid ==> b.row >= cfg.rows - r
      invariant forall row, col :: cfg.rows - r <= row < cfg.rows && 0 <= col < cfg.cols ==>
        Occupied(initialGrid, row, col)
    {
      ProductStep(r, cfg.initialRows, cfg.cols);
      initialGrid, usedInInitial := FillInitialRow(cfg, values, firstId, r, initialGrid);
    }
  }

  /** One pass of the inner loop of session start: row `rows - 1 - r` is
      filled from column 0 upward on top of the `r` rows already placed. */
  method FillInitialRow(cfg: Config, values: seq<int>, firstId: nat, r: nat, grid: seq<Block>)
    returns (initialGrid: seq<Block>, usedInInitial: nat)
    requires ValidConfig(cfg) && r < cfg.initialRows
    requires |values| >= (r + 1) * cfg.cols && ValidValues(values)
    requires |grid| == r * cfg.cols
    requires forall i :: 0 <= i < |grid| ==> grid[i].id == firstId + i && grid[i].value == values[i]
    requires WellFormed(cfg, grid)
    requires forall b :: b in grid ==> b.row >= cfg.rows - r
    requires forall row, col :: cfg.rows - r <= row < cfg.rows && 0 <= col < cfg.cols ==>
      Occupied(grid, row, col)
    ensures usedInInitial == |initialGrid| == (r + 1) * cfg.cols
    ensures forall i :: 0 <= i < |initialGrid| ==>
      initialGrid[i].id == firstId + i && initialGrid[i].value == values[i]
    ensures WellFormed(cfg, initialGrid)
    ensures forall b :: b in initialGrid ==> b.row >= cfg.rows - (r + 1)
    ensures forall row, col :: cfg.rows - (r + 1) <= row < cfg.rows && 0 <= col < cfg.cols ==>
      Occupied(initialGrid, row, col)
  {
    initialGrid := grid;
    usedInInitial := |grid|;
    ghost var rowNow := cfg.rows - 1 - r;
    for c := 0 to cfg.cols
      invariant usedInInitial == |initialGrid| == r * cfg.cols + c
      invariant forall i :: 0 <= i < |initialGrid| ==>
        initialGrid[i].id == firstId + i && initialGrid[i].value == values[i]
      invariant WellFormed(cfg, initialGrid)
      invariant forall b :: b in initialGrid ==>
        b.row >= cfg.rows - r || (b.row == cfg.rows - 1 - r && b.col < c)
      invariant forall row, col :: cfg.rows - r <= row < cfg.rows && 0 <= col < cfg.cols ==>
        Occupied(initialGrid, row, col)
      invariant forall col :: 0 <= col < c ==> Occupied(initialGrid, rowNow, col)
    {
      var b := Block(firstId + usedInInitial, values[usedInInitial], cfg.rows - 1 - r, c);
      PlaceInitialBlock(cfg, initialGrid, b, firstId, r, c);
      initialGrid := initialGrid + [b];
      usedInInitial := usedInInitial + 1;
    }
  }
}
