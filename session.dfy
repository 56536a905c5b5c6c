/** The session rules on values: the grid after a hit, when a row follows
    it, the session invariant, and how hits and row injections keep it. */
module Session {
  import opened Types
  import opened Board
  import opened Selection
  import opened Matching
  import opened Gravity

  /** The grid after a hit: the unselected blocks compacted by gravity, or
      the empty board when none remains (no gravity is applied then). */
  function Settle(cfg: Config, g: seq<Block>, sel: seq<nat>): seq<Block> {
    var remaining := Remaining(g, sel);
    if |remaining| == 0 then [] else AfterGravity(cfg, remaining)
  }

  /** The grid update of a hit: the unselected blocks are kept and, unless
      none is left (the board is cleared), compacted column by column.
      Reports whether the board was cleared. */
  method SettleGrid(cfg: Config, g: seq<Block>, sel: seq<nat>) returns (nextGrid: seq<Block>, boardCleared: bool)
    ensures nextGrid == Settle(cfg, g, sel)
    ensures boardCleared == (|Remaining(g, sel)| == 0)
  {
    var remaining := Remaining(g, sel);
    if |remaining| == 0 {
      return [], true;
    }
    nextGrid := ApplyGravity(cfg, remaining);
    boardCleared := false;
  }

  /** Whether a hit is followed by a row injection: in CLASSIC mode when
      blocks are left, and in either mode when the board is empty but the
      pool is not. */
  predicate RowFollows(mode: Option<GameMode>, settled: seq<Block>, pool: int) {
    (mode == Some(Classic) && |settled| > 0) || (|settled| == 0 && pool > 0)
  }

  /** Settling a well-formed grid keeps it well-formed and removes exactly
      the selected blocks: every block left is an unselected block of the
      grid that has fallen (or stayed) with id, value and column unchanged,
      and the count drops by the number of selected blocks. */
  lemma SettleFacts(cfg: Config, g: seq<Block>, sel: seq<nat>, idBound: nat)
    requires WellFormed(cfg, g)
    requires forall b :: b in g ==> b.id < idBound
    ensures var r := Settle(cfg, g, sel);
      && WellFormed(cfg, r)
      && (forall x :: x in r ==> x.id < idBound)
      && |r| + |Selected(g, sel)| == |g|
      && (|r| == 0 <==> |Remaining(g, sel)| == 0)
      && (forall x :: x in r ==>
            exists y :: y in g && y.id !in sel && x == y.(row := x.row) && x.row >= y.row)
  {
    var remaining := Remaining(g, sel);
    SelectionSplitsGrid(g, sel);
    RemainingMembers(g, sel);
    RemovalKeepsWellFormed(cfg, g, sel);
    if |remaining| > 0 {
      GravityKeepsWellFormed(cfg, remaining);
      GravityKeepsCount(cfg, remaining);
    }
  }

  /** The state invariant of a session: the grid is well-formed with ids
      below `nextId`, the selection holds distinct ids of blocks on the grid,
      the countdown is in [1, TIME_LIMIT], every block of the supply is on
      the board, in the pool or cleared, the score is ten points per cleared
      block, and during a session the target is at least TARGET_MIN. */
  ghost predicate Consistent(cfg: Config, mode: Option<GameMode>, grid: seq<Block>, target: int, score: nat,
                             sel: seq<nat>, pool: int, timeLeft: int, nextId: nat, cleared: nat)
  {
    && ValidConfig(cfg)
    && WellFormed(cfg, grid)
    && (forall b :: b in grid ==> b.id < nextId)
    && NoDup(sel)
    && (forall id :: id in sel ==> id in IdSet(grid))
    && 1 <= timeLeft <= cfg.timeLimit
    && |grid| + pool + cleared == INITIAL_POOL
    && (cfg.initialRows * cfg.cols <= INITIAL_POOL ==> pool >= 0)
    && score == MATCH_POINTS * cleared
    && (mode.Some? ==> cfg.targetMin <= target)
  }

  /** A hit keeps the invariant: the selected blocks, one per selected id,
      move from the board to the cleared count, the score rises by ten points
      for each, and the settled board is well-formed with the same ids bound. */
  lemma HitKeepsConsistent(cfg: Config, mode: Option<GameMode>, grid: seq<Block>, target: int, score: nat,
                           sel: seq<nat>, pool: int, timeLeft: int, nextId: nat, cleared: nat, newTarget: int,
                           settled: seq<Block>)
    requires Consistent(cfg, mode, grid, target, score, sel, pool, timeLeft, nextId, cleared)
    requires TargetLow(cfg, score) <= newTarget
    requires settled == Settle(cfg, grid, sel)
    ensures Consistent(cfg, mode, settled, newTarget, score + MATCH_POINTS * |sel|,
                       [], pool, timeLeft, nextId, cleared + |sel|)
  {
    SelectedCount(grid, sel);
    SettleFacts(cfg, grid, sel, nextId);
    TargetRangeSound(cfg, score);
  }

  /** A row injection keeps the invariant: the blocks drawn move from the
      pool to the board with fresh ids, a non-negative pool stays
      non-negative, and the sum of the selection does not change. */
  lemma InjectKeepsConsistent(cfg: Config, mode: Option<GameMode>, grid: seq<Block>, target: int, score: nat,
                              sel: seq<nat>, pool: int, timeLeft: int, nextId: nat, cleared: nat,
                              values: seq<int>, newTimeLeft: int, injected: seq<Block>, drawn: nat)
    requires Consistent(cfg, mode, grid, target, score, sel, pool, timeLeft, nextId, cleared)
    requires |values| >= cfg.cols && ValidValues(values)
    requires 1 <= newTimeLeft <= cfg.timeLimit
    requires injected == Injected(cfg, grid, pool, values, nextId) && drawn == Drawn(grid, pool, cfg.cols)
    ensures Consistent(cfg, mode, injected, target, score, sel, pool - drawn, newTimeLeft, nextId + drawn, cleared)
    ensures pool >= 0 ==> pool - drawn >= 0
    ensures CurrentSum(injected, sel) == CurrentSum(grid, sel)
  {
    var r := Injected(cfg, grid, pool, values, nextId);
    if HasTopRow(grid) {
      InjectOnFullBoard(cfg, grid, pool, values, nextId);
    } else {
      InjectShiftsAndFills(cfg, grid, pool, values, nextId);
      PlacedIsPoolBounded(pool, cfg.cols);
    }
    InjectKeepsWellFormed(cfg, grid, pool, values, nextId);
    InjectKeepsIds(cfg, grid, pool, values, nextId);
    forall id | id in sel ensures id < nextId {
      var b :| b in grid && b.id == id;
    }
    SumAfterInjection(cfg, grid, pool, values, nextId, sel);
  }

  /** Session start establishes the invariant: a freshly filled grid with
      consecutive ids from `firstId`, nothing selected, nothing cleared,
      score 0, and the pool holding what the grid did not take. */
  lemma StartConsistent(cfg: Config, mode: GameMode, g: seq<Block>, target: int, firstId: nat)
    requires ValidConfig(cfg) && WellFormed(cfg, g)
    requires |g| == cfg.initialRows * cfg.cols
    requires forall i :: 0 <= i < |g| ==> g[i].id == firstId + i
    requires cfg.targetMin <= target
    ensures Consistent(cfg, Some(mode), g, target, 0, [], INITIAL_POOL - |g|, cfg.timeLimit, firstId + |g|, 0)
    ensures CurrentSum(g, []) == 0
  {
    ConsecutiveIdsBelow(g, firstId);
    NothingSelected(g, []);
  }
}
