/** The game engine: one object holding the state of a session, updated in
    place by session start, row injection, clicks, match evaluation and the
    countdown. Each event runs to completion before the next one. */
module Engine {
  import opened Types
  import opened Board
  import opened Selection
  import opened Matching
  import opened Gravity
  import opened Session

  class Game {
    const cfg: Config
    var mode: Option<GameMode>
    var grid: seq<Block>
    var target: int
    var score: nat
    var selectedIds: seq<nat>
    var isGameOver: bool
    var isWin: bool
    var blocksPool: int
    var timeLeft: int
    var highScore: nat
    /** The next fresh block id. */
    var nextId: nat
    /** The number of blocks removed by matches since the session started. */
    ghost var cleared: nat

    /** The state invariant kept by every operation; see `Consistent`. */
    ghost predicate Valid()
      reads this
    {
      Consistent(cfg, mode, grid, target, score, selectedIds, blocksPool, timeLeft, nextId, cleared)
    }

    /** The invariant between events: in addition, the high score is at
        least the score, and during a session the selection sums to less
        than the target, so that evaluating it again would change nothing. */
    ghost predicate Stable()
      reads this
    {
      && Valid()
      && score <= highScore
      && (mode.Some? ==> CurrentSum(grid, selectedIds) < target)
    }

    /** The state before a mode is chosen. */
    constructor (cfg: Config)
      requires ValidConfig(cfg)
      ensures this.cfg == cfg && Valid()
      ensures mode == None && grid == [] && target == 0 && score == 0 && selectedIds == []
      ensures !isGameOver && !isWin && blocksPool == INITIAL_POOL
      ensures timeLeft == cfg.timeLimit && highScore == 0
    {
      this.cfg := cfg;
      mode := None;
      grid := [];
      target := 0;
      score := 0;
      selectedIds := [];
      isGameOver := false;
      isWin := false;
      blocksPool := INITIAL_POOL;
      timeLeft := cfg.timeLimit;
      highScore := 0;
      nextId := 0;
      cleared := 0;
    }

    /** Session start: the bottom `INITIAL_ROWS` rows are filled, the pool
        keeps what they did not use, and score, selection, flags and timer
        are reset; the high score is kept. */
    method InitGame(selectedMode: GameMode, values: seq<int>, newTarget: int)
      requires Valid()
      requires |values| >= cfg.initialRows * cfg.cols && ValidValues(values)
      requires cfg.targetMin <= newTarget <= cfg.targetMax
      modifies this
      ensures Stable()
      ensures |grid| == cfg.initialRows * cfg.cols
      ensures forall i :: 0 <= i < |grid| ==>
        grid[i].id == old(nextId) + i && grid[i].value == values[i]
      ensures forall b :: b in grid ==> b.row >= cfg.rows - cfg.initialRows
      ensures forall row, col :: cfg.rows - cfg.initialRows <= row < cfg.rows && 0 <= col < cfg.cols ==>
        Occupied(grid, row, col)
      ensures blocksPool == INITIAL_POOL - cfg.initialRows * cfg.cols
      ensures target == newTarget && score == 0 && selectedIds == []
      ensures !isGameOver && !isWin && mode == Some(selectedMode) && timeLeft == cfg.timeLimit
      ensures highScore == old(highScore) && nextId == old(nextId) + |grid|
    {
      var initialGrid, usedInInitial := FillInitialRows(cfg, values, nextId);
      StartConsistent(cfg, selectedMode, initialGrid, newTarget, nextId);
      StoreStart(selectedMode, initialGrid, newTarget, INITIAL_POOL - |initialGrid|, nextId + |initialGrid|);
      NothingSelected(grid, selectedIds);
    }

    /** The state writes of session start, given the filled grid. */
    method StoreStart(selectedMode: GameMode, initialGrid: seq<Block>, newTarget: int, newPool: int, newNextId: nat)
      requires Consistent(cfg, Some(selectedMode), initialGrid, newTarget, 0, [], newPool, cfg.timeLimit, newNextId, 0)
      modifies this
      ensures Valid()
      ensures grid == initialGrid && blocksPool == newPool
      ensures target == newTarget && score == 0 && selectedIds == []
      ensures !isGameOver && !isWin && mode == Some(selectedMode) && timeLeft == cfg.timeLimit
      ensures highScore == old(highScore) && nextId == newNextId
    {
      grid, blocksPool, target, score, selectedIds := initialGrid, newPool, newTarget, 0, [];
      isGameOver, isWin, mode, timeLeft := false, false, Some(selectedMode), cfg.timeLimit;
      nextId, cleared := newNextId, 0;
    }

    /** Row injection. On a full board (a block in row 0) the game is over
        and the grid and pool are untouched; otherwise every block moves up
        one row and `min(pool, GRID_COLS)` fresh blocks fill the bottom row
        from column 0, taken from the pool. In TIME mode the countdown is
        reset in both cases. The sum of the selection does not change. */
    method AddRow(values: seq<int>)
      requires Valid() && |values| >= cfg.cols && ValidValues(values)
      modifies this
      ensures Valid()
      ensures grid == Injected(cfg, old(grid), old(blocksPool), values, old(nextId))
      ensures blocksPool == old(blocksPool) - Drawn(old(grid), old(blocksPool), cfg.cols)
      ensures nextId == old(nextId) + Drawn(old(grid), old(blocksPool), cfg.cols)
      ensures old(blocksPool) >= 0 ==> blocksPool >= 0
      ensures isGameOver == (old(isGameOver) || HasTopRow(old(grid)))
      ensures timeLeft == if mode == Some(Time) then cfg.timeLimit else old(timeLeft)
      ensures CurrentSum(grid, selectedIds) == old(CurrentSum(grid, selectedIds))
      ensures mode == old(mode) && target == old(target) && score == old(score)
      ensures selectedIds == old(selectedIds) && isWin == old(isWin)
      ensures highScore == old(highScore) && cleared == old(cleared)
    {
      var newGrid, used, isFull := InjectRow(cfg, grid, blocksPool, values, nextId);
      var newTimeLeft := if mode == Some(Time) then cfg.timeLimit else timeLeft;
      InjectKeepsConsistent(cfg, mode, grid, target, score, selectedIds, blocksPool, timeLeft, nextId, cleared,
                            values, newTimeLeft, newGrid, used);
      StoreRow(newGrid, used, isFull, newTimeLeft);
    }

    /** The state writes of a row injection, given the new grid and the
        number of blocks drawn from the pool. */
    method StoreRow(newGrid: seq<Block>, used: nat, isFull: bool, newTimeLeft: int)
      requires Consistent(cfg, mode, newGrid, target, score, selectedIds, blocksPool - used, newTimeLeft,
                          nextId + used, cleared)
      modifies this
      ensures Valid()
      ensures grid == newGrid && blocksPool == old(blocksPool) - used && nextId == old(nextId) + used
      ensures isGameOver == (old(isGameOver) || isFull) && timeLeft == newTimeLeft
      ensures mode == old(mode) && target == old(target) && score == old(score)
      ensures selectedIds == old(selectedIds) && isWin == old(isWin)
      ensures highScore == old(highScore) && cleared == old(cleared)
    {
      grid, blocksPool, nextId, timeLeft := newGrid, blocksPool - used, nextId + used, newTimeLeft;
      isGameOver := isGameOver || isFull;
    }

    /** A click on a block: nothing once the game is over, otherwise the id
        is deselected when selected and appended when not. */
    method HandleBlockClick(id: nat)
      requires Valid()
      modifies this
      ensures selectedIds == if old(isGameOver) then old(selectedIds) else Toggle(old(selectedIds), id)
      ensures id in IdSet(grid) ==> Valid()
      ensures grid == old(grid) && target == old(target) && score == old(score) && mode == old(mode)
      ensures isGameOver == old(isGameOver) && isWin == old(isWin) && blocksPool == old(blocksPool)
      ensures timeLeft == old(timeLeft) && highScore == old(highScore) && nextId == old(nextId)
      ensures cleared == old(cleared)
    {
      if isGameOver {
        return;
      }
      ToggleKeepsNoDup(selectedIds, id);
      forall x | x in Toggle(selectedIds, id) ensures x in selectedIds || x == id {
        ToggleMembers(selectedIds, id, x);
      }
      selectedIds := Toggle(selectedIds, id);
    }

    /** Match evaluation of the current selection. On an exact hit the
        matched blocks are cleared and a row follows or the countdown is
        reset; on an overshoot only the selection is cleared; otherwise
        nothing changes. Afterwards the selection sums to less than the
        target, so that evaluating again would change nothing. */
    method Evaluate(values: seq<int>, newTarget: int)
      requires Valid() && |values| >= cfg.cols && ValidValues(values)
      requires TargetLow(cfg, score) <= newTarget <= TargetHigh(cfg, score)
      modifies this
      ensures Valid()
      ensures mode.Some? ==> CurrentSum(grid, selectedIds) < target
      ensures mode == old(mode) && highScore == old(highScore)
      ensures var sum := CurrentSum(old(grid), old(selectedIds));
        var settled := Settle(cfg, old(grid), old(selectedIds));
        var follows := RowFollows(mode, settled, old(blocksPool));
        var drawn := if follows then Drawn(settled, old(blocksPool), cfg.cols) else 0;
        sum == old(target) ==>
          && score == old(score) + MATCH_POINTS * |old(selectedIds)|
          && selectedIds == [] && target == newTarget
          && isWin == (old(isWin) || |Remaining(old(grid), old(selectedIds))| == 0)
          && grid == (if follows then Injected(cfg, settled, old(blocksPool), values, old(nextId)) else settled)
          && blocksPool == old(blocksPool) - drawn
          && nextId == old(nextId) + drawn
          && isGameOver == (old(isGameOver) || (follows && HasTopRow(settled)))
          && timeLeft == (if mode == Some(Time) then cfg.timeLimit else old(timeLeft))
      ensures var sum := CurrentSum(old(grid), old(selectedIds));
        sum > old(target) ==>
          && selectedIds == []
          && grid == old(grid) && score == old(score) && target == old(target)
          && isWin == old(isWin) && isGameOver == old(isGameOver) && blocksPool == old(blocksPool)
          && timeLeft == old(timeLeft) && nextId == old(nextId)
      ensures var sum := CurrentSum(old(grid), old(selectedIds));
        sum < old(target) ==>
          && selectedIds == old(selectedIds)
          && grid == old(grid) && score == old(score) && target == old(target)
          && isWin == old(isWin) && isGameOver == old(isGameOver) && blocksPool == old(blocksPool)
          && timeLeft == old(timeLeft) && nextId == old(nextId)
    {
      var currentSum := CurrentSum(grid, selectedIds);
      if currentSum == target {
        ClearMatch(newTarget);
        FollowUp(values);
        NothingSelected(grid, selectedIds);
      } else if currentSum > target {
        selectedIds := [];
        NothingSelected(grid, selectedIds);
      }
    }

    /** The first half of a hit: ten points per selected id, the selected
        blocks removed, the rest compacted by gravity or, when none is left,
        the game won; then the selection is cleared and the target redrawn
        from the range of the score before the hit. */
    method ClearMatch(newTarget: int)
      requires Valid() && CurrentSum(grid, selectedIds) == target
      requires TargetLow(cfg, score) <= newTarget <= TargetHigh(cfg, score)
      modifies this
      ensures Valid()
      ensures score == old(score) + MATCH_POINTS * |old(selectedIds)|
      ensures grid == Settle(cfg, old(grid), old(selectedIds))
      ensures isWin == (old(isWin) || |Remaining(old(grid), old(selectedIds))| == 0)
      ensures selectedIds == [] && target == newTarget
      ensures mode == old(mode) && isGameOver == old(isGameOver) && blocksPool == old(blocksPool)
      ensures timeLeft == old(timeLeft) && highScore == old(highScore) && nextId == old(nextId)
    {
      var nextGrid, boardCleared := SettleGrid(cfg, grid, selectedIds);
      HitKeepsConsistent(cfg, mode, grid, target, score, selectedIds, blocksPool, timeLeft, nextId, cleared,
                         newTarget, nextGrid);
      StoreHit(nextGrid, boardCleared, newTarget);
    }

    /** The state writes of a hit, given the settled grid: the invariant of
        the new state is established beforehand, on values. */
    method StoreHit(nextGrid: seq<Block>, boardCleared: bool, newTarget: int)
      requires Consistent(cfg, mode, nextGrid, newTarget, score + MATCH_POINTS * |selectedIds|, [], blocksPool, timeLeft,
                          nextId, cleared + |selectedIds|)
      modifies this
      ensures Valid()
      ensures score == old(score) + MATCH_POINTS * |old(selectedIds)|
      ensures grid == nextGrid && isWin == (old(isWin) || boardCleared)
      ensures selectedIds == [] && target == newTarget
      ensures mode == old(mode) && isGameOver == old(isGameOver) && blocksPool == old(blocksPool)
      ensures timeLeft == old(timeLeft) && highScore == old(highScore) && nextId == old(nextId)
    {
      score, cleared, isWin, grid, selectedIds, target :=
        score + MATCH_POINTS * |selectedIds|, cleared + |selectedIds|, isWin || boardCleared, nextGrid, [], newTarget;
    }

    /** The second half of a hit, on the settled board with an empty
        selection: a row follows in CLASSIC mode when blocks are left, or in
        either mode when the board is empty but the pool is not; in TIME
        mode the countdown is reset. */
    method FollowUp(values: seq<int>)
      requires Valid() && selectedIds == [] && |values| >= cfg.cols && ValidValues(values)
      modifies this
      ensures Valid()
      ensures var follows := RowFollows(mode, old(grid), old(blocksPool));
        var drawn := if follows then Drawn(old(grid), old(blocksPool), cfg.cols) else 0;
        && grid == (if follows then Injected(cfg, old(grid), old(blocksPool), values, old(nextId)) else old(grid))
        && blocksPool == old(blocksPool) - drawn
        && nextId == old(nextId) + drawn
        && isGameOver == (old(isGameOver) || (follows && HasTopRow(old(grid))))
      ensures timeLeft == if mode == Some(Time) then cfg.timeLimit else old(timeLeft)
      ensures selectedIds == [] && mode == old(mode) && score == old(score) && target == old(target)
      ensures isWin == old(isWin) && highScore == old(highScore)
    {
      var nextGrid := grid;
      if mode == Some(Classic) && |nextGrid| > 0 {
        AddRow(values);
      } else if mode == Some(Time) {
        timeLeft := cfg.timeLimit;
      }
      if |nextGrid| == 0 && blocksPool > 0 {
        AddRow(values);
      }
    }

    /** The game-over check after a change: during a session, an empty board
        with an empty pool ends the game unless it was won. */
    method CheckGameOver()
      requires Valid()
      modifies this
      ensures Valid()
      ensures isGameOver == (old(isGameOver) || (mode.Some? && |grid| == 0 && blocksPool == 0 && !isWin))
      ensures mode == old(mode) && grid == old(grid) && target == old(target) && score == old(score)
      ensures selectedIds == old(selectedIds) && isWin == old(isWin) && blocksPool == old(blocksPool)
      ensures timeLeft == old(timeLeft) && highScore == old(highScore) && nextId == old(nextId)
      ensures cleared == old(cleared)
    {
      if mode.Some? && |grid| == 0 && blocksPool == 0 && !isWin {
        isGameOver := true;
      }
    }

    /** The high-score update: the high score becomes the larger of itself
        and the score. */
    method UpdateHighScore()
      requires Valid()
      modifies this
      ensures Valid()
      ensures highScore >= old(highScore) && highScore >= score
      ensures highScore == old(highScore) || highScore == score
      ensures mode == old(mode) && grid == old(grid) && target == old(target) && score == old(score)
      ensures selectedIds == old(selectedIds) && isWin == old(isWin) && blocksPool == old(blocksPool)
      ensures timeLeft == old(timeLeft) && isGameOver == old(isGameOver) && nextId == old(nextId)
      ensures cleared == old(cleared)
    {
      if score > highScore {
        highScore := score;
      }
    }

    /** One second of the TIME-mode countdown: when at most one second is
        left a row is injected and the countdown restarts, otherwise it
        counts down by one. */
    method TickStep(values: seq<int>)
      requires Valid() && |values| >= cfg.cols && ValidValues(values)
      modifies this
      ensures Valid()
      ensures old(timeLeft) <= 1 ==>
        && grid == Injected(cfg, old(grid), old(blocksPool), values, old(nextId))
        && blocksPool == old(blocksPool) - Drawn(old(grid), old(blocksPool), cfg.cols)
        && isGameOver == (old(isGameOver) || HasTopRow(old(grid)))
        && timeLeft == cfg.timeLimit
      ensures old(timeLeft) > 1 ==>
        && grid == old(grid) && blocksPool == old(blocksPool) && isGameOver == old(isGameOver)
        && timeLeft == old(timeLeft) - 1
      ensures CurrentSum(grid, selectedIds) == old(CurrentSum(grid, selectedIds))
      ensures mode == old(mode) && target == old(target) && score == old(score)
      ensures selectedIds == old(selectedIds) && isWin == old(isWin) && highScore == old(highScore)
    {
      if timeLeft <= 1 {
        AddRow(values);
        timeLeft := cfg.timeLimit;
      } else {
        timeLeft := timeLeft - 1;
      }
    }

    /** A click on a block on the board, followed by the evaluation of the
        new selection and the game-over and high-score checks. Once the game
        is over a click changes nothing. */
    method Click(id: nat, values: seq<int>, newTarget: int)
      requires Stable() && mode.Some? && id in IdSet(grid)
      requires |values| >= cfg.cols && ValidValues(values)
      requires TargetLow(cfg, score) <= newTarget <= TargetHigh(cfg, score)
      modifies this
      ensures Stable()
      ensures mode == old(mode)
      ensures highScore == if score > old(highScore) then score else old(highScore)
      ensures old(isGameOver) ==>
        && grid == old(grid) && selectedIds == old(selectedIds) && score == old(score)
        && target == old(target) && blocksPool == old(blocksPool) && timeLeft == old(timeLeft)
        && isGameOver && isWin == old(isWin) && highScore == old(highScore)
      ensures var sel := Toggle(old(selectedIds), id);
        var settled := Settle(cfg, old(grid), sel);
        var follows := RowFollows(mode, settled, old(blocksPool));
        var drawn := if follows then Drawn(settled, old(blocksPool), cfg.cols) else 0;
        !old(isGameOver) && CurrentSum(old(grid), sel) == old(target) ==>
          && score == old(score) + MATCH_POINTS * |sel|
          && selectedIds == [] && target == newTarget
          && isWin == (old(isWin) || |Remaining(old(grid), sel)| == 0)
          && grid == (if follows then Injected(cfg, settled, old(blocksPool), values, old(nextId)) else settled)
          && blocksPool == old(blocksPool) - drawn
          && timeLeft == (if mode == Some(Time) then cfg.timeLimit else old(timeLeft))
          && isGameOver == ((follows && HasTopRow(settled)) || (|grid| == 0 && blocksPool == 0 && !isWin))
      ensures var sel := Toggle(old(selectedIds), id);
        !old(isGameOver) && CurrentSum(old(grid), sel) > old(target) ==>
          && selectedIds == []
          && grid == old(grid) && score == old(score) && target == old(target)
          && isWin == old(isWin) && blocksPool == old(blocksPool) && timeLeft == old(timeLeft)
          && isGameOver == (|grid| == 0 && blocksPool == 0 && !isWin)
      ensures var sel := Toggle(old(selectedIds), id);
        !old(isGameOver) && CurrentSum(old(grid), sel) < old(target) ==>
          && selectedIds == sel
          && grid == old(grid) && score == old(score) && target == old(target)
          && isWin == old(isWin) && blocksPool == old(blocksPool) && timeLeft == old(timeLeft)
          && isGameOver == (|grid| == 0 && blocksPool == 0 && !isWin)
    {
      HandleBlockClick(id);
      if !isGameOver {
        Evaluate(values, newTarget);
        CheckGameOver();
        UpdateHighScore();
      }
    }

    /** A countdown tick in a running TIME-mode session, followed by the
        game-over and high-score checks. */
    method Tick(values: seq<int>)
      requires Stable() && mode == Some(Time) && !isGameOver
      requires |values| >= cfg.cols && ValidValues(values)
      modifies this
      ensures Stable()
      ensures old(timeLeft) <= 1 ==>
        && grid == Injected(cfg, old(grid), old(blocksPool), values, old(nextId))
        && blocksPool == old(blocksPool) - Drawn(old(grid), old(blocksPool), cfg.cols)
        && timeLeft == cfg.timeLimit
        && isGameOver == (HasTopRow(old(grid)) || (|grid| == 0 && blocksPool == 0 && !isWin))
      ensures old(timeLeft) > 1 ==>
        && grid == old(grid) && blocksPool == old(blocksPool) && timeLeft == old(timeLeft) - 1
        && isGameOver == (|grid| == 0 && blocksPool == 0 && !isWin)
      ensures mode == old(mode) && target == old(target) && score == old(score)
      ensures selectedIds == old(selectedIds) && isWin == old(isWin) && highScore == old(highScore)
    {
      TickStep(values);
      CheckGameOver();
      UpdateHighScore();
    }
  }
}
