# Number-matching puzzle: the game engine

This project models the game-state engine of a browser puzzle. Numbered blocks (values 1 to 9) stand on a grid. The player selects blocks. When the values of the selected blocks add up to the target, those blocks are cleared and the rest fall down their columns. New rows push up from the bottom: after every clear in CLASSIC mode, and whenever a countdown runs out in TIME mode. The game is lost when a row must be added while a block sits in the top row. It is won when a clear empties the board.

The engine is one object, `Engine.Game`, whose fields are the game state: the mode, the grid, the target, the score, the selection, the block pool, the two terminal flags, the countdown and the high score. Each event updates the object in place and runs to completion before the next one. The events are:

- session start;
- row injection;
- a click;
- match evaluation;
- the game-over check;
- the high-score update;
- a countdown tick.

Every method keeps the session invariant `Session.Consistent`:

- the grid is well-formed: blocks are in bounds, with values in [1, 9], unique cells and unique ids;
- the selection holds distinct ids of blocks on the grid;
- every block of the supply of 100 is on the board, in the pool, or cleared;
- the score is ten points per cleared block.

Between events the engine also keeps `Stable`: the high score is at least the score, and during a session the selection sums to less than the target.

The pure parts are functions with lemmas:

- the selection toggle (`Selection`);
- the sum and the removal of the selected blocks (`Matching`);
- the row shift and injection (`Board`);
- per-column gravity (`Gravity`, specified by `AfterGravity`);
- the difficulty range (`Matching.TargetLow` and `Matching.TargetHigh`).

The loops of the source are methods with loop invariants, each proved to meet its contract:

- the nested loops that fill the bottom rows at session start: their result is well-formed, has the supplied values and consecutive ids in order, occupies every cell of the bottom INITIAL_ROWS rows and nothing above them;
- the counting loop that fills a new bottom row: it is proved equal to the specification function `Board.BottomRow`;
- the per-column gravity loop: it is proved equal to the specification function `Gravity.AfterGravity`.

Randomness becomes input:

- block values come from a supplied sequence whose entries lie in [1, 9];
- fresh ids come from a counter, `nextId`, so ids are natural numbers;
- each new target is a supplied number that must lie in the current range.

The board constants (GRID_COLS, GRID_ROWS, INITIAL_ROWS, TARGET_MIN, TARGET_MAX, TIME_LIMIT) are parameters of the model (`Types.Config`). They must satisfy `Types.ValidConfig`: all are positive, INITIAL_ROWS ≤ GRID_ROWS, and TARGET_MIN ≤ TARGET_MAX. The file that defines them, src/constants.ts, is not part of this model.

The updates are read as if they happened one after another, as the code intends. This has two consequences:

- The grid that decides the follow-up row after a hit is the grid after gravity.
- The difficulty range of the next target uses the score from *before* the hit's points are added.

The code as written goes on after a clear that empties the board. It redraws the target, and when the pool still holds blocks, the "empty board" rule injects a new row. So a won game can receive a row. The model follows the code here, even though some descriptions of the game say that a win ends the processing of the hit.

## Model

| member | source | states |
|---|---|---|
| Engine.Game.constructor | src/App.tsx:41-50 | The state before a mode is chosen: no mode, an empty grid, target 0, score 0, no selection, both flags off, a pool of 100, a full countdown, high score 0; the invariant holds. |
| Engine.Game.InitGame | src/App.tsx:67-91 | Session start fills exactly the bottom INITIAL_ROWS rows (every cell of that band occupied, nothing above it). Block `i` has id `nextId + i` and value `values[i]`. The pool becomes 100 minus the blocks used. Score, selection, both flags and the countdown are reset, the mode is set, the high score is kept, and `Stable` holds afterwards. |
| Engine.Game.StoreStart | src/App.tsx:82-90 | The state writes of session start: every field takes its new value and the invariant holds for the new state. |
| Engine.Game.AddRow | src/App.tsx:93-132 | The new grid is `Injected` of the old grid, pool and counter. The pool and the id counter move by exactly `Drawn` blocks, and a non-negative pool stays non-negative. Game over is set exactly when a block was in row 0. In TIME mode the countdown is reset. The selection's sum is unchanged, nothing else changes, and the invariant is kept. |
| Engine.Game.StoreRow | src/App.tsx:94-131 | The state writes of a row injection: grid, pool, counter, game-over flag and countdown take their new values, and everything else is unchanged. |
| Engine.Game.HandleBlockClick | src/App.tsx:159-168 | Once the game is over the selection is unchanged; otherwise it becomes `Toggle(selection, id)`. No other field changes, and the invariant is kept when the id is on the board. |
| Engine.Game.Evaluate | src/App.tsx:171-228 | Exact hit: score + 10·\|selection\|, empty selection, new target, `isWin` set exactly when no unselected block remains, grid = the settled grid, or `Injected` of it when `RowFollows`, with pool, counter and game-over flag to match, and the countdown reset in TIME mode. Overshoot: only the selection is cleared. Below target: nothing changes. Afterwards the selection sums to less than the target. |
| Engine.Game.ClearMatch | src/App.tsx:175-211 | A hit: score + 10·\|selection\|, grid = `Settle` of the old grid and selection, `isWin` set exactly when no unselected block remains, empty selection, new target, pool/counter/timer/flags unchanged; the invariant is kept. |
| Engine.Game.StoreHit | src/App.tsx:177-211 | The state writes of a hit: score, grid, win flag, selection and target take their new values, and everything else is unchanged. |
| Engine.Game.FollowUp | src/App.tsx:213-223 | After a hit: a row is injected exactly when `RowFollows` (CLASSIC mode and blocks left, or an empty board and a non-empty pool), with pool, counter and game over to match; in TIME mode the countdown is reset. |
| Engine.Game.CheckGameOver | src/App.tsx:135-139 | Game over becomes set exactly when it was set already, or a session is running, the grid is empty, the pool is 0 and the game is not won; nothing else changes. |
| Engine.Game.UpdateHighScore | src/App.tsx:230-234 | The high score never decreases, is at least the score afterwards, and is either its old value or the score. |
| Engine.Game.TickStep | src/App.tsx:145-150 | With at most one second left, a row is injected (grid `Injected`, pool minus `Drawn`, game over when row 0 was occupied) and the countdown restarts at TIME_LIMIT; otherwise the countdown drops by one and the grid, pool and flag are unchanged. |
| Engine.Game.Click | src/App.tsx:159-234 | A click followed by evaluation, the game-over check and the high-score update keeps `Stable`. After game over a click changes nothing. Otherwise the new selection is the toggled one, and its sum against the old target decides the outcome. On a hit: ten points per selected id, an empty selection, the new target, the settled grid with the follow-up row, the pool less the blocks drawn, and game over exactly when that row met a full board or the board and pool are empty without a win. On an overshoot only the selection is cleared. Below the target only the selection changes. The high score becomes the larger of itself and the score. |
| Engine.Game.Tick | src/App.tsx:142-152 | A TIME-mode tick, followed by the game-over check and the high-score update, keeps `Stable`. With at most one second left, a row is injected, the pool loses the blocks drawn and the countdown restarts. Otherwise the countdown drops by one and grid and pool stay. The game is over exactly when the row met a full board or the board and pool are empty without a win. Selection, target, score, win flag and high score are unchanged. |
| Session.SettleGrid | src/App.tsx:180-203 | The grid update of a hit returns `Settle`: the empty grid when no unselected block remains, otherwise the gravity-compacted remaining blocks. It also reports whether the board was cleared. |
| Session.SettleFacts | src/App.tsx:180-203 | The settled grid is well-formed, keeps ids below the counter, and has exactly \|grid\| − \|selected blocks\| blocks. It is empty iff no block remains. Each of its blocks is an unselected block of the old grid that has fallen or stayed, with id, value and column unchanged. |
| Session.HitKeepsConsistent | src/App.tsx:175-211 | A hit keeps the session invariant, with score + 10·\|sel\|, an empty selection, \|sel\| more blocks cleared and any target from the new range. |
| Session.InjectKeepsConsistent | src/App.tsx:93-132 | A row injection keeps the session invariant, with pool − drawn and counter + drawn. A non-negative pool stays non-negative, and the selection's sum does not change. |
| Session.StartConsistent | src/App.tsx:67-91 | A freshly filled grid with consecutive ids, no selection, score 0, the pool 100 − \|grid\| and a target of at least TARGET_MIN satisfies the session invariant, and the empty selection sums to 0. |
| Board.InjectRow | src/App.tsx:94-127 | It reports a full board exactly when some block is in row 0, returns `Injected`, and draws `Drawn` blocks. |
| Board.FillBottomRow | src/App.tsx:106-121 | The counting loop runs `min(pool, GRID_COLS)` times (0 when the pool is not positive). It returns that many fresh blocks on the bottom row, in columns 0 upward, with consecutive ids and the supplied values. |
| Board.PlacedIsPoolBounded | src/App.tsx:109-120 | The number of blocks placed is at most GRID_COLS, equals `min(pool, GRID_COLS)` for a non-negative pool and 0 for a negative one, and never drives a non-negative pool below zero. |
| Board.InjectOnFullBoard | src/App.tsx:96-99 | With a block in row 0 the grid is returned unchanged and nothing is drawn from the pool. |
| Board.InjectShiftsAndFills | src/App.tsx:103-123 | Otherwise every old block moves up exactly one row with id, value and column unchanged. Exactly `min(pool, GRID_COLS)` new blocks follow, all on the bottom row in columns 0 upward, with consecutive fresh ids. |
| Board.InjectKeepsWellFormed | src/App.tsx:93-127 | Injection into a well-formed grid whose ids are below the counter keeps cells unique and in bounds and ids unique, and the new ids stay below the advanced counter. |
| Board.InjectKeepsIds | src/App.tsx:103 | Every id on the board before an injection is still on the board after it. |
| Board.FillInitialRows | src/App.tsx:68-81 | The nested fill loops produce INITIAL_ROWS·GRID_COLS blocks with consecutive ids and the supplied values. The grid is well-formed, every cell of the bottom INITIAL_ROWS rows is occupied, and no block lies above them. |
| Board.FillInitialRow | src/App.tsx:72-80 | One pass of the inner loop adds one full row on top of the rows already filled and keeps all of the above. |
| Selection.Without | src/App.tsx:164 | Deselecting removes every occurrence of the id and keeps every other id with its multiplicity. |
| Selection.Toggle | src/App.tsx:162-167 | A selected id has every occurrence removed. An unselected id is appended at the end, with the old selection as an unchanged prefix. |
| Selection.ToggleMembers | src/App.tsx:162-167 | After a click the selection holds the other ids it held, and holds the clicked id exactly when it did not before. |
| Selection.ToggleTwiceRestores | src/App.tsx:162-167 | Clicking an unselected id twice restores the selection exactly. |
| Selection.ToggleTwiceMovesToEnd | src/App.tsx:162-167 | Clicking a selected id twice, in a selection without duplicates, keeps the same ids and moves that id to the end. |
| Selection.ToggleKeepsNoDup | src/App.tsx:162-167 | A click never introduces a duplicate id. |
| Selection.WithoutKeepsNoDup | src/App.tsx:164 | Deselecting keeps a duplicate-free selection duplicate-free. |
| Selection.WithoutOnce | src/App.tsx:164 | Deselecting an id held once shortens the selection by exactly one. |
| Selection.WithoutAbsent | src/App.tsx:164 | Deselecting an id that is not selected changes nothing. |
| Selection.WithoutKeepsOrder | src/App.tsx:164 | Deselecting distributes over concatenation, so the order of the other ids is kept. |
| Selection.NoDupOnce | src/App.tsx:166 | In a duplicate-free selection a selected id occurs exactly once. |
| Matching.SelectedMembers | src/App.tsx:172 | The selected blocks are exactly the grid blocks whose id is selected. |
| Matching.RemainingMembers | src/App.tsx:182 | The remaining blocks are exactly the grid blocks whose id is not selected. |
| Matching.TotalConcat | src/App.tsx:173 | The sum of a concatenation is the sum of the parts. |
| Matching.SumStep | src/App.tsx:172-173 | The current sum counts the first grid block exactly when its id is selected, then the rest; the remaining total does the opposite. |
| Matching.OnlyPresentIdsMatter | src/App.tsx:172-173 | Two selections that agree on the ids of grid blocks give the same selected blocks, the same sum and the same remaining blocks. Order, duplicates and absent ids do not matter. |
| Matching.AbsentIdContributesNothing | src/App.tsx:172-173 | Selecting an id with no block on the grid leaves the sum unchanged. |
| Matching.SelectionSplitsGrid | src/App.tsx:172-182 | The selected and the remaining blocks split the grid: their counts add up to the grid's count, and their sums add up to the grid's total. |
| Matching.SumBounds | src/App.tsx:172-173 | With values in [1, 9], the sum lies between the number of selected blocks and nine times that number. |
| Matching.SelectingAddsValue | src/App.tsx:172-173 | With unique ids, adding a grid block's id to the selection raises the sum by exactly its value. |
| Matching.ToggleChangesSum | src/App.tsx:162-173 | With unique ids, a click on a grid block changes the sum by exactly its value: up when it becomes selected, down when it is deselected. |
| Matching.RemovalKeepsWellFormed | src/App.tsx:182 | Removing the selected blocks keeps a well-formed grid well-formed. |
| Matching.NothingSelected | src/App.tsx:172-173 | When no grid id is selected, nothing is selected, the sum is 0 and nothing is removed. |
| Matching.SelectedCount | src/App.tsx:177-182 | With a duplicate-free selection of ids on a grid with unique ids, exactly one block is removed per selected id. This is the block count behind the ten points per id. |
| Matching.SelectedConcat | src/App.tsx:172 | Selection distributes over concatenation. |
| Matching.SumOfShiftUp | src/App.tsx:103 | Moving every block up one row does not change the sum of a selection. |
| Matching.SumAfterInjection | src/App.tsx:93-127 | A row injection does not change the sum of a selection of blocks already on a grid whose ids are below the counter. |
| Matching.TargetRangeSound | src/App.tsx:208-211 | The range [TARGET_MIN + 5m, TARGET_MAX + 10m] with m = score / 500 is never empty and has a positive lower bound. At score 0 it is the session-start range [TARGET_MIN, TARGET_MAX]. |
| Matching.TargetRangeMonotone | src/App.tsx:208-210 | Both bounds, and the width of the range, are non-decreasing in the score. |
| Gravity.ApplyGravity | src/App.tsx:191-200 | The per-column loop returns `AfterGravity` of the remaining blocks. |
| Gravity.PushColumn | src/App.tsx:197-199 | The inner loop appends the sorted column with block `idx` moved to row GRID_ROWS − 1 − idx. |
| Gravity.ColumnOfMembers | src/App.tsx:193-194 | A column holds exactly the grid blocks with that column. |
| Gravity.InsertByRowPermutes | src/App.tsx:195 | Insertion adds exactly the inserted block. |
| Gravity.SortPermutes | src/App.tsx:195 | The bottom-to-top sort is a permutation of the column. |
| Gravity.SortIsDescending | src/App.tsx:195 | The sorted column is bottom-most first. |
| Gravity.SortFixesDescending | src/App.tsx:195 | A column that is already bottom-most first is left as it is. |
| Gravity.InsertKeepsDescending | src/App.tsx:195 | Insertion into a bottom-most-first column keeps it bottom-most first. |
| Gravity.ColumnOfGravityUpTo | src/App.tsx:191-200 | After the first n iterations, column c of the new grid is the sorted and stacked column c of the old grid when c < n, and empty otherwise. |
| Gravity.GravitySettlesColumn | src/App.tsx:191-200 | Per column, gravity keeps the block count, and its blocks are a permutation of the column sorted bottom-most first. Block i sits on row GRID_ROWS − 1 − i (no gaps), with id, value and column unchanged. |
| Gravity.GravityIdempotent | src/App.tsx:191-200 | Gravity applied to a grid it has already compacted changes nothing. |
| Gravity.GravityKeepsCompactedColumn | src/App.tsx:191-200 | A column whose blocks already sit bottom-up on rows GRID_ROWS − 1, GRID_ROWS − 2, … with no gap is left exactly as it is. |
| Gravity.GravityKeepsWellFormed | src/App.tsx:191-200 | Gravity keeps a well-formed grid well-formed. Every block after it is a block of the grid that has fallen or stayed, with id, value and column unchanged. |
| Gravity.GravityKeepsCount | src/App.tsx:191-200 | Gravity keeps the number of blocks of a grid whose columns are in range. |
| Gravity.GravityUpToWellFormed | src/App.tsx:192-200 | After any number of iterations of the column loop, the partial grid is well-formed. |
| Gravity.GravityUpToProvenance | src/App.tsx:192-200 | After n iterations, every block is a block of one of the first n columns that has fallen or stayed. |
| Gravity.GravityUpToCount | src/App.tsx:192-200 | After n iterations, the partial grid holds exactly the blocks of the first n columns. |
| Gravity.AppendColumnWellFormed | src/App.tsx:192-199 | Appending the next compacted column to the columns already done keeps the grid well-formed. |

## Left out

- Rendering: the JSX, the modals, the progress bar, the welcome screen, the colour tables and the sparkle animation. They are presentation only and use floating-point randomness.
- Timer scheduling: `setInterval`/`clearInterval` and the timer reference. Only the body of one tick is modelled (`TickStep`), and `Tick` is called by the environment.
- React's state mechanics: deferred updaters, effects that run on mount or on every render, and the updater nested inside another updater in `addRow`. The model applies every update at once, in program order.
- The way back to the mode menu (`setMode(null)` in the UI) is not modelled. The engine starts in the no-mode state and `InitGame` starts or restarts a session.
- The `GameState` interface of src/types.ts and its `level` field. The engine does not use them.
- Randomness: values, ids and targets are inputs. Random string ids become a counter, so the model proves that ids are unique rather than relying on chance.
- src/constants.ts is not part of this model. The constants are parameters, restricted only by `ValidConfig`.
- Engine.Game.HandleBlockClick: promises the invariant only for a click on an id that is on the board. Clicks come from rendered blocks, so `Click` requires the id to be on the board. The code itself would append any id.
- Engine.Game.AddRow: when INITIAL_ROWS·GRID_COLS exceeds 100, the pool starts negative and stays so. The count loop then places nothing. The model keeps this behaviour, and proves a non-negative pool only when it starts non-negative.
- Board.InjectRow: the fresh ids of injected blocks are numbered from the counter, because the random id generator is not modelled.
