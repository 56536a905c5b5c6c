/** Entities of the number-matching puzzle: blocks, game modes and the
    board constants, which are taken as parameters of the model. */
module Types {

  /** The two game modes: a row after every clear, or a row when the countdown expires. */
  datatype GameMode = Classic | Time

  datatype Option<T> = None | Some(value: T)

  /** A numbered tile. `row` grows downward: 0 is the top row, `rows - 1` the bottom row. */
  datatype Block = Block(id: nat, value: int, row: int, col: int)

  /** GRID_COLS, GRID_ROWS, INITIAL_ROWS, TARGET_MIN, TARGET_MAX and TIME_LIMIT. */
  datatype Config = Config(
    cols: nat,
    rows: nat,
    initialRows: nat,
    targetMin: int,
    targetMax: int,
    timeLimit: int)

  predicate ValidConfig(cfg: Config) {
    && cfg.cols > 0
    && cfg.rows > 0
    && 0 < cfg.initialRows <= cfg.rows
    && 0 < cfg.targetMin <= cfg.targetMax
    && cfg.timeLimit > 0
  }

  /** Total supply of blocks for one session. */
  const INITIAL_POOL: int := 100

  /** Points per cleared (selected) block. */
  const MATCH_POINTS: nat := 10

  /** Score needed for each step of the difficulty multiplier. */
  const SCORE_PER_LEVEL: nat := 500

  const MIN_VALUE: int := 1
  const MAX_VALUE: int := 9

  /** A supply of block values standing in for the random value generator. */
  predicate ValidValues(values: seq<int>) {
    forall i :: 0 <= i < |values| ==> MIN_VALUE <= values[i] <= MAX_VALUE
  }
}
