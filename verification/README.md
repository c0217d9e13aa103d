# Tetra Turns: a Dafny model of the game logic

Tetra Turns is a falling-block game on a 10×10 board whose twist is that the
whole board turns 90° clockwise every fifteen seconds, settled blocks and
all. All gameplay lives in one React hook, `useGameLogic`. That hook is a
single-writer state machine: every key press, control call and timer tick
replaces the `GameState` with a new one computed from the previous one.

This project models that state machine as pure Dafny functions. Each event is
one `GameState -> GameState` function. The helpers the hook uses are each
modelled and specified on their own: board construction, the collision test,
piece rotation about the pivot block, whole-board rotation, line clearing,
scoring and levels.

Modules, one per component:

- `types.dfy` (`Types`): the constants (board side 10, the seven-colour
  palette, 100 points per line, multiplier 1.5, 1000 points per level) and the
  entities `Block`, `Tetromino`, `Cell`, `Grid` and `GameState`.
- `board.dfy` (`Board`): `EmptyGrid` and `RotateGrid`. It proves that the
  rotation's index map is a bijection, that it keeps how often each cell
  value occurs, and that four rotations give back the original board.
- `lines.dfy` (`Lines`): `ClearLines` as a function, plus `ClearLinesLoop`,
  the hook's filter-then-pad loop, proved equal to it.
- `scoring.dfy` (`Scoring`): `LinePoints` (100 · k · 1.5^(k-1)) and `Level`
  (⌊score/1000⌋ + 1), both over exact reals.
- `pieces.dfy` (`Pieces`): `SpawnPiece`, `Shift`, `Collides` and
  `RotatePiece`.
- `game_logic.dfy` (`GameLogic`): the transitions, the `Key` and `Event`
  dispatch, and the invariant `Valid`. `Valid` says: the board is 10×10; the
  score is not negative and the level matches it; the piece, if there is
  one, has four blocks of one colour between the side walls and above the
  floor, and an angle in 0..359; and there is no piece once the game is over. The model proves that every event preserves `Valid`,
  so every reachable state satisfies it.

Modelling choices:

- Randomness is a parameter. A gravity tick carries the shape index and the
  colour index that `Math.random` would draw. The shape catalog `TETROMINOES`
  is imported by the hook but its definition is not part of this model, so it
  is a parameter too, with every shape having four offsets.
- Colours are a seven-value enumeration. The hook tests occupancy in three
  ways: the collision test takes `grid[y][x]` as true when occupied, the
  rotation check asks for `!grid[y][x]`, and line clearing tests
  `cell !== null`. For the palette's non-empty colour strings these agree, so
  all three read "the cell is (not) `Empty`".
- The rotation angle is an `int`. `JsRem` models JavaScript's truncating `%`.
- Timers are events. Gravity ticks and rotation ticks are events guarded by
  "not over and not paused", as the effect that starts the intervals is
  guarded. The rotation updater repeats the same guard itself.
- Both rotate paths are modelled. The rotate key checks the pause and
  game-over flags (`RotateOnKey`). The `rotatePiece` control the hook returns
  to the page does not (`RotateFromControls`), so it turns the piece even
  while paused (`RotateControlIgnoresPause`).
- The grid-rotation tick follows the code. One could expect the piece to be
  carried through the same remap as the board. The code instead turns the
  piece about its pivot against the new board, and if that turn is refused
  the piece keeps its old coordinates without any check. `RotationTickCanOverlap`
  shows a valid state where the piece ends up on a settled cell after this
  tick. So no "piece never overlaps the board" invariant is claimed.
- Rotation is stricter than the collision test above the field. A turn needs
  every block inside the field, while the collision test lets blocks above
  the top row pass. The pivot, block 1, does not move under a turn, so a
  piece whose pivot is still above the top row cannot turn on any board
  (`PivotAboveRefused`). A horizontal bar lying wholly above the field, for
  example, is refused even though its turned form would pass the collision
  test (`EnteringPieceCannotTurn`). A piece with only some blocks above the field
  and the pivot inside may still turn (`EnteringBarCanTurn`).

## Model

| member | source | states |
|---|---|---|
| Board.EmptyGrid | src/hooks/useGameLogic.ts:14-15 | a new board has 10 rows of 10 cells, all empty |
| Board.RotateGrid | src/hooks/useGameLogic.ts:63-71 | the rotated board is 10×10 and the cell at row y, column x moves to row x, column 9-y |
| Board.TurnIsBijection | src/hooks/useGameLogic.ts:63-71 | the rotation's index map sends the field into itself, is one-to-one and hits every cell |
| Board.HalfTurn | src/hooks/useGameLogic.ts:63-71 | two rotations send row y, column x to row 9-y, column 9-x |
| Board.RotateGridOrderFour | src/hooks/useGameLogic.ts:63-71 | four rotations give back the original board |
| Board.RotateEmptyGrid | src/hooks/useGameLogic.ts:63-71 | the empty board rotates to itself |
| Board.TurnImageSize | src/hooks/useGameLogic.ts:63-71 | the index map keeps the size of any set of positions |
| Board.RotatedCellsAreTurned | src/hooks/useGameLogic.ts:63-71 | every position holding a value after the rotation is the image of a position holding it before |
| Board.TurnedCellsAreRotated | src/hooks/useGameLogic.ts:63-71 | every position holding a value before the rotation is sent to a position holding it after |
| Board.RotateGridPreservesOccurrences | src/hooks/useGameLogic.ts:63-71 | every cell value occurs as often after a rotation as before, so the multiset of cells is kept |
| Lines.NonFullRows | src/hooks/useGameLogic.ts:107-113 | the filter keeps no full row, and kept rows plus full rows make up the input height |
| Lines.KeptIndices | src/hooks/useGameLogic.ts:107-113 | one input row index per kept row, each in range |
| Lines.KeptIndicesIncrease | src/hooks/useGameLogic.ts:107-113 | the kept rows' input indices strictly increase |
| Lines.KeptRowsAreInputRows | src/hooks/useGameLogic.ts:107-113 | the i-th kept row is the input row at the i-th kept index |
| Lines.KeptIndicesExact | src/hooks/useGameLogic.ts:107-113 | an input row is kept iff it is not full |
| Lines.NonFullRowsInOrder | src/hooks/useGameLogic.ts:107-113 | the kept rows are exactly the non-full input rows in their original order |
| Lines.NonFullRowsKeepsAll | src/hooks/useGameLogic.ts:107-113 | a board with no full row passes the filter unchanged |
| Lines.KeptRowsWidth | src/hooks/useGameLogic.ts:107-113 | rows kept from a 10-wide board are 10 wide |
| Lines.Padding | src/hooks/useGameLogic.ts:115-117 | the padding is the missing number of rows, each of 10 empty cells |
| Lines.ClearLines | src/hooks/useGameLogic.ts:105-120 | the count is the number of full input rows; the top rows are empty; below them come the non-full rows; no row is full; a 10×10 board stays 10×10 |
| Lines.ClearLinesIdempotent | src/hooks/useGameLogic.ts:105-120 | a second clear removes nothing and returns the same board |
| Lines.ClearLinesLoop | src/hooks/useGameLogic.ts:105-120 | the counting filter and the unshift loop compute exactly the board and count of `ClearLines` |
| Scoring.LinePoints | src/hooks/useGameLogic.ts:183 | a lock that clears k lines earns at least 100·k points, and nothing iff k = 0 |
| Scoring.LinePointsTable | src/hooks/useGameLogic.ts:183 | 1, 2, 3, 4 lines earn 100, 300, 675, 1350 |
| Scoring.LinePointsIncreasing | src/hooks/useGameLogic.ts:183 | clearing one more line always earns strictly more |
| Scoring.Level | src/hooks/useGameLogic.ts:184 | the level is the k with (k-1)·1000 ≤ score < k·1000, and is at least 1 for a non-negative score |
| Scoring.LevelMonotonic | src/hooks/useGameLogic.ts:184 | a larger score never gives a lower level |
| Scoring.LevelBoundary | src/hooks/useGameLogic.ts:184 | 999 points is level 1 and 1000 points is level 2 |
| Pieces.JsRem | src/hooks/useGameLogic.ts:58 | JavaScript's `%`: the result differs from the dividend by a whole multiple of m, and lies in [0, m) for a non-negative dividend and in (-m, 0] otherwise, so it truncates toward zero |
| Pieces.SpawnPiece | src/hooks/useGameLogic.ts:17-25 | the new piece takes the chosen shape's offsets moved 4 columns right, rows unchanged, all blocks in the chosen colour, angle 0 |
| Pieces.Shift | src/hooks/useGameLogic.ts:90-97 | every block moves by (dx, dy) and keeps its colour; the angle is unchanged |
| Pieces.SomeBlockHits | src/hooks/useGameLogic.ts:74-83 | the block-by-block scan is true iff some block hits |
| Pieces.Collides | src/hooks/useGameLogic.ts:73-84 | true iff some moved block leaves columns 0..9, goes below row 9, or lands in the field on an occupied cell |
| Pieces.EnteringPieceNeverCollides | src/hooks/useGameLogic.ts:77-82 | blocks above the field and between the walls never collide, whatever the board holds |
| Pieces.ShiftCollides | src/hooks/useGameLogic.ts:90-99 | testing the shifted piece in place is testing the piece at the offset |
| Pieces.QuarterTurnChangesAngle | src/hooks/useGameLogic.ts:58 | adding 90 modulo 360 always changes the angle |
| Pieces.RotatePiece | src/hooks/useGameLogic.ts:39-61 | either the piece is unchanged, or the pivot stays, every block turns a quarter about it, keeps its colour and lands in the field on an empty cell, and the angle advances by 90 mod 360; the turn is taken iff every turned block fits |
| Pieces.AcceptedTurnDoesNotCollide | src/hooks/useGameLogic.ts:51-58 | a turn that is taken passes the collision test |
| Pieces.AcceptedTurnIsTurned | src/hooks/useGameLogic.ts:39-61 | a turn that is taken yields the piece turned about its pivot |
| Pieces.TurnAboutFour | src/hooks/useGameLogic.ts:40-49 | four quarter turns about a pivot restore a block, and the pivot is fixed |
| Pieces.TurnedFourTimes | src/hooks/useGameLogic.ts:39-61 | four pivot turns restore all blocks and an angle in 0..359 |
| Pieces.FourTurnsRestore | src/hooks/useGameLogic.ts:39-61 | four accepted rotations in a row, against any boards, restore the coordinates and the angle |
| Pieces.PivotAboveRefused | src/hooks/useGameLogic.ts:39-61 | a piece whose pivot block is above the top row is refused on every board, because the pivot stays put under the turn |
| Pieces.EnteringPieceCannotTurn | src/hooks/useGameLogic.ts:51-57 | a horizontal bar lying wholly above the field is refused on an empty board, although its turned form passes the collision test |
| Pieces.EnteringBarCanTurn | src/hooks/useGameLogic.ts:39-61 | an upright bar with its top block above the field and its pivot in the top row turns on an empty board |
| GameLogic.InitialState | src/hooks/useGameLogic.ts:28-37 | a new game is valid, scores 0 at level 1, has an empty board, no piece, and is neither over nor paused |
| GameLogic.MovePiece | src/hooks/useGameLogic.ts:86-103 | the state is unchanged unless a live piece can move without colliding; then only the piece changes, to its shift; validity is kept |
| GameLogic.RotateOnKey | src/hooks/useGameLogic.ts:133-139 | a paused or finished game, or one without a piece, is unchanged; otherwise only the piece changes, to its pivot rotation |
| GameLogic.RotateFromControls | src/hooks/useGameLogic.ts:229-232 | rotates the piece whenever there is one, ignoring the pause and game-over flags |
| GameLogic.RotatePathsAgreeWhileRunning | src/hooks/useGameLogic.ts:229-232 | the rotate key and the rotate control agree while the game is neither over nor paused |
| GameLogic.RotateControlIgnoresPause | src/hooks/useGameLogic.ts:229-232 | in a valid paused state the rotate control turns the piece while the rotate key does nothing, both as functions and as the events `RotateControl` and `KeyDown(ArrowUp)` |
| GameLogic.TogglePause | src/hooks/useGameLogic.ts:243 | the pause flag flips and nothing else changes |
| GameLogic.TogglePauseTwice | src/hooks/useGameLogic.ts:243 | toggling twice restores the state |
| GameLogic.ResetGame | src/hooks/useGameLogic.ts:233-242 | reset yields the valid initial state, whatever came before |
| GameLogic.LockPiece | src/hooks/useGameLogic.ts:175-180 | locking keeps the board 10×10 |
| GameLogic.LockPieceFrame | src/hooks/useGameLogic.ts:175-180 | cells no block sits on keep their value |
| GameLogic.LockPieceCell | src/hooks/useGameLogic.ts:175-180 | one block at or below the top row leaves its cell holding the colour of a block from it on that sits on the same cell |
| GameLogic.LockPieceWrites | src/hooks/useGameLogic.ts:175-180 | each block at or below the top row leaves its cell holding the colour of the last block written there |
| GameLogic.LockPieceOneColour | src/hooks/useGameLogic.ts:175-180 | for a one-colour piece, each cell under a block at or below the top row holds that colour |
| GameLogic.LockStep | src/hooks/useGameLogic.ts:173-191 | locking writes the blocks, clears full lines and the board stays 10×10; the piece is gone; the score grows by the line points of the cleared count and never falls; the level follows the new score and never drops; the flags and tick counter are kept |
| GameLogic.GravityUpdate | src/hooks/useGameLogic.ts:155-196 | without a piece, a colliding spawn sets only game over and a fitting one installs the piece; a piece whose drop does not collide moves down one row; otherwise it takes the lock step; the score never falls and a consistent level never drops |
| GameLogic.GravityKeepsValid | src/hooks/useGameLogic.ts:155-196 | the gravity step keeps a running game valid |
| GameLogic.GravityTick | src/hooks/useGameLogic.ts:151-196 | a paused or finished game is unchanged; a running game takes the gravity step (spawn, fall or lock); validity is kept |
| GameLogic.SpawnOutcome | src/hooks/useGameLogic.ts:156-162 | a spawn tick either sets only game over, or installs a piece of the chosen shape moved 4 columns right, in one colour, at angle 0, and changes nothing else |
| GameLogic.RotationTick | src/hooks/useGameLogic.ts:200-217 | a paused or finished game is unchanged; otherwise the board rotates, the piece is offered the pivot turn against the new board, the tick counter advances, and score, level and flags stay; validity is kept |
| GameLogic.RightWallBarCannotTurn | src/hooks/useGameLogic.ts:51-60 | an upright bar against the right wall is refused the turn on any board |
| GameLogic.RotationTickCanOverlap | src/hooks/useGameLogic.ts:204-216 | from a valid state with the piece clear of the board, one rotation tick leaves the piece on a settled cell |
| GameLogic.HandleKey | src/hooks/useGameLogic.ts:122-144 | left and right move the piece one column, down moves it one row, up is the gated rotate key, space toggles the pause and other keys do nothing; only space changes the pause flag, and no other key changes a paused or finished game |
| GameLogic.Step | src/hooks/useGameLogic.ts:122-243 | each event performs its transition (key handler, move, ungated rotate control, pause toggle, reset to a new game, gravity tick, rotation tick); every event keeps the state valid, and only a reset lowers score or level |
| GameLogic.GameOverIsFinal | src/hooks/useGameLogic.ts:151-217 | once over, every event but a reset leaves the state as it is, apart from the pause flag |
| GameLogic.PauseFreezesPlay | src/hooks/useGameLogic.ts:151-217 | while paused, only the pause toggle, reset and the rotate control change anything |
| GameLogic.Run | src/hooks/useGameLogic.ts:122-243 | any run of events keeps validity, and without a reset the score and level never fall |
| GameLogic.ReachableStatesAreValid | src/hooks/useGameLogic.ts:28-37 | every state reachable from a new game is valid |

## Left out

- React plumbing is not modelled: `useState`, `useEffect`, `useCallback`, and
  registering and removing the keydown listener. Each event is applied to the
  committed state, one at a time.
- Interval timers are not modelled: their creation, cancellation, re-arming on
  level change, the 15-second rotation period, and the gravity period
  1000·0.85^(level-1). These are wall-clock and floating-point concerns. Ticks
  are events instead.
- `Math.random` is not modelled. Its two draws are the shape and colour
  indices a gravity tick carries.
- The `TETROMINOES` catalog is not part of this model. It is a parameter.
- The `nextRotation` field is left out. It is set at start and reset and never
  read.
- Scoring uses exact reals, not IEEE doubles: `Math.pow` and the float
  addition of scores are not modelled. A board rotation can turn full columns
  into full rows, so more than four lines can clear at once. From five lines
  on the award is not a whole number, and the model keeps it exact.
- The lock step in the hook copies the row list shallowly, so its writes also
  change the rows of the previous state. The model locks into a new board.
  Nothing in the hook reads the previous board after that point.
- GameLogic.GravityUpdate: requires every block of the piece at or below the
  top row to lie in the field (`Lockable`). Outside it the hook's lock write
  misbehaves in three ways: a block in a row below the board (y ≥ 10) makes
  it throw; a block right of the board (x ≥ 10) grows its row; a block left
  of the board (x < 0) sets a non-index property of the row array, which the
  line-clearing and rotation code never read, so the block is silently lost.
  `GravityTick`, `LockStep` and `LockPiece` require the same. Every reachable state meets it, since
  `Valid` asks for a `WellPlaced` piece.
- Pieces.RotatePiece: requires at least two blocks, because the hook reads
  block 1 as the pivot. Every catalog piece has four.
- Presentation is not modelled: `App.tsx` and the `GameBoard`, `GameOver`,
  `GameStats` and `GameControls` components only render the state.
