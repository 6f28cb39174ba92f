# Falling-block game engine, modelled in Dafny

This project models the game-state engine of `game.js`, a browser game of
falling tetrominoes on a 10 x 20 board. It covers:

- the seven shape tables and their colour indices;
- the in-place rotation of a square piece matrix;
- the collision test, the merge of a landed piece and the sweep of full
  rows with its scoring and level-up rule;
- the piece operations: spawn (`playerReset`), sideways move, rotation with
  its wall kick, soft drop, hard drop, and the ghost projection that shows
  where a hard drop lands;
- the frame function `update`, `gameOver`, `togglePause`, `startGame` and
  the `keydown` handler, with their gating and timing.

The source keeps its state in globals and mutates it. Here the whole state
is one immutable `State` record (`Engine.State`) and every operation is a
function from the old state to the new one. The sound effects are kept as
a log of tags (`Engine.Sound`). The random draws of a spawn are a `Dice`
argument, and the clock readings are integer arguments.

Modules, one file each:

- `Util` (`util.dfy`): option type, powers of two, reversal, repetition.
- `Board` (`board.dfy`): grids, `createMatrix`, `collide`, `merge`, the sweep as a reference function.
- `Pieces` (`pieces.dfy`): piece types, `createPiece`, colour indices, `rotate` and its algebra.
- `Engine` (`engine.dfy`): the state record, the game invariant `Valid`, `gameOver`, row-clear bookkeeping, `arenaSweep` as a function and as the source's loop.
- `Controller` (`controller.dfy`): `playerReset`, `playerMove`, `playerRotate` with the kick, `playerDrop`, `playerHardDrop`, the ghost row.
- `GameLoop` (`gameloop.dfy`): the initial state, `update`, `togglePause`, `startGame`, the `keydown` handler.

Quirks of the source that the model keeps on purpose:

- When a piece locks, the game-over test of the new spawn sees the board
  before full rows are removed (`Controller.Lock`).
- The colour index of T is 5 and of Z is 7, while their shape tables hold
  7 and 5 (`Pieces.ColorMatchesCells`).
- `startGame` resets neither the drop counter nor the preview piece.
- The resumed `update()` runs with its default time 0, so the counter
  grows by `0 - now` (`GameLoop.TogglePause`, `GameLoop.StartGameOutcome`).
- The `keydown` handler lets Enter through its first test before a game
  has started, but has no case for it: a game is started only by the
  start and restart buttons (game.js:563-564), so Enter does nothing
  (`GameLoop.KeyDown`).
- A hard drop scores nothing for the rows it falls, although a comment
  beside it (game.js:409-410) speaks of two points per cell; the model
  follows the code (`Controller.HardDropOnEmpty` keeps the score).
- The hard drop's loop only ends for a matrix with a block, and the sweep
  needs a board at least one column wide. The model requires these
  where the source would loop forever or index out of range.

## Model

| member | source | states |
|---|---|---|
| Board.CreateMatrix | game.js:153-159 | `h` rows, each `w` zeros: rectangular, values in range, width `w` when `h > 0` |
| Board.RowCollidesMeans | game.js:302-318 | the inner column scan of `collide` is true exactly when some non-empty cell of that row from the start column on is off the board or on a taken cell |
| Board.CollideFromMeans | game.js:301-320 | the row scan of `collide` from row `y` is true exactly when some non-empty cell of rows `y..` hits |
| Board.CollideMeans | game.js:299-321 | `collide` is true if and only if some non-empty cell of the placed matrix is out of bounds or lands on a non-empty board cell |
| Board.MergeRow | game.js:325-335 | writing one matrix row: the non-empty in-bounds cells of that row are written, every other cell is unchanged |
| Board.MergeFrom | game.js:324-336 | writing matrix rows `y..`: same cellwise description, limited to those rows |
| Board.Merge | game.js:323-337 | board shape unchanged; every board cell under a non-empty matrix cell takes its value, every other cell keeps its old value; cells stay in 0..7 |
| Board.Kept | game.js:351-353 | the rows kept by the sweep are among the old rows, none is full, and a board with no full row keeps all of them |
| Board.FullCount | game.js:343-351 | the number of full rows plus the number of kept rows is the height; it is 0 exactly when no row is full |
| Board.SweepShape | game.js:339-369 | after the sweep the board has the same height and width, no full row, cells still in range, and a second sweep changes nothing |
| Board.SweptRows | game.js:351-354 | every row after the sweep is board-wide and not full |
| Board.SweptStable | game.js:342-367 | sweeping a swept board removes nothing and returns it unchanged |
| Board.SweptCellsIn | game.js:352-353 | the sweep only moves rows and adds empty ones, so values stay in 0..7 |
| Pieces.ColorIndex | game.js:439-442 | the colour index is one more than the position of the piece's letter in "ILJOTSZ" |
| Pieces.BottomRow | game.js:404-407 | no computation of the source: a helper giving the lowest matrix row with a block (that row has one, no row below it does), which `Controller.GhostOnEmpty` uses to say where the drop loop of these lines stops |
| Pieces.CreatePiece | game.js:96-140 | the exact shape tables; each is square, 4 wide for I, 2 for O, 3 otherwise, and every non-empty cell holds the type's cell value |
| Pieces.CreatePieceBlocks | game.js:96-140 | every shape table has exactly four non-empty cells |
| Pieces.CreatePiecePlayable | game.js:96-140 | every shape table is square, 2 to 4 wide, has a block and values in 0..7 |
| Pieces.ColorMatchesCells | game.js:429-442 | the recorded colour index equals the cell value of every block exactly for the types other than T and Z |
| Pieces.Column | game.js:281-291 | column `j` of the matrix, top to bottom |
| Pieces.Transpose | game.js:281-291 | the transpose, built from columns: entry `(i, j)` is the old `(j, i)`; this is what the in-place swap of the `i < j` entries yields only on the square matrices `Pieces.Rotate` requires |
| Pieces.Rotate | game.js:280-297 | a square matrix of the same size; `dir > 0` turns a quarter clockwise, otherwise a quarter counter-clockwise (cellwise) |
| Pieces.ClockwiseOfTranspose | game.js:292-293 | reversing every row of the transpose is the clockwise quarter turn |
| Pieces.ClockwiseRow | game.js:292-293 | row `i` of the reversed transpose is column `i` of the matrix read bottom to top |
| Pieces.CounterclockwiseOfTranspose | game.js:294-296 | reversing the row order of the transpose is the counter-clockwise quarter turn |
| Pieces.ReverseEach | game.js:293 | every row reversed, row order kept |
| Pieces.RotateKeepsCells | game.js:280-297 | a rotation keeps cell values in range and keeps a block if there was one |
| Pieces.ClockwiseKeepsCells | game.js:292-293 | the same for any clockwise quarter turn |
| Pieces.CounterclockwiseKeepsCells | game.js:294-296 | the same for any counter-clockwise quarter turn |
| Pieces.QuarterTurnsCancel | game.js:280-297 | a clockwise turn and a counter-clockwise turn, in either order, give back the matrix |
| Pieces.RotateUndo | game.js:456-461 | for any non-zero direction, rotating by `-dir` after `dir` restores the matrix exactly |
| Pieces.TwoQuarters | game.js:280-297 | two quarter turns in the same sense are the half turn |
| Pieces.TwoHalves | game.js:280-297 | two half turns give back the matrix |
| Pieces.HalfTurn | game.js:280-297 | rotating twice in the same direction is the half turn |
| Pieces.RotateFour | game.js:280-297 | four rotations in the same direction give back the matrix |
| Pieces.RotateZeroDoesNotUndoT | game.js:294-296 | with direction 0 both calls turn counter-clockwise, so turning "back" does not restore the T piece |
| Pieces.ReverseRowsMultiset | game.js:293 | reversing every row keeps the multiset of cell values |
| Pieces.ReverseOrderMultiset | game.js:295 | reversing the row order keeps the multiset of cell values |
| Pieces.PrefixesStep | game.js:281-291 | widening every row prefix by one cell adds exactly the next column's values |
| Pieces.TransposePrefix | game.js:281-291 | the first `c` rows of the transpose hold the values of the first `c` columns |
| Pieces.TransposeRows | game.js:281-291 | one more row of the transpose is one more column of the matrix |
| Pieces.TransposeMultiset | game.js:281-291 | the transpose keeps the multiset of cell values |
| Pieces.RotateMultiset | game.js:280-297 | a rotation keeps the size and the multiset of cell values |
| Pieces.RotatePlayable | game.js:280-297 | a rotation of a playable matrix is playable |
| Engine.GameOver | game.js:496-501 | the game stops, a game-over sound is logged, every other field (board, piece, score, level, lines, interval, pause, clock) is unchanged, and the invariant is kept |
| Engine.SpeedUp | game.js:364 | the new interval is never below 100 ms and never above the old one; it is 80% of the old one when that is at least 100, and exactly 100 otherwise |
| Engine.ClearRowProgress | game.js:356-365 | one row clear keeps level = 1 + lines / 10 and the interval within 100..its old value |
| Engine.ClearRowsProgress | game.js:342-367 | the same for `n` rows cleared in one sweep |
| Engine.ClearRowFrame | game.js:356-365 | one row clear touches only score, lines, level, interval and sounds |
| Engine.ClearRowsFrame | game.js:342-367 | the same for `n` rows: every other field comes through unchanged |
| Engine.ClearRowsScore | game.js:356-360 | `n` rows cleared in one sweep add 10 * (2^n - 1) to the score, `n` to the lines and `n` clear sounds |
| Engine.LevelUpExamples | game.js:362-365 | the 10th line gives level 2 and 800 ms; the 20th gives level 3 and 640 ms |
| Engine.SweepState | game.js:339-369 | the board becomes the sweep; score, lines and sounds follow the closed form; the interval stays in 100..old; nothing but board, score, lines, level, interval and sounds changes; the invariant is kept |
| Engine.RowIsFull | game.js:343-349 | the scan's verdict is that no cell of the row is empty |
| Engine.SweepStart | game.js:340-342 | the loop invariant holds at the bottom row with nothing examined |
| Engine.SweepTop | game.js:342-354 | once every original row is examined, the rows still scanned are the new empty ones, which are not full |
| Engine.SweepFull | game.js:351-354 | splicing out a full row and putting an empty one on top keeps the loop invariant with one more full row counted |
| Engine.SweepKeep | game.js:342-350 | a row that is not full stays and the loop invariant moves to the row above |
| Engine.SweepEnd | game.js:342 | when the scan passes the top row, the working board is the sweep |
| Engine.SweepRow | game.js:343-354 | one pass of the loop body keeps the loop invariant, re-examining the same index after a removal |
| Engine.SweepLoop | game.js:339-369 | the source's loop, with its doubling `rowCount` and re-examination of the same index, computes exactly `SweepState` |
| Controller.PlayerReset | game.js:427-451 | the preview piece (or a fresh draw when there is none) is placed in row 0 at the spawn column; a new preview is drawn; the game stays started only if it was and the spawn fits; a game-over sound is logged exactly when the spawn collides; nothing else changes |
| Controller.ResetValid | game.js:427-451 | spawning keeps the game invariant |
| Controller.SpawnColumns | game.js:444-446 | on the 10-wide board I spawns in column 3 and every other piece in column 4 |
| Controller.EmptyBoardIsFree | game.js:444-450 | on an empty board a playable piece at the spawn column collides nowhere in rows 0..16 |
| Controller.PlayerMove | game.js:418-425 | the state is unchanged if and only if the shifted piece collides; otherwise only the position moves, with a move sound, to a free place |
| Controller.MoveThereAndBack | game.js:418-425 | moving by `offset` and back from a free place returns the piece, leaving two move sounds |
| Controller.Kick | game.js:457-464 | a column the kick loop returns is one where the turned matrix fits |
| Controller.FirstFreeMeans | game.js:457-464 | the first-fit search finds nothing exactly when every candidate collides, and otherwise returns the first free one |
| Controller.FitsLater | game.js:457-464 | a first fit after a blocked first candidate is a first fit one place later |
| Controller.StepNext | game.js:459-460 | the offset update grows the step by one and turns it round; it exceeds the width right after the last candidate |
| Controller.KickFrom | game.js:457-464 | from its `t`-th try on, the kick loop is the first-fit search over the remaining candidates |
| Controller.KickIsFirstFit | game.js:455-464 | the whole kick loop is the first-fit search over `Candidates` of the width |
| Controller.KickCandidates | game.js:459-460 | a 2-wide matrix tries shifts 0, +1; 3- and 4-wide ones try 0, +1, -1, +2 |
| Controller.PlayerRotate | game.js:453-467 | the board and the row of the piece are unchanged |
| Controller.RotateCommitsOrReverts | game.js:453-467 | either the turned piece is placed at the first kick column that fits, with a rotate sound, or none fits and it is turned back; for a non-zero direction a silent outcome is the unchanged state |
| Controller.RotateCommits | game.js:456-466 | when a kick column fits, the turned piece is placed at the first one, with a rotate sound, and nothing else changes |
| Controller.RotateReverts | game.js:457-464 | when no kick column fits, every candidate column is blocked and the piece is turned back the other way at its old place |
| Controller.RotateSilentUndoes | game.js:456-466 | a turn by a non-zero direction that plays no sound leaves the whole state as it was |
| Controller.RotateValid | game.js:453-467 | turning keeps the game invariant |
| Controller.RotatedWidth | game.js:460 | the kick of a turned catalogue piece is bounded by 2 for O, 4 for I and 3 otherwise |
| Controller.FreeIsAboveFloor | game.js:404-406 | a matrix with a block that fits somewhere sits above the bottom of the board, so the drop loop ends |
| Controller.FirstCollision | game.js:261-263 | the first row from `y` down where the matrix collides: free on every row before it |
| Controller.GhostRow | game.js:255-264 | the ghost row is at most one above the piece's row, the matrix fits on every row from the piece's down to it, and collides one row below |
| Controller.FirstCollisionUnique | game.js:261-263 | the first collision is the only row free above it and blocked itself |
| Controller.GhostUnique | game.js:261-264 | the ghost row is the only row with those properties |
| Controller.GhostOnEmpty | game.js:404-407 | on an empty board the drop loop stops with the lowest block row of the piece on the bottom row of the board |
| Controller.MergeOnEmpty | game.js:323-337 | merging into an empty board gives the piece's cells under its blocks and empty cells everywhere else |
| Controller.MergeOnEmptyNotFull | game.js:343-349 | a piece narrower than the board merged into an empty board completes no row |
| Controller.LockNoClear | game.js:411-415 | when the merge completes no row, the board after locking is the merge and score and lines are unchanged; the preview piece falls next |
| Controller.HardDropNoClear | game.js:398-416 | a hard drop onto an empty board leaves the merged board, the same score and lines, and the next piece falling |
| Controller.HardDropOnEmpty | game.js:398-416 | a hard drop onto an empty board puts the lowest block row on board row 19, clears nothing, keeps score and lines, and brings in the next piece |
| Controller.DropToFloor | game.js:404-407 | the drop loop and the ghost loop end at the ghost row |
| Controller.Lock | game.js:387-393 | locking merges the piece with a landing sound, spawns from the merged board (game over judged before the sweep), then sweeps: board, piece, score, lines and sounds in closed form; counter, clock and pause unchanged |
| Controller.LockValid | game.js:387-393 | locking keeps the game invariant |
| Controller.LockKeepsCounter | game.js:385-416 | locking carries the drop counter through unchanged |
| Controller.PlayerDrop | game.js:385-396 | one row down when that row is free, otherwise the piece locks where it is; the drop counter is 0 afterwards |
| Controller.DropFree | game.js:386-395 | a soft drop into a free row only moves the piece and resets the counter |
| Controller.DropValid | game.js:385-396 | a soft drop keeps the game invariant |
| Controller.PlayerHardDrop | game.js:398-416 | nothing happens unless the game runs and the piece fits; otherwise the piece locks at the ghost row, never above its own row; the drop counter is left alone |
| Controller.HardDropValid | game.js:398-416 | a hard drop keeps the game invariant |
| Controller.HardDropLast | game.js:398-416 | with the row below blocked, one soft drop locks the piece where the hard drop does |
| Controller.HardDropStep | game.js:398-416 | with the row below free, a soft drop keeps the ghost row and the hard drop's outcome |
| Controller.HardDropIsSoftDrops | game.js:398-416 | a hard drop equals soft-dropping once per row down to the ghost row plus one, apart from the counter reset |
| GameLoop.Initial | game.js:475-479 | before any game: valid, not running, no preview, score 0, level 1, 1000 ms interval |
| GameLoop.Update | game.js:481-494 | nothing unless running; otherwise the clock ticks and the piece soft-drops exactly when the counter exceeds the interval |
| GameLoop.UpdateValid | game.js:481-494 | a frame keeps the game invariant |
| GameLoop.FramesAddUp | game.js:484-487 | two frames that do not drop grow the counter by the whole time elapsed |
| GameLoop.FrameOnFree | game.js:487-490 | with a free row below, a frame either moves the piece down and resets the counter or only ticks |
| GameLoop.TogglePause | game.js:503-513 | nothing before a game; a running game pauses; a paused game resumes with the clock at `now` and a frame at time 0 |
| GameLoop.TogglePauseValid | game.js:503-513 | toggling keeps the game invariant |
| GameLoop.PauseSkipsPausedTime | game.js:503-513 | frames do nothing while paused, and after the resume the counter grows by `t - now` only |
| GameLoop.ClearCellsShape | game.js:516 | emptying keeps the board 20 x 10 and leaves no block |
| GameLoop.Cleared | game.js:516-520 | every board cell becomes 0 with every row keeping its length, and score, lines, level and interval are set to 0, 0, 1 and 1000; nothing else changes |
| GameLoop.StartGame | game.js:515-530 | a new game can always be started from a ready state |
| GameLoop.ClearedValid | game.js:516-520 | emptying the board of a valid state gives a valid state with no block |
| GameLoop.SpawnOnEmpty | game.js:521-522 | the spawn on the emptied board collides neither in row 0 nor in row 1, so no game-over sound |
| GameLoop.StartGameOutcome | game.js:515-530 | a new game: empty board, zero score and lines, level 1, 1000 ms, running, the old preview as first piece, a new preview, only the start sound; the frame at time 0 drops one row exactly when the carried counter minus `now` exceeds 1000 |
| GameLoop.FirstGame | game.js:515-530 | the very first game starts with the first draw at its spawn column in row 0 and the counter at `-now` |
| GameLoop.KeyDown | game.js:534-561 | before a game nothing changes (Enter passes the first test but has no action); while paused every key but p/P is ignored; the arrows move, drop and turn, space hard-drops, p/P toggle the pause, other keys do nothing |
| GameLoop.KeyDownValid | game.js:534-561 | every key keeps the game invariant |

## Left out

- Audio: `playSound` (game.js:19-89) is modelled only as the tag appended to `State.sounds`. Oscillators, gain envelopes and the resume of a suspended audio context are not modelled.
- Drawing: `draw`, `drawMatrix`, `adjustColor` and the preview drawing (game.js:161-253) are not modelled, nor the drawing half of `drawGhost` (game.js:266-277). Only its projection loop is modelled, as `Controller.GhostRow`.
- DOM: `updateScore`, the overlays, the final-score text and the button listeners are left out. They only write to the page.
- `requestAnimationFrame` scheduling: each frame is one call of `GameLoop.Update`. `performance.now()` and the frame time are integer arguments, so fractional milliseconds are not modelled.
- Real arithmetic: the drop interval is a Dafny `real`. The source multiplies IEEE doubles by 0.8, so its rounding is not modelled.
- `Math.random`: the two draws of a spawn are the `Controller.Dice` argument. The draw itself (`pieces.length * Math.random() | 0`) is not modelled.
- `null` matrices: the falling piece's `null` before the first game is the empty matrix, and the missing preview piece is `None`.
- The initial `draw()` at load time and `event.preventDefault()` for the space bar are not modelled.
- Pieces.Rotate: requires a square matrix. On a non-square array the source's swap loop, which swaps `matrix[x][y]` and `matrix[y][x]` for `x < y` below the row count, does not give a transpose: it leaves extra columns in place or reads and writes cells past the end of a row. Every matrix `createPiece` builds is square, and so is every matrix a rotation produces.
- Controller.PlayerRotate: the function's own contract only says that the board and the row are unchanged. The full behaviour is stated in `Controller.RotateCommitsOrReverts`.
- Controller.PlayerHardDrop: requires a matrix with a block while the game runs. On an empty matrix the source's loop never ends.
- Engine.SweepState: requires a board at least one column wide. On a board with no columns every row counts as full, and the source's sweep splices it, adds an empty row in its place and checks the same index again, forever.
- Controller.Ready: the piece operations require a rectangular board with at least one column, since the source reads `arena[0].length`.
- GameLoop.StartGame: the function's own contract only says the result is ready. The outcome is stated in `GameLoop.StartGameOutcome` for states that satisfy the game invariant.
