# Falling-block engine of `tetris.py`, modelled in Dafny

This project models and verifies the game-state engine of the single-file
pygame Tetris clone `tetris.py`. The engine covers:

- the 10 x 20 board of integer cells, where 0 is empty and a nonzero cell
  holds a colour;
- the seven tetromino shapes and their colours;
- the collision test, the rotation, and the spawn of the pending piece;
- locking a piece into the board;
- the row-clearing loop and its score bonus;
- the per-frame state machine of `main`: key handling, the 500 ms
  automatic fall, lock, clear, spawn and game over.

The project has four files, one module each:

- `catalog.dfy` (`Catalog`): the constant tables and cell counting.
- `piece.dfy` (`Piece`): the piece matrix, the quarter turn and the spawn
  column.
- `board.dfy` (`Board`): the functions that specify the engine.
  - The collision test.
  - The stamp of a locked piece.
  - `SweepRows`, the reference reading of `clear_lines`.
  - The lemmas about these functions.
- `engine.dfy` (`Engine`): class `GameEngine`. Its fields are the game's
  global variables and the two locals of `main`, `fall_time` and
  `running`. Its methods update them in place, as the source does.
  - `ClearLines` runs the source's index loop on the `grid` field.
  - `LockPiece` runs the nested write loop, with `LockRow` as its inner
    loop.
  - `HandleKey`, `HandleKeys`, `Fall` and `Frame` are the event-driven
    parts of `main`. They are specified by the pure key rule `KeyStep` and
    its fold `KeysStep` over a frame's key presses.

Colours are the tags 1 to 7, standing for CYAN ... ORANGE. The pending
piece is stored as indices into `SHAPES` and `COLORS`.

`fall_time / 1000 > fall_speed` with `fall_speed = 0.5` is modelled as the
integer test `fallTime > 500`. `fallTime` is a whole number of
milliseconds, so the two agree.

Two behaviours of `tetris.py` are kept as written:

- **Row clearing.** `clear_lines` does not remove every completed row, as
  standard Tetris does. It walks `y` from the bottom up. After
  `del grid[y]` and `insert(0, …)` it moves on to `y - 1`, so the row that
  slid down into index `y` is never examined.
  - `SweepRows` states this in terms of the original rows. A full bottom
    row is deleted, and the row above it is kept without being looked at.
  - `ScanIsSweep` proves that the index loop computes exactly this.
  - So two adjacent full rows lose only one row and score 100
    (`TwoAdjacentFullRowsClearOnce`).
  - Two full rows with a row between them are both deleted
    (`TwoSeparatedFullRowsClearBoth`).
- **Refilling the pending piece.** `new_piece` draws the next piece before
  `main`'s collision test, so the pending slot is refilled even on the
  spawn that ends the game. The model does the same.

## Model

| member | source | states |
|---|---|---|
| Catalog.ShapesAreTetrominoes | tetris.py:25-33 | there are seven shapes, each with exactly four filled cells, one or two rows and at most four columns |
| Catalog.ColorsAreDistinctTags | tetris.py:36 | the seven colours are nonzero and pairwise distinct, so a coloured cell is an occupied cell |
| Board.EmptyGrid | tetris.py:44 | the initial board has GRID_HEIGHT rows of GRID_WIDTH cells and no occupied cell |
| Board.Collides | tetris.py:90-98 | `check_collision` as a nested scan with early return over the rows and cells of the piece, reading only the board; its meaning is stated by `CollidesIff` |
| Board.CollidesIff | tetris.py:90-98 | the nested scan with early return answers true iff some filled piece cell lands left of column 0, at or right of GRID_WIDTH, at or below GRID_HEIGHT, or on a nonzero board cell |
| Board.CollisionFreeWithinBoard | tetris.py:90-98 | a non-colliding position of a piece with no empty edge lies wholly inside the board horizontally and above the floor |
| Board.CollisionFreeCells | tetris.py:90-98 | at a non-colliding position every filled piece cell lands on an empty in-bounds board cell |
| Piece.MinWidth | tetris.py:101 | `zip` yields as many tuples as the shortest row is long: no longer than any row and equal to one of them |
| Piece.Rotate | tetris.py:100-101 | `rotate_piece`: the rows in reverse order, transposed, with as many result rows as the shortest row is long; its meaning is stated by `RotateCells` |
| Piece.RotateCells | tetris.py:100-101 | an R x C matrix rotates to a C x R matrix whose cell (i, j) is cell (R-1-j, i) of the original |
| Piece.RotateTwice | tetris.py:100-101 | two rotations turn the matrix by half: cell (i, j) becomes cell (R-1-i, C-1-j) |
| Piece.RotateFourTimes | tetris.py:100-101 | four rotations give back the original matrix |
| Piece.RotateKeepsShape | tetris.py:100-101 | a rotated piece again has no empty row or column, so every rotation of a catalogue shape is usable |
| Piece.CatalogShapes | tetris.py:25-33 | every catalogue shape is rectangular with no empty row or column |
| Piece.SpawnX | tetris.py:64 | the spawn column puts a piece no wider than the board fully on it, centred, with the left margin equal to the right one, or one column wider for an odd width |
| Board.SpawnFitsEmptyBoard | tetris.py:64-65 | on an empty board a piece no larger than the board does not collide at its spawn column on row 0 |
| Board.CatalogSpawnsOnEmptyBoard | tetris.py:60-67 | none of the seven shapes collides at its spawn position on an empty board |
| Board.Stamp | tetris.py:151-154 | the locked board has the same dimensions; the cell under each filled piece cell holds the colour, and every other cell is unchanged |
| Board.StampStep | tetris.py:152-154 | visiting one piece cell writes the colour to exactly the one board cell under it when the cell is filled and changes nothing otherwise |
| Board.SweepRows | tetris.py:106-110 | the outcome of `clear_lines` over the original rows from the bottom up: a bottom row that is not full stays, a full bottom row is deleted and the row above it stays unexamined; the kept rows and the deletions account for every row |
| Board.Full | tetris.py:107 | `all(row)`: a row is full when every cell is nonzero; its use is stated by `ClearWithoutFullRow` and `ClearWithFullRow` |
| Board.ClearedGrid | tetris.py:106-110 | the board `clear_lines` leaves: one empty row on top per deletion, then the rows `SweepRows` keeps; its meaning is stated by `ScanIsSweep`, `ClearKeepsDimensions` and `ClearOccupiedCells` |
| Board.LineScore | tetris.py:111 | `lines_cleared ** 2 * 100`; it is the score gain of `ClearLines`, and `TwoAdjacentFullRowsClearOnce` and `TwoSeparatedFullRowsClearBoth` give its value for their boards |
| Board.ScanFrom | tetris.py:106-110 | the rest of the `clear_lines` loop from index `y` on the board as it currently is: delete a full row at `y`, insert an empty row on top, go on at `y - 1`; its result is stated by `ScanIsSweep` |
| Board.ScanIsSweep | tetris.py:106-110 | the index loop of `clear_lines` (delete at y, insert an empty row on top, go on at y-1) leaves exactly the board described by `SweepRows` and deletes exactly as many rows |
| Board.ClearKeepsDimensions | tetris.py:106-109 | after clearing, the board still has GRID_HEIGHT rows of GRID_WIDTH cells |
| Board.ClearWithoutFullRow | tetris.py:106-111 | with no full row nothing is deleted and the board is unchanged |
| Board.ClearWithFullRow | tetris.py:106-108 | when some row is full, at least one row is deleted |
| Board.ClearOccupiedCells | tetris.py:106-110 | clearing lowers the number of occupied cells by exactly GRID_WIDTH per deleted row |
| Board.SweepFilled | tetris.py:106-110 | the kept rows hold all occupied cells except GRID_WIDTH for each deleted row |
| Board.TwoAdjacentFullRowsClearOnce | tetris.py:106-111 | two adjacent full bottom rows give one deletion and a bonus of 100; the upper full row remains at the bottom |
| Board.TwoSeparatedFullRowsClearBoth | tetris.py:106-111 | two full rows with an empty row between them are both deleted, for a bonus of 400, leaving an empty board |
| Engine.GameEngine.constructor | tetris.py:123-127 | a new game starts with an empty board, score 0, fall timer 0 and running; the first drawn shape and colour are in play at the spawn position and the second are pending; the state is valid |
| Engine.GameEngine.NewPiece | tetris.py:60-67 | the pending shape and colour become the active piece at the spawn column of row 0; the new draw becomes pending; board, score, timer and running flag are untouched |
| Engine.KeyStep | tetris.py:136-145 | one key press: Left, Right and Down propose the column minus one, the column plus one and the row plus one, and Up the rotated matrix; a proposal that does not collide is taken, a colliding one leaves the placement unchanged, and any other key changes nothing; hence a changed placement is collision-free, only Down moves the row (by one), only Up changes the matrix (to its rotation), and a collision-free piece stays collision-free |
| Engine.KeysStep | tetris.py:132-145 | the frame's key presses in order: the row never goes up, and without Down it stays; the final placement is unchanged or collision-free, and a collision-free piece stays collision-free |
| Engine.GameEngine.HandleKey | tetris.py:136-145 | the new piece, column and row are exactly `KeyStep` of the old ones; every other field is unchanged; moving left at column 0 is a no-op; the state stays valid |
| Engine.GameEngine.HandleKeys | tetris.py:132-145 | the loop over the frame's key presses leaves the piece at exactly `KeysStep` of the old placement, changes no other field, and keeps the state valid and running |
| Engine.GameEngine.LockPiece | tetris.py:151-154 | the nested loop leaves the board equal to `Stamp` of the old board; every write is in bounds because the piece does not collide and its row is not negative |
| Engine.GameEngine.LockRow | tetris.py:152-154 | one pass of the inner loop writes exactly the filled cells of one piece row on top of the rows already written |
| Engine.GameEngine.ClearLines | tetris.py:103-111 | the in-place loop leaves the board equal to `ClearedGrid` of the old board; the score grows by exactly the square of the deletions times 100; with no full row neither the board nor the score changes |
| Engine.GameEngine.Fall | tetris.py:147-160 | nothing happens unless more than 500 ms have accumulated, and then the timer goes back to 0; the piece moves down one row if that does not collide; otherwise it is locked, the lines are cleared with their bonus, the pending piece spawns, and the game ends iff the new piece collides, with the new piece never written to the board; the state stays valid |
| Engine.GameEngine.Frame | tetris.py:129-160 | one pass of the main loop, stated in terms of the placement p = `KeysStep` of the old placement over the frame's keys. At or below 500 ms accumulated: the piece is at p, the timer has grown by the elapsed time, and board, score, colour and pending piece are unchanged. Above 500 ms the timer goes back to 0, and then: if p can move down it does, with nothing else changed; otherwise the board is `ClearedGrid(Stamp(old board, p, old colour))`, the score gains that clear's bonus, the pending piece spawns, the new draw becomes pending, and the game runs iff the new piece does not collide. The state stays valid and the score never decreases |

## Left out

- Drawing, window, font and display calls (`draw_grid`, `draw_current_piece`, `draw_next_piece`, the frame rendering at tetris.py:162-173) and the message and two-second wait of `game_over`: they are output only and change no engine state.
- Event polling, `clock.tick` and `clock.get_rawtime`: the elapsed milliseconds and the frame's key presses are parameters of `Frame`.
- Engine.GameEngine.Frame: does not model the `QUIT` event. It only stops the loop and has no effect on the board, piece or score.
- `random.choice` for the pending shape and colour: each draw is a parameter (an index into `SHAPES` and into `COLORS`).
- Board.Collides: requires the piece row to be at least 0 instead of modelling Python's negative-index wrap-around in `grid[y + y_offset]`. The active piece's row starts at 0 and only increases, which `GameEngine.Valid` records.
- RGB values, `BLOCK_SIZE` and pixel arithmetic: colours are the distinct nonzero tags 1 to 7.
- The loop `while running` itself: each pass is one `Frame` call, and `Frame` requires a running game.
