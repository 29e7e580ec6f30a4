# Tetris in Dafny

This project models the game state of a small Tkinter Tetris program, `tetris.py`, and proves
properties of that model. The program has a 10 × 20 board of locked cells: each cell is empty or
holds a colour. It also has a falling piece with its shape, colour, column, row and pixel height.
Besides those, it keeps a score, a `running` flag and a drop speed. The model covers these
operations:

- a key handler that shifts, turns or speeds up the piece;
- `valid_move`, the legality test;
- `lock_piece`, which writes the piece into the board, clears full rows, scores and spawns the
  next piece;
- the game-over test;
- the state part of the game loop `update`, which runs every 10 ms.

The project has five modules, one file each:

- `Shapes` (`shapes.dfy`): the constants, the table of seven shapes and seven colours, and
  clockwise rotation. Rotation is written as Python's `zip(*shape[::-1])`, including `zip`'s
  truncation to the shortest row. Its two parts are `Reverse`, which is `shape[::-1]`, and
  `Zip`, which is `zip(*rows)` (tetris.py:39).
- `Board` (`board.dfy`): the grid, the legality predicate `Fits`, writing a piece (`Stamp`) and
  clearing full rows (`ClearedBoard`).
- `Rules` (`rules.dfy`): the controller's fields as a value `State`, and every transition as a
  function of it:
  - `KeyPressed`, `Locked`, `Respawned` and `Collided`;
  - `Ticked`, the tick as written;
  - `TickedChecked`, the corrected tick.

  `Ticked` and `TickedChecked` are built from these parts:
  - `Fallen`, the pixel fall (tetris.py:162);
  - `Crosses`, the boundary test (165);
  - `Stepped`, the snap and the row step (166-167);
  - `SpeedReset` (173).

  `LockFaults` and `TickFaults` say when the write at tetris.py:114 raises. `Rules` also holds
  the invariants `Placed`, `Valid`, `Settled` and `Consistent`, and the lemmas about them.
- `Game` (`game.dfy`): the classes `Piece` and `Tetris`, whose methods update their fields in
  place. The ghost function `Tetris.Model()` is the snapshot of those fields as a `State`. The methods
  that change the piece or the whole controller (`HandleKey`, `Shift`, `Turn`, `LockPiece`,
  `SpawnNext`, `CheckCollision`, `Tick`, `Fall`, `StepDown`, `ResetSpeed`, `TickChecked`,
  `DescendChecked`) are proved to turn `old(Model())` into the corresponding `Rules`
  transition. The others state their results directly: `ValidMove` returns `Fits`,
  `ClearFullRows` is specified by its new `board` and `score`, `GameOver` clears `running`,
  and `NewPiece`, `PadTop`, `WriteCells` and `WriteRow` describe what they return.
  `valid_move`, the cell writes of `lock_piece` and the row padding of `clear_full_rows` are
  loops with invariants.
- `Findings` (`findings.dfy`): two concrete boards, both reachable in a game, on which the tick
  as written goes wrong, and the corrected tick on the same boards.

The program raises an `IndexError` in one case: `lock_piece` writes a cell below the last row.
The model reports this as a `fault` result. It keeps the grid as written up to that cell, which
is every on-grid cell of the piece, and does nothing after it.

## Model

| member | source | states |
|---|---|---|
| Shapes.MinLen | tetris.py:39 | the length `zip` truncates to is at most every row's length and equal to one of them |
| Shapes.Rotated | tetris.py:39 | for any matrix, ragged or not: no more result rows than the shortest row has cells, one cell per source row in each result row, and result cell (i, j) is source cell (rows-1-j, i) |
| Shapes.RotatedIsClockwise | tetris.py:38-39 | rotating an r × c shape gives a c × r shape whose cell (i, j) is cell (r-1-j, i) of the original, i.e. 90 degrees clockwise |
| Shapes.RotateFourTimes | tetris.py:38-39 | rotating any rectangular shape four times gives it back (rotation has order 4) |
| Shapes.ShapeTableDims | tetris.py:16-24 | every table shape is a non-empty rectangle of at most 2 rows and 1 to 4 columns |
| Shapes.TableShapesRotateBack | tetris.py:16-24 | each of the seven table shapes comes back after four rotations |
| Board.EmptyRow | tetris.py:150 | a new row has the board's width and only empty cells |
| Board.EmptyRows | tetris.py:149-150 | n new rows, each empty |
| Board.EmptyGrid | tetris.py:49 | the initial board is 20 rows of 10 empty cells |
| Board.Fits | tetris.py:96-107 | definition of `valid_move` for an anchor: every occupied cell is inside the walls, above the floor, and either above the top edge or on an empty cell |
| Board.FitsFailsIff | tetris.py:96-107 | a move is rejected if and only if some occupied cell leaves the side walls, goes below the floor, or lands on a locked cell in a row at or below the top edge |
| Board.FitsInBounds | tetris.py:96-107 | a legal position keeps every occupied cell inside the walls and above the floor |
| Board.FitsEmptyGrid | tetris.py:96-107 | on the empty board, legality depends only on the walls and the floor |
| Board.FitsFallsOffFloor | tetris.py:103 | a piece with a row below the floor cannot move down one more row |
| Board.StampUpTo | tetris.py:111-114 | definition of the write loop after the cells before (i0, j0) in row-major order: those on-grid cells of the piece hold its colour, every other cell is kept; the grid keeps its dimensions |
| Board.Stamp | tetris.py:111-114 | definition of the completed write loop: `StampUpTo` past the last shape row |
| Board.StampCell | tetris.py:111-114 | writing a piece sets exactly the on-grid cells it covers to its colour and keeps every other cell |
| Board.StampKeepsLockedCells | tetris.py:111-114 | writing a piece that fits changes no locked cell |
| Board.NonFullRows | tetris.py:143 | the kept rows are at most the board's rows, each from the board and each not full |
| Board.FullCount | tetris.py:143-144 | definition of the number of full rows, which the source computes as `BOARD_HEIGHT - len(new_board)` |
| Board.ClearedBoard | tetris.py:141-151 | definition of the new board: one empty row per full row, then the kept rows |
| Board.KeptPlusFull | tetris.py:143-144 | kept rows plus full rows make up every row of the board |
| Board.KeptRowOrder | tetris.py:143 | a non-full row keeps its place in order among the kept rows |
| Board.ClearedBoardShape | tetris.py:141-151 | the cleared board is 20 × 10, has one empty row on top per full row removed, then the kept rows in order, and no full row |
| Board.ClearIsIdempotent | tetris.py:141-151 | a second clear finds no full row and changes nothing |
| Board.ClearOnlyBottomRow | tetris.py:141-151 | with only the bottom row full, that row goes, the others move down one row, and one empty row appears on top |
| Board.NoFullRowsKept | tetris.py:143-144 | a board without full rows is kept as it is, with nothing counted |
| Rules.SpawnColumn | tetris.py:34 | definition of the spawn column: half the board width minus half the first row's length, both rounded down |
| Rules.SpawnInBounds | tetris.py:34-35 | a rectangle that fits the board spawns centred, inside the walls and above the floor |
| Rules.TableShapeSpawnsInBounds | tetris.py:34 | every table shape spawns inside the walls and above the floor |
| Rules.SpawnColumnExamples | tetris.py:34 | the spawn column is 4 for the O piece and 3 for the I piece |
| Rules.Start | tetris.py:49-55 | the state before the first tick satisfies the game's invariant and is running |
| Rules.KeyPressed | tetris.py:122-134 | a key press never changes board, colour, row, pixel height, score or `running`; it moves the piece one column at most, or turns it clockwise; Down sets the fast drop speed |
| Rules.KeyPressKeepsConsistent | tetris.py:122-134 | after any key the game invariant holds, and a moved or turned piece is at a legal position |
| Rules.KeyPressNoOps | tetris.py:122-134 | an other key, or a shift or turn that does not fit, leaves the state unchanged |
| Rules.Respawned | tetris.py:116-120 | definition of `new_piece` followed by the game-over test; its properties are `RespawnedSpawns` |
| Rules.RespawnedSpawns | tetris.py:116-120 | the next piece is the chosen shape and colour at row 0, centred and in bounds; the game keeps running if and only if it was running and the new piece can move down one row; board, score and speed are unchanged |
| Rules.Locked | tetris.py:109-120 | every lock leaves a full-size board |
| Rules.LockKeepsConsistent | tetris.py:109-120 | locking a piece above the floor raises nothing, clears every full row, adds 100 per full row of the written grid, keeps the drop speed and the game invariant, and never restarts a stopped game |
| Rules.LockedBoard | tetris.py:111-115 | the board after a lock is the written grid, with its full rows cleared unless the write raised |
| Rules.LockScores | tetris.py:109-120 | locking adds exactly 100 per row it clears and never sets `running` back to true |
| Rules.LockOfFittingPiece | tetris.py:111-114 | locking a piece that fits keeps every locked cell and colours every cell of the piece |
| Rules.Collided | tetris.py:136-139 | definition of `check_collision`: the state is kept when the piece fits one row lower, otherwise the piece locks |
| Rules.LockFaultMeansCollision | tetris.py:136-139 | a piece whose lock would raise never fits one row lower, so `check_collision` always locks it |
| Rules.Ticked | tetris.py:159-173 | definition of the state part of `update` as written; its properties are the `Tick…` lemmas below |
| Rules.TickStepsWhenFree | tetris.py:162-173 | a crossing tick with the piece free two rows down moves it exactly one row down onto the boundary, resets the speed and changes nothing else |
| Rules.TickMovesAtMostOneRow | tetris.py:162-168 | a tick keeps the row, steps one row down, or spawns at row 0; a crossing tick leaves the piece on its row boundary; a tick that does not cross only adds the drop speed to the pixel height |
| Rules.TickResetsDropSpeed | tetris.py:173 | every tick that completes sets the drop speed back to 1, so a Down press lasts one tick |
| Rules.TickNeverRestarts | tetris.py:159-176 | a stopped game stays stopped, and a tick adds exactly 100 per row cleared |
| Rules.TickKeepsValid | tetris.py:159-173 | a tick that does not raise keeps the piece inside the walls, above the floor, with its pixel height inside its row |
| Rules.DescendedChecked | tetris.py:164-168 | definition of the corrected row step: step down and run `check_collision` when the piece fits one row lower, otherwise lock in place |
| Rules.TickedChecked | tetris.py:159-173 | definition of the corrected tick: fall, take the corrected row step on crossing, reset the speed |
| Rules.SpeedResetKeepsConsistent | tetris.py:173 | resetting the speed keeps the game invariant |
| Rules.TickCheckedAgreesWhenFits | tetris.py:164-168 | when the piece fits one row lower, the corrected tick equals the tick as written |
| Rules.CheckedLockFits | tetris.py:164-168 | on any running state whose piece is placed and overlaps no locked cell, whatever its pixel height, every lock of the corrected row step, in place or after the step, writes a piece at a legal position above the floor, so it raises nothing |
| Rules.CheckedStepKeepsConsistent | tetris.py:165-168 | a validated step of a piece that fits one row lower, followed by the collision test, keeps the game invariant |
| Rules.CheckedLockAfterStep | tetris.py:165-168 | on a running state whose piece is placed and overlaps no locked cell, a piece that fits one row lower steps down, and if it then locks, it locks at a legal position above the floor |
| Rules.CheckedLockInPlace | tetris.py:165-168 | on a running state whose piece is placed and overlaps no locked cell, a piece that does not fit one row lower locks where it stands, at a legal position above the floor |
| Rules.DescendCheckedKeepsConsistent | tetris.py:164-168 | the validated row step keeps the game invariant |
| Rules.TickCheckedLockFits | tetris.py:159-173 | on every consistent running game, each lock of the corrected tick writes the piece at a legal position above the floor: where it stands when it cannot move down, one row lower when it steps and then cannot move on; the tick then equals that lock followed by the speed reset |
| Rules.TickCheckedLockInPlace | tetris.py:162-168 | a crossing corrected tick whose piece cannot move down locks it where it stands, at a legal position, and raises nothing |
| Rules.TickCheckedLockAfterStep | tetris.py:162-168 | a crossing corrected tick whose piece steps down and then cannot move on locks it one row lower, at a legal position, and raises nothing |
| Rules.TickCheckedKeepsConsistent | tetris.py:159-173 | the corrected tick keeps the game invariant and always ends at the normal speed |
| Rules.FirstTick | tetris.py:49-62 | the first tick after start only moves the piece down one pixel, and keeps the game invariant |
| Game.Piece.constructor | tetris.py:31-36 | a new piece has the given shape and colour, sits at the spawn column, at row 0 and pixel 0 |
| Game.Piece.Rotate | tetris.py:38-39 | the shape becomes its clockwise rotation; the position is unchanged |
| Game.Tetris.constructor | tetris.py:43-62 | the controller starts from `Start` and runs one tick, ending in a consistent state |
| Game.Tetris.NewPiece | tetris.py:64-68 | the new piece is the chosen table shape and colour, at its spawn position |
| Game.Tetris.ValidMove | tetris.py:96-107 | the nested loop returns true if and only if the shifted piece fits |
| Game.Tetris.HandleKey | tetris.py:122-134 | the controller's new state is `KeyPressed` of the old, with the same piece object; a valid state stays valid and a consistent one stays consistent |
| Game.Tetris.Shift | tetris.py:124-127 | the piece moves by dx exactly when the shifted piece fits |
| Game.Tetris.Turn | tetris.py:130-134 | the piece keeps its rotation exactly when the rotated piece fits in place, otherwise it gets its old shape back |
| Game.Tetris.ClearFullRows | tetris.py:141-151 | the board becomes the cleared board, with 100 added per full row; piece, `running` and speed are unchanged |
| Game.Tetris.PadTop | tetris.py:149-150 | n empty rows are put on top of the kept rows |
| Game.Tetris.GameOver | tetris.py:153-155 | `running` becomes false and nothing else changes |
| Game.Tetris.WriteCells | tetris.py:111-114 | the write loop produces the written grid; it raises exactly when a row of the piece lies below the floor |
| Game.Tetris.WriteRow | tetris.py:112-114 | one row of the write loop extends the written grid by that row, or raises at its first cell below the floor |
| Game.Tetris.LockPiece | tetris.py:109-120 | the new state is `Locked` of the old; it faults exactly when a row lies below the floor; a new piece exists exactly when it did not fault |
| Game.Tetris.SpawnNext | tetris.py:116-120 | the new state is `Respawned` of the old, with a fresh piece |
| Game.Tetris.CheckCollision | tetris.py:136-139 | the new state is `Collided` of the old, and it faults exactly when that lock raises |
| Game.Tetris.Tick | tetris.py:159-176 | the new state is `Ticked` of the old; `fault` is the IndexError; the tick reschedules exactly when it did not raise and the game runs; a tick that does not raise keeps a valid state valid |
| Game.Tetris.Fall | tetris.py:162-165 | the pixel height grows by the drop speed, and `crossed` says whether it reached the next row boundary |
| Game.Tetris.StepDown | tetris.py:166-168 | the unchecked step, then `check_collision` |
| Game.Tetris.ResetSpeed | tetris.py:173 | the drop speed becomes 1 and nothing else changes |
| Game.Tetris.TickChecked | tetris.py:159-176 | the corrected tick computes `TickedChecked`, always reschedules while the game runs, and keeps the game invariant of a running game |
| Game.Tetris.DescendChecked | tetris.py:165-168 | the validated row step computes `DescendedChecked` |
| Findings.LockedIBoard | tetris.py:165-168 | the first input board: a cyan I piece locked in the bottom row at columns 0 to 3, which the game reaches by shifting a first I piece to the left wall and letting it fall; every other cell is empty |
| Findings.OShape | tetris.py:18 | the O piece occupies its whole 2 × 2 square |
| Findings.OOverLockedI | tetris.py:96-107 | the O piece at column 4, rows 17-18, fits and can move down one row, so the last `check_collision` let it go on; at column 3 it fits in rows 17-18 but cannot move down |
| Findings.ShiftLeftOverLockedI | tetris.py:124-125 | pressing Left moves the O piece to column 3 and keeps the game invariant |
| Findings.StampOverLockedIKeepsRows | tetris.py:141-151 | the O piece written at column 3 completes no row, so clearing keeps the written grid |
| Findings.GravityOverwritesLockedCell | tetris.py:165-168 | as written: the piece passed the last collision test; after a legal Left press the next tick steps the O piece onto the I piece and locks it there, so the cyan cell at row 19, column 3 turns yellow |
| Findings.StampOntoLockedI | tetris.py:111-114 | the O piece written in rows 18 and 19 at column 3 turns the cyan cell at row 19, column 3 yellow |
| Findings.StampAboveLockedI | tetris.py:111-114 | the O piece written in rows 17 and 18 leaves that cell cyan |
| Findings.CheckedTickKeepsLockedCell | tetris.py:165-168 | corrected: on the same input the tick crosses the boundary, finds that the piece cannot move down, locks it where it stands (the tick equals the speed reset after `Locked` of the fallen state), and the cyan cell stays cyan |
| Findings.RotatedT | tetris.py:38-39 | the T piece turned clockwise is three rows high and two wide |
| Findings.RotationLetsGravityPassFloor | tetris.py:130-168 | as written: the unturned T piece could move down one row, so the last collision test let it go on; turned just before the tick it is stepped to row 18, its bottom cell lands in row 20, and `lock_piece` raises |
| Findings.TurnedTCannotFall | tetris.py:96-107 | the turned T piece at row 17 cannot move down one row on the empty board |
| Findings.CheckedTickLocksAboveFloor | tetris.py:165-168 | corrected: on the same input the tick finds that the turned piece cannot move down, locks it where it stands, and keeps the game consistent |

## Left out

- Drawing is not modelled: `draw_board` (tetris.py:70-94), the GAME OVER text and its console
  line (156-157), the canvas, and the score label (58-59, 146).
- The event loop is not modelled. `root.bind`, `root.after` and `mainloop` become explicit calls:
  `HandleKey` for a key event and `Tick` for one run of `update`. `Tick`'s `reschedule` result
  says whether `update` schedules itself again.
- `random.choice` becomes two index parameters into the shape and colour tables. Every operation
  that may spawn a piece takes them.
- Key events become the datatype `Key`. Every keysym other than the four arrows is `Other`.
- Game.Tetris.constructor: the first tick gets the same indices as the first piece. That tick
  cannot lock, so the indices are never used.
- Python's negative indices are not modelled. `lock_piece` is only ever reached with the piece's
  row index at least 0 and its columns inside the walls, which `Lockable` requires. A negative index
  into the board therefore cannot occur.
- After an `IndexError`, Tkinter prints the traceback and the loop is never rescheduled. The
  model stops there: `Tick` returns `fault` and the state as it was when the error was raised.
- Game.Tetris.WriteCells works on a copy of the grid that `LockPiece` then assigns back. The
  source writes into `self.board` in place. No other reference to the board exists, so nothing
  can observe the difference.
- Integers are unbounded, like Python's. Nothing wraps around.

## Findings

`update` snaps the piece to its next row and adds one to `y` without calling `valid_move(0, 1)`
again (tetris.py:165-167). The only legality check is by `check_collision`, after the previous
step. A key press between two ticks can move or turn the piece into a position where it no
longer fits one row lower.

| source | as written | input that shows it | evidently intended | confidence | as-written member | corrected member |
|---|---|---|---|---|---|---|
| tetris.py:165-168 | the row step is taken unchecked, so after a Left or Right press the piece can step onto a locked cell, and the lock overwrites that cell | a cyan I piece locked in row 19 at columns 0-3, and the O piece in rows 17-18 at column 4, one pixel above its row boundary (it passed the last collision test); press Left, then tick | the piece locks where it stands when it cannot move down, and locked cells are never overwritten | not executed | Findings.GravityOverwritesLockedCell | Rules.TickCheckedLockFits, Rules.CheckedLockFits, Findings.CheckedTickKeepsLockedCell |
| tetris.py:130-168 | a turn is checked only in place, and the unchecked step can then put a row of the piece below the floor, so `lock_piece` raises an IndexError | T piece in rows 17-18 at column 4 on the empty board, one pixel above its row boundary (it passed the last collision test); press Up, then tick | the piece locks above the floor and the game goes on | not executed | Findings.RotationLetsGravityPassFloor | Rules.TickCheckedKeepsConsistent, Findings.CheckedTickLocksAboveFloor |

The corrected tick is `Rules.TickedChecked`, computed by `Game.Tetris.TickChecked`, and it equals
the tick as written whenever the piece still fits one row lower (`Rules.TickCheckedAgreesWhenFits`).
`Game.Tetris.Tick` keeps the source's behaviour as written.
