// The game's state transitions as functions on a snapshot of the controller: key presses,
// locking, the collision test, one tick of the game loop as written, and the same tick with
// the step down validated. The classes in module Game are proved to compute these.
module Rules {
  import opened Shapes
  import opened Board

  /** The keys the controller reacts to; every other key is Other. */
  datatype Key = Left | Right | Down | Up | Other

  /** The controller's fields: the locked cells, the falling piece (shape, colour, column,
      row and pixel height), the score, whether the game loop still runs, and the current
      drop speed in pixels per tick. */
  datatype State = State(board: Grid, shape: Shape, color: Color, x: int, y: int, pixelY: int,
                         score: int, running: bool, dropSpeed: int)

  // ---------------------------------------------------------------------------
  // Spawning

  /** Column of the anchor of a freshly spawned piece. */
  function SpawnColumn(s: Shape): int
    requires |s| > 0
  {
    BoardWidth / 2 - |s[0]| / 2
  }

  /** A spawned rectangle no wider than the board and no taller than it starts inside the
      walls and above the floor. */
  lemma SpawnInBounds(s: Shape, h: nat, w: nat)
    requires IsRect(s, h, w) && 0 < h <= BoardHeight && w <= BoardWidth
    ensures WithinWalls(s, SpawnColumn(s)) && AboveFloor(s, 0)
  {
  }

  /** Every shape of the table spawns inside the walls, above the floor. */
  lemma TableShapeSpawnsInBounds(k: nat)
    requires k < |AllShapes|
    ensures |AllShapes[k]| > 0
    ensures WithinWalls(AllShapes[k], SpawnColumn(AllShapes[k])) && AboveFloor(AllShapes[k], 0)
  {
    ShapeTableDims(k);
    SpawnInBounds(AllShapes[k], |AllShapes[k]|, |AllShapes[k][0]|);
  }

  /** The centring of the source's comments: O spawns at column 4, I at column 3. */
  lemma SpawnColumnExamples()
    ensures SpawnColumn(AllShapes[1]) == 4
    ensures SpawnColumn(AllShapes[0]) == 3
  {
  }

  /** The state `__init__` builds before its first `update`: an empty board, the first
      piece at the top, score 0, running, normal speed. */
  ghost function Start(k: nat, c: nat): (st: State)
    requires k < |AllShapes| && c < |ShapeColors|
    ensures Consistent(st) && st.running
  {
    TableShapeSpawnsInBounds(k);
    FitsEmptyGrid(AllShapes[k], SpawnColumn(AllShapes[k]), 0);
    State(EmptyGrid(), AllShapes[k], ShapeColors[c], SpawnColumn(AllShapes[k]), 0, 0,
          0, true, FallSpeed)
  }

  // ---------------------------------------------------------------------------
  // Invariants

  /** What every operation of the game keeps, apart from the pixel height: a full-size
      board, a piece inside the walls and above the floor, one of the two drop speeds, and a
      score made of whole row clears. */
  ghost predicate Placed(st: State) {
    Shaped(st.board) && st.y >= 0 &&
    WithinWalls(st.shape, st.x) && AboveFloor(st.shape, st.y) &&
    (st.dropSpeed == FallSpeed || st.dropSpeed == FastDropSpeed) &&
    st.score >= 0 && st.score % 100 == 0
  }

  /** The game's invariant: the above, and the pixel height within the piece's row. */
  ghost predicate Valid(st: State) {
    Placed(st) && st.y * BlockSize <= st.pixelY < (st.y + 1) * BlockSize
  }

  /** The piece overlaps no locked cell, except possibly a piece that has just spawned,
      which the game-over test only requires to be able to move down one row. */
  ghost predicate Settled(st: State) {
    Shaped(st.board) &&
    (Fits(st.shape, st.x, st.y, st.board) ||
     (st.y == 0 && Fits(st.shape, st.x, 1, st.board)))
  }

  /** The invariant of the corrected game loop. */
  ghost predicate Consistent(st: State) {
    Valid(st) && (st.running ==> Settled(st))
  }

  /** What `lock_piece` relies on: the board rows it indexes from the piece's row down and the
      columns it indexes exist, except that a shape row may lie below the floor. */
  ghost predicate Lockable(st: State) {
    Shaped(st.board) && st.y >= 0 && WithinWalls(st.shape, st.x)
  }

  // ---------------------------------------------------------------------------
  // Input

  /** `handle_key`: Left and Right shift the piece when the shifted piece fits, Up keeps the
      clockwise rotation only when it fits in place, Down selects the fast drop speed. */
  ghost function KeyPressed(st: State, key: Key): (r: State)
    requires Shaped(st.board)
    ensures r.board == st.board && r.color == st.color && r.y == st.y && r.pixelY == st.pixelY
    ensures r.score == st.score && r.running == st.running
    ensures st.x - 1 <= r.x <= st.x + 1 && (r.x != st.x ==> r.shape == st.shape)
    ensures r.shape == st.shape || r.shape == Rotated(st.shape)
    ensures r.dropSpeed == if key == Down then FastDropSpeed else st.dropSpeed
  {
    match key
    case Left => if Fits(st.shape, st.x - 1, st.y, st.board) then st.(x := st.x - 1) else st
    case Right => if Fits(st.shape, st.x + 1, st.y, st.board) then st.(x := st.x + 1) else st
    case Down => st.(dropSpeed := FastDropSpeed)
    case Up =>
      if Fits(Rotated(st.shape), st.x, st.y, st.board) then st.(shape := Rotated(st.shape))
      else st
    case Other => st
  }

  /** Whatever the key, the piece ends where it fits when it moved or turned, the game keeps
      its invariants, and a piece that overlapped nothing still overlaps nothing. */
  lemma KeyPressKeepsConsistent(st: State, key: Key)
    requires Valid(st)
    ensures var r := KeyPressed(st, key);
      Valid(r) && (Settled(st) ==> Settled(r)) &&
      ((r.x != st.x || r.shape != st.shape) ==> Fits(r.shape, r.x, r.y, r.board))
  {
    var r := KeyPressed(st, key);
    if r.x != st.x || r.shape != st.shape {
      FitsInBounds(r.shape, r.x, r.y, r.board);
    }
  }

  /** A shift or a turn that would not fit, and every key other than the four arrows, leave
      the state as it is. */
  lemma KeyPressNoOps(st: State, key: Key)
    requires Shaped(st.board)
    ensures key == Other ==> KeyPressed(st, key) == st
    ensures key == Left && !Fits(st.shape, st.x - 1, st.y, st.board) ==> KeyPressed(st, key) == st
    ensures key == Right && !Fits(st.shape, st.x + 1, st.y, st.board) ==> KeyPressed(st, key) == st
    ensures key == Up && !Fits(Rotated(st.shape), st.x, st.y, st.board) ==>
      KeyPressed(st, key) == st
  {
  }

  // ---------------------------------------------------------------------------
  // Locking

  /** `lock_piece` raises an IndexError: some occupied row of the piece lies below the floor. */
  ghost predicate LockFaults(st: State) {
    !AboveFloor(st.shape, st.y)
  }

  /** `new_piece` followed by the game-over test of `lock_piece`: the game stops when the
      new piece cannot move down one row. */
  ghost function Respawned(st: State, k: nat, c: nat): State
    requires Shaped(st.board) && k < |AllShapes| && c < |ShapeColors|
  {
    var s := AllShapes[k];
    st.(shape := s, color := ShapeColors[c], x := SpawnColumn(s), y := 0, pixelY := 0,
        running := st.running && Fits(s, SpawnColumn(s), 1, st.board))
  }

  /** The spawned piece is the chosen shape and colour at the top, centred, inside the walls
      and above the floor; the game keeps running exactly when it ran and the new piece can
      move down one row. Board, score and drop speed are untouched. */
  lemma RespawnedSpawns(st: State, k: nat, c: nat)
    requires Shaped(st.board) && k < |AllShapes| && c < |ShapeColors|
    ensures var r := Respawned(st, k, c);
      r.board == st.board && r.score == st.score && r.dropSpeed == st.dropSpeed &&
      r.shape == AllShapes[k] && r.color == ShapeColors[c] && r.y == 0 && r.pixelY == 0 &&
      |r.shape| > 0 && r.x == SpawnColumn(r.shape) &&
      WithinWalls(r.shape, r.x) && AboveFloor(r.shape, 0) &&
      (r.running <==> st.running && Fits(r.shape, r.x, 1, r.board))
  {
    TableShapeSpawnsInBounds(k);
  }

  /** `lock_piece`: the piece's cells are written into the board; when that raises, the grid
      keeps the cells written so far and nothing else changes. Otherwise the full rows are
      cleared and scored and the next piece is spawned. */
  ghost function Locked(st: State, k: nat, c: nat): (r: State)
    requires Lockable(st) && k < |AllShapes| && c < |ShapeColors|
    ensures Shaped(r.board)
  {
    var stamped := Stamp(st.board, st.shape, st.x, st.y, st.color);
    if LockFaults(st) then st.(board := stamped)
    else
      ClearedBoardShape(stamped);
      Respawned(st.(board := ClearedBoard(stamped),
                    score := st.score + 100 * FullCount(stamped)), k, c)
  }

  /** A lock of a piece above the floor clears every full row, adds 100 per row cleared and
      spawns a piece the game is consistent with; a stopped game stays stopped. */
  lemma LockKeepsConsistent(st: State, k: nat, c: nat)
    requires Placed(st) && k < |AllShapes| && c < |ShapeColors|
    ensures !LockFaults(st)
    ensures var r := Locked(st, k, c);
      var stamped := Stamp(st.board, st.shape, st.x, st.y, st.color);
      Consistent(r) && r.dropSpeed == st.dropSpeed &&
      r.score == st.score + 100 * FullCount(stamped) &&
      (forall row :: 0 <= row < |r.board| ==> !IsFull(r.board[row])) &&
      (!st.running ==> !r.running)
  {
    var stamped := Stamp(st.board, st.shape, st.x, st.y, st.color);
    StampShaped(st.board, st.shape, st.x, st.y, st.color);
    ClearedBoardShape(stamped);
    RespawnedSpawns(st.(board := ClearedBoard(stamped),
                        score := st.score + 100 * FullCount(stamped)), k, c);
  }

  /** The grid a lock leaves: the written grid, with its full rows cleared unless the write
      raised. */
  lemma LockedBoard(st: State, k: nat, c: nat)
    requires Lockable(st) && k < |AllShapes| && c < |ShapeColors|
    ensures var stamped := Stamp(st.board, st.shape, st.x, st.y, st.color);
      Locked(st, k, c).board == if LockFaults(st) then stamped else ClearedBoard(stamped)
  {
    var stamped := Stamp(st.board, st.shape, st.x, st.y, st.color);
    if !LockFaults(st) {
      ClearedBoardShape(stamped);
      RespawnedSpawns(st.(board := ClearedBoard(stamped),
                          score := st.score + 100 * FullCount(stamped)), k, c);
    }
  }

  /** The number of rows a lock clears: the full rows of the written grid, none when the
      write raises. */
  ghost function LockClears(st: State): nat {
    if LockFaults(st) then 0 else FullCount(Stamp(st.board, st.shape, st.x, st.y, st.color))
  }

  /** Locking adds 100 to the score per row it clears and never restarts a stopped game. */
  lemma LockScores(st: State, k: nat, c: nat)
    requires Lockable(st) && k < |AllShapes| && c < |ShapeColors|
    ensures var r := Locked(st, k, c);
      r.score == st.score + 100 * LockClears(st) && (!st.running ==> !r.running)
  {
  }

  /** A lock of a piece that fits overwrites no locked cell: every cell locked before is
      locked with the same colour in the written grid, and the piece's own cells hold its
      colour. */
  lemma LockOfFittingPiece(st: State)
    requires Shaped(st.board) && st.y >= 0 && Fits(st.shape, st.x, st.y, st.board)
    ensures var stamped := Stamp(st.board, st.shape, st.x, st.y, st.color);
      (forall r, c :: 0 <= r < |st.board| && 0 <= c < |st.board[r]| && st.board[r][c] != None ==>
        stamped[r][c] == st.board[r][c]) &&
      (forall i, j | Occupied(st.shape, i, j) :: stamped[st.y + i][st.x + j] == Some(st.color))
  {
    StampKeepsLockedCells(st.board, st.shape, st.x, st.y, st.color);
    FitsInBounds(st.shape, st.x, st.y, st.board);
    forall i, j | Occupied(st.shape, i, j)
      ensures Stamp(st.board, st.shape, st.x, st.y, st.color)[st.y + i][st.x + j] == Some(st.color)
    {
      assert Free(st.board, st.y + i, st.x + j);
      StampCell(st.board, st.shape, st.x, st.y, st.color, st.y + i, st.x + j);
    }
  }

  /** `check_collision`: the piece locks when it cannot move down one row. */
  ghost function Collided(st: State, k: nat, c: nat): State
    requires Lockable(st) && k < |AllShapes| && c < |ShapeColors|
  {
    if Fits(st.shape, st.x, st.y + 1, st.board) then st else Locked(st, k, c)
  }

  /** A piece with a row below the floor never fits one row lower, so `check_collision` always
      locks it and thereby raises. */
  lemma LockFaultMeansCollision(st: State)
    requires Shaped(st.board)
    ensures LockFaults(st) ==> !Fits(st.shape, st.x, st.y + 1, st.board)
  {
    if LockFaults(st) {
      FitsFallsOffFloor(st.shape, st.x, st.y, st.board);
    }
  }

  // ---------------------------------------------------------------------------
  // The game loop

  /** The tick takes the piece across its next row boundary. */
  ghost predicate Crosses(st: State) {
    st.pixelY + st.dropSpeed >= (st.y + 1) * BlockSize
  }

  /** The piece fallen by the drop speed, in pixels. */
  function Fallen(st: State): State {
    st.(pixelY := st.pixelY + st.dropSpeed)
  }

  /** The drop speed back to normal. */
  function SpeedReset(st: State): State {
    st.(dropSpeed := FallSpeed)
  }

  /** The piece snapped to its next row boundary and moved down one row, unchecked. */
  function Stepped(st: State): State {
    st.(pixelY := (st.y + 1) * BlockSize, y := st.y + 1)
  }

  /** The tick ends in an IndexError: the unchecked step put a row of the piece below the
      floor, and the lock that follows writes past the last row. */
  ghost predicate TickFaults(st: State) {
    Crosses(st) && LockFaults(Stepped(st))
  }

  /** The state part of `update` as written: the piece falls by the drop speed and, on
      reaching its next row boundary, snaps to it, moves down one row and runs
      `check_collision`; then the drop speed is reset (not reached after an IndexError).
      The snap overwrites the fallen pixel height, so the step is taken from `st`. */
  ghost function Ticked(st: State, k: nat, c: nat): State
    requires Lockable(st) && k < |AllShapes| && c < |ShapeColors|
  {
    if !Crosses(st) then SpeedReset(Fallen(st))
    else
      var after := Collided(Stepped(st), k, c);
      if TickFaults(st) then after else SpeedReset(after)
  }

  /** A tick that crosses a row boundary ends in the state `check_collision` leaves after the
      unchecked step, with the drop speed reset unless the lock raised. */
  lemma TickedCrossing(st: State, k: nat, c: nat)
    requires Lockable(st) && Crosses(st) && k < |AllShapes| && c < |ShapeColors|
    ensures var after := Collided(Stepped(st), k, c);
      Ticked(st, k, c) == if TickFaults(st) then after else SpeedReset(after)
    ensures Stepped(Fallen(st)) == Stepped(st)
  {
  }

  /** A tick that crosses a row boundary, with the piece free to fall two rows, steps the
      piece down exactly one row onto that boundary, resets the drop speed and changes
      nothing else. */
  lemma TickStepsWhenFree(st: State, k: nat, c: nat)
    requires Lockable(st) && Crosses(st) && Fits(st.shape, st.x, st.y + 2, st.board)
    requires k < |AllShapes| && c < |ShapeColors|
    ensures Ticked(st, k, c) ==
      st.(y := st.y + 1, pixelY := (st.y + 1) * BlockSize, dropSpeed := FallSpeed)
  {
    var p := Stepped(st);
    TickedCrossing(st, k, c);
    FitsInBounds(st.shape, st.x, st.y + 2, st.board);
    assert Fits(p.shape, p.x, p.y + 1, p.board);
    assert !LockFaults(p);
    assert Collided(p, k, c) == p;
  }

  /** One tick moves the piece down one row at most: it keeps its row, takes one step, or is
      replaced by a new piece at the top. A tick that crosses a boundary leaves the piece on
      it, and a tick that does not cross only adds the drop speed to the pixel height. */
  lemma TickMovesAtMostOneRow(st: State, k: nat, c: nat)
    requires Lockable(st) && k < |AllShapes| && c < |ShapeColors|
    ensures var r := Ticked(st, k, c);
      (r.y == st.y || r.y == st.y + 1 || r.y == 0) &&
      (Crosses(st) ==> r.pixelY == r.y * BlockSize) &&
      (!Crosses(st) ==> r.(pixelY := st.pixelY, dropSpeed := st.dropSpeed) == st &&
                        r.pixelY == st.pixelY + st.dropSpeed)
  {
    if Crosses(st) {
      var p := Stepped(st);
      TickedCrossing(st, k, c);
      if !Fits(p.shape, p.x, p.y + 1, p.board) && !LockFaults(p) {
        StampShaped(p.board, p.shape, p.x, p.y, p.color);
        ClearedBoardShape(Stamp(p.board, p.shape, p.x, p.y, p.color));
        RespawnedSpawns(p.(board := ClearedBoard(Stamp(p.board, p.shape, p.x, p.y, p.color)),
                           score := p.score + 100 * LockClears(p)), k, c);
      }
    }
  }

  /** The drop speed goes back to normal on every tick that completes, so a Down press lasts
      one tick; a tick that raises leaves it as it was. */
  lemma TickResetsDropSpeed(st: State, k: nat, c: nat)
    requires Lockable(st) && k < |AllShapes| && c < |ShapeColors|
    ensures Ticked(st, k, c).dropSpeed == if TickFaults(st) then st.dropSpeed else FallSpeed
  {
    if Crosses(st) {
      TickedCrossing(st, k, c);
    }
  }

  /** The number of rows a tick clears: those of the lock it ends with, if any. */
  ghost function TickClears(st: State): nat
    requires Shaped(st.board)
  {
    var p := Stepped(st);
    if Crosses(st) && !Fits(p.shape, p.x, p.y + 1, p.board) then LockClears(p) else 0
  }

  /** Once stopped, the game never runs again, and a tick adds exactly 100 per row it clears
      to the score. */
  lemma TickNeverRestarts(st: State, k: nat, c: nat)
    requires Lockable(st) && k < |AllShapes| && c < |ShapeColors|
    ensures var r := Ticked(st, k, c);
      (!st.running ==> !r.running) && r.score == st.score + 100 * TickClears(st)
  {
    if Crosses(st) {
      var p := Stepped(st);
      TickedCrossing(st, k, c);
      if !Fits(p.shape, p.x, p.y + 1, p.board) {
        LockScores(p, k, c);
      }
    }
  }

  /** A tick that does not raise keeps the game valid: the piece stays inside the walls and
      above the floor and its pixel height within its row. */
  lemma TickKeepsValid(st: State, k: nat, c: nat)
    requires Valid(st) && !TickFaults(st) && k < |AllShapes| && c < |ShapeColors|
    ensures Valid(Ticked(st, k, c))
  {
    if Crosses(st) {
      var p := Stepped(st);
      TickedCrossing(st, k, c);
      if !Fits(p.shape, p.x, p.y + 1, p.board) {
        LockKeepsConsistent(p, k, c);
      }
    }
  }

  // ---------------------------------------------------------------------------
  // The step down, validated

  /** The corrected row step: the piece steps down only when it fits one row lower, then
      runs `check_collision`; a piece that does not fit one row lower locks where it is. */
  ghost function DescendedChecked(st: State, k: nat, c: nat): State
    requires Lockable(st) && k < |AllShapes| && c < |ShapeColors|
  {
    if Fits(st.shape, st.x, st.y + 1, st.board) then Collided(Stepped(st), k, c)
    else Locked(st, k, c)
  }

  /** The corrected tick. */
  ghost function TickedChecked(st: State, k: nat, c: nat): State
    requires Lockable(st) && k < |AllShapes| && c < |ShapeColors|
  {
    SpeedReset(if Crosses(st) then DescendedChecked(Fallen(st), k, c) else Fallen(st))
  }

  /** The corrected tick, case by case: the row step when the pixel height crosses the next
      row boundary, otherwise the fall alone; the drop speed is reset in both cases. */
  lemma TickedCheckedCases(st: State, k: nat, c: nat)
    requires Lockable(st) && k < |AllShapes| && c < |ShapeColors|
    ensures TickedChecked(st, k, c) ==
      if Crosses(st) then SpeedReset(DescendedChecked(Fallen(st), k, c))
      else SpeedReset(Fallen(st))
  {
  }

  /** Resetting the drop speed keeps the invariant. */
  lemma SpeedResetKeepsConsistent(st: State)
    requires Consistent(st)
    ensures Consistent(SpeedReset(st))
  {
    var r := SpeedReset(st);
    assert Fits(r.shape, r.x, r.y, r.board) == Fits(st.shape, st.x, st.y, st.board);
    assert Fits(r.shape, r.x, 1, r.board) == Fits(st.shape, st.x, 1, st.board);
  }

  /** Where the piece fits one row lower, the corrected tick is the tick as written. */
  lemma TickCheckedAgreesWhenFits(st: State, k: nat, c: nat)
    requires Lockable(st) && k < |AllShapes| && c < |ShapeColors|
    requires Fits(st.shape, st.x, st.y + 1, st.board)
    ensures !TickFaults(st) && TickedChecked(st, k, c) == Ticked(st, k, c)
  {
    FitsInBounds(st.shape, st.x, st.y + 1, st.board);
    assert !LockFaults(Stepped(st));
    TickedCheckedCases(st, k, c);
    if Crosses(st) {
      TickedCrossing(st, k, c);
      assert DescendedChecked(Fallen(st), k, c) == Collided(Stepped(st), k, c);
    }
  }

  /** Every lock of the corrected tick writes a piece that fits where it stands and lies
      above the floor, so it raises no IndexError and overwrites no locked cell. */
  lemma CheckedLockFits(st: State, k: nat, c: nat)
    requires Placed(st) && Settled(st) && st.running && k < |AllShapes| && c < |ShapeColors|
    ensures !Fits(st.shape, st.x, st.y + 1, st.board) ==>
      Fits(st.shape, st.x, st.y, st.board) && !LockFaults(st) &&
      DescendedChecked(st, k, c) == Locked(st, k, c)
    ensures var p := Stepped(st);
      Fits(st.shape, st.x, st.y + 1, st.board) && !Fits(p.shape, p.x, p.y + 1, p.board) ==>
        Fits(p.shape, p.x, p.y, p.board) && !LockFaults(p) &&
        DescendedChecked(st, k, c) == Locked(p, k, c)
  {
    if Fits(st.shape, st.x, st.y + 1, st.board) {
      CheckedLockAfterStep(st, k, c);
    } else {
      CheckedLockInPlace(st, k, c);
    }
  }

  /** A piece that fits one row lower steps down; if it then cannot move on, it locks at a
      position where it fits, above the floor. */
  lemma CheckedLockAfterStep(st: State, k: nat, c: nat)
    requires Placed(st) && Settled(st) && st.running && k < |AllShapes| && c < |ShapeColors|
    requires Fits(st.shape, st.x, st.y + 1, st.board)
    ensures var p := Stepped(st);
      !Fits(p.shape, p.x, p.y + 1, p.board) ==>
        Fits(p.shape, p.x, p.y, p.board) && !LockFaults(p) &&
        DescendedChecked(st, k, c) == Locked(p, k, c)
  {
    FitsInBounds(st.shape, st.x, st.y + 1, st.board);
    var p := Stepped(st);
    assert p.shape == st.shape && p.x == st.x && p.y == st.y + 1 && p.board == st.board;
    assert Fits(p.shape, p.x, p.y, p.board);
    if !Fits(p.shape, p.x, p.y + 1, p.board) {
      assert DescendedChecked(st, k, c) == Collided(p, k, c);
      assert !LockFaults(p);
    }
  }

  /** A piece that does not fit one row lower locks where it stands, where it fits, above the
      floor. */
  lemma CheckedLockInPlace(st: State, k: nat, c: nat)
    requires Placed(st) && Settled(st) && st.running && k < |AllShapes| && c < |ShapeColors|
    requires !Fits(st.shape, st.x, st.y + 1, st.board)
    ensures Fits(st.shape, st.x, st.y, st.board) && !LockFaults(st) &&
      DescendedChecked(st, k, c) == Locked(st, k, c)
  {
    assert Fits(st.shape, st.x, st.y, st.board);
    FitsInBounds(st.shape, st.x, st.y, st.board);
  }

  /** Every lock of the corrected tick, on a consistent running game, writes a piece that
      fits where it stands and lies above the floor: in place when the fallen piece cannot
      move down, one row lower when it steps and then cannot move on. */
  lemma TickCheckedLockFits(st: State, k: nat, c: nat)
    requires Consistent(st) && st.running && k < |AllShapes| && c < |ShapeColors|
    requires Crosses(st)
    ensures !Fits(st.shape, st.x, st.y + 1, st.board) ==>
      Fits(st.shape, st.x, st.y, st.board) && !LockFaults(Fallen(st)) &&
      TickedChecked(st, k, c) == SpeedReset(Locked(Fallen(st), k, c))
    ensures var p := Stepped(Fallen(st));
      Fits(st.shape, st.x, st.y + 1, st.board) && !Fits(p.shape, p.x, p.y + 1, p.board) ==>
        Fits(p.shape, p.x, p.y, p.board) && !LockFaults(p) &&
        TickedChecked(st, k, c) == SpeedReset(Locked(p, k, c))
  {
    if Fits(st.shape, st.x, st.y + 1, st.board) {
      TickCheckedLockAfterStep(st, k, c);
    } else {
      TickCheckedLockInPlace(st, k, c);
    }
  }

  /** A crossing tick whose piece cannot move down locks it where it stands. */
  lemma TickCheckedLockInPlace(st: State, k: nat, c: nat)
    requires Consistent(st) && st.running && k < |AllShapes| && c < |ShapeColors|
    requires Crosses(st) && !Fits(st.shape, st.x, st.y + 1, st.board)
    ensures Fits(st.shape, st.x, st.y, st.board) && !LockFaults(Fallen(st)) &&
      TickedChecked(st, k, c) == SpeedReset(Locked(Fallen(st), k, c))
  {
    var fallen := Fallen(st);
    assert Placed(fallen) && Settled(fallen);
    assert !Fits(fallen.shape, fallen.x, fallen.y + 1, fallen.board);
    TickedCheckedCases(st, k, c);
    CheckedLockInPlace(fallen, k, c);
  }

  /** A crossing tick whose piece steps down and then cannot move on locks it one row lower,
      where it fits. */
  lemma TickCheckedLockAfterStep(st: State, k: nat, c: nat)
    requires Consistent(st) && st.running && k < |AllShapes| && c < |ShapeColors|
    requires Crosses(st) && Fits(st.shape, st.x, st.y + 1, st.board)
    ensures var p := Stepped(Fallen(st));
      !Fits(p.shape, p.x, p.y + 1, p.board) ==>
        Fits(p.shape, p.x, p.y, p.board) && !LockFaults(p) &&
        TickedChecked(st, k, c) == SpeedReset(Locked(p, k, c))
  {
    var fallen := Fallen(st);
    assert Placed(fallen) && Settled(fallen);
    assert Fits(fallen.shape, fallen.x, fallen.y + 1, fallen.board);
    TickedCheckedCases(st, k, c);
    CheckedLockAfterStep(fallen, k, c);
  }

  /** The corrected row step keeps the game consistent. */
  lemma DescendCheckedKeepsConsistent(st: State, k: nat, c: nat)
    requires Placed(st) && st.running && Settled(st) && k < |AllShapes| && c < |ShapeColors|
    ensures Consistent(DescendedChecked(st, k, c))
  {
    if Fits(st.shape, st.x, st.y + 1, st.board) {
      CheckedStepKeepsConsistent(st, k, c);
      assert DescendedChecked(st, k, c) == Collided(Stepped(st), k, c);
    } else {
      assert DescendedChecked(st, k, c) == Locked(st, k, c);
      LockKeepsConsistent(st, k, c);
    }
  }

  /** The validated step of a piece that fits one row lower, and the collision test after
      it, keep the game consistent. */
  lemma CheckedStepKeepsConsistent(st: State, k: nat, c: nat)
    requires Placed(st) && st.running && k < |AllShapes| && c < |ShapeColors|
    requires Fits(st.shape, st.x, st.y + 1, st.board)
    ensures Lockable(Stepped(st)) && Consistent(Collided(Stepped(st), k, c))
  {
    FitsInBounds(st.shape, st.x, st.y + 1, st.board);
    var p := Stepped(st);
    assert Placed(p);
    if !Fits(p.shape, p.x, p.y + 1, p.board) {
      assert Collided(p, k, c) == Locked(p, k, c);
      LockKeepsConsistent(p, k, c);
    } else {
      assert Collided(p, k, c) == p;
    }
  }

  /** The corrected tick keeps the game consistent: valid, the piece overlapping no locked
      cell, the drop speed back to normal. */
  lemma TickCheckedKeepsConsistent(st: State, k: nat, c: nat)
    requires Consistent(st) && st.running && k < |AllShapes| && c < |ShapeColors|
    ensures Consistent(TickedChecked(st, k, c)) && TickedChecked(st, k, c).dropSpeed == FallSpeed
  {
    var fallen := Fallen(st);
    TickedCheckedCases(st, k, c);
    if Crosses(st) {
      DescendCheckedKeepsConsistent(fallen, k, c);
      SpeedResetKeepsConsistent(DescendedChecked(fallen, k, c));
    } else {
      assert Consistent(fallen) by {
        assert Fits(fallen.shape, fallen.x, fallen.y, fallen.board) ==
          Fits(st.shape, st.x, st.y, st.board);
        assert Fits(fallen.shape, fallen.x, 1, fallen.board) == Fits(st.shape, st.x, 1, st.board);
      }
      SpeedResetKeepsConsistent(fallen);
    }
  }

  /** The first `update` of `__init__` only lets the new piece fall by one pixel. */
  lemma FirstTick(k: nat, c: nat, k': nat, c': nat)
    requires k < |AllShapes| && c < |ShapeColors| && k' < |AllShapes| && c' < |ShapeColors|
    ensures Ticked(Start(k, c), k', c') == Start(k, c).(pixelY := FallSpeed)
    ensures Consistent(Ticked(Start(k, c), k', c'))
  {
  }
}
