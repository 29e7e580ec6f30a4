// The falling piece and the game controller, whose methods update their fields in place.
// Each method is proved to compute the transition of module Rules on the controller's
// snapshot `Model()`.
module Game {
  import opened Shapes
  import opened Board
  import opened Rules

  class Piece {
    var shape: Shape
    const color: Color
    var x: int
    var y: int
    /** Vertical position in pixels, for the smooth fall between rows. */
    var pixelY: int

    constructor (shape: Shape, color: Color)
      requires |shape| > 0
      ensures this.shape == shape && this.color == color
      ensures x == SpawnColumn(shape) && y == 0 && pixelY == 0
    {
      this.shape := shape;
      this.color := color;
      x := BoardWidth / 2 - |shape[0]| / 2;
      y := 0;
      pixelY := 0;
    }

    /** Turns the shape 90 degrees clockwise without checking it. */
    method Rotate()
      modifies this
      ensures shape == Rotated(old(shape))
      ensures x == old(x) && y == old(y) && pixelY == old(pixelY)
    {
      shape := Rotated(shape);
    }
  }

  class Tetris {
    var board: Grid
    var piece: Piece
    var score: int
    var running: bool
    var dropSpeed: int

    /** The controller's fields together with the current piece's. */
    ghost function Model(): State
      reads this, piece
    {
      State(board, piece.shape, piece.color, piece.x, piece.y, piece.pixelY, score, running,
            dropSpeed)
    }

    /** `__init__`: an empty board, a first piece, score 0, and the first `update` tick, which
        only lets the piece fall by one pixel. */
    constructor (shapeIndex: nat, colorIndex: nat)
      requires shapeIndex < |AllShapes| && colorIndex < |ShapeColors|
      ensures Model() == Ticked(Start(shapeIndex, colorIndex), shapeIndex, colorIndex)
      ensures Consistent(Model()) && fresh(piece)
    {
      board := EmptyGrid();
      var p := NewPiece(shapeIndex, colorIndex);
      piece := p;
      score := 0;
      running := true;
      dropSpeed := FallSpeed;
      new;
      FirstTick(shapeIndex, colorIndex, shapeIndex, colorIndex);
      TableShapeSpawnsInBounds(shapeIndex);
      var reschedule, fault := Tick(shapeIndex, colorIndex);
    }

    /** `new_piece`, with the two random choices passed in as indices into the tables. */
    static method NewPiece(shapeIndex: nat, colorIndex: nat) returns (p: Piece)
      requires shapeIndex < |AllShapes| && colorIndex < |ShapeColors|
      ensures fresh(p)
      ensures p.shape == AllShapes[shapeIndex] && p.color == ShapeColors[colorIndex]
      ensures |p.shape| > 0 && p.x == SpawnColumn(p.shape) && p.y == 0 && p.pixelY == 0
    {
      ShapeTableDims(shapeIndex);
      p := new Piece(AllShapes[shapeIndex], ShapeColors[colorIndex]);
    }

    /** `valid_move`: whether the piece shifted by (dx, dy) stays inside the walls, above the
        floor and off the locked cells. */
    method ValidMove(dx: int, dy: int) returns (ok: bool)
      requires Shaped(board)
      ensures ok == Fits(piece.shape, piece.x + dx, piece.y + dy, board)
    {
      var s := piece.shape;
      var ax := piece.x + dx;
      var ay := piece.y + dy;
      var i := 0;
      while i < |s|
        invariant 0 <= i <= |s|
        invariant forall i', j' | Occupied(s, i', j') && i' < i :: Free(board, ay + i', ax + j')
      {
        var j := 0;
        while j < |s[i]|
          invariant 0 <= j <= |s[i]|
          invariant forall i', j' | Occupied(s, i', j') && Before(i', j', i, j) ::
            Free(board, ay + i', ax + j')
        {
          if s[i][j] == 1 {
            var newX := piece.x + j + dx;
            var newY := piece.y + i + dy;
            if newX < 0 || newX >= BoardWidth || newY >= BoardHeight {
              assert Occupied(s, i, j) && !Free(board, ay + i, ax + j);
              return false;
            }
            if newY >= 0 && board[newY][newX] != None {
              assert Occupied(s, i, j) && !Free(board, ay + i, ax + j);
              return false;
            }
          }
          j := j + 1;
        }
        i := i + 1;
      }
      return true;
    }

    /** `handle_key`. */
    method HandleKey(key: Key)
      requires Shaped(board)
      modifies this, piece
      ensures Model() == KeyPressed(old(Model()), key) && piece == old(piece)
      ensures Valid(old(Model())) ==> Valid(Model())
      ensures Consistent(old(Model())) ==> Consistent(Model())
    {
      ghost var st := Model();
      match key {
        case Left => Shift(-1);
        case Right => Shift(1);
        case Down => dropSpeed := FastDropSpeed;
        case Up => Turn();
        case Other =>
      }
      if Valid(st) {
        KeyPressKeepsConsistent(st, key);
      }
    }

    /** The Left and Right branches of `handle_key`: shift by `dx` columns when that fits. */
    method Shift(dx: int)
      requires Shaped(board)
      modifies piece
      ensures var st := old(Model());
        Model() == if Fits(st.shape, st.x + dx, st.y, st.board) then st.(x := st.x + dx) else st
    {
      var ok := ValidMove(dx, 0);
      if ok {
        piece.x := piece.x + dx;
      }
    }

    /** The Up branch of `handle_key`: rotate, and rotate back when the turned piece does
        not fit. */
    method Turn()
      requires Shaped(board)
      modifies piece
      ensures var st := old(Model());
        Model() == if Fits(Rotated(st.shape), st.x, st.y, st.board) then st.(shape := Rotated(st.shape))
          else st
    {
      var originalShape := piece.shape;
      piece.Rotate();
      var ok := ValidMove(0, 0);
      if !ok {
        piece.shape := originalShape;
      }
    }

    /** `clear_full_rows`: drops the full rows, pads the top with empty rows and scores 100
        per row removed. */
    method ClearFullRows()
      requires Shaped(board)
      modifies this
      ensures board == ClearedBoard(old(board))
      ensures score == old(score) + 100 * FullCount(old(board))
      ensures piece == old(piece) && running == old(running) && dropSpeed == old(dropSpeed)
    {
      var kept := NonFullRows(board);
      KeptPlusFull(board);
      var cleared := BoardHeight - |kept|;
      score := score + cleared * 100;
      board := PadTop(kept, cleared);
    }

    /** The padding loop of `clear_full_rows`: one empty row inserted on top per row removed. */
    static method PadTop(rows: Grid, n: nat) returns (padded: Grid)
      ensures padded == EmptyRows(n) + rows
    {
      padded := rows;
      var k := 0;
      while k < n
        invariant 0 <= k <= n
        invariant padded == EmptyRows(k) + rows
      {
        EmptyRowsGrow(k);
        padded := [EmptyRow()] + padded;
        k := k + 1;
      }
    }

    /** The state part of `game_over`. */
    method GameOver()
      modifies this
      ensures !running
      ensures board == old(board) && piece == old(piece) && score == old(score)
      ensures dropSpeed == old(dropSpeed)
    {
      running := false;
    }

    /** The write loop of `lock_piece`: every occupied cell of `s` anchored at (x, y) gets
        `color`, row by row. The source raises an IndexError at the first cell below the last
        row; `fault` reports it, and `b'` is the grid as written up to that point. */
    static method WriteCells(b: Grid, s: Shape, x: int, y: int, color: Color)
      returns (b': Grid, fault: bool)
      requires Shaped(b) && y >= 0 && WithinWalls(s, x)
      ensures b' == Stamp(b, s, x, y, color)
      ensures fault == !AboveFloor(s, y)
    {
      b' := b;
      fault := false;
      StampNothing(b, s, x, y, color);
      var i := 0;
      while i < |s| && !fault
        invariant 0 <= i <= |s|
        invariant Shaped(b')
        invariant !fault ==> b' == StampUpTo(b, s, x, y, color, i, 0)
        invariant !fault ==> forall i', j' | Occupied(s, i', j') && i' < i :: y + i' < BoardHeight
        invariant fault ==> b' == Stamp(b, s, x, y, color) && !AboveFloor(s, y)
      {
        b', fault := WriteRow(b, s, x, y, color, i, b');
        i := i + 1;
      }
    }

    /** Row `i` of the write loop of `lock_piece`, on the grid `cur` written up to that row. */
    static method WriteRow(b: Grid, s: Shape, x: int, y: int, color: Color, i: nat, cur: Grid)
      returns (b': Grid, fault: bool)
      requires Shaped(b) && y >= 0 && WithinWalls(s, x) && i < |s|
      requires Shaped(cur) && cur == StampUpTo(b, s, x, y, color, i, 0)
      requires forall i', j' | Occupied(s, i', j') && i' < i :: y + i' < BoardHeight
      ensures Shaped(b')
      ensures !fault ==> b' == StampUpTo(b, s, x, y, color, i + 1, 0)
      ensures !fault ==> forall i', j' | Occupied(s, i', j') && i' <= i :: y + i' < BoardHeight
      ensures fault ==> b' == Stamp(b, s, x, y, color) && !AboveFloor(s, y)
    {
      b' := cur;
      fault := false;
      var j := 0;
      while j < |s[i]| && !fault
        invariant 0 <= j <= |s[i]|
        invariant Shaped(b')
        invariant !fault ==> b' == StampUpTo(b, s, x, y, color, i, j)
        invariant !fault ==> forall i', j' | Occupied(s, i', j') && Before(i', j', i, j) ::
          y + i' < BoardHeight
        invariant fault ==> b' == Stamp(b, s, x, y, color) && !AboveFloor(s, y)
      {
        if s[i][j] == 1 {
          assert Occupied(s, i, j);
          if y + i >= BoardHeight {
            StampRestOffGrid(b, s, x, y, color, i, j);
            fault := true;
          } else {
            StampStep(b, s, x, y, color, i, j);
            b' := b'[y + i := b'[y + i][x + j := Some(color)]];
          }
        } else {
          StampSkip(b, s, x, y, color, i, j);
        }
        j := j + 1;
      }
      if !fault {
        StampNextRow(b, s, x, y, color, i);
      }
    }

    /** `lock_piece`; `fault` is the IndexError the source raises for a cell below the last
        row, after which nothing else happens. */
    method LockPiece(nextShape: nat, nextColor: nat) returns (fault: bool)
      requires Lockable(Model()) && nextShape < |AllShapes| && nextColor < |ShapeColors|
      modifies this
      ensures fault == LockFaults(old(Model()))
      ensures Model() == Locked(old(Model()), nextShape, nextColor)
      ensures fault ==> piece == old(piece)
      ensures !fault ==> fresh(piece)
    {
      ghost var st := Model();
      ghost var stamped := Stamp(board, piece.shape, piece.x, piece.y, piece.color);
      StampShaped(board, piece.shape, piece.x, piece.y, piece.color);
      board, fault := WriteCells(board, piece.shape, piece.x, piece.y, piece.color);
      if fault {
        return;
      }
      ClearFullRows();
      ClearedBoardShape(stamped);
      assert Model() == st.(board := ClearedBoard(stamped),
                            score := st.score + 100 * FullCount(stamped));
      SpawnNext(nextShape, nextColor);
    }

    /** The end of `lock_piece`: the next piece is spawned and the game stops when it cannot
        move down one row. */
    method SpawnNext(nextShape: nat, nextColor: nat)
      requires Shaped(board) && nextShape < |AllShapes| && nextColor < |ShapeColors|
      modifies this
      ensures Model() == Respawned(old(Model()), nextShape, nextColor) && fresh(piece)
    {
      piece := NewPiece(nextShape, nextColor);
      var canFall := ValidMove(0, 1);
      if !canFall && piece.y == 0 {
        GameOver();
      }
    }

    /** `check_collision`. */
    method CheckCollision(nextShape: nat, nextColor: nat) returns (fault: bool)
      requires Lockable(Model()) && nextShape < |AllShapes| && nextColor < |ShapeColors|
      modifies this
      ensures fault == LockFaults(old(Model()))
      ensures Model() == Collided(old(Model()), nextShape, nextColor)
      ensures piece == old(piece) || fresh(piece)
    {
      LockFaultMeansCollision(Model());
      var canFall := ValidMove(0, 1);
      fault := false;
      if !canFall {
        fault := LockPiece(nextShape, nextColor);
      }
    }

    /** The state part of `update`, one tick as the source runs it. `reschedule` is whether
        another tick is scheduled; `fault` is the IndexError `lock_piece` raises for a cell
        below the floor, which also ends the tick loop. */
    method Tick(nextShape: nat, nextColor: nat) returns (reschedule: bool, fault: bool)
      requires Lockable(Model()) && nextShape < |AllShapes| && nextColor < |ShapeColors|
      modifies this, piece
      ensures fault == TickFaults(old(Model()))
      ensures Model() == Ticked(old(Model()), nextShape, nextColor)
      ensures reschedule == (!fault && running)
      ensures piece == old(piece) || fresh(piece)
      ensures Valid(old(Model())) && !fault ==> Valid(Model())
    {
      ghost var st := Model();
      var crossed := Fall();
      fault := false;
      if crossed {
        TickedCrossing(st, nextShape, nextColor);
        fault := StepDown(nextShape, nextColor);
      }
      if fault {
        reschedule := false;
        return;
      }
      ResetSpeed();
      reschedule := running;
      if Valid(st) {
        TickKeepsValid(st, nextShape, nextColor);
      }
    }

    /** The row step of `update`: the piece snaps to the row boundary, moves down one row
        without a legality test, and `check_collision` runs. */
    method StepDown(nextShape: nat, nextColor: nat) returns (fault: bool)
      requires Lockable(Model()) && nextShape < |AllShapes| && nextColor < |ShapeColors|
      modifies this, piece
      ensures fault == LockFaults(Stepped(old(Model())))
      ensures Model() == Collided(Stepped(old(Model())), nextShape, nextColor)
      ensures piece == old(piece) || fresh(piece)
    {
      ghost var st := Model();
      piece.pixelY := (piece.y + 1) * BlockSize;
      piece.y := piece.y + 1;
      assert Model() == Stepped(st);
      fault := CheckCollision(nextShape, nextColor);
    }

    /** The corrected tick: the step down is taken only when the piece fits one row lower,
        and a piece that cannot take it locks where it is. */
    method TickChecked(nextShape: nat, nextColor: nat) returns (reschedule: bool)
      requires Valid(Model()) && nextShape < |AllShapes| && nextColor < |ShapeColors|
      modifies this, piece
      ensures Model() == TickedChecked(old(Model()), nextShape, nextColor)
      ensures reschedule == running
      ensures Consistent(old(Model())) && old(running) ==> Consistent(Model())
    {
      ghost var st := Model();
      var crossed := Fall();
      if crossed {
        DescendChecked(nextShape, nextColor);
      }
      ResetSpeed();
      reschedule := running;
      if Consistent(st) && st.running {
        TickCheckedKeepsConsistent(st, nextShape, nextColor);
      }
    }

    /** The first step of `update`: the piece falls by the drop speed; `crossed` is whether
        it reached the boundary of the next row. */
    method Fall() returns (crossed: bool)
      modifies piece
      ensures Model() == Fallen(old(Model()))
      ensures crossed == Crosses(old(Model()))
    {
      piece.pixelY := piece.pixelY + dropSpeed;
      crossed := piece.pixelY >= (piece.y + 1) * BlockSize;
    }

    /** The last step of `update`: the drop speed goes back to normal. */
    method ResetSpeed()
      modifies this
      ensures Model() == SpeedReset(old(Model())) && piece == old(piece)
    {
      dropSpeed := FallSpeed;
    }

    /** The corrected row step of the tick. */
    method DescendChecked(nextShape: nat, nextColor: nat)
      requires Placed(Model()) && nextShape < |AllShapes| && nextColor < |ShapeColors|
      modifies this, piece
      ensures Model() == DescendedChecked(old(Model()), nextShape, nextColor)
      ensures piece == old(piece) || fresh(piece)
    {
      ghost var st := Model();
      var canFall := ValidMove(0, 1);
      if canFall {
        assert Fits(st.shape, st.x, st.y + 1, st.board);
        var fault := StepDown(nextShape, nextColor);
      } else {
        assert !Fits(st.shape, st.x, st.y + 1, st.board);
        var fault := LockPiece(nextShape, nextColor);
      }
    }
  }
}
