// Two inputs on which `update` as written goes wrong, and the corrected tick on the same
// inputs. In both, the piece could move down one row when `check_collision` last looked,
// a key press between two ticks changes the piece, and the next tick steps down without
// asking `valid_move` again.
module Findings {
  import opened Shapes
  import opened Board
  import opened Rules

  /** The board after a cyan I piece has been shifted to the left wall and locked in the
      bottom row: row 19, columns 0 to 3, is cyan and every other cell is empty. */
  function LockedIBoard(): (b: Grid)
    ensures Shaped(b)
    ensures forall c :: 0 <= c < 4 ==> b[19][c] == Some(Cyan)
    ensures forall r, c :: 0 <= r < 20 && 0 <= c < 10 && (r != 19 || c >= 4) ==> b[r][c] == None
  {
    seq(BoardHeight, r => seq(BoardWidth, c => if r == 19 && c < 4 then Some(Cyan) else None))
  }

  /** The yellow O piece in rows 17 and 18, columns 4 and 5, one pixel above the boundary
      of row 18, over `LockedIBoard`. */
  function OverLockedI(): State {
    State(LockedIBoard(), AllShapes[1], ShapeColors[1], 4, 17, 17 * BlockSize + BlockSize - 1,
          0, true, FallSpeed)
  }

  /** The O piece of the table occupies its whole two-by-two square. */
  lemma OShape()
    ensures forall i, j :: Occupied(AllShapes[1], i, j) <==> 0 <= i < 2 && 0 <= j < 2
  {
  }

  /** Over `LockedIBoard` the O piece at column 4 fits in rows 17 and 18 and one row lower, so
      the last `check_collision` let it go on; at column 3 it fits in rows 17 and 18 but can
      move down neither from row 17 nor from row 18. */
  lemma OOverLockedI()
    ensures Fits(AllShapes[1], 4, 17, LockedIBoard()) && Fits(AllShapes[1], 4, 18, LockedIBoard())
    ensures Fits(AllShapes[1], 3, 17, LockedIBoard())
    ensures !Fits(AllShapes[1], 3, 18, LockedIBoard()) && !Fits(AllShapes[1], 3, 19, LockedIBoard())
  {
    var o := AllShapes[1];
    var b := LockedIBoard();
    OShape();
    assert Occupied(o, 1, 0) && !Free(b, 18 + 1, 3 + 0);
    assert Occupied(o, 1, 0) && !Free(b, 19 + 1, 3 + 0);
  }

  /** The Left key shifts the O piece of `OverLockedI` to column 3, and both states keep the
      game's invariant. */
  lemma ShiftLeftOverLockedI()
    ensures Consistent(OverLockedI()) && OverLockedI().running
    ensures KeyPressed(OverLockedI(), Left) == OverLockedI().(x := 3)
    ensures Consistent(OverLockedI().(x := 3))
  {
    OOverLockedI();
    KeyPressKeepsConsistent(OverLockedI(), Left);
  }

  /** Writing the O piece at column 3 over `LockedIBoard` leaves column 9 empty, so no row is
      full and clearing keeps the written grid. */
  lemma StampOverLockedIKeepsRows(y: int)
    requires y >= 0
    ensures var stamped := Stamp(LockedIBoard(), AllShapes[1], 3, y, Yellow);
      Shaped(stamped) && ClearedBoard(stamped) == stamped
  {
    var b := LockedIBoard();
    var stamped := Stamp(b, AllShapes[1], 3, y, Yellow);
    StampShaped(b, AllShapes[1], 3, y, Yellow);
    forall r | 0 <= r < |stamped| ensures !IsFull(stamped[r]) {
      StampCell(b, AllShapes[1], 3, y, Yellow, r, 9);
    }
    NoFullRowsKept(stamped);
  }

  /** The O piece shifted left has its next row step land on the I piece: the tick as written
      takes the step, locks the O piece there, and the cyan cell at row 19, column 3 turns
      yellow. */
  lemma GravityOverwritesLockedCell(k: nat, c: nat)
    requires k < |AllShapes| && c < |ShapeColors|
    ensures Consistent(OverLockedI()) && OverLockedI().running
    ensures Fits(AllShapes[1], 4, 18, LockedIBoard())
    ensures var st := KeyPressed(OverLockedI(), Left);
      st.x == 3 && Consistent(st) && Crosses(st) && !TickFaults(st) &&
      !Fits(st.shape, st.x, st.y + 1, st.board) &&
      Ticked(st, k, c).board[19][3] == Some(Yellow)
  {
    ShiftLeftOverLockedI();
    OOverLockedI();
    var st := OverLockedI().(x := 3);
    var p := Stepped(st);
    assert !LockFaults(p) by {
      OShape();
    }
    TickedCrossing(st, k, c);
    assert Collided(p, k, c) == Locked(p, k, c);
    assert Ticked(st, k, c).board == Locked(p, k, c).board;
    LockedBoard(p, k, c);
    var stamped := Stamp(LockedIBoard(), AllShapes[1], 3, 18, Yellow);
    assert p == State(LockedIBoard(), AllShapes[1], Yellow, 3, 18, 18 * BlockSize, 0, true, FallSpeed);
    assert Locked(p, k, c).board == ClearedBoard(stamped);
    StampOverLockedIKeepsRows(18);
    StampOntoLockedI();
  }

  /** Writing the O piece at column 3 in rows 18 and 19 turns the cyan cell at row 19, column 3
      yellow. */
  lemma StampOntoLockedI()
    ensures Stamp(LockedIBoard(), AllShapes[1], 3, 18, Yellow)[19][3] == Some(Yellow)
  {
    StampCell(LockedIBoard(), AllShapes[1], 3, 18, Yellow, 19, 3);
    OShape();
    assert Covers(AllShapes[1], 3, 18, 19, 3) by {
      assert Occupied(AllShapes[1], 1, 0);
    }
  }

  /** Writing the O piece at column 3 in rows 17 and 18 leaves the cyan cell below it cyan. */
  lemma StampAboveLockedI()
    ensures Stamp(LockedIBoard(), AllShapes[1], 3, 17, Yellow)[19][3] == Some(Cyan)
  {
    StampCell(LockedIBoard(), AllShapes[1], 3, 17, Yellow, 19, 3);
    assert |AllShapes[1]| == 2;
  }

  /** The corrected tick on the same input finds that the O piece cannot move down, locks it
      where it stands, in rows 17 and 18, and the cyan cell stays cyan. */
  lemma CheckedTickKeepsLockedCell(k: nat, c: nat)
    requires k < |AllShapes| && c < |ShapeColors|
    ensures Consistent(KeyPressed(OverLockedI(), Left))
    ensures var st := KeyPressed(OverLockedI(), Left);
      Crosses(st) && !Fits(st.shape, st.x, st.y + 1, st.board) &&
      TickedChecked(st, k, c) == SpeedReset(Locked(Fallen(st), k, c)) &&
      TickedChecked(st, k, c).board[19][3] == Some(Cyan)
  {
    ShiftLeftOverLockedI();
    OOverLockedI();
    var st := OverLockedI().(x := 3);
    var fallen := Fallen(st);
    assert Crosses(st);
    TickedCheckedCases(st, k, c);
    assert DescendedChecked(fallen, k, c) == Locked(fallen, k, c);
    assert TickedChecked(st, k, c) == SpeedReset(Locked(fallen, k, c));
    assert TickedChecked(st, k, c).board == Locked(fallen, k, c).board;
    assert !LockFaults(fallen) by {
      OShape();
    }
    LockedBoard(fallen, k, c);
    var stamped := Stamp(LockedIBoard(), AllShapes[1], 3, 17, Yellow);
    assert Locked(fallen, k, c).board == ClearedBoard(stamped);
    StampOverLockedIKeepsRows(17);
    StampAboveLockedI();
  }

  /** The T piece turned clockwise: three rows high, two wide. */
  lemma RotatedT()
    ensures Rotated(AllShapes[2]) == [[1, 0], [1, 1], [1, 0]]
  {
    var t := AllShapes[2];
    assert IsRect(t, 2, 3);
    RotatedIsClockwise(t, 2, 3);
    var r := Rotated(t);
    assert r[0] == [1, 0] && r[1] == [1, 1] && r[2] == [1, 0];
  }

  /** The purple T piece in rows 17 and 18, columns 4 to 6, one pixel above the boundary of
      row 18, on the empty board. */
  function TAboveFloor(): State {
    State(EmptyGrid(), AllShapes[2], ShapeColors[2], 4, 17, 17 * BlockSize + BlockSize - 1,
          0, true, FallSpeed)
  }

  /** Unturned, the T piece could move down one row, so the last `check_collision` let it go
      on. Turned just before the tick, the T piece reaches down to row 19; the tick as written
      steps it to row 18, from where its bottom cell lies in row 20, and `lock_piece` raises
      an IndexError. */
  lemma RotationLetsGravityPassFloor()
    ensures Consistent(TAboveFloor()) && TAboveFloor().running
    ensures Fits(AllShapes[2], 4, 18, EmptyGrid())
    ensures var st := KeyPressed(TAboveFloor(), Up);
      st.shape == Rotated(AllShapes[2]) && Consistent(st) && TickFaults(st)
  {
    var st0 := TAboveFloor();
    var t := AllShapes[2];
    RotatedT();
    var rt := Rotated(t);
    FitsEmptyGrid(t, 4, 17);
    FitsEmptyGrid(t, 4, 18);
    FitsEmptyGrid(rt, 4, 17);
    KeyPressKeepsConsistent(st0, Up);
    assert Occupied(rt, 2, 0) && 18 + 2 >= BoardHeight;
  }

  /** The corrected tick on the same input locks the turned T piece where it stands and
      keeps the game consistent. */
  lemma CheckedTickLocksAboveFloor(k: nat, c: nat)
    requires k < |AllShapes| && c < |ShapeColors|
    ensures Consistent(KeyPressed(TAboveFloor(), Up))
    ensures var st := KeyPressed(TAboveFloor(), Up);
      Crosses(st) && !Fits(st.shape, st.x, st.y + 1, st.board) &&
      TickedChecked(st, k, c) == SpeedReset(Locked(Fallen(st), k, c)) &&
      Consistent(TickedChecked(st, k, c))
  {
    RotationLetsGravityPassFloor();
    var st := KeyPressed(TAboveFloor(), Up);
    TurnedTCannotFall();
    TickedCheckedCases(st, k, c);
    assert DescendedChecked(Fallen(st), k, c) == Locked(Fallen(st), k, c);
    TickCheckedKeepsConsistent(st, k, c);
  }

  /** The turned T piece, three rows high, cannot move down from row 17 on the empty board. */
  lemma TurnedTCannotFall()
    ensures !Fits(Rotated(AllShapes[2]), 4, 18, EmptyGrid())
  {
    RotatedT();
    assert Occupied(Rotated(AllShapes[2]), 2, 0) && !Free(EmptyGrid(), 18 + 2, 4 + 0);
  }
}
