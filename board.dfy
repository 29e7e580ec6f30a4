// The grid of locked cells: legality of a piece placement, writing a piece into the
// grid, and the removal of full rows.
module Board {
  import opened Shapes

  datatype Option<T> = None | Some(value: T)

  /** A cell is empty (None) or holds the colour of locked piece material. */
  type Row = seq<Option<Color>>
  type Grid = seq<Row>

  /** The board keeps BoardHeight rows of BoardWidth cells. */
  predicate Shaped(b: Grid) {
    |b| == BoardHeight && forall r :: 0 <= r < |b| ==> |b[r]| == BoardWidth
  }

  function EmptyRow(): (row: Row)
    ensures |row| == BoardWidth && forall c :: 0 <= c < |row| ==> row[c] == None
  {
    seq(BoardWidth, _ => None)
  }

  function EmptyRows(n: nat): (rows: Grid)
    ensures |rows| == n && forall r :: 0 <= r < n ==> rows[r] == EmptyRow()
  {
    seq(n, _ => EmptyRow())
  }

  /** One more empty row on top. */
  lemma EmptyRowsGrow(n: nat)
    ensures [EmptyRow()] + EmptyRows(n) == EmptyRows(n + 1)
  {
    assert forall r :: 0 <= r < n + 1 ==> ([EmptyRow()] + EmptyRows(n))[r] == EmptyRow();
  }

  /** The board the game starts with. */
  function EmptyGrid(): (b: Grid)
    ensures Shaped(b)
  {
    EmptyRows(BoardHeight)
  }

  // ---------------------------------------------------------------------------
  // Placement of a shape anchored at column x, row y

  predicate Occupied(s: Shape, i: int, j: int) {
    0 <= i < |s| && 0 <= j < |s[i]| && s[i][j] == 1
  }

  /** Board cell (r, c) may hold a piece cell: inside the side walls, above the floor,
      and either above the top edge or not locked. */
  predicate Free(b: Grid, r: int, c: int)
    requires Shaped(b)
  {
    0 <= c < BoardWidth && r < BoardHeight && (r >= 0 ==> b[r][c] == None)
  }

  /** What `valid_move` decides for the shifted anchor (x, y). */
  ghost predicate Fits(s: Shape, x: int, y: int, b: Grid)
    requires Shaped(b)
  {
    forall i, j | Occupied(s, i, j) :: Free(b, y + i, x + j)
  }

  ghost predicate WithinWalls(s: Shape, x: int) {
    forall i, j | Occupied(s, i, j) :: 0 <= x + j < BoardWidth
  }

  ghost predicate AboveFloor(s: Shape, y: int) {
    forall i, j | Occupied(s, i, j) :: y + i < BoardHeight
  }

  lemma FitsInBounds(s: Shape, x: int, y: int, b: Grid)
    requires Shaped(b) && Fits(s, x, y, b)
    ensures WithinWalls(s, x) && AboveFloor(s, y)
  {
    forall i, j | Occupied(s, i, j) ensures 0 <= x + j < BoardWidth && y + i < BoardHeight {
      assert Free(b, y + i, x + j);
    }
  }

  /** On the empty board, legality is only a matter of the walls and the floor. */
  lemma FitsEmptyGrid(s: Shape, x: int, y: int)
    requires WithinWalls(s, x) && AboveFloor(s, y)
    ensures Fits(s, x, y, EmptyGrid())
  {
    forall i, j | Occupied(s, i, j) ensures Free(EmptyGrid(), y + i, x + j) {
      assert 0 <= x + j < BoardWidth && y + i < BoardHeight;
    }
  }

  /** A move is rejected exactly when some occupied cell would leave the side walls, go below
      the floor, or land on a locked cell at a row that is on the board. */
  lemma {:induction false} FitsFailsIff(s: Shape, x: int, y: int, b: Grid)
    requires Shaped(b)
    ensures !Fits(s, x, y, b) <==>
      exists i, j :: Occupied(s, i, j) &&
        (x + j < 0 || x + j >= BoardWidth || y + i >= BoardHeight ||
         (y + i >= 0 && b[y + i][x + j] != None))
  {
    if !Fits(s, x, y, b) {
      var i, j :| Occupied(s, i, j) && !Free(b, y + i, x + j);
    }
  }

  /** A piece with an occupied row below the floor cannot move down either. */
  lemma FitsFallsOffFloor(s: Shape, x: int, y: int, b: Grid)
    requires Shaped(b) && !AboveFloor(s, y)
    ensures !Fits(s, x, y + 1, b)
  {
    var i, j :| Occupied(s, i, j) && y + i >= BoardHeight;
    assert !Free(b, y + 1 + i, x + j);
  }

  // ---------------------------------------------------------------------------
  // Writing a piece into the board

  /** Board cell (r, c) is an occupied cell of the shape anchored at (x, y). */
  predicate Covers(s: Shape, x: int, y: int, r: int, c: int) {
    0 <= r - y < |s| && 0 <= c - x < |s[r - y]| && s[r - y][c - x] == 1
  }

  /** Shape cell (i, j) comes before (i0, j0) in row-major order. */
  predicate Before(i: int, j: int, i0: int, j0: int) {
    i < i0 || (i == i0 && j < j0)
  }

  /** The board after the piece's cells before (i0, j0), in the order `lock_piece` visits
      them, have been written with `color`. Cells outside the grid are not written. */
  function StampUpTo(b: Grid, s: Shape, x: int, y: int, color: Color, i0: int, j0: int): (b': Grid)
    ensures |b'| == |b| && forall r :: 0 <= r < |b| ==> |b'[r]| == |b[r]|
  {
    seq(|b|, r requires 0 <= r < |b| =>
      seq(|b[r]|, c requires 0 <= c < |b[r]| =>
        if Covers(s, x, y, r, c) && Before(r - y, c - x, i0, j0) then Some(color) else b[r][c]))
  }

  /** The board with every on-grid occupied cell of the piece written with its colour. */
  function Stamp(b: Grid, s: Shape, x: int, y: int, color: Color): Grid {
    StampUpTo(b, s, x, y, color, |s|, 0)
  }

  /** Locking sets exactly the piece's cells to its colour and keeps every other cell. */
  lemma StampCell(b: Grid, s: Shape, x: int, y: int, color: Color, r: nat, c: nat)
    requires r < |b| && c < |b[r]|
    ensures |Stamp(b, s, x, y, color)| == |b|
    ensures Stamp(b, s, x, y, color)[r][c] == if Covers(s, x, y, r, c) then Some(color) else b[r][c]
  {
  }

  lemma StampShaped(b: Grid, s: Shape, x: int, y: int, color: Color)
    requires Shaped(b)
    ensures Shaped(Stamp(b, s, x, y, color))
  {
  }

  /** A piece that fits is written only into empty cells: no locked cell is overwritten. */
  lemma {:induction false} StampKeepsLockedCells(b: Grid, s: Shape, x: int, y: int, color: Color)
    requires Shaped(b) && Fits(s, x, y, b)
    ensures forall r, c :: 0 <= r < |b| && 0 <= c < |b[r]| && b[r][c] != None ==>
      Stamp(b, s, x, y, color)[r][c] == b[r][c]
  {
    forall r, c | 0 <= r < |b| && 0 <= c < |b[r]| && b[r][c] != None
      ensures Stamp(b, s, x, y, color)[r][c] == b[r][c]
    {
      assert Covers(s, x, y, r, c) ==> Occupied(s, r - y, c - x);
      assert Free(b, y + (r - y), x + (c - x)) ==> !Covers(s, x, y, r, c);
    }
  }

  lemma StampNothing(b: Grid, s: Shape, x: int, y: int, color: Color)
    ensures StampUpTo(b, s, x, y, color, 0, 0) == b
  {
    var B := StampUpTo(b, s, x, y, color, 0, 0);
    forall r | 0 <= r < |b| ensures B[r] == b[r] {
      assert |B[r]| == |b[r]|;
    }
  }

  lemma StampStep(b: Grid, s: Shape, x: int, y: int, color: Color, i: int, j: int)
    requires Occupied(s, i, j) && 0 <= y + i < |b| && 0 <= x + j < |b[y + i]|
    ensures var B := StampUpTo(b, s, x, y, color, i, j);
      StampUpTo(b, s, x, y, color, i, j + 1) == B[y + i := B[y + i][x + j := Some(color)]]
  {
    var B := StampUpTo(b, s, x, y, color, i, j);
    var B' := StampUpTo(b, s, x, y, color, i, j + 1);
    var W := B[y + i := B[y + i][x + j := Some(color)]];
    forall r | 0 <= r < |b| ensures B'[r] == W[r] {
      assert |B'[r]| == |W[r]|;
    }
  }

  lemma StampSkip(b: Grid, s: Shape, x: int, y: int, color: Color, i: int, j: int)
    requires !Occupied(s, i, j)
    ensures StampUpTo(b, s, x, y, color, i, j + 1) == StampUpTo(b, s, x, y, color, i, j)
  {
    var B := StampUpTo(b, s, x, y, color, i, j);
    var B' := StampUpTo(b, s, x, y, color, i, j + 1);
    forall r | 0 <= r < |b| ensures B'[r] == B[r] {
      assert |B'[r]| == |B[r]|;
    }
  }

  lemma StampNextRow(b: Grid, s: Shape, x: int, y: int, color: Color, i: int)
    requires 0 <= i < |s|
    ensures StampUpTo(b, s, x, y, color, i, |s[i]|) == StampUpTo(b, s, x, y, color, i + 1, 0)
  {
    var B := StampUpTo(b, s, x, y, color, i, |s[i]|);
    var B' := StampUpTo(b, s, x, y, color, i + 1, 0);
    forall r | 0 <= r < |b| ensures B'[r] == B[r] {
      assert |B'[r]| == |B[r]|;
    }
  }

  /** Once a shape row lies below the last board row, no later cell is written. */
  lemma StampRestOffGrid(b: Grid, s: Shape, x: int, y: int, color: Color, i: int, j: int)
    requires y + i >= |b| && i <= |s|
    ensures StampUpTo(b, s, x, y, color, i, j) == Stamp(b, s, x, y, color)
  {
    var B := StampUpTo(b, s, x, y, color, i, j);
    var B' := Stamp(b, s, x, y, color);
    forall r | 0 <= r < |b| ensures B'[r] == B[r] {
      assert |B'[r]| == |B[r]|;
    }
  }

  // ---------------------------------------------------------------------------
  // Full rows

  /** A row without an empty cell. */
  predicate IsFull(row: Row) {
    forall c :: 0 <= c < |row| ==> row[c] != None
  }

  /** The rows of `b` that have an empty cell, in their original order. */
  function NonFullRows(b: Grid): (kept: Grid)
    ensures |kept| <= |b|
    ensures forall k :: 0 <= k < |kept| ==> !IsFull(kept[k]) && kept[k] in b
  {
    if b == [] then []
    else (if IsFull(b[0]) then [] else [b[0]]) + NonFullRows(b[1..])
  }

  function FullCount(b: Grid): nat {
    if b == [] then 0
    else (if IsFull(b[0]) then 1 else 0) + FullCount(b[1..])
  }

  /** The board `clear_full_rows` builds: one empty row on top per full row removed. */
  function ClearedBoard(b: Grid): Grid {
    EmptyRows(FullCount(b)) + NonFullRows(b)
  }

  /** Every row is either kept or counted as full. */
  lemma {:induction false} KeptPlusFull(b: Grid)
    ensures |NonFullRows(b)| + FullCount(b) == |b|
  {
    if b != [] {
      KeptPlusFull(b[1..]);
    }
  }

  lemma {:induction false} NonFullRowsAppend(a: Grid, b: Grid)
    ensures NonFullRows(a + b) == NonFullRows(a) + NonFullRows(b)
    ensures FullCount(a + b) == FullCount(a) + FullCount(b)
  {
    if a == [] {
      assert a + b == b;
    } else {
      assert (a + b)[1..] == a[1..] + b;
      NonFullRowsAppend(a[1..], b);
    }
  }

  /** A board without full rows is left as it is. */
  lemma {:induction false} NoFullRowsKept(b: Grid)
    requires forall r :: 0 <= r < |b| ==> !IsFull(b[r])
    ensures NonFullRows(b) == b && FullCount(b) == 0
  {
    if b != [] {
      NoFullRowsKept(b[1..]);
    }
  }

  /** Clearing removes no non-full row from its place in the order: the k-th row of `b`, when
      it is not full, is the kept row that follows the kept rows of `b[..k]`. */
  lemma {:induction false} KeptRowOrder(b: Grid, k: nat)
    requires k < |b| && !IsFull(b[k])
    ensures |NonFullRows(b[..k])| < |NonFullRows(b)|
    ensures NonFullRows(b)[|NonFullRows(b[..k])|] == b[k]
  {
    assert b == b[..k] + b[k..];
    NonFullRowsAppend(b[..k], b[k..]);
    assert b[k..][1..] == b[k + 1..];
  }

  /** The shape of the cleared board: full height and width, the top rows empty, the kept rows
      below them in order, and no full row left. */
  lemma {:induction false} ClearedBoardShape(b: Grid)
    requires Shaped(b)
    ensures Shaped(ClearedBoard(b))
    ensures forall r :: 0 <= r < FullCount(b) ==> ClearedBoard(b)[r] == EmptyRow()
    ensures ClearedBoard(b)[FullCount(b)..] == NonFullRows(b)
    ensures forall r :: 0 <= r < |ClearedBoard(b)| ==> !IsFull(ClearedBoard(b)[r])
  {
    KeptPlusFull(b);
    var n := FullCount(b);
    var kept := NonFullRows(b);
    var e := EmptyRows(n);
    assert ClearedBoard(b) == e + kept;
    forall r | 0 <= r < |kept| ensures |kept[r]| == BoardWidth {
      assert kept[r] in b;
    }
    forall r | 0 <= r < n + |kept| ensures !IsFull((e + kept)[r]) {
      if r < n {
        assert (e + kept)[r][0] == None;
      } else {
        assert (e + kept)[r] == kept[r - n];
      }
    }
    assert (e + kept)[n..] == kept;
  }

  /** A second clear right after the first finds no full row and changes nothing. */
  lemma {:induction false} ClearIsIdempotent(b: Grid)
    requires Shaped(b)
    ensures FullCount(ClearedBoard(b)) == 0
    ensures ClearedBoard(ClearedBoard(b)) == ClearedBoard(b)
  {
    ClearedBoardShape(b);
    NoFullRowsKept(ClearedBoard(b));
    assert EmptyRows(0) + ClearedBoard(b) == ClearedBoard(b);
  }

  /** When only the bottom row is full, it goes, everything else moves down one row and one
      empty row appears on top. */
  lemma {:induction false} ClearOnlyBottomRow(b: Grid)
    requires Shaped(b) && IsFull(b[BoardHeight - 1])
    requires forall r :: 0 <= r < BoardHeight - 1 ==> !IsFull(b[r])
    ensures FullCount(b) == 1
    ensures ClearedBoard(b) == [EmptyRow()] + b[..BoardHeight - 1]
  {
    var top := b[..BoardHeight - 1];
    assert b == top + [b[BoardHeight - 1]];
    NonFullRowsAppend(top, [b[BoardHeight - 1]]);
    NoFullRowsKept(top);
    assert [b[BoardHeight - 1]][1..] == [];
    assert EmptyRows(1) == [EmptyRow()];
  }
}
