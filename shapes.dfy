// Game constants, the tetromino table and the clockwise rotation of a shape matrix.
module Shapes {

  const CanvasWidth := 300
  const CanvasHeight := 600
  const BlockSize := 30
  /** The board measures the canvas in blocks: 10 columns and 20 rows. */
  const BoardWidth := CanvasWidth / BlockSize
  const BoardHeight := CanvasHeight / BlockSize
  /** Pixels a piece falls per tick, normally and while Down is pressed. */
  const FallSpeed := 1
  const FastDropSpeed := 100

  /** A shape is a matrix of 0/1 cells; a cell equal to 1 is occupied. */
  type Shape = seq<seq<int>>

  /** I, O, T, S, Z, L and J, in the order of the source's table. */
  const AllShapes: seq<Shape> := [
    [[1, 1, 1, 1]],
    [[1, 1], [1, 1]],
    [[0, 1, 0], [1, 1, 1]],
    [[1, 1, 0], [0, 1, 1]],
    [[0, 1, 1], [1, 1, 0]],
    [[1, 1, 1], [1, 0, 0]],
    [[1, 1, 1], [0, 0, 1]]
  ]

  datatype Color = Cyan | Yellow | Purple | Green | Red | Orange | Blue

  const ShapeColors: seq<Color> := [Cyan, Yellow, Purple, Green, Red, Orange, Blue]

  /** `s` has exactly `rows` rows, each of length `cols`. */
  predicate IsRect(s: Shape, rows: nat, cols: nat) {
    |s| == rows && forall i :: 0 <= i < |s| ==> |s[i]| == cols
  }

  /** The rows of `s` in reverse order (Python's `s[::-1]`). */
  function Reverse(s: Shape): Shape {
    seq(|s|, k requires 0 <= k < |s| => s[|s| - 1 - k])
  }

  /** The length of the shortest row, which is how far `zip` runs; 0 when there is no row. */
  function MinLen(rows: Shape): (n: nat)
    ensures forall k :: 0 <= k < |rows| ==> n <= |rows[k]|
    ensures |rows| > 0 ==> exists k :: 0 <= k < |rows| && n == |rows[k]|
  {
    if |rows| == 0 then 0
    else if |rows| == 1 then |rows[0]|
    else
      var m := MinLen(rows[1..]);
      if |rows[0]| <= m then |rows[0]| else m
  }

  /** Python's `zip(*rows)`: the i-th result row collects the i-th cell of every row. */
  function Zip(rows: Shape): Shape {
    seq(MinLen(rows), i requires 0 <= i < MinLen(rows) =>
      seq(|rows|, j requires 0 <= j < |rows| => rows[j][i]))
  }

  /** `Piece.rotate`: `zip(*shape[::-1])`. For any matrix, ragged or not, there are no more
      result rows than the shortest row has cells, each result row has one cell per row of
      `s`, and cell (i, j) is cell (|s| - 1 - j, i) of `s`: a clockwise quarter turn. */
  function Rotated(s: Shape): (r: Shape)
    ensures forall k :: 0 <= k < |s| ==> |r| <= |s[k]|
    ensures forall i :: 0 <= i < |r| ==> |r[i]| == |s|
    ensures forall i, j :: 0 <= i < |r| && 0 <= j < |s| ==> r[i][j] == s[|s| - 1 - j][i]
  {
    var rev := Reverse(s);
    assert forall k :: 0 <= k < |s| ==> rev[|s| - 1 - k] == s[k];
    Zip(rev)
  }

  /** Rotation turns an r-by-c matrix into a c-by-r one, clockwise. */
  lemma RotatedIsClockwise(s: Shape, r: nat, c: nat)
    requires IsRect(s, r, c) && r > 0
    ensures IsRect(Rotated(s), c, r)
    ensures forall i, j :: 0 <= i < c && 0 <= j < r ==> Rotated(s)[i][j] == s[r - 1 - j][i]
  {
    var rev := Reverse(s);
    assert |rev[0]| == c;
    assert MinLen(rev) == c;
  }

  /** Rotation has order four on every non-degenerate rectangular shape. */
  lemma {:induction false} RotateFourTimes(s: Shape, r: nat, c: nat)
    requires IsRect(s, r, c) && r > 0 && c > 0
    ensures Rotated(Rotated(Rotated(Rotated(s)))) == s
  {
    var s1 := Rotated(s);
    RotatedIsClockwise(s, r, c);
    var s2 := Rotated(s1);
    RotatedIsClockwise(s1, c, r);
    var s3 := Rotated(s2);
    RotatedIsClockwise(s2, r, c);
    var s4 := Rotated(s3);
    RotatedIsClockwise(s3, c, r);
    forall i | 0 <= i < r
      ensures s4[i] == s[i]
    {
      forall j | 0 <= j < c
        ensures s4[i][j] == s[i][j]
      {
        calc {
          s4[i][j];
          s3[c - 1 - j][i];
          s2[r - 1 - i][c - 1 - j];
          s1[j][r - 1 - i];
          s[i][j];
        }
      }
    }
  }

  /** Every entry of the table is a non-empty rectangle at most two rows high and four wide. */
  lemma ShapeTableDims(k: nat)
    requires k < |AllShapes|
    ensures |AllShapes[k]| > 0
    ensures IsRect(AllShapes[k], |AllShapes[k]|, |AllShapes[k][0]|)
    ensures |AllShapes[k]| <= 2 && 0 < |AllShapes[k][0]| <= 4
  {
    if k == 0 {
    } else if k == 1 {
    } else if k == 2 {
    } else if k == 3 {
    } else if k == 4 {
    } else if k == 5 {
    } else {
    }
  }

  /** Four rotations bring every tetromino of the table back to itself. */
  lemma {:induction false} TableShapesRotateBack(k: nat)
    requires k < |AllShapes|
    ensures Rotated(Rotated(Rotated(Rotated(AllShapes[k])))) == AllShapes[k]
  {
    ShapeTableDims(k);
    RotateFourTimes(AllShapes[k], |AllShapes[k]|, |AllShapes[k][0]|);
  }
}
