/** The active piece's geometry: the rotation transform, the spawn column
    and the shape invariant that every rotation of a catalogue shape keeps. */
module Piece {
  import opened Catalog

  /** The matrix has `rows` rows, each of `cols` cells. */
  predicate IsRect(m: Matrix, rows: nat, cols: nat)
  {
    |m| == rows && forall i :: 0 <= i < |m| ==> |m[i]| == cols
  }

  /** A usable piece matrix: a nonempty rectangle in which every row and
      every column holds at least one filled cell (no empty edge). */
  ghost predicate IsShape(m: Matrix)
  {
    && |m| >= 1 && |m[0]| >= 1 && IsRect(m, |m|, |m[0]|)
    && (forall i :: 0 <= i < |m| ==> RowHasFilled(m, i))
    && (forall j :: 0 <= j < |m[0]| ==> ColumnHasFilled(m, j))
  }

  /** Row `i` holds a filled cell. */
  ghost predicate RowHasFilled(m: Matrix, i: int)
    requires 0 <= i < |m|
  {
    exists j :: 0 <= j < |m[i]| && m[i][j] != 0
  }

  /** Column `j` holds a filled cell. */
  ghost predicate ColumnHasFilled(m: Matrix, j: int)
  {
    exists i :: 0 <= i < |m| && 0 <= j < |m[i]| && m[i][j] != 0
  }

  /** Length of the shortest row (0 for no rows): the number of tuples
      Python's `zip` yields over the rows. */
  function MinWidth(m: Matrix): (w: nat)
    ensures forall i :: 0 <= i < |m| ==> w <= |m[i]|
    ensures |m| == 0 ==> w == 0
    ensures |m| > 0 ==> exists i :: 0 <= i < |m| && w == |m[i]|
  {
    if |m| == 0 then 0
    else if |m| == 1 then |m[0]|
    else
      var rest := MinWidth(m[1..]);
      assert forall i :: 1 <= i < |m| ==> m[1..][i - 1] == m[i];
      if |m[0]| <= rest then |m[0]| else rest
  }

  /** `rotate_piece`: reverse the row order, then transpose (via `zip`). */
  function Rotate(m: Matrix): Matrix
  {
    seq(MinWidth(m), i requires 0 <= i < MinWidth(m) =>
      seq(|m|, j requires 0 <= j < |m| => m[|m| - 1 - j][i]))
  }

  /** An R x C matrix (R, C >= 1) rotates to a C x R matrix whose cell
      (i, j) is cell (R-1-j, i) of the original: a clockwise quarter turn. */
  lemma RotateCells(m: Matrix, rows: nat, cols: nat)
    requires rows >= 1 && IsRect(m, rows, cols)
    ensures IsRect(Rotate(m), cols, rows)
    ensures forall i, j :: 0 <= i < cols && 0 <= j < rows ==>
      Rotate(m)[i][j] == m[rows - 1 - j][i]
  {
    var w := MinWidth(m);
    var k :| 0 <= k < |m| && w == |m[k]|;
    assert w == cols;
  }

  /** Two quarter turns: a half turn. */
  lemma RotateTwice(m: Matrix, rows: nat, cols: nat)
    requires rows >= 1 && cols >= 1 && IsRect(m, rows, cols)
    ensures IsRect(Rotate(Rotate(m)), rows, cols)
    ensures forall i, j :: 0 <= i < rows && 0 <= j < cols ==>
      Rotate(Rotate(m))[i][j] == m[rows - 1 - i][cols - 1 - j]
  {
    RotateCells(m, rows, cols);
    RotateCells(Rotate(m), cols, rows);
  }

  /** Rotation has period four on every nonempty rectangular matrix. */
  lemma RotateFourTimes(m: Matrix, rows: nat, cols: nat)
    requires rows >= 1 && cols >= 1 && IsRect(m, rows, cols)
    ensures Rotate(Rotate(Rotate(Rotate(m)))) == m
  {
    RotateTwice(m, rows, cols);
    var h := Rotate(Rotate(m));
    RotateTwice(h, rows, cols);
    var r := Rotate(Rotate(h));
    assert |r| == |m|;
    forall i | 0 <= i < rows
      ensures r[i] == m[i]
    {
      assert |r[i]| == |m[i]|;
      forall j | 0 <= j < cols
        ensures r[i][j] == m[i][j]
      {
        assert r[i][j] == h[rows - 1 - i][cols - 1 - j];
      }
    }
  }

  /** Rotation maps a usable piece matrix to a usable piece matrix: rows
      become columns and columns become rows. */
  lemma RotateKeepsShape(m: Matrix)
    requires IsShape(m)
    ensures IsShape(Rotate(m))
  {
    var rows, cols := |m|, |m[0]|;
    RotateCells(m, rows, cols);
    var r := Rotate(m);
    forall i | 0 <= i < cols
      ensures RowHasFilled(r, i)
    {
      assert ColumnHasFilled(m, i);
      var k :| 0 <= k < rows && m[k][i] != 0;
      assert r[i][rows - 1 - k] != 0;
    }
    forall j | 0 <= j < rows
      ensures ColumnHasFilled(r, j)
    {
      assert RowHasFilled(m, rows - 1 - j);
      var k :| 0 <= k < cols && m[rows - 1 - j][k] != 0;
      assert r[k][j] != 0;
    }
  }

  /** Every catalogue shape is a usable piece matrix. */
  lemma CatalogShapes()
    ensures forall k :: 0 <= k < |SHAPES| ==> IsShape(SHAPES[k])
  {
    forall k | 0 <= k < |SHAPES|
      ensures IsShape(SHAPES[k])
    {
      var m := SHAPES[k];
      forall i | 0 <= i < |m| ensures RowHasFilled(m, i) {
        if m[i][0] == 0 && m[i][1] == 0 {
          assert m[i][|m[i]| - 1] != 0;
        }
      }
      forall j | 0 <= j < |m[0]| ensures ColumnHasFilled(m, j) {
        if m[0][j] == 0 {
          assert m[|m| - 1][j] != 0;
        }
      }
    }
  }

  /** `new_piece`'s column: half the board width minus half the piece
      width, both rounded down. A piece no wider than the board lies wholly
      on it, with the left margin equal to the right one or, for an odd
      width, one column wider. */
  function SpawnX(m: Matrix): (x: int)
    requires |m| >= 1
    ensures |m[0]| <= GRID_WIDTH ==> 0 <= x && x + |m[0]| <= GRID_WIDTH
    ensures GRID_WIDTH - (x + |m[0]|) <= x <= GRID_WIDTH - (x + |m[0]|) + 1
    ensures x - (GRID_WIDTH - (x + |m[0]|)) == |m[0]| % 2
  {
    GRID_WIDTH / 2 - |m[0]| / 2
  }
}
