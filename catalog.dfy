/** The fixed tables of the game: the seven tetromino shapes, the seven
    colours and the board dimensions. */
module Catalog {

  /** A piece or board matrix: rows of integer cells, 0 meaning empty. */
  type Matrix = seq<seq<int>>

  const GRID_WIDTH: nat := 10
  const GRID_HEIGHT: nat := 20

  /** The seven shapes, in the source's order. */
  const SHAPES: seq<Matrix> := [
    [[1, 1, 1, 1]],
    [[1, 1], [1, 1]],
    [[1, 1, 1], [0, 1, 0]],
    [[1, 1, 1], [1, 0, 0]],
    [[1, 1, 1], [0, 0, 1]],
    [[1, 1, 0], [0, 1, 1]],
    [[0, 1, 1], [1, 1, 0]]
  ]

  /** The seven colours CYAN, YELLOW, MAGENTA, RED, GREEN, BLUE, ORANGE,
      each stood for by a distinct nonzero tag (a board cell holding a
      colour is a nonzero cell). */
  const COLORS: seq<int> := [1, 2, 3, 4, 5, 6, 7]

  /** Number of filled (nonzero) cells in a row. */
  function RowFilled(row: seq<int>): (n: nat)
    ensures n <= |row|
  {
    if |row| == 0 then 0
    else (if row[0] != 0 then 1 else 0) + RowFilled(row[1..])
  }

  /** Number of filled (nonzero) cells in a matrix. */
  function Filled(m: Matrix): nat
  {
    if |m| == 0 then 0 else Filled(m[..|m| - 1]) + RowFilled(m[|m| - 1])
  }

  /** Every colour is a nonzero tag and no two colours share a tag. */
  lemma ColorsAreDistinctTags()
    ensures |COLORS| == 7
    ensures forall i :: 0 <= i < |COLORS| ==> COLORS[i] != 0
    ensures forall i, j :: 0 <= i < j < |COLORS| ==> COLORS[i] != COLORS[j]
  {
  }

  /** Each of the seven shapes is a tetromino: exactly four filled cells,
      at most two rows and at most four columns. */
  lemma ShapesAreTetrominoes()
    ensures |SHAPES| == 7
    ensures forall k :: 0 <= k < |SHAPES| ==> Filled(SHAPES[k]) == 4
    ensures forall k :: 0 <= k < |SHAPES| ==>
      1 <= |SHAPES[k]| <= 2 && 1 <= |SHAPES[k][0]| <= 4
  {
    forall k | 0 <= k < |SHAPES|
      ensures Filled(SHAPES[k]) == 4
    {
      var m := SHAPES[k];
      assert m[..|m| - 1][..0] == [];
      if |m| == 2 {
        assert Filled(m) == RowFilled(m[0]) + RowFilled(m[1]);
      }
    }
  }

}
