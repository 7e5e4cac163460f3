/** The board of locked cells: its shape, the collision test, the cells a
    lock writes, and the row clearing sweep exactly as `clear_lines` runs it. */
module Board {
  import opened Catalog
  import opened Piece

  type Grid = Matrix

  /** GRID_HEIGHT rows of GRID_WIDTH cells. */
  predicate WellFormed(g: Grid)
  {
    IsRect(g, GRID_HEIGHT, GRID_WIDTH)
  }

  /** `[0 for _ in range(GRID_WIDTH)]`. */
  function EmptyRow(): seq<int>
  {
    seq(GRID_WIDTH, _ => 0)
  }

  /** `n` empty rows. */
  function Empties(n: nat): Grid
  {
    seq(n, _ => EmptyRow())
  }

  /** The board at the start of a game. */
  function EmptyGrid(): (g: Grid)
    ensures WellFormed(g)
    ensures Filled(g) == 0
  {
    EmptiesFilled(GRID_HEIGHT);
    Empties(GRID_HEIGHT)
  }

  /** Cell (r, c) of the piece matrix exists and is filled. */
  predicate FilledAt(piece: Matrix, r: int, c: int)
  {
    0 <= r < |piece| && 0 <= c < |piece[r]| && piece[r][c] != 0
  }

  /** A filled piece cell may not land on board column `cx`, row `cy`: the
      column is off the board, the row is below the floor, or the board
      cell is occupied. Rows above the board (cy < 0) are not a case: the
      piece's row never drops below 0. */
  predicate Blocked(g: Grid, cx: int, cy: int)
    requires WellFormed(g) && cy >= 0
  {
    cx < 0 || cx >= GRID_WIDTH || cy >= GRID_HEIGHT || g[cy][cx] != 0
  }

  /** The inner loop of `check_collision` over one piece row, from cell
      `xo` on, landing on board row `cy`. */
  function RowCollides(g: Grid, row: seq<int>, x: int, cy: int, xo: nat): bool
    requires WellFormed(g) && cy >= 0 && xo <= |row|
    decreases |row| - xo
  {
    if xo == |row| then false
    else if row[xo] != 0 && Blocked(g, x + xo, cy) then true
    else RowCollides(g, row, x, cy, xo + 1)
  }

  /** The outer loop of `check_collision`, from piece row `yo` on; the
      first blocked cell ends the scan with true. */
  function CollidesFrom(g: Grid, piece: Matrix, x: int, y: int, yo: nat): bool
    requires WellFormed(g) && y >= 0 && yo <= |piece|
    decreases |piece| - yo
  {
    if yo == |piece| then false
    else RowCollides(g, piece[yo], x, y + yo, 0) || CollidesFrom(g, piece, x, y, yo + 1)
  }

  /** `check_collision(piece, x, y)`, reading only the board `g`. */
  predicate Collides(g: Grid, piece: Matrix, x: int, y: int)
    requires WellFormed(g) && y >= 0
  {
    CollidesFrom(g, piece, x, y, 0)
  }

  /** Reference reading of a collision: some filled cell of the piece
      placed with its top-left corner at (x, y) is blocked. */
  ghost predicate HitsObstacle(g: Grid, piece: Matrix, x: int, y: int)
    requires WellFormed(g) && y >= 0
  {
    exists r, c :: FilledAt(piece, r, c) && Blocked(g, x + c, y + r)
  }

  /** The row scan from cell `xo` finds a blocked filled cell iff one exists. */
  lemma {:induction false} RowCollidesIff(g: Grid, row: seq<int>, x: int, cy: int, xo: nat)
    requires WellFormed(g) && cy >= 0 && xo <= |row|
    ensures RowCollides(g, row, x, cy, xo) <==>
      exists c :: xo <= c < |row| && row[c] != 0 && Blocked(g, x + c, cy)
    decreases |row| - xo
  {
    if xo < |row| {
      RowCollidesIff(g, row, x, cy, xo + 1);
      if RowCollides(g, row, x, cy, xo + 1) {
        var c :| xo + 1 <= c < |row| && row[c] != 0 && Blocked(g, x + c, cy);
        assert xo <= c;
      }
    }
  }

  /** The scan from piece row `yo` finds a blocked filled cell iff one exists. */
  lemma {:induction false} CollidesFromIff(g: Grid, piece: Matrix, x: int, y: int, yo: nat)
    requires WellFormed(g) && y >= 0 && yo <= |piece|
    ensures CollidesFrom(g, piece, x, y, yo) <==>
      exists r, c :: yo <= r && FilledAt(piece, r, c) && Blocked(g, x + c, y + r)
    decreases |piece| - yo
  {
    if yo < |piece| {
      RowCollidesIff(g, piece[yo], x, y + yo, 0);
      CollidesFromIff(g, piece, x, y, yo + 1);
      if RowCollides(g, piece[yo], x, y + yo, 0) {
        var c :| 0 <= c < |piece[yo]| && piece[yo][c] != 0 && Blocked(g, x + c, y + yo);
        assert FilledAt(piece, yo, c);
      } else if CollidesFrom(g, piece, x, y, yo + 1) {
        var r, c :| yo + 1 <= r && FilledAt(piece, r, c) && Blocked(g, x + c, y + r);
        assert yo <= r;
      }
      if exists r, c :: yo <= r && FilledAt(piece, r, c) && Blocked(g, x + c, y + r) {
        var r, c :| yo <= r && FilledAt(piece, r, c) && Blocked(g, x + c, y + r);
        if r == yo {
          assert piece[yo][c] != 0;
        }
      }
    }
  }

  /** `check_collision` answers true exactly when some filled cell lands
      left of column 0, right of the last column, below the floor or on an
      occupied cell. */
  lemma CollidesIff(g: Grid, piece: Matrix, x: int, y: int)
    requires WellFormed(g) && y >= 0
    ensures Collides(g, piece, x, y) <==> HitsObstacle(g, piece, x, y)
  {
    CollidesFromIff(g, piece, x, y, 0);
  }

  /** A collision-free position of a usable piece lies wholly on the board:
      its leftmost, rightmost and lowest filled cells are in bounds. */
  lemma CollisionFreeWithinBoard(g: Grid, piece: Matrix, x: int, y: int)
    requires WellFormed(g) && y >= 0 && IsShape(piece)
    requires !Collides(g, piece, x, y)
    ensures 0 <= x && x + |piece[0]| <= GRID_WIDTH && y + |piece| <= GRID_HEIGHT
  {
    CollidesIff(g, piece, x, y);
    var rows, cols := |piece|, |piece[0]|;
    assert ColumnHasFilled(piece, 0);
    var i0 :| 0 <= i0 < rows && piece[i0][0] != 0;
    assert FilledAt(piece, i0, 0);
    assert ColumnHasFilled(piece, cols - 1);
    var i1 :| 0 <= i1 < rows && piece[i1][cols - 1] != 0;
    assert FilledAt(piece, i1, cols - 1);
    assert RowHasFilled(piece, rows - 1);
    var j :| 0 <= j < |piece[rows - 1]| && piece[rows - 1][j] != 0;
    assert FilledAt(piece, rows - 1, j);
  }

  /** Every filled cell of a collision-free piece lands on an empty cell
      of the board. */
  lemma CollisionFreeCells(g: Grid, piece: Matrix, x: int, y: int)
    requires WellFormed(g) && y >= 0
    requires !Collides(g, piece, x, y)
    ensures forall r, c :: FilledAt(piece, r, c) ==>
      0 <= x + c < GRID_WIDTH && y + r < GRID_HEIGHT && g[y + r][x + c] == 0
  {
    CollidesIff(g, piece, x, y);
  }

  /** On an empty board a piece no larger than the board never collides
      at its spawn position. */
  lemma SpawnFitsEmptyBoard(piece: Matrix)
    requires |piece| >= 1 && IsRect(piece, |piece|, |piece[0]|)
    requires |piece| <= GRID_HEIGHT && |piece[0]| <= GRID_WIDTH
    ensures !Collides(EmptyGrid(), piece, SpawnX(piece), 0)
  {
    CollidesIff(EmptyGrid(), piece, SpawnX(piece), 0);
  }

  /** Each of the seven shapes can be spawned on an empty board. */
  lemma CatalogSpawnsOnEmptyBoard()
    ensures forall k :: 0 <= k < |SHAPES| ==>
      !Collides(EmptyGrid(), SHAPES[k], SpawnX(SHAPES[k]), 0)
  {
    forall k | 0 <= k < |SHAPES|
      ensures !Collides(EmptyGrid(), SHAPES[k], SpawnX(SHAPES[k]), 0)
    {
      SpawnFitsEmptyBoard(SHAPES[k]);
    }
  }

  /** Piece cell (r, c) comes before piece cell (rows, cols) in the order
      the lock loop visits cells: row by row, left to right. */
  predicate Before(r: int, c: int, rows: int, cols: int)
  {
    r < rows || (r == rows && c < cols)
  }

  /** The board part way through the lock loop: the piece's filled cells
      before (rows, cols) have been written, the others not yet. */
  function PartialStamp(g: Grid, piece: Matrix, x: int, y: int, color: int, rows: int, cols: int): (s: Grid)
    requires WellFormed(g)
    ensures |s| == GRID_HEIGHT
  {
    seq(GRID_HEIGHT, i requires 0 <= i < GRID_HEIGHT => StampRow(g, piece, x, y, color, rows, cols, i))
  }

  /** Board row `i` part way through the lock loop. */
  function StampRow(g: Grid, piece: Matrix, x: int, y: int, color: int, rows: int, cols: int, i: int): (row: seq<int>)
    requires WellFormed(g) && 0 <= i < GRID_HEIGHT
    ensures |row| == GRID_WIDTH
    ensures forall j :: 0 <= j < GRID_WIDTH ==> row[j] == StampCell(g, piece, x, y, color, rows, cols, i, j)
  {
    seq(GRID_WIDTH, j requires 0 <= j < GRID_WIDTH => StampCell(g, piece, x, y, color, rows, cols, i, j))
  }

  /** The partly locked board has the board's dimensions and its cells
      are given by `StampCell`. */
  lemma PartialStampCells(g: Grid, piece: Matrix, x: int, y: int, color: int, rows: int, cols: int)
    requires WellFormed(g)
    ensures var s := PartialStamp(g, piece, x, y, color, rows, cols);
      && WellFormed(s)
      && forall i, j :: 0 <= i < GRID_HEIGHT && 0 <= j < GRID_WIDTH ==>
        s[i][j] == StampCell(g, piece, x, y, color, rows, cols, i, j)
  {
  }

  /** Board cell (i, j) part way through the lock loop. */
  function StampCell(g: Grid, piece: Matrix, x: int, y: int, color: int, rows: int, cols: int, i: int, j: int): int
    requires WellFormed(g) && 0 <= i < GRID_HEIGHT && 0 <= j < GRID_WIDTH
  {
    if FilledAt(piece, i - y, j - x) && Before(i - y, j - x, rows, cols) then color else g[i][j]
  }

  /** The board after locking the piece at (x, y) in `color`. */
  function Stamp(g: Grid, piece: Matrix, x: int, y: int, color: int): (s: Grid)
    requires WellFormed(g)
    ensures WellFormed(s)
    ensures forall i, j :: 0 <= i < GRID_HEIGHT && 0 <= j < GRID_WIDTH ==>
      s[i][j] == if FilledAt(piece, i - y, j - x) then color else g[i][j]
  {
    var s := PartialStamp(g, piece, x, y, color, |piece|, 0);
    PartialStampCells(g, piece, x, y, color, |piece|, 0);
    assert forall i, j :: 0 <= i < GRID_HEIGHT && 0 <= j < GRID_WIDTH ==>
      s[i][j] == if FilledAt(piece, i - y, j - x) then color else g[i][j];
    s
  }

  /** Before the lock loop the board is unchanged. */
  lemma StampStart(g: Grid, piece: Matrix, x: int, y: int, color: int)
    requires WellFormed(g)
    ensures PartialStamp(g, piece, x, y, color, 0, 0) == g
  {
    var s := PartialStamp(g, piece, x, y, color, 0, 0);
    PartialStampCells(g, piece, x, y, color, 0, 0);
    forall i | 0 <= i < GRID_HEIGHT
      ensures s[i] == g[i]
    {
      assert forall j :: 0 <= j < GRID_WIDTH ==> s[i][j] == g[i][j];
    }
  }

  /** Visiting piece cell (r, c) writes `color` to the board cell under it
      when it is filled, and changes nothing otherwise. */
  lemma StampStep(g: Grid, piece: Matrix, x: int, y: int, color: int, r: int, c: int)
    requires WellFormed(g) && 0 <= r < |piece| && 0 <= c < |piece[r]|
    requires piece[r][c] != 0 ==> 0 <= y + r < GRID_HEIGHT && 0 <= x + c < GRID_WIDTH
    ensures var s := PartialStamp(g, piece, x, y, color, r, c);
      PartialStamp(g, piece, x, y, color, r, c + 1) ==
        if piece[r][c] != 0 then s[y + r := s[y + r][x + c := color]] else s
  {
    var s := PartialStamp(g, piece, x, y, color, r, c);
    var t := PartialStamp(g, piece, x, y, color, r, c + 1);
    PartialStampCells(g, piece, x, y, color, r, c);
    PartialStampCells(g, piece, x, y, color, r, c + 1);
    var u := if piece[r][c] != 0 then s[y + r := s[y + r][x + c := color]] else s;
    forall i | 0 <= i < GRID_HEIGHT
      ensures t[i] == u[i]
    {
      assert forall j :: 0 <= j < GRID_WIDTH ==> t[i][j] == u[i][j];
    }
  }

  /** Finishing piece row r is starting piece row r + 1. */
  lemma StampRowEnd(g: Grid, piece: Matrix, x: int, y: int, color: int, r: int)
    requires WellFormed(g) && 0 <= r < |piece|
    ensures PartialStamp(g, piece, x, y, color, r, |piece[r]|) ==
      PartialStamp(g, piece, x, y, color, r + 1, 0)
  {
    var s := PartialStamp(g, piece, x, y, color, r, |piece[r]|);
    var t := PartialStamp(g, piece, x, y, color, r + 1, 0);
    PartialStampCells(g, piece, x, y, color, r, |piece[r]|);
    PartialStampCells(g, piece, x, y, color, r + 1, 0);
    forall i | 0 <= i < GRID_HEIGHT
      ensures s[i] == t[i]
    {
      assert forall j :: 0 <= j < GRID_WIDTH ==> s[i][j] == t[i][j];
    }
  }

  /** `all(row)`: every cell is nonzero. */
  predicate Full(row: seq<int>)
  {
    forall i :: 0 <= i < |row| ==> row[i] != 0
  }

  /** The outcome of one clearing sweep: the rows that stay, in order, and
      the number of rows deleted. */
  datatype Sweep = Sweep(kept: Grid, cleared: nat)

  /** What `clear_lines` does to the rows it is given, read off in terms of
      the ORIGINAL rows from the bottom up. A bottom row that is not full
      stays. A full bottom row is deleted, and the row just above it then
      slides into the index the loop has finished with, so it stays
      without ever being examined. */
  function SweepRows(rows: Grid): (s: Sweep)
    ensures |s.kept| + s.cleared == |rows|
    decreases |rows|
  {
    var n := |rows|;
    if n == 0 then Sweep([], 0)
    else if !Full(rows[n - 1]) then
      var s := SweepRows(rows[..n - 1]);
      Sweep(s.kept + [rows[n - 1]], s.cleared)
    else if n == 1 then Sweep([], 1)
    else
      var s := SweepRows(rows[..n - 2]);
      Sweep(s.kept + [rows[n - 2]], s.cleared + 1)
  }

  /** The board `clear_lines` leaves: one empty row on top per deletion,
      then the rows that stayed. */
  function ClearedGrid(g: Grid): Grid
  {
    var s := SweepRows(g);
    Empties(s.cleared) + s.kept
  }

  /** `lines_cleared ** 2 * 100`. */
  function LineScore(lines: nat): nat
  {
    lines * lines * 100
  }

  /** The state of the `clear_lines` scan over the original board `g0`
      while it is at index `y` after `k` deletions: the board is `k` empty
      rows, the not-yet-passed original rows `g0[..i]`, then the finished
      part `done`; and the sweep of `g0[..i]` followed by `done` and `k`
      gives the sweep of the whole of `g0`. */
  ghost predicate ScanState(g0: Grid, grid: Grid, k: nat, i: nat, done: Grid, y: int)
  {
    && i <= |g0| && -1 <= y < |g0| && |grid| == |g0|
    && grid == Empties(k) + g0[..i] + done
    && (i == 0 || y + 1 == k + i)
    && y + 1 <= k + i
    && SweepRows(g0) == Sweep(SweepRows(g0[..i]).kept + done, SweepRows(g0[..i]).cleared + k)
  }

  /** The scan starts at the bottom index with nothing done. */
  lemma ScanStart(g0: Grid)
    ensures ScanState(g0, g0, 0, |g0|, [], |g0| - 1)
  {
    assert g0[..|g0|] == g0;
    assert SweepRows(g0).kept + [] == SweepRows(g0).kept;
    assert Empties(0) + g0 + [] == g0;
  }

  /** An inserted empty row is never full. */
  lemma EmptyRowNotFull()
    ensures !Full(EmptyRow())
  {
    assert EmptyRow()[0] == 0;
  }

  /** Deleting the row just below the empty top rows and the prefix `p`,
      and inserting an empty row on top, adds one empty row on top. */
  lemma DeleteShape(k: nat, p: Grid, row: seq<int>, done: Grid)
    ensures var grid := Empties(k) + p + [row] + done;
      var y := k + |p|;
      [EmptyRow()] + grid[..y] + grid[y + 1..] == Empties(k + 1) + p + done
  {
    var grid := Empties(k) + p + [row] + done;
    var y := k + |p|;
    assert grid[..y] == Empties(k) + p;
    assert grid[y + 1..] == done;
    assert [EmptyRow()] + Empties(k) == Empties(k + 1);
  }

  /** The rows below the first `k` are empty. */
  lemma EmptiesBelow(k: nat, rest: Grid, y: int)
    requires 0 <= y < k
    ensures (Empties(k) + rest)[y] == EmptyRow()
  {
  }

  /** A full row met by the scan is one of the original rows, not one of
      the empty rows put on top. */
  lemma ScanFullRowIsOriginal(g0: Grid, grid: Grid, k: nat, i: nat, done: Grid, y: int)
    requires ScanState(g0, grid, k, i, done, y) && 0 <= y && Full(grid[y])
    ensures i >= 1 && y == k + i - 1
  {
    EmptyRowNotFull();
    if y < k {
      EmptiesBelow(k, g0[..i] + done, y);
    }
  }

  /** The row at index `y` is full: deleting it and inserting an empty
      row on top is again a scan state one index up. */
  lemma ScanDelete(g0: Grid, grid: Grid, k: nat, i: nat, done: Grid, y: int)
    returns (i2: nat, done2: Grid)
    requires ScanState(g0, grid, k, i, done, y) && 0 <= y && Full(grid[y])
    ensures ScanState(g0, [EmptyRow()] + grid[..y] + grid[y + 1..], k + 1, i2, done2, y - 1)
  {
    ScanFullRowIsOriginal(g0, grid, k, i, done, y);
    if i >= 2 {
      i2, done2 := ScanDeletePair(g0, grid, k, i, done, y);
    } else {
      ScanDeleteLast(g0, grid, k, done, y);
      i2, done2 := 0, done;
    }
  }

  /** A deletion with at least one original row left above it: the row
      above is skipped, so it joins the finished part. */
  lemma ScanDeletePair(g0: Grid, grid: Grid, k: nat, i: nat, done: Grid, y: int)
    returns (i2: nat, done2: Grid)
    requires ScanState(g0, grid, k, i, done, y) && 2 <= i && y == k + i - 1 && Full(grid[y])
    ensures ScanState(g0, [EmptyRow()] + grid[..y] + grid[y + 1..], k + 1, i2, done2, y - 1)
  {
    DeletePairBoard(g0, k, i, done);
    var t := g0[..i];
    assert t[i - 1] == g0[i - 1] && t[i - 2] == g0[i - 2];
    assert t[..i - 2] == g0[..i - 2];
    DeletePairSweep(t, done);
    i2, done2 := i - 2, [g0[i - 2]] + done;
  }

  /** The board side of a deletion with an original row left above it. */
  lemma DeletePairBoard(g0: Grid, k: nat, i: nat, done: Grid)
    requires 2 <= i <= |g0|
    ensures var grid := Empties(k) + g0[..i] + done;
      var y := k + i - 1;
      && grid[y] == g0[i - 1]
      && [EmptyRow()] + grid[..y] + grid[y + 1..] == Empties(k + 1) + g0[..i - 2] + ([g0[i - 2]] + done)
  {
    var p := g0[..i - 1];
    assert g0[..i] == p + [g0[i - 1]];
    assert Empties(k) + g0[..i] + done == Empties(k) + p + [g0[i - 1]] + done;
    DeleteShape(k, p, g0[i - 1], done);
    assert p == g0[..i - 2] + [g0[i - 2]];
  }

  /** The sweep side of a deletion with an original row left above it:
      followed by `done`, the sweep of `rows` is the sweep of all but its
      last two rows followed by the row above the deleted one and `done`. */
  lemma DeletePairSweep(rows: Grid, done: Grid)
    requires |rows| >= 2 && Full(rows[|rows| - 1])
    ensures var n := |rows|;
      && SweepRows(rows).kept + done == SweepRows(rows[..n - 2]).kept + ([rows[n - 2]] + done)
      && SweepRows(rows).cleared == SweepRows(rows[..n - 2]).cleared + 1
  {
    var n := |rows|;
    SweepSkipsAbove(rows);
    Regroup(SweepRows(rows[..n - 2]).kept, [rows[n - 2]], done);
  }

  /** Concatenation of board parts regroups freely. */
  lemma Regroup(a: Grid, b: Grid, c: Grid)
    ensures a + b + c == a + (b + c)
  {
  }

  /** A full bottom row is deleted and the row above it is kept unexamined. */
  lemma SweepSkipsAbove(rows: Grid)
    requires |rows| >= 2 && Full(rows[|rows| - 1])
    ensures SweepRows(rows) == Sweep(SweepRows(rows[..|rows| - 2]).kept + [rows[|rows| - 2]],
      SweepRows(rows[..|rows| - 2]).cleared + 1)
  {
  }

  /** A deletion of the topmost remaining original row. */
  lemma ScanDeleteLast(g0: Grid, grid: Grid, k: nat, done: Grid, y: int)
    requires ScanState(g0, grid, k, 1, done, y) && y == k && Full(grid[y])
    ensures ScanState(g0, [EmptyRow()] + grid[..y] + grid[y + 1..], k + 1, 0, done, y - 1)
  {
    var t := g0[..1];
    assert t[0] == g0[0];
    assert grid == Empties(k) + [] + [g0[0]] + done;
    DeleteShape(k, [], g0[0], done);
    assert SweepRows(t) == Sweep([], 1);
    JoinNothing(Empties(k + 1), g0[..0], done);
    assert SweepRows(g0[..0]) == Sweep([], 0);
  }

  /** Nothing between two parts of a board. */
  lemma JoinNothing(a: Grid, e: Grid, b: Grid)
    requires e == []
    ensures a + e + b == a + b
  {
  }

  /** The row at index `y` is not full: the scan moves one index up. */
  lemma ScanKeep(g0: Grid, grid: Grid, k: nat, i: nat, done: Grid, y: int)
    returns (i2: nat, done2: Grid)
    requires ScanState(g0, grid, k, i, done, y) && 0 <= y && !Full(grid[y])
    ensures ScanState(g0, grid, k, i2, done2, y - 1)
  {
    if i == 0 {
      i2, done2 := 0, done;
    } else {
      i2, done2 := i - 1, [g0[i - 1]] + done;
      assert grid[y] == g0[i - 1];
      assert g0[..i] == g0[..i - 1] + [g0[i - 1]];
      assert grid == Empties(k) + g0[..i2] + done2;
      assert g0[..i][..i - 1] == g0[..i - 1];
      assert SweepRows(g0[..i]) ==
        Sweep(SweepRows(g0[..i - 1]).kept + [g0[i - 1]], SweepRows(g0[..i - 1]).cleared);
      assert SweepRows(g0[..i - 1]).kept + [g0[i - 1]] + done ==
        SweepRows(g0[..i2]).kept + done2;
    }
  }

  /** When the scan has passed index 0 the board is the cleared board and
      `k` is the number of deletions. */
  lemma ScanEnd(g0: Grid, grid: Grid, k: nat, i: nat, done: Grid)
    requires ScanState(g0, grid, k, i, done, -1)
    ensures grid == ClearedGrid(g0) && k == SweepRows(g0).cleared
  {
    assert i == 0;
    assert g0[..0] == [];
    assert SweepRows(g0[..0]).kept + done == done;
  }

  /** Where the `clear_lines` loop ends up when it is at index `y` of the
      board `g`: the final board and the number of deletions still to come. */
  datatype Scan = Scan(board: Grid, deleted: nat)

  /** The rest of the `clear_lines` loop from index `y` down to 0, on the
      board as it currently is (deleting at index `y` shifts the rows above
      it down by one, and the loop then moves on to `y - 1`). */
  function ScanFrom(g: Grid, y: int): Scan
    requires -1 <= y < |g|
    decreases y + 1
  {
    if y < 0 then Scan(g, 0)
    else if Full(g[y]) then
      var r := ScanFrom([EmptyRow()] + g[..y] + g[y + 1..], y - 1);
      Scan(r.board, r.deleted + 1)
    else ScanFrom(g, y - 1)
  }

  /** From any scan state, the rest of the loop ends at the cleared board
      with the remaining deletions. */
  lemma {:induction false} ScanFromState(g0: Grid, grid: Grid, k: nat, i: nat, done: Grid, y: int)
    requires ScanState(g0, grid, k, i, done, y)
    ensures ScanFrom(grid, y).board == ClearedGrid(g0)
    ensures ScanFrom(grid, y).deleted + k == SweepRows(g0).cleared
    decreases y + 1
  {
    if y < 0 {
      ScanEnd(g0, grid, k, i, done);
    } else if Full(grid[y]) {
      var i2, done2 := ScanDelete(g0, grid, k, i, done, y);
      ScanFromState(g0, [EmptyRow()] + grid[..y] + grid[y + 1..], k + 1, i2, done2, y - 1);
    } else {
      var i2, done2 := ScanKeep(g0, grid, k, i, done, y);
      ScanFromState(g0, grid, k, i2, done2, y - 1);
    }
  }

  /** The index-based scan of `clear_lines` (delete at `y`, insert an empty
      row on top, go on at `y - 1`) leaves exactly the board the bottom-up
      sweep describes and deletes exactly as many rows. */
  lemma ScanIsSweep(g: Grid)
    requires WellFormed(g)
    ensures ScanFrom(g, GRID_HEIGHT - 1) == Scan(ClearedGrid(g), SweepRows(g).cleared)
  {
    ScanStart(g);
    ScanFromState(g, g, 0, |g|, [], |g| - 1);
  }

  /** The rows a sweep keeps are as wide as the rows it was given. */
  lemma {:induction false} SweepKeepsWidth(rows: Grid, w: nat)
    requires forall i :: 0 <= i < |rows| ==> |rows[i]| == w
    ensures forall i :: 0 <= i < |SweepRows(rows).kept| ==> |SweepRows(rows).kept[i]| == w
    decreases |rows|
  {
    var n := |rows|;
    if n == 0 {
    } else if !Full(rows[n - 1]) || n == 1 {
      if n > 1 || !Full(rows[0]) {
        SweepKeepsWidth(rows[..n - 1], w);
      }
    } else {
      SweepKeepsWidth(rows[..n - 2], w);
    }
  }

  /** Clearing keeps GRID_HEIGHT rows of GRID_WIDTH cells. */
  lemma ClearKeepsDimensions(g: Grid)
    requires WellFormed(g)
    ensures WellFormed(ClearedGrid(g))
  {
    SweepKeepsWidth(g, GRID_WIDTH);
  }

  /** When no row is full nothing is deleted and the board is unchanged. */
  lemma {:induction false} ClearWithoutFullRow(g: Grid)
    requires forall i :: 0 <= i < |g| ==> !Full(g[i])
    ensures SweepRows(g) == Sweep(g, 0)
    ensures ClearedGrid(g) == g
    decreases |g|
  {
    if |g| > 0 {
      var n := |g|;
      var p := g[..n - 1];
      forall i | 0 <= i < |p|
        ensures !Full(p[i])
      {
        assert p[i] == g[i];
      }
      ClearWithoutFullRow(p);
      assert !Full(g[n - 1]);
      assert SweepRows(g) == Sweep(SweepRows(p).kept + [g[n - 1]], 0);
      assert p + [g[n - 1]] == g;
    }
  }

  /** The same, as an implication about any board. */
  lemma NoFullRowNoChange(g: Grid)
    ensures (forall i :: 0 <= i < |g| ==> !Full(g[i])) ==>
      ClearedGrid(g) == g && SweepRows(g).cleared == 0
  {
    if forall i :: 0 <= i < |g| ==> !Full(g[i]) {
      ClearWithoutFullRow(g);
    }
  }

  /** When some row is full at least one row is deleted (the lowest full
      row is always examined). */
  lemma {:induction false} ClearWithFullRow(g: Grid)
    requires exists i :: 0 <= i < |g| && Full(g[i])
    ensures SweepRows(g).cleared >= 1
    decreases |g|
  {
    var n := |g|;
    if !Full(g[n - 1]) {
      var i :| 0 <= i < |g| && Full(g[i]);
      assert g[..n - 1][i] == g[i];
      ClearWithFullRow(g[..n - 1]);
    }
  }

  /** Empty rows hold no occupied cell. */
  lemma {:induction false} EmptiesFilled(n: nat)
    ensures Filled(Empties(n)) == 0
  {
    if n > 0 {
      assert Empties(n)[..n - 1] == Empties(n - 1);
      assert Empties(n)[n - 1] == EmptyRow();
      assert EmptyRow()[..GRID_WIDTH] == EmptyRow();
      EmptiesFilled(n - 1);
      EmptyRowFilled(GRID_WIDTH);
    }
  }

  /** No prefix of an empty row holds an occupied cell. */
  lemma {:induction false} EmptyRowFilled(w: nat)
    requires w <= GRID_WIDTH
    ensures RowFilled(EmptyRow()[..w]) == 0
  {
    if w > 0 {
      assert EmptyRow()[..w][1..] == EmptyRow()[..w - 1];
      EmptyRowFilled(w - 1);
    }
  }

  /** Every cell of a full row is occupied. */
  lemma {:induction false} FullRowFilled(row: seq<int>)
    requires Full(row)
    ensures RowFilled(row) == |row|
  {
    if |row| > 0 {
      FullRowFilled(row[1..]);
    }
  }

  /** Occupied cells of two stacked board parts add up. */
  lemma {:induction false} FilledConcat(a: Grid, b: Grid)
    ensures Filled(a + b) == Filled(a) + Filled(b)
    decreases |b|
  {
    if |b| == 0 {
      assert a + b == a;
    } else {
      var n := |b|;
      assert (a + b)[..|a + b| - 1] == a + b[..n - 1];
      assert (a + b)[|a + b| - 1] == b[n - 1];
      FilledConcat(a, b[..n - 1]);
      assert Filled(b) == Filled(b[..n - 1]) + RowFilled(b[n - 1]);
    }
  }

  /** A sweep loses GRID_WIDTH occupied cells per deleted row and no more. */
  lemma {:induction false} SweepFilled(rows: Grid)
    requires forall i :: 0 <= i < |rows| ==> |rows[i]| == GRID_WIDTH
    ensures Filled(SweepRows(rows).kept) + GRID_WIDTH * SweepRows(rows).cleared == Filled(rows)
    decreases |rows|
  {
    var n := |rows|;
    if n == 0 {
    } else if !Full(rows[n - 1]) {
      SweepFilled(rows[..n - 1]);
      SweepFilledKeep(rows);
    } else if n == 1 {
      FullRowFilled(rows[0]);
      assert rows[..0] == [];
    } else {
      SweepFilled(rows[..n - 2]);
      SweepFilledSkip(rows);
    }
  }

  /** The count carries over a bottom row that is not full. */
  lemma SweepFilledKeep(rows: Grid)
    requires |rows| >= 1 && !Full(rows[|rows| - 1])
    requires var p := SweepRows(rows[..|rows| - 1]);
      Filled(p.kept) + GRID_WIDTH * p.cleared == Filled(rows[..|rows| - 1])
    ensures Filled(SweepRows(rows).kept) + GRID_WIDTH * SweepRows(rows).cleared == Filled(rows)
  {
    FilledSnoc(SweepRows(rows[..|rows| - 1]).kept, rows[|rows| - 1]);
  }

  /** The count carries over a full bottom row of GRID_WIDTH cells and
      the row above it. */
  lemma SweepFilledSkip(rows: Grid)
    requires |rows| >= 2 && Full(rows[|rows| - 1]) && |rows[|rows| - 1]| == GRID_WIDTH
    requires var p := SweepRows(rows[..|rows| - 2]);
      Filled(p.kept) + GRID_WIDTH * p.cleared == Filled(rows[..|rows| - 2])
    ensures Filled(SweepRows(rows).kept) + GRID_WIDTH * SweepRows(rows).cleared == Filled(rows)
  {
    var n := |rows|;
    SweepSkipsAbove(rows);
    FullRowFilled(rows[n - 1]);
    FilledSnoc(SweepRows(rows[..n - 2]).kept, rows[n - 2]);
    FilledDropTwo(rows);
  }

  /** The filled cells of the last two rows and of the rows above them. */
  lemma FilledDropTwo(rows: Grid)
    requires |rows| >= 2
    ensures var n := |rows|;
      Filled(rows) == Filled(rows[..n - 2]) + RowFilled(rows[n - 2]) + RowFilled(rows[n - 1])
  {
    var n := |rows|;
    assert rows[..n - 1][..n - 2] == rows[..n - 2];
    assert rows[..n - 1][n - 2] == rows[n - 2];
  }

  /** Appending a row adds its filled cells. */
  lemma FilledSnoc(m: Grid, row: seq<int>)
    ensures Filled(m + [row]) == Filled(m) + RowFilled(row)
  {
    assert (m + [row])[..|m|] == m;
  }

  /** Every deletion removes a full row of GRID_WIDTH cells and adds an
      empty one: the occupied-cell count drops by exactly
      GRID_WIDTH per cleared line. */
  lemma ClearOccupiedCells(g: Grid)
    requires WellFormed(g)
    ensures Filled(ClearedGrid(g)) == Filled(g) - GRID_WIDTH * SweepRows(g).cleared
  {
    var s := SweepRows(g);
    SweepFilled(g);
    FilledConcat(Empties(s.cleared), s.kept);
    EmptiesFilled(s.cleared);
  }

  /** A row with every cell occupied. */
  function FullRow(): seq<int>
  {
    seq(GRID_WIDTH, _ => 1)
  }

  /** Two adjacent full rows at the bottom of an otherwise empty board:
      only the lower one is deleted (the upper one slides down into the
      examined index), and the single line scores 100. */
  lemma TwoAdjacentFullRowsClearOnce()
    ensures SweepRows(Empties(18) + [FullRow(), FullRow()]).cleared == 1
    ensures LineScore(SweepRows(Empties(18) + [FullRow(), FullRow()]).cleared) == 100
    ensures ClearedGrid(Empties(18) + [FullRow(), FullRow()]) ==
      Empties(19) + [FullRow()]
  {
    var g := Empties(18) + [FullRow(), FullRow()];
    AdjacentLayout();
    SweepSkipsAbove(g);
    SweepOfEmpties(18);
    Regroup(Empties(1), Empties(18), [FullRow()]);
    EmptiesJoin(1, 18);
  }

  /** Two full rows with a row between them: both are examined, both are
      deleted, and the pair scores 2 * 2 * 100 = 400. */
  lemma TwoSeparatedFullRowsClearBoth()
    ensures SweepRows(Empties(17) + [FullRow(), EmptyRow(), FullRow()]).cleared == 2
    ensures LineScore(SweepRows(Empties(17) + [FullRow(), EmptyRow(), FullRow()]).cleared) == 400
    ensures ClearedGrid(Empties(17) + [FullRow(), EmptyRow(), FullRow()]) == EmptyGrid()
  {
    var g := Empties(17) + [FullRow(), EmptyRow(), FullRow()];
    var p := Empties(17) + [FullRow()];
    SeparatedLayout();
    SweepSkipsAbove(g);
    SweepSkipsAbove(p);
    SweepOfEmpties(16);
    EmptiesJoin(16, 1);
    EmptiesJoin(17, 1);
    EmptiesJoin(2, 18);
  }

  /** Where the rows sit on the board with two adjacent full rows. */
  lemma AdjacentLayout()
    ensures var g := Empties(18) + [FullRow(), FullRow()];
      && |g| == 20 && Full(g[19]) && g[18] == FullRow() && g[..18] == Empties(18)
  {
    assert FullRow()[0] == 1;
  }

  /** Where the rows sit on the board with two separated full rows. */
  lemma SeparatedLayout()
    ensures var g := Empties(17) + [FullRow(), EmptyRow(), FullRow()];
      var p := Empties(17) + [FullRow()];
      && |g| == 20 && Full(g[19]) && g[18] == EmptyRow() && g[..18] == p
      && |p| == 18 && Full(p[17]) && p[16] == EmptyRow() && p[..16] == Empties(16)
  {
  }

  /** A board part made of empty rows only loses nothing to a sweep. */
  lemma SweepOfEmpties(n: nat)
    ensures SweepRows(Empties(n)) == Sweep(Empties(n), 0)
  {
    EmptyRowNotFull();
    ClearWithoutFullRow(Empties(n));
  }

  /** Empty rows placed on empty rows. */
  lemma EmptiesJoin(a: nat, b: nat)
    ensures Empties(a) + Empties(b) == Empties(a + b)
  {
  }
}
