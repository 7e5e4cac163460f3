/** The game state of `tetris.py` and the non-drawing part of its main
    loop: key handling, automatic fall, lock, line clearing, spawn and game
    over. Elapsed milliseconds, key presses and the random shape and colour
    choices are inputs. */
module Engine {
  import opened Catalog
  import opened Piece
  import opened Board

  /** A key press: the four arrow keys, or any other key. */
  datatype Key = Left | Right | Down | Up | Other

  /** `fall_speed` (0.5 s) in milliseconds: `fall_time / 1000 > 0.5` holds
      exactly when the integer `fall_time` exceeds 500. */
  const FALL_INTERVAL_MS: nat := 500

  /** Where the active piece is: its (possibly rotated) matrix and the
      board column and row of its top-left cell. */
  datatype Placement = Placement(piece: Matrix, x: int, y: int)

  /** The effect of one KEYDOWN event on the active piece: the arrow keys
      propose a move left, right or down, or a rotation, and the proposal is
      taken only when it does not collide. A placement that changes is
      collision-free, the row never goes up, and a collision-free piece
      stays collision-free. */
  function KeyStep(g: Grid, p: Placement, key: Key): (q: Placement)
    requires WellFormed(g) && p.y >= 0
    ensures q.y == p.y || q.y == p.y + 1
    ensures q == p || !Collides(g, q.piece, q.x, q.y)
    ensures q.y == p.y + 1 ==> key.Down?
    ensures q.piece != p.piece ==> key.Up? && q.piece == Rotate(p.piece)
    ensures !Collides(g, p.piece, p.x, p.y) ==> !Collides(g, q.piece, q.x, q.y)
    ensures key.Left? ==>
      && q.piece == p.piece && q.y == p.y
      && (if Collides(g, p.piece, p.x - 1, p.y) then q == p else q.x == p.x - 1)
    ensures key.Right? ==>
      && q.piece == p.piece && q.y == p.y
      && (if Collides(g, p.piece, p.x + 1, p.y) then q == p else q.x == p.x + 1)
    ensures key.Down? ==>
      && q.piece == p.piece && q.x == p.x
      && (if Collides(g, p.piece, p.x, p.y + 1) then q == p else q.y == p.y + 1)
    ensures key.Up? ==>
      (if Collides(g, Rotate(p.piece), p.x, p.y) then q == p else q == Placement(Rotate(p.piece), p.x, p.y))
    ensures key.Other? ==> q == p
  {
    var cand := match key
      case Left => Placement(p.piece, p.x - 1, p.y)
      case Right => Placement(p.piece, p.x + 1, p.y)
      case Down => Placement(p.piece, p.x, p.y + 1)
      case Up => Placement(Rotate(p.piece), p.x, p.y)
      case Other => p;
    if !Collides(g, cand.piece, cand.x, cand.y) then cand else p
  }

  /** The key presses of one frame, handled in order. */
  function KeysStep(g: Grid, p: Placement, keys: seq<Key>): (q: Placement)
    requires WellFormed(g) && p.y >= 0
    ensures q.y >= p.y
    ensures q == p || !Collides(g, q.piece, q.x, q.y)
    ensures !Collides(g, p.piece, p.x, p.y) ==> !Collides(g, q.piece, q.x, q.y)
    ensures (forall k :: 0 <= k < |keys| ==> keys[k] != Down) ==> q.y == p.y
    decreases |keys|
  {
    if |keys| == 0 then p
    else
      var r := KeysStep(g, KeyStep(g, p, keys[0]), keys[1..]);
      assert forall k :: 1 <= k < |keys| ==> keys[1..][k - 1] == keys[k];
      r
  }

  class GameEngine {
    /** Locked cells: 0 for empty, otherwise a colour tag. */
    var grid: Grid
    var currentPiece: Matrix
    var currentX: int
    var currentY: int
    var currentColor: int
    /** The pending piece, as indices into SHAPES and COLORS. */
    var nextPiece: nat
    var nextColor: nat
    var score: nat
    /** Milliseconds accumulated since the last automatic fall. */
    var fallTime: nat
    /** False once a game-over spawn has happened. */
    var running: bool

    /** The board keeps its size, the active piece is a rotation of a
        catalogue shape at a row that never goes above 0, the pending
        indices are valid, and while the game runs the active piece
        overlaps no wall, floor or locked cell. */
    ghost predicate Valid()
      reads this
    {
      && WellFormed(grid)
      && IsShape(currentPiece)
      && currentY >= 0
      && nextPiece < |SHAPES| && nextColor < |COLORS|
      && currentColor in COLORS
      && (running ==> !Collides(grid, currentPiece, currentX, currentY))
    }

    /** Start of a game: empty board, score 0, `next_piece` drawn
        (`firstShape`, `firstColor`), then `new_piece()` moves it into play
        and draws (`secondShape`, `secondColor`). */
    constructor (firstShape: nat, firstColor: nat, secondShape: nat, secondColor: nat)
      requires firstShape < |SHAPES| && firstColor < |COLORS|
      requires secondShape < |SHAPES| && secondColor < |COLORS|
      ensures Valid() && running
      ensures grid == EmptyGrid() && score == 0 && fallTime == 0
      ensures currentPiece == SHAPES[firstShape] && currentColor == COLORS[firstColor]
      ensures currentX == SpawnX(currentPiece) && currentY == 0
      ensures nextPiece == secondShape && nextColor == secondColor
    {
      grid := EmptyGrid();
      currentPiece := [];
      currentX, currentY, currentColor := 0, 0, 0;
      nextPiece, nextColor := firstShape, firstColor;
      score, fallTime := 0, 0;
      running := true;
      new;
      NewPiece(secondShape, secondColor);
      CatalogShapes();
      CatalogSpawnsOnEmptyBoard();
    }

    /** `new_piece`: the pending piece becomes the active one at the spawn
        column of row 0, and (`shape`, `color`) becomes the pending one. No
        collision test happens here. */
    method NewPiece(shape: nat, color: nat)
      requires nextPiece < |SHAPES| && nextColor < |COLORS|
      requires shape < |SHAPES| && color < |COLORS|
      modifies this
      ensures currentPiece == SHAPES[old(nextPiece)] && currentColor == COLORS[old(nextColor)]
      ensures currentX == SpawnX(currentPiece) && currentY == 0
      ensures nextPiece == shape && nextColor == color
      ensures grid == old(grid) && score == old(score)
      ensures fallTime == old(fallTime) && running == old(running)
    {
      currentPiece := SHAPES[nextPiece];
      currentColor := COLORS[nextColor];
      currentX := GRID_WIDTH / 2 - |currentPiece[0]| / 2;
      currentY := 0;
      nextPiece, nextColor := shape, color;
    }

    /** One KEYDOWN event: move or rotate only when the candidate does not
        collide, otherwise leave the piece as it is. */
    method HandleKey(key: Key)
      requires Valid()
      modifies this
      ensures Valid()
      ensures grid == old(grid) && score == old(score) && fallTime == old(fallTime)
      ensures running == old(running) && currentColor == old(currentColor)
      ensures nextPiece == old(nextPiece) && nextColor == old(nextColor)
      ensures Placement(currentPiece, currentX, currentY) ==
        KeyStep(grid, Placement(old(currentPiece), old(currentX), old(currentY)), key)
      ensures key.Left? && old(currentX) == 0 ==> currentX == 0
    {
      match key
      case Left =>
        if !Collides(grid, currentPiece, currentX - 1, currentY) {
          CollisionFreeWithinBoard(grid, currentPiece, currentX - 1, currentY);
          currentX := currentX - 1;
        }
      case Right =>
        if !Collides(grid, currentPiece, currentX + 1, currentY) {
          currentX := currentX + 1;
        }
      case Down =>
        if !Collides(grid, currentPiece, currentX, currentY + 1) {
          currentY := currentY + 1;
        }
      case Up =>
        var rotated := Rotate(currentPiece);
        RotateKeepsShape(currentPiece);
        if !Collides(grid, rotated, currentX, currentY) {
          currentPiece := rotated;
        }
      case Other =>
    }

    /** The lock loop of the main loop: write the piece's colour into the
        board cell under each of its filled cells. Because the piece does
        not collide and its row is not negative, every write is in bounds. */
    method LockPiece()
      requires WellFormed(grid) && currentY >= 0
      requires !Collides(grid, currentPiece, currentX, currentY)
      modifies this`grid
      ensures grid == Stamp(old(grid), currentPiece, currentX, currentY, currentColor)
    {
      ghost var g0 := grid;
      CollisionFreeCells(g0, currentPiece, currentX, currentY);
      StampStart(g0, currentPiece, currentX, currentY, currentColor);
      var y := 0;
      while y < |currentPiece|
        invariant 0 <= y <= |currentPiece|
        invariant grid == PartialStamp(g0, currentPiece, currentX, currentY, currentColor, y, 0)
      {
        LockRow(g0, y);
        y := y + 1;
      }
    }

    /** One pass of the lock loop's inner loop: the cells of piece row `r`,
        left to right, on top of the cells of the rows before it. */
    method LockRow(ghost g0: Grid, r: nat)
      requires WellFormed(g0) && r < |currentPiece|
      requires forall c :: FilledAt(currentPiece, r, c) ==>
        0 <= currentX + c < GRID_WIDTH && 0 <= currentY + r < GRID_HEIGHT
      requires grid == PartialStamp(g0, currentPiece, currentX, currentY, currentColor, r, 0)
      modifies this`grid
      ensures grid == PartialStamp(g0, currentPiece, currentX, currentY, currentColor, r + 1, 0)
    {
      var x := 0;
      while x < |currentPiece[r]|
        invariant 0 <= x <= |currentPiece[r]|
        invariant grid == PartialStamp(g0, currentPiece, currentX, currentY, currentColor, r, x)
      {
        if currentPiece[r][x] != 0 {
          assert FilledAt(currentPiece, r, x);
          StampStep(g0, currentPiece, currentX, currentY, currentColor, r, x);
          grid := grid[currentY + r := grid[currentY + r][currentX + x := currentColor]];
        } else {
          StampStep(g0, currentPiece, currentX, currentY, currentColor, r, x);
        }
        x := x + 1;
      }
      StampRowEnd(g0, currentPiece, currentX, currentY, currentColor, r);
    }

    /** `clear_lines`: scan the rows from the bottom; a full row is deleted
        and an empty row is inserted on top, and the scan moves on to the
        next index up either way. The score grows by the square of the
        number of deletions times 100. */
    method ClearLines()
      requires WellFormed(grid)
      modifies this`grid, this`score
      ensures grid == ClearedGrid(old(grid))
      ensures score == old(score) + LineScore(SweepRows(old(grid)).cleared)
      ensures (forall i :: 0 <= i < |old(grid)| ==> !Full(old(grid)[i])) ==>
        grid == old(grid) && score == old(score)
    {
      ghost var g0 := grid;
      ScanIsSweep(g0);
      NoFullRowNoChange(g0);
      var linesCleared: nat := 0;
      var y := GRID_HEIGHT - 1;
      while y >= 0
        invariant -1 <= y < |grid| == GRID_HEIGHT
        invariant ScanFrom(grid, y).board == ClearedGrid(g0)
        invariant ScanFrom(grid, y).deleted + linesCleared == SweepRows(g0).cleared
        invariant score == old(score)
        decreases y + 1
      {
        if Full(grid[y]) {
          grid := [EmptyRow()] + grid[..y] + grid[y + 1..];
          linesCleared := linesCleared + 1;
        }
        y := y - 1;
      }
      score := score + LineScore(linesCleared);
    }

    /** The timed part of the main loop: once more than 500 ms have
        accumulated, move the piece one row down if that does not collide;
        otherwise lock it, clear lines and spawn the pending piece, and end
        the game if that piece collides where it spawns. Either way the
        timer restarts. (`shape`, `color`) is the next random draw. */
    method Fall(shape: nat, color: nat)
      requires Valid() && running
      requires shape < |SHAPES| && color < |COLORS|
      modifies this
      ensures Valid()
      ensures old(fallTime) <= FALL_INTERVAL_MS ==>
        && grid == old(grid) && score == old(score) && fallTime == old(fallTime) && running
        && currentPiece == old(currentPiece) && currentX == old(currentX) && currentY == old(currentY)
        && currentColor == old(currentColor)
        && nextPiece == old(nextPiece) && nextColor == old(nextColor)
      ensures old(fallTime) > FALL_INTERVAL_MS ==> fallTime == 0
      ensures old(fallTime) > FALL_INTERVAL_MS
              && !Collides(old(grid), old(currentPiece), old(currentX), old(currentY) + 1) ==>
        && currentY == old(currentY) + 1 && running
        && grid == old(grid) && score == old(score)
        && currentPiece == old(currentPiece) && currentX == old(currentX)
        && currentColor == old(currentColor)
        && nextPiece == old(nextPiece) && nextColor == old(nextColor)
      ensures old(fallTime) > FALL_INTERVAL_MS
              && Collides(old(grid), old(currentPiece), old(currentX), old(currentY) + 1) ==>
        var locked := Stamp(old(grid), old(currentPiece), old(currentX), old(currentY), old(currentColor));
        && grid == ClearedGrid(locked)
        && score == old(score) + LineScore(SweepRows(locked).cleared)
        && currentPiece == SHAPES[old(nextPiece)] && currentColor == COLORS[old(nextColor)]
        && currentX == SpawnX(currentPiece) && currentY == 0
        && nextPiece == shape && nextColor == color
        && (running <==> !Collides(grid, currentPiece, currentX, currentY))
    {
      if fallTime > FALL_INTERVAL_MS {
        if !Collides(grid, currentPiece, currentX, currentY + 1) {
          currentY := currentY + 1;
        } else {
          LockPiece();
          ClearLines();
          ClearKeepsDimensions(Stamp(old(grid), old(currentPiece), old(currentX), old(currentY), old(currentColor)));
          NewPiece(shape, color);
          CatalogShapes();
          if Collides(grid, currentPiece, currentX, currentY) {
            running := false;
          }
        }
        fallTime := 0;
      }
    }

    /** One pass of the main loop without drawing: add the elapsed
        milliseconds to the timer, handle the frame's key presses in order,
        then run the timed step on the placement the keys left. */
    method Frame(elapsed: nat, keys: seq<Key>, shape: nat, color: nat)
      requires Valid() && running
      requires shape < |SHAPES| && color < |COLORS|
      modifies this
      ensures Valid()
      ensures score >= old(score)
      ensures var p := KeysStep(old(grid), Placement(old(currentPiece), old(currentX), old(currentY)), keys);
        old(fallTime) + elapsed <= FALL_INTERVAL_MS ==>
          && grid == old(grid) && score == old(score) && running
          && fallTime == old(fallTime) + elapsed
          && Placement(currentPiece, currentX, currentY) == p
          && currentColor == old(currentColor)
          && nextPiece == old(nextPiece) && nextColor == old(nextColor)
      ensures old(fallTime) + elapsed > FALL_INTERVAL_MS ==> fallTime == 0
      ensures var p := KeysStep(old(grid), Placement(old(currentPiece), old(currentX), old(currentY)), keys);
        old(fallTime) + elapsed > FALL_INTERVAL_MS && !Collides(old(grid), p.piece, p.x, p.y + 1) ==>
          && Placement(currentPiece, currentX, currentY) == Placement(p.piece, p.x, p.y + 1)
          && grid == old(grid) && score == old(score) && running
          && currentColor == old(currentColor)
          && nextPiece == old(nextPiece) && nextColor == old(nextColor)
      ensures var p := KeysStep(old(grid), Placement(old(currentPiece), old(currentX), old(currentY)), keys);
        old(fallTime) + elapsed > FALL_INTERVAL_MS && Collides(old(grid), p.piece, p.x, p.y + 1) ==>
          var locked := Stamp(old(grid), p.piece, p.x, p.y, old(currentColor));
          && grid == ClearedGrid(locked)
          && score == old(score) + LineScore(SweepRows(locked).cleared)
          && currentPiece == SHAPES[old(nextPiece)] && currentColor == COLORS[old(nextColor)]
          && currentX == SpawnX(currentPiece) && currentY == 0
          && nextPiece == shape && nextColor == color
          && (running <==> !Collides(grid, currentPiece, currentX, currentY))
    {
      fallTime := fallTime + elapsed;
      HandleKeys(keys);
      Fall(shape, color);
    }

    /** The event loop of one frame: the key presses in order. */
    method HandleKeys(keys: seq<Key>)
      requires Valid() && running
      modifies this
      ensures Valid() && running
      ensures grid == old(grid) && score == old(score) && fallTime == old(fallTime)
      ensures currentColor == old(currentColor)
      ensures nextPiece == old(nextPiece) && nextColor == old(nextColor)
      ensures Placement(currentPiece, currentX, currentY) ==
        KeysStep(grid, Placement(old(currentPiece), old(currentX), old(currentY)), keys)
    {
      ghost var start := Placement(currentPiece, currentX, currentY);
      for k := 0 to |keys|
        invariant Valid() && running
        invariant grid == old(grid) && score == old(score) && fallTime == old(fallTime)
        invariant currentColor == old(currentColor)
        invariant nextPiece == old(nextPiece) && nextColor == old(nextColor)
        invariant KeysStep(grid, Placement(currentPiece, currentX, currentY), keys[k..]) ==
          KeysStep(grid, start, keys)
      {
        HandleKey(keys[k]);
        assert keys[k..][1..] == keys[k + 1..];
      }
      assert keys[|keys|..] == [];
    }
  }
}
