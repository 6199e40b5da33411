/** The game session: board, active piece, double-buffered bitmaps and timers,
    with the operations that change them and one pass of the scheduling loop. */
module Engine {
  import opened Wrappers
  import opened Shapes
  import opened Playfield
  import opened Input

  /** Milliseconds between gravity steps. */
  const FallInterval: int := 200
  /** Milliseconds between rendered frames. */
  const DrawInterval: int := 50

  /** How a loop pass ends: still running; game over (the new piece collides where it
      spawned); or a fault (the catalog lookup raised, which ends the session and hands
      control to the restart supervisor). */
  datatype Outcome = Running | GameOver | Fault

  /** A piece that could not step in +x is locked: a fault when the lookup raises,
      otherwise the full rows are cleared and the piece for index k is spawned, and the
      game is over when it collides, in which case the fall timer is left as it was. */
  ghost function LockStep(b: Board, p: Piece, lastFall: int, now: int, k: nat): (r: (Board, Piece, int, Outcome))
    requires IsBoard(b) && k < |Catalog|
    ensures IsBoard(r.0)
    ensures r.3 == Fault <==> Lock(b, p).None?
    ensures r.3 == Fault ==> r == (b, p, lastFall, Fault)
    ensures r.3 != Fault ==> r.0 == Cleared(Lock(b, p).value) && r.1 == SpawnPiece(k)
    ensures r.3 != Fault ==> (r.3 == GameOver <==> CheckCollision(r.0, r.1, 0, 0))
    ensures r.2 == if r.3 == Running then now else lastFall
  {
    match Lock(b, p)
    case None => (b, p, lastFall, Fault)
    case Some(placed) =>
      var cleared := Cleared(placed);
      if CheckCollision(cleared, SpawnPiece(k), 0, 0) then (cleared, SpawnPiece(k), lastFall, GameOver)
      else (cleared, SpawnPiece(k), now, Running)
  }

  /** The gravity phase on values: the board, the piece and the fall timer after it, and
      how the pass goes on. Within FallInterval nothing changes; otherwise the piece
      steps in +x when it can and is locked when it cannot. */
  ghost function GravityStep(b: Board, p: Piece, lastFall: int, now: int, k: nat): (r: (Board, Piece, int, Outcome))
    requires IsBoard(b) && k < |Catalog|
    ensures IsBoard(r.0)
    ensures now - lastFall <= FallInterval ==> r == (b, p, lastFall, Running)
    ensures r.3 == Running ==> r.2 == (if now - lastFall > FallInterval then now else lastFall)
    ensures r.3 == Running && now - lastFall > FallInterval ==> r.1 == Shift(p, 1, 0) || r.1 == SpawnPiece(k)
    ensures r.3 == GameOver ==> r.1 == SpawnPiece(k) && CheckCollision(r.0, r.1, 0, 0) && r.2 == lastFall
    ensures r.3 == Fault ==> ShapeIndex(p.shape).None? && r == (b, p, lastFall, Fault)
  {
    if now - lastFall <= FallInterval then (b, p, lastFall, Running)
    else if TryMove(b, p, 1, 0).1 then (b, Shift(p, 1, 0), now, Running)
    else LockStep(b, p, lastFall, now, k)
  }

  /** A gravity step that keeps the game running never leaves the piece colliding, when
      it did not collide before: the step in +x is taken only when it is free, and a
      spawn that collides ends the game. */
  lemma GravityKeepsClear(b: Board, p: Piece, lastFall: int, now: int, k: nat)
    requires IsBoard(b) && k < |Catalog| && !Collides(b, p)
    ensures var r := GravityStep(b, p, lastFall, now, k);
      r.3 == Running ==> !Collides(r.0, r.1)
  {
    var r := GravityStep(b, p, lastFall, now, k);
    if r.3 == Running && now - lastFall > FallInterval && !TryMove(b, p, 1, 0).1 {
      CheckCollisionMeans(r.0, r.1, 0, 0);
      assert Shift(r.1, 0, 0) == r.1;
    }
  }

  /** The input and gravity phases of one loop pass on values: the board, the piece,
      the move timer, the fall timer and how the pass goes on. */
  ghost function PassStep(b: Board, p: Piece, lastMove: int, lastFall: int, now: int,
                          upPressed: bool, downPressed: bool, tilt: Option<Tilt>, k: nat): (r: (Board, Piece, int, int, Outcome))
    requires IsBoard(b) && WellFormed(p.shape) && k < |Catalog|
    ensures IsBoard(r.0)
    ensures now - lastFall <= FallInterval ==> r.0 == b && r.4 == Running
    ensures r.2 == lastMove || r.2 == now
    ensures now - lastMove > ButtonInterval ==> r.2 == now
    ensures r.4 == GameOver ==> r.1 == SpawnPiece(k) && CheckCollision(r.0, r.1, 0, 0) && r.3 == lastFall
    ensures r.4 == Fault ==> r.0 == b && ShapeIndex(r.1.shape).None? && r.3 == lastFall
  {
    var (q, moveTimer) := InputStep(b, p, lastMove, now, upPressed, downPressed, tilt);
    var (b', q', fallTimer, outcome) := GravityStep(b, q, lastFall, now, k);
    (b', q', moveTimer, fallTimer, outcome)
  }

  /** Without a rotation, a pass that keeps the game running leaves a piece that did not
      collide still clear of the walls and the filled cells. */
  lemma PassKeepsClear(b: Board, p: Piece, lastMove: int, lastFall: int, now: int,
                       upPressed: bool, downPressed: bool, tilt: Option<Tilt>, k: nat)
    requires IsBoard(b) && WellFormed(p.shape) && k < |Catalog| && !Collides(b, p)
    requires tilt.None? || Abs(tilt.value.z) <= RotateThreshold
    ensures var r := PassStep(b, p, lastMove, lastFall, now, upPressed, downPressed, tilt, k);
      r.4 == Running ==> !Collides(r.0, r.1)
  {
    var q := InputStep(b, p, lastMove, now, upPressed, downPressed, tilt).0;
    InputKeepsClear(b, p, lastMove, now, upPressed, downPressed, tilt);
    GravityKeepsClear(b, q, lastFall, now, k);
  }

  /** The value a finished frame shows at (x, y): the piece's value v where a set cell
      of the piece covers it, the board cell otherwise. */
  function FramePixel(b: Board, p: Piece, v: int, x: int, y: int): int
    requires IsBoard(b) && InBounds(x, y)
  {
    if Covers(p, x, y) then v else b[y][x]
  }

  /** The value `draw_borders` leaves at (x, y) over a previous value `under`: the top
      row 1, the right column 2, the bottom row 3, the left column 4, each loop
      overwriting the corners the earlier ones drew. */
  function BorderPixel(x: int, y: int, under: int): int
  {
    if x == 0 then 4
    else if y == Height - 1 then 3
    else if x == Width - 1 then 2
    else if y == 0 then 1
    else under
  }

  /** The set cell of p on (x, y) comes before footprint cell (i, j) in row-major order. */
  ghost predicate CoveredBefore(p: Piece, x: int, y: int, i: int, j: int)
  {
    Covers(p, x, y) && (y - p.y < i || (y - p.y == i && x - p.x < j))
  }

  /** Some set cell of g comes before cell (i, j) in row-major order. */
  ghost predicate SetBefore(g: Grid, i: int, j: int)
  {
    exists r, c :: 0 <= r < |g| && 0 <= c < |g[r]| && g[r][c] != 0 && (r < i || (r == i && c < j))
  }

  /** The board b holds v under every on-board set cell of p before footprint cell
      (i, j), and agrees with b0 everywhere else. */
  ghost predicate PlacedBefore(b: Board, b0: Board, p: Piece, v: int, i: int, j: int)
    requires IsBoard(b) && IsBoard(b0)
  {
    forall y, x :: InBounds(x, y) ==> b[y][x] == if CoveredBefore(p, x, y, i, j) then v else b0[y][x]
  }

  /** No on-board set cell of p comes before footprint cell (i, j). */
  ghost predicate NothingBefore(p: Piece, i: int, j: int)
  {
    forall y, x :: InBounds(x, y) ==> !CoveredBefore(p, x, y, i, j)
  }

  lemma CoveredBeforeNext(p: Piece, x: int, y: int, i: int, j: int)
    requires 0 <= i < |p.shape.rows| && 0 <= j < |p.shape.rows[i]|
    ensures CoveredBefore(p, x, y, i, j + 1) <==>
      CoveredBefore(p, x, y, i, j) || (x == p.x + j && y == p.y + i && p.shape.rows[i][j] != 0)
  {
  }

  lemma PlacedStep(b: Board, b': Board, b0: Board, p: Piece, v: int, i: int, j: int)
    requires IsBoard(b) && IsBoard(b0) && 0 <= i < |p.shape.rows| && 0 <= j < |p.shape.rows[i]|
    requires p.shape.rows[i][j] != 0 && InBounds(p.x + j, p.y + i)
    requires PlacedBefore(b, b0, p, v, i, j)
    requires b' == b[p.y + i := b[p.y + i][p.x + j := v]]
    ensures IsBoard(b') && PlacedBefore(b', b0, p, v, i, j + 1)
  {
    forall y, x | InBounds(x, y)
      ensures b'[y][x] == if CoveredBefore(p, x, y, i, j + 1) then v else b0[y][x]
    {
      CoveredBeforeNext(p, x, y, i, j);
    }
  }

  lemma PlacedSkip(b: Board, b0: Board, p: Piece, v: int, i: int, j: int)
    requires IsBoard(b) && IsBoard(b0) && 0 <= i < |p.shape.rows| && 0 <= j < |p.shape.rows[i]|
    requires p.shape.rows[i][j] == 0 || !InBounds(p.x + j, p.y + i)
    requires PlacedBefore(b, b0, p, v, i, j)
    ensures PlacedBefore(b, b0, p, v, i, j + 1)
  {
    forall y, x | InBounds(x, y)
      ensures b[y][x] == if CoveredBefore(p, x, y, i, j + 1) then v else b0[y][x]
    {
      CoveredBeforeNext(p, x, y, i, j);
    }
  }

  lemma NothingStep(p: Piece, i: int, j: int)
    requires 0 <= i < |p.shape.rows| && 0 <= j < |p.shape.rows[i]|
    requires NothingBefore(p, i, j)
    requires p.shape.rows[i][j] == 0 || !InBounds(p.x + j, p.y + i)
    ensures NothingBefore(p, i, j + 1)
  {
    forall y, x | InBounds(x, y)
      ensures !CoveredBefore(p, x, y, i, j + 1)
    {
      CoveredBeforeNext(p, x, y, i, j);
    }
  }

  lemma PlacedRowEnd(b: Board, b0: Board, p: Piece, v: int, i: int)
    requires IsBoard(b) && IsBoard(b0) && 0 <= i < |p.shape.rows|
    ensures PlacedBefore(b, b0, p, v, i, |p.shape.rows[i]|) ==> PlacedBefore(b, b0, p, v, i + 1, 0)
    ensures NothingBefore(p, i, |p.shape.rows[i]|) ==> NothingBefore(p, i + 1, 0)
  {
    assert forall y, x :: CoveredBefore(p, x, y, i, |p.shape.rows[i]|) == CoveredBefore(p, x, y, i + 1, 0);
  }

  lemma SameCells(b: Board, b0: Board)
    requires IsBoard(b) && IsBoard(b0)
    requires forall y, x :: InBounds(x, y) ==> b[y][x] == b0[y][x]
    ensures b == b0
  {
    forall y | 0 <= y < Height
      ensures b[y] == b0[y]
    {
      assert forall x :: 0 <= x < Width ==> InBounds(x, y);
    }
  }

  /** While nothing has been covered, the board is still the one placement started from. */
  lemma PlacedNothingYet(b: Board, b0: Board, p: Piece, v: int, i: int, j: int)
    requires IsBoard(b) && IsBoard(b0)
    requires PlacedBefore(b, b0, p, v, i, j) && NothingBefore(p, i, j)
    ensures b == b0
  {
    forall y, x | InBounds(x, y)
      ensures b[y][x] == b0[y][x]
    {
      assert !CoveredBefore(p, x, y, i, j);
    }
    SameCells(b, b0);
  }

  lemma PlacedAll(b: Board, b0: Board, p: Piece, v: int)
    requires IsBoard(b) && IsBoard(b0)
    requires PlacedBefore(b, b0, p, v, |p.shape.rows|, 0)
    ensures b == Placed(b0, p, v)
  {
    var r := Placed(b0, p, v);
    forall y, x | InBounds(x, y)
      ensures b[y][x] == r[y][x]
    {
      assert CoveredBefore(p, x, y, |p.shape.rows|, 0) == Covers(p, x, y);
    }
    SameCells(b, r);
  }

  lemma PlacedNone(b: Board, b0: Board, p: Piece, v: int)
    requires IsBoard(b) && IsBoard(b0)
    requires PlacedBefore(b, b0, p, v, |p.shape.rows|, 0)
    requires NothingBefore(p, |p.shape.rows|, 0)
    ensures !OnBoard(p) && b == b0
  {
    forall y, x | InBounds(x, y)
      ensures !Covers(p, x, y) && b[y][x] == b0[y][x]
    {
      assert CoveredBefore(p, x, y, |p.shape.rows|, 0) == Covers(p, x, y);
    }
    SameCells(b, b0);
  }

  /** Pixel grids indexed [x][y], the shape of a bitmap. */
  ghost predicate IsPixels(s: seq<seq<int>>)
  {
    |s| == Width && forall x :: 0 <= x < Width ==> |s[x]| == Height
  }

  /** The contents of a bitmap, as a value. */
  ghost function Pixels(a: array2<int>): (s: seq<seq<int>>)
    reads a
    requires a.Length0 == Width && a.Length1 == Height
    ensures IsPixels(s) && forall x, y :: InBounds(x, y) ==> s[x][y] == a[x, y]
  {
    seq(Width, x reads a requires 0 <= x < Width =>
      seq(Height, y reads a requires 0 <= y < Height => a[x, y]))
  }

  /** The bitmap holds v under every on-board set cell of p before footprint cell
      (i, j), and base everywhere else. */
  ghost predicate DrawnBefore(a: array2<int>, base: seq<seq<int>>, p: Piece, v: int, i: int, j: int)
    reads a
    requires a.Length0 == Width && a.Length1 == Height && IsPixels(base)
  {
    forall x, y :: InBounds(x, y) ==> a[x, y] == if CoveredBefore(p, x, y, i, j) then v else base[x][y]
  }

  lemma DrawnStep(a: array2<int>, base: seq<seq<int>>, p: Piece, v: int, i: int, j: int)
    requires a.Length0 == Width && a.Length1 == Height && IsPixels(base)
    requires 0 <= i < |p.shape.rows| && 0 <= j < |p.shape.rows[i]|
    requires p.shape.rows[i][j] != 0 ==> forall x, y :: InBounds(x, y) ==>
      a[x, y] == if x == p.x + j && y == p.y + i then v
                 else if CoveredBefore(p, x, y, i, j) then v else base[x][y]
    requires p.shape.rows[i][j] == 0 ==> DrawnBefore(a, base, p, v, i, j)
    ensures DrawnBefore(a, base, p, v, i, j + 1)
  {
    forall x, y | InBounds(x, y)
      ensures a[x, y] == if CoveredBefore(p, x, y, i, j + 1) then v else base[x][y]
    {
      CoveredBeforeNext(p, x, y, i, j);
    }
  }

  lemma DrawnRowEnd(a: array2<int>, base: seq<seq<int>>, p: Piece, v: int, i: int)
    requires a.Length0 == Width && a.Length1 == Height && IsPixels(base) && 0 <= i < |p.shape.rows|
    requires DrawnBefore(a, base, p, v, i, |p.shape.rows[i]|)
    ensures DrawnBefore(a, base, p, v, i + 1, 0)
  {
    assert forall y, x :: CoveredBefore(p, x, y, i, |p.shape.rows[i]|) == CoveredBefore(p, x, y, i + 1, 0);
  }

  /** A set cell covering (x, y) before footprint cell (i, j) is a set cell before (i, j). */
  lemma CoveredIsSet(p: Piece, i: int, j: int)
    ensures forall x, y :: CoveredBefore(p, x, y, i, j) ==> SetBefore(p.shape.rows, i, j)
  {
    forall x, y | CoveredBefore(p, x, y, i, j)
      ensures SetBefore(p.shape.rows, i, j)
    {
      assert p.shape.rows[y - p.y][x - p.x] != 0;
    }
  }

  /** Before the first set cell nothing of the piece is drawn. */
  lemma NothingDrawn(a: array2<int>, base: seq<seq<int>>, p: Piece, v: int, i: int, j: int)
    requires a.Length0 == Width && a.Length1 == Height && IsPixels(base)
    requires DrawnBefore(a, base, p, v, i, j) && !SetBefore(p.shape.rows, i, j)
    ensures forall x, y :: InBounds(x, y) ==> a[x, y] == base[x][y]
  {
    CoveredIsSet(p, i, j);
  }

  /** A grid with a set cell has one before the end of its last row. */
  lemma SetBeforeEnd(g: Grid)
    ensures HasSetCell(g) ==> SetBefore(g, |g|, 0)
  {
    if HasSetCell(g) {
      var r, c :| 0 <= r < |g| && 0 <= c < |g[r]| && g[r][c] != 0;
      assert r < |g|;
    }
  }

  lemma SetBeforeStep(g: Grid, i: int, j: int)
    requires 0 <= i < |g| && 0 <= j < |g[i]| && g[i][j] == 0
    ensures SetBefore(g, i, j + 1) == SetBefore(g, i, j)
  {
    if SetBefore(g, i, j + 1) {
      var r, c :| 0 <= r < |g| && 0 <= c < |g[r]| && g[r][c] != 0 && (r < i || (r == i && c < j + 1));
      assert g[r][c] != 0;
    }
  }

  class Game {
    /** `game_board`, indexed [y][x]. */
    var board: Board
    /** `current_tetromino` and `current_position`. */
    var shape: Footprint
    var px: int
    var py: int
    /** The two bitmaps, indexed [x, y]; `firstIsCurrent` says which one is shown. */
    const bitmap1: array2<int>
    const bitmap2: array2<int>
    var firstIsCurrent: bool
    /** The loop's timers, in milliseconds. */
    var lastFall: int
    var lastMove: int
    var lastDraw: int

    ghost predicate Valid()
      reads this
    {
      IsBoard(board) && InRange(board) && WellFormed(shape) &&
      (!shape.rotated ==> ShapeIndex(shape).Some?) &&
      bitmap1 != bitmap2 &&
      bitmap1.Length0 == Width && bitmap1.Length1 == Height &&
      bitmap2.Length0 == Width && bitmap2.Length1 == Height
    }

    /** The active piece as a value. */
    function Active(): Piece
      reads this
    {
      Piece(shape, px, py)
    }

    function Current(): array2<int>
      reads this
    {
      if firstIsCurrent then bitmap1 else bitmap2
    }

    function Next(): array2<int>
      reads this
    {
      if firstIsCurrent then bitmap2 else bitmap1
    }

    /** Program start: an empty board, two blank bitmaps with bitmap1 shown, then the
      supervisor's first session start with catalog index k at time now. */
    constructor (k: nat, now: int)
      requires k < |Catalog|
      ensures Valid() && fresh(bitmap1) && fresh(bitmap2)
      ensures board == EmptyBoard() && Active() == SpawnPiece(k) && firstIsCurrent
      ensures lastFall == now && lastMove == now && lastDraw == now
      ensures forall x, y :: InBounds(x, y) ==> bitmap1[x, y] == 0 && bitmap2[x, y] == BorderPixel(x, y, 0)
    {
      board := EmptyBoard();
      bitmap1 := new int[Width, Height]((x, y) => 0);
      bitmap2 := new int[Width, Height]((x, y) => 0);
      firstIsCurrent := true;
      shape := CatalogFootprint(k);
      px, py := 0, 0;
      lastFall, lastMove, lastDraw := now, now, now;
      new;
      StartSession(k, now);
    }

    /** `new_tetromino` with the index `random.choice` picked. */
    method NewTetromino(k: nat)
      requires Valid() && k < |Catalog|
      modifies this`shape, this`px, this`py
      ensures Valid() && Active() == SpawnPiece(k)
    {
      shape := CatalogFootprint(k);
      px := 0;
      py := Height / 2 - |shape.rows| / 2;
    }

    /** `move_tetromino(dx, dy)`: moves by exactly (dx, dy) when the moved piece does not
      collide, and otherwise leaves the position as it was. */
    method MoveTetromino(dx: int, dy: int) returns (ok: bool)
      requires Valid()
      modifies this`px, this`py
      ensures Valid()
      ensures (Active(), ok) == TryMove(board, old(Active()), dx, dy)
      ensures ok ==> px == old(px) + dx && py == old(py) + dy && !Collides(board, Active())
      ensures !ok ==> px == old(px) && py == old(py)
    {
      if !CheckCollision(board, Active(), dx, dy) {
        px := px + dx;
        py := py + dy;
        return true;
      }
      return false;
    }

    /** `rotate_tetromino`: adopts the quarter turn when the unrotated piece does not
      collide where it stands; the position never changes. */
    method RotateTetromino()
      requires Valid()
      modifies this`shape
      ensures Valid()
      ensures Active() == TryRotate(board, old(Active()))
    {
      var rotated := Shapes.Rotate(shape);
      if !CheckCollision(board, Active(), 0, 0) {
        shape := rotated;
      }
    }

    /** `place_tetromino`: writes shape index + 1 into every on-board cell under a set
      cell; fails, writing nothing, when the lookup of a rotated footprint raises. */
    method PlaceTetromino() returns (ok: bool)
      requires Valid()
      modifies this`board
      ensures Valid()
      ensures Lock(old(board), Active()) == if ok then Some(board) else None
      ensures !ok ==> board == old(board)
    {
      ghost var b0 := board;
      ghost var v := if ShapeIndex(shape).Some? then ShapeIndex(shape).value + 1 else 0;
      for i := 0 to |shape.rows|
        invariant IsBoard(board)
        invariant PlacedBefore(board, b0, Active(), v, i, 0)
        invariant ShapeIndex(shape).None? ==> NothingBefore(Active(), i, 0)
      {
        ok := PlaceRow(i, b0, v);
        if !ok {
          return;
        }
      }
      if ShapeIndex(shape).Some? {
        PlacedAll(board, b0, Active(), v);
      } else {
        PlacedNone(board, b0, Active(), v);
      }
      ok := true;
    }

    /** One cell of `place_tetromino`'s loop: cell (i, j) of the footprint is written
      when it is set and on the board, after the catalog lookup. */
    method PlaceCell(i: nat, j: nat, ghost b0: Board, ghost v: int) returns (ok: bool)
      requires IsBoard(board) && IsBoard(b0) && i < |shape.rows| && j < |shape.rows[i]|
      requires v == if ShapeIndex(shape).Some? then ShapeIndex(shape).value + 1 else 0
      requires PlacedBefore(board, b0, Active(), v, i, j)
      requires ShapeIndex(shape).None? ==> NothingBefore(Active(), i, j)
      modifies this`board
      ensures IsBoard(board)
      ensures ok ==> PlacedBefore(board, b0, Active(), v, i, j + 1)
      ensures ok && ShapeIndex(shape).None? ==> NothingBefore(Active(), i, j + 1)
      ensures !ok ==> ShapeIndex(shape).None? && OnBoard(Active()) && board == b0
    {
      ghost var p := Active();
      var boardY, boardX := py + i, px + j;
      if shape.rows[i][j] != 0 && 0 <= boardY < Height && 0 <= boardX < Width {
        var index := ShapeIndex(shape);
        if index.None? {
          assert InBounds(boardX, boardY) && Covers(p, boardX, boardY);
          PlacedNothingYet(board, b0, p, v, i, j);
          return false;
        }
        assert v == index.value + 1 && p.y + i == boardY && p.x + j == boardX;
        ghost var before := board;
        board := board[boardY := board[boardY][boardX := index.value + 1]];
        PlacedStep(before, board, b0, p, v, i, j);
      } else {
        PlacedSkip(board, b0, p, v, i, j);
        if ShapeIndex(shape).None? {
          NothingStep(p, i, j);
        }
      }
      ok := true;
    }

    /** One row of `place_tetromino`'s loop: row i of the footprint is written. */
    method PlaceRow(i: nat, ghost b0: Board, ghost v: int) returns (ok: bool)
      requires IsBoard(board) && IsBoard(b0) && i < |shape.rows|
      requires v == if ShapeIndex(shape).Some? then ShapeIndex(shape).value + 1 else 0
      requires PlacedBefore(board, b0, Active(), v, i, 0)
      requires ShapeIndex(shape).None? ==> NothingBefore(Active(), i, 0)
      modifies this`board
      ensures IsBoard(board)
      ensures ok ==> PlacedBefore(board, b0, Active(), v, i + 1, 0)
      ensures ok && ShapeIndex(shape).None? ==> NothingBefore(Active(), i + 1, 0)
      ensures !ok ==> ShapeIndex(shape).None? && OnBoard(Active()) && board == b0
    {
      for j := 0 to |shape.rows[i]|
        invariant IsBoard(board)
        invariant PlacedBefore(board, b0, Active(), v, i, j)
        invariant ShapeIndex(shape).None? ==> NothingBefore(Active(), i, j)
      {
        ok := PlaceCell(i, j, b0, v);
        if !ok {
          return;
        }
      }
      PlacedRowEnd(board, b0, Active(), v, i);
      ok := true;
    }

    /** `clear_lines`: rebinds the board to its incomplete rows followed by one empty
      row per full row removed. */
    method ClearLines()
      requires Valid()
      modifies this`board
      ensures Valid()
      ensures board == Cleared(old(board))
    {
      var newBoard := Incomplete(board);
      var linesCleared := Height - |newBoard|;
      ClearedInRange(board);
      board := newBoard + seq(linesCleared, _ => EmptyRow());
    }

    /** `draw_block(x, y, colorIndex)`: writes colorIndex + 1 into the next bitmap when
      (x, y) is on it, and nothing otherwise. */
    method DrawBlock(x: int, y: int, colorIndex: int)
      requires Valid()
      modifies Next()
      ensures forall i, j :: InBounds(i, j) ==>
        Next()[i, j] == if i == x && j == y then colorIndex + 1 else old(Next()[i, j])
    {
      if 0 <= x < Width && 0 <= y < Height {
        Next()[x, y] := colorIndex + 1;
      }
    }

    /** `clear_display`: fills the next bitmap with 0. */
    method ClearDisplay()
      requires Valid()
      modifies Next()
      ensures forall x, y :: InBounds(x, y) ==> Next()[x, y] == 0
    {
      var nb := Next();
      for x := 0 to Width
        invariant forall i, j :: 0 <= i < x && 0 <= j < Height ==> nb[i, j] == 0
      {
        for y := 0 to Height
          invariant forall i, j :: 0 <= i < x && 0 <= j < Height ==> nb[i, j] == 0
          invariant forall j :: 0 <= j < y ==> nb[x, j] == 0
        {
          nb[x, y] := 0;
        }
      }
    }

    /** `draw_game_state`: draws every nonzero board cell into the next bitmap, then the
      piece's set cells in its shape index + 1. The lookup is made for each set cell
      before `draw_block` tests the bounds, so a rotated piece fails on its first set
      cell, after the board is drawn. */
    method DrawGameState() returns (ok: bool)
      requires Valid()
      modifies Next()
      ensures ok == ShapeIndex(shape).Some?
      ensures ok ==> forall x, y :: InBounds(x, y) ==>
        Next()[x, y] == if Covers(Active(), x, y) then ShapeIndex(shape).value + 1
                        else if board[y][x] != 0 then board[y][x] else old(Next()[x, y])
      ensures !ok ==> forall x, y :: InBounds(x, y) ==>
        Next()[x, y] == if board[y][x] != 0 then board[y][x] else old(Next()[x, y])
    {
      DrawBoardCells();
      ok := DrawPiece();
    }

    /** The first half of `draw_game_state`: every nonzero board cell, row by row. */
    method DrawBoardCells()
      requires Valid()
      modifies Next()
      ensures forall x, y :: InBounds(x, y) ==>
        Next()[x, y] == if board[y][x] != 0 then board[y][x] else old(Next()[x, y])
    {
      var nb := Next();
      for y := 0 to Height
        invariant forall i, j :: InBounds(i, j) ==>
          nb[i, j] == if j < y && board[j][i] != 0 then board[j][i] else old(nb[i, j])
      {
        for x := 0 to Width
          invariant forall i, j :: InBounds(i, j) ==>
            nb[i, j] == if (j < y || (j == y && i < x)) && board[j][i] != 0 then board[j][i] else old(nb[i, j])
        {
          if board[y][x] != 0 {
            DrawBlock(x, y, board[y][x] - 1);
          }
        }
      }
    }

    /** The second half of `draw_game_state`: the piece's set cells, looking the shape
      up in the catalog for each one. */
    method DrawPiece() returns (ok: bool)
      requires Valid()
      modifies Next()
      ensures ok == ShapeIndex(shape).Some?
      ensures ok ==> forall x, y :: InBounds(x, y) ==>
        Next()[x, y] == if Covers(Active(), x, y) then ShapeIndex(shape).value + 1 else old(Next()[x, y])
      ensures !ok ==> forall x, y :: InBounds(x, y) ==> Next()[x, y] == old(Next()[x, y])
    {
      ghost var base := Pixels(Next());
      ghost var v := if ShapeIndex(shape).Some? then ShapeIndex(shape).value + 1 else 0;
      for i := 0 to |shape.rows|
        invariant DrawnBefore(Next(), base, Active(), v, i, 0)
        invariant ShapeIndex(shape).None? ==> !SetBefore(shape.rows, i, 0)
      {
        ok := DrawPieceRow(i, base, v);
        if !ok {
          return;
        }
      }
      SetBeforeEnd(shape.rows);
      forall x, y | InBounds(x, y)
        ensures CoveredBefore(Active(), x, y, |shape.rows|, 0) == Covers(Active(), x, y)
      {
      }
      ok := true;
    }

    /** One row of the piece loop of `draw_game_state`. */
    method DrawPieceRow(i: nat, ghost base: seq<seq<int>>, ghost v: int) returns (ok: bool)
      requires Valid() && IsPixels(base) && i < |shape.rows|
      requires v == if ShapeIndex(shape).Some? then ShapeIndex(shape).value + 1 else 0
      requires DrawnBefore(Next(), base, Active(), v, i, 0)
      requires ShapeIndex(shape).None? ==> !SetBefore(shape.rows, i, 0)
      modifies Next()
      ensures ok ==> DrawnBefore(Next(), base, Active(), v, i + 1, 0)
      ensures ok && ShapeIndex(shape).None? ==> !SetBefore(shape.rows, i + 1, 0)
      ensures !ok ==> ShapeIndex(shape).None? && forall x, y :: InBounds(x, y) ==> Next()[x, y] == base[x][y]
    {
      ghost var p := Active();
      for j := 0 to |shape.rows[i]|
        invariant DrawnBefore(Next(), base, p, v, i, j)
        invariant ShapeIndex(shape).None? ==> !SetBefore(shape.rows, i, j)
      {
        if shape.rows[i][j] != 0 {
          var index := ShapeIndex(shape);
          if index.None? {
            NothingDrawn(Next(), base, p, v, i, j);
            return false;
          }
          DrawBlock(px + j, py + i, index.value);
          DrawnStep(Next(), base, p, v, i, j);
        } else {
          DrawnStep(Next(), base, p, v, i, j);
          SetBeforeStep(shape.rows, i, j);
        }
      }
      DrawnRowEnd(Next(), base, p, v, i);
      ok := true;
    }

    /** `draw_borders`: the top row, the right column, the bottom row and the left
      column of the next bitmap, in that order, in colour indices 0, 1, 2 and 3. */
    method DrawBorders()
      requires Valid()
      modifies Next()
      ensures forall x, y :: InBounds(x, y) ==> Next()[x, y] == BorderPixel(x, y, old(Next()[x, y]))
    {
      var nb := Next();
      for x := 0 to Width
        invariant forall i, j :: InBounds(i, j) ==>
          nb[i, j] == if j == 0 && i < x then 1 else old(nb[i, j])
      {
        DrawBlock(x, 0, 0);
      }
      for y := 0 to Height
        invariant forall i, j :: InBounds(i, j) ==>
          nb[i, j] == if i == Width - 1 && j < y then 2 else if j == 0 then 1 else old(nb[i, j])
      {
        DrawBlock(Width - 1, y, 1);
      }
      for x := 0 to Width
        invariant forall i, j :: InBounds(i, j) ==>
          nb[i, j] == if j == Height - 1 && i < x then 3
                      else if i == Width - 1 then 2 else if j == 0 then 1 else old(nb[i, j])
      {
        DrawBlock(x, Height - 1, 2);
      }
      for y := 0 to Height
        invariant forall i, j :: InBounds(i, j) ==>
          nb[i, j] == if i == 0 && j < y then 4 else if j == Height - 1 then 3
                      else if i == Width - 1 then 2 else if j == 0 then 1 else old(nb[i, j])
      {
        DrawBlock(0, y, 3);
      }
    }

    /** `swap_buffers`: the next bitmap becomes the shown one and the other way round. */
    method SwapBuffers()
      requires Valid()
      modifies this`firstIsCurrent
      ensures Valid()
      ensures Current() == old(Next()) && Next() == old(Current()) && Current() != Next()
    {
      if firstIsCurrent {
        firstIsCurrent := false;
      } else {
        firstIsCurrent := true;
      }
    }

    /** The supervisor's session start: a new piece, the borders into the next bitmap,
      and the loop's three timers set to now. The board is kept as it is. */
    method StartSession(k: nat, now: int)
      requires Valid() && k < |Catalog|
      modifies this`shape, this`px, this`py, this`lastFall, this`lastMove, this`lastDraw, Next()
      ensures Valid() && Active() == SpawnPiece(k)
      ensures lastFall == now && lastMove == now && lastDraw == now
      ensures board == old(board) && firstIsCurrent == old(firstIsCurrent)
      ensures forall x, y :: InBounds(x, y) ==> Next()[x, y] == BorderPixel(x, y, old(Next()[x, y]))
      ensures unchanged(Current())
    {
      NewTetromino(k);
      DrawBorders();
      lastFall := now;
      lastMove := now;
      lastDraw := now;
    }

    /** The supervisor's recovery from a fault: the board is emptied. */
    method ResetBoard()
      requires Valid()
      modifies this`board
      ensures Valid() && board == EmptyBoard()
    {
      board := EmptyBoard();
    }

    /** Buttons and tilt: the first part of a loop pass. */
    method InputPhase(now: int, upPressed: bool, downPressed: bool, tilt: Option<Tilt>)
      requires Valid()
      modifies this`px, this`py, this`shape, this`lastMove
      ensures Valid()
      ensures (Active(), lastMove) == InputStep(board, old(Active()), old(lastMove), now, upPressed, downPressed, tilt)
    {
      if now - lastMove > ButtonInterval {
        if upPressed {
          var _ := MoveTetromino(0, -1);
        }
        if downPressed {
          var _ := MoveTetromino(0, 1);
        }
        lastMove := now;
      }
      if tilt.Some? {
        var moveDir := MoveDirection(tilt.value.y);
        if moveDir != 0 && now - lastMove > TiltInterval {
          var moved := MoveTetromino(0, moveDir);
          if moved {
            lastMove := now;
          }
        }
        if Abs(tilt.value.z) > RotateThreshold {
          RotateTetromino();
        }
      }
    }

    /** Gravity: when more than FallInterval has passed, the piece tries one step in +x;
      when that fails it is placed, full rows are cleared and a new piece is spawned,
      and the game is over when that piece collides where it stands. On game over the
      pass ends before the timer is set. */
    method GravityPhase(now: int, k: nat) returns (outcome: Outcome)
      requires Valid() && k < |Catalog|
      modifies this`board, this`shape, this`px, this`py, this`lastFall
      ensures Valid()
      ensures (board, Active(), lastFall, outcome) == GravityStep(old(board), old(Active()), old(lastFall), now, k)
      ensures outcome == Fault ==> shape.rotated
    {
      outcome := Running;
      if now - lastFall > FallInterval {
        var moved := MoveTetromino(1, 0);
        if !moved {
          var placed := PlaceTetromino();
          if !placed {
            return Fault;
          }
          ClearLines();
          NewTetromino(k);
          if CheckCollision(board, Active(), 0, 0) {
            return GameOver;
          }
        }
        lastFall := now;
      }
    }

    /** The drawing half of rendering: a cleared next bitmap with the board and the piece
      drawn into it. */
    method Redraw() returns (ok: bool)
      requires Valid()
      modifies Next()
      ensures ok == ShapeIndex(shape).Some?
      ensures ok ==> forall x, y :: InBounds(x, y) ==>
        Next()[x, y] == FramePixel(board, Active(), ShapeIndex(shape).value + 1, x, y) &&
        0 <= Next()[x, y] < PaletteSize
      ensures !ok ==> forall x, y :: InBounds(x, y) ==> Next()[x, y] == board[y][x]
    {
      ClearDisplay();
      ok := DrawGameState();
    }

    /** Rendering: when more than DrawInterval has passed, clear the next bitmap, draw
      the board and the piece into it and swap it in. A failed draw leaves the shown
      bitmap as it was. */
    method RenderPhase(now: int) returns (outcome: Outcome)
      requires Valid()
      modifies this`firstIsCurrent, this`lastDraw, bitmap1, bitmap2
      ensures Valid() && board == old(board) && Active() == old(Active())
      ensures outcome != GameOver
      ensures now - old(lastDraw) <= DrawInterval ==>
        outcome == Running && firstIsCurrent == old(firstIsCurrent) && lastDraw == old(lastDraw) &&
        unchanged(bitmap1, bitmap2)
      ensures now - old(lastDraw) > DrawInterval && ShapeIndex(shape).Some? ==>
        outcome == Running && lastDraw == now &&
        Current() == old(Next()) && Next() == old(Current()) && unchanged(Next()) &&
        forall x, y :: InBounds(x, y) ==>
          Current()[x, y] == FramePixel(board, Active(), ShapeIndex(shape).value + 1, x, y) &&
          0 <= Current()[x, y] < PaletteSize
      ensures now - old(lastDraw) > DrawInterval && ShapeIndex(shape).None? ==>
        outcome == Fault && firstIsCurrent == old(firstIsCurrent) && lastDraw == old(lastDraw) &&
        unchanged(Current()) && forall x, y :: InBounds(x, y) ==> Next()[x, y] == board[y][x]
      ensures outcome == Fault ==> shape.rotated
    {
      outcome := Running;
      if now - lastDraw > DrawInterval {
        var drawn := Redraw();
        if !drawn {
          return Fault;
        }
        SwapBuffers();
        lastDraw := now;
      }
    }

    /** The input and gravity phases of one pass, which leave the bitmaps alone. */
    method Advance(now: int, upPressed: bool, downPressed: bool, tilt: Option<Tilt>, k: nat)
      returns (outcome: Outcome)
      requires Valid() && k < |Catalog|
      modifies this`px, this`py, this`shape, this`lastMove, this`board, this`lastFall
      ensures Valid()
      ensures (board, Active(), lastMove, lastFall, outcome) ==
        PassStep(old(board), old(Active()), old(lastMove), old(lastFall), now, upPressed, downPressed, tilt, k)
      ensures outcome == Fault ==> shape.rotated
    {
      InputPhase(now, upPressed, downPressed, tilt);
      outcome := GravityPhase(now, k);
    }

    /** One pass of `game_loop` at time now (milliseconds), with the two buttons' states,
      the tilt sample if one was read, and the catalog index for a spawn: input, then
      gravity, then rendering, stopping at game over or at a fault. */
    method Step(now: int, upPressed: bool, downPressed: bool, tilt: Option<Tilt>, k: nat)
      returns (outcome: Outcome)
      requires Valid() && k < |Catalog|
      modifies this, bitmap1, bitmap2
      ensures Valid()
      ensures var s := PassStep(old(board), old(Active()), old(lastMove), old(lastFall), now,
                                upPressed, downPressed, tilt, k);
        board == s.0 && Active() == s.1 && lastMove == s.2 && lastFall == s.3 &&
        (s.4 != Running ==> outcome == s.4) &&
        (s.4 == Running && now - old(lastDraw) > DrawInterval ==>
           (outcome == Running <==> ShapeIndex(shape).Some?) && outcome != GameOver) &&
        (s.4 != Running || now - old(lastDraw) <= DrawInterval ==>
           outcome == s.4 && unchanged(bitmap1, bitmap2)) &&
        (s.4 == Running && now - old(lastDraw) > DrawInterval && outcome == Fault ==>
           forall x, y :: InBounds(x, y) ==> Next()[x, y] == board[y][x])
      ensures outcome == GameOver ==>
        Active() == SpawnPiece(k) && CheckCollision(board, Active(), 0, 0) && lastFall == old(lastFall)
      ensures outcome == Fault ==> shape.rotated
      ensures outcome != Running || now - old(lastDraw) <= DrawInterval ==>
        firstIsCurrent == old(firstIsCurrent) && lastDraw == old(lastDraw) && unchanged(Current())
      ensures outcome == Running && now - old(lastDraw) > DrawInterval ==>
        lastDraw == now && Current() == old(Next()) && Next() == old(Current()) && unchanged(Next()) &&
        forall x, y :: InBounds(x, y) ==>
          Current()[x, y] == FramePixel(board, Active(), ShapeIndex(shape).value + 1, x, y) &&
          0 <= Current()[x, y] < PaletteSize
    {
      outcome := Advance(now, upPressed, downPressed, tilt, k);
      if outcome != Running {
        return;
      }
      outcome := RenderPhase(now);
    }
  }
}
