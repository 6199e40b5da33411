/** The board and the active piece against it: collision, placement, line
    clearing and spawning. */
module Playfield {
  import opened Wrappers
  import opened Shapes

  const Width: int := 64
  const Height: int := 32

  /** `game_board[y][x]`: 0 is empty, k + 1 is a cell of catalog shape k. */
  type Board = seq<seq<int>>

  predicate IsBoard(b: Board)
  {
    |b| == Height && forall y :: 0 <= y < |b| ==> |b[y]| == Width
  }

  /** Every cell is empty or names a catalog shape, so it indexes the palette. */
  predicate InRange(b: Board)
  {
    forall y, x :: 0 <= y < |b| && 0 <= x < |b[y]| ==> 0 <= b[y][x] <= |Catalog|
  }

  function EmptyRow(): (r: seq<int>)
    ensures |r| == Width
  {
    seq(Width, _ => 0)
  }

  function EmptyBoard(): (b: Board)
    ensures IsBoard(b) && InRange(b)
    ensures forall y, x :: 0 <= y < Height && 0 <= x < Width ==> b[y][x] == 0
  {
    seq(Height, _ => EmptyRow())
  }

  /** The active piece: its footprint and its anchor `current_position` = [x, y]. */
  datatype Piece = Piece(shape: Footprint, x: int, y: int)

  function Shift(p: Piece, dx: int, dy: int): Piece
  {
    Piece(p.shape, p.x + dx, p.y + dy)
  }

  predicate InBounds(x: int, y: int)
  {
    0 <= x < Width && 0 <= y < Height
  }

  /** A set cell of p's footprint lies on board coordinate (x, y). */
  predicate Covers(p: Piece, x: int, y: int)
  {
    var i, j := y - p.y, x - p.x;
    0 <= i < |p.shape.rows| && 0 <= j < |p.shape.rows[i]| && p.shape.rows[i][j] != 0
  }

  /** (x, y) is an empty cell on the board. */
  predicate Free(b: Board, x: int, y: int)
    requires IsBoard(b)
  {
    InBounds(x, y) && b[y][x] == 0
  }

  /** The piece overlaps a wall or a filled cell. */
  ghost predicate Collides(b: Board, p: Piece)
    requires IsBoard(b)
  {
    exists x, y :: Covers(p, x, y) && !Free(b, x, y)
  }

  /** The test `check_collision` applies to one shifted cell, including its
      `board_x < BOARD_WIDTH` conjunct. */
  predicate Blocked(b: Board, x: int, y: int)
    requires IsBoard(b)
    ensures Blocked(b, x, y) <==> !Free(b, x, y)
  {
    x < 0 || x >= Width || y < 0 || y >= Height || (x < Width && b[y][x] != 0)
  }

  /** `check_collision(dx, dy)`: rows in order, cells in order, stop at the first hit.
      A hit is always a set cell whose shifted position the test blocks. */
  function CheckCollision(b: Board, p: Piece, dx: int, dy: int): bool
    requires IsBoard(b)
    ensures CheckCollision(b, p, dx, dy) ==>
      exists r, c :: 0 <= r < |p.shape.rows| && 0 <= c < |p.shape.rows[r]| &&
        p.shape.rows[r][c] != 0 && Blocked(b, p.x + c + dx, p.y + r + dy)
  {
    RowsCollide(b, p, dx, dy, 0)
  }

  /** The outer loop from row i on: a hit lies in some row from i on. */
  function RowsCollide(b: Board, p: Piece, dx: int, dy: int, i: nat): bool
    requires IsBoard(b)
    ensures RowsCollide(b, p, dx, dy, i) ==>
      exists r, c :: i <= r < |p.shape.rows| && 0 <= c < |p.shape.rows[r]| &&
        p.shape.rows[r][c] != 0 && Blocked(b, p.x + c + dx, p.y + r + dy)
    decreases |p.shape.rows| - i
  {
    if i >= |p.shape.rows| then false
    else CellsCollide(b, p, dx, dy, i, 0) || RowsCollide(b, p, dx, dy, i + 1)
  }

  /** The inner loop over row i from column j on: a hit lies in some column from j on. */
  function CellsCollide(b: Board, p: Piece, dx: int, dy: int, i: nat, j: nat): bool
    requires IsBoard(b) && i < |p.shape.rows|
    ensures CellsCollide(b, p, dx, dy, i, j) ==>
      exists c :: j <= c < |p.shape.rows[i]| && p.shape.rows[i][c] != 0 &&
        Blocked(b, p.x + c + dx, p.y + i + dy)
    decreases |p.shape.rows[i]| - j
  {
    if j >= |p.shape.rows[i]| then false
    else
      (p.shape.rows[i][j] != 0 && Blocked(b, p.x + j + dx, p.y + i + dy)) ||
      CellsCollide(b, p, dx, dy, i, j + 1)
  }

  lemma {:induction false} CellsCollideMeans(b: Board, p: Piece, dx: int, dy: int, i: nat, j: nat)
    requires IsBoard(b) && i < |p.shape.rows|
    ensures CellsCollide(b, p, dx, dy, i, j) <==>
      exists c :: j <= c < |p.shape.rows[i]| && p.shape.rows[i][c] != 0 &&
        !Free(b, p.x + c + dx, p.y + i + dy)
    decreases |p.shape.rows[i]| - j
  {
    if j < |p.shape.rows[i]| {
      CellsCollideMeans(b, p, dx, dy, i, j + 1);
      if CellsCollide(b, p, dx, dy, i, j + 1) {
        var c :| j + 1 <= c < |p.shape.rows[i]| && p.shape.rows[i][c] != 0 &&
          !Free(b, p.x + c + dx, p.y + i + dy);
        assert j <= c;
      }
    }
  }

  lemma {:induction false} RowsCollideMeans(b: Board, p: Piece, dx: int, dy: int, i: nat)
    requires IsBoard(b)
    ensures RowsCollide(b, p, dx, dy, i) <==>
      exists r, c :: i <= r < |p.shape.rows| && 0 <= c < |p.shape.rows[r]| &&
        p.shape.rows[r][c] != 0 && !Free(b, p.x + c + dx, p.y + r + dy)
    decreases |p.shape.rows| - i
  {
    if i < |p.shape.rows| {
      CellsCollideMeans(b, p, dx, dy, i, 0);
      RowsCollideMeans(b, p, dx, dy, i + 1);
      if CellsCollide(b, p, dx, dy, i, 0) {
        var c :| 0 <= c < |p.shape.rows[i]| && p.shape.rows[i][c] != 0 &&
          !Free(b, p.x + c + dx, p.y + i + dy);
        assert p.shape.rows[i][c] != 0;
      } else if RowsCollide(b, p, dx, dy, i + 1) {
        var r, c :| i + 1 <= r < |p.shape.rows| && 0 <= c < |p.shape.rows[r]| &&
          p.shape.rows[r][c] != 0 && !Free(b, p.x + c + dx, p.y + r + dy);
        assert p.shape.rows[r][c] != 0;
      } else {
        forall r, c | i <= r < |p.shape.rows| && 0 <= c < |p.shape.rows[r]| && p.shape.rows[r][c] != 0
          ensures Free(b, p.x + c + dx, p.y + r + dy)
        {
          if r == i {
            assert p.shape.rows[i][c] != 0;
          } else {
            assert p.shape.rows[r][c] != 0;
          }
        }
      }
    }
  }

  /** `check_collision(dx, dy)` holds exactly when some set cell, shifted by the
      position plus (dx, dy), is off the board or on a nonzero cell; its
      `board_x < BOARD_WIDTH` conjunct never matters. */
  lemma {:induction false} CheckCollisionMeans(b: Board, p: Piece, dx: int, dy: int)
    requires IsBoard(b)
    ensures CheckCollision(b, p, dx, dy) <==> Collides(b, Shift(p, dx, dy))
  {
    var q := Shift(p, dx, dy);
    RowsCollideMeans(b, p, dx, dy, 0);
    if CheckCollision(b, p, dx, dy) {
      var r, c :| 0 <= r < |p.shape.rows| && 0 <= c < |p.shape.rows[r]| &&
        p.shape.rows[r][c] != 0 && !Free(b, p.x + c + dx, p.y + r + dy);
      assert Covers(q, p.x + c + dx, p.y + r + dy);
    }
    if Collides(b, q) {
      var x, y :| Covers(q, x, y) && !Free(b, x, y);
      var r, c := y - q.y, x - q.x;
      assert p.shape.rows[r][c] != 0 && !Free(b, p.x + c + dx, p.y + r + dy);
    }
  }

  /** A collision test at offset (dx, dy) is the same as a test of the piece moved there. */
  lemma CheckCollisionShift(b: Board, p: Piece, dx: int, dy: int)
    requires IsBoard(b)
    ensures CheckCollision(b, p, dx, dy) == CheckCollision(b, Shift(p, dx, dy), 0, 0)
  {
    CheckCollisionMeans(b, p, dx, dy);
    CheckCollisionMeans(b, Shift(p, dx, dy), 0, 0);
    assert Shift(Shift(p, dx, dy), 0, 0) == Shift(p, dx, dy);
  }

  /** `move_tetromino(dx, dy)` on the piece value: the moved piece and whether it moved. */
  function TryMove(b: Board, p: Piece, dx: int, dy: int): (r: (Piece, bool))
    requires IsBoard(b)
    ensures r.1 <==> !Collides(b, Shift(p, dx, dy))
    ensures r.1 ==> r.0 == Shift(p, dx, dy) && !Collides(b, r.0)
    ensures !r.1 ==> r.0 == p
  {
    CheckCollisionMeans(b, p, dx, dy);
    if !CheckCollision(b, p, dx, dy) then (Shift(p, dx, dy), true) else (p, false)
  }

  /** `rotate_tetromino` on the piece value. The turn is adopted when the piece as it
      stands, unrotated, does not collide; the turned footprint is never tested. */
  function TryRotate(b: Board, p: Piece): (r: Piece)
    requires IsBoard(b) && WellFormed(p.shape)
    ensures r.x == p.x && r.y == p.y && WellFormed(r.shape)
    ensures Collides(b, p) ==> r == p
    ensures !Collides(b, p) ==> r.shape == Rotate(p.shape)
  {
    CheckCollisionMeans(b, p, 0, 0);
    assert Shift(p, 0, 0) == p;
    if !CheckCollision(b, p, 0, 0) then Piece(Rotate(p.shape), p.x, p.y) else p
  }

  /** Because only the unrotated piece is tested, a turn can carry the piece off the
      board: the 3-row bar lying on the bottom rows of an empty board stands 6 rows
      tall after the turn and reaches below the last row. */
  lemma RotationMayCollide()
    ensures var p := Piece(CatalogFootprint(0), 0, Height - 3);
      !Collides(EmptyBoard(), p) && Collides(EmptyBoard(), TryRotate(EmptyBoard(), p))
  {
    var b, p := EmptyBoard(), Piece(CatalogFootprint(0), 0, Height - 3);
    forall x, y | Covers(p, x, y)
      ensures Free(b, x, y)
    {
      assert 0 <= y - p.y < 3 && 0 <= x < 6;
    }
    var r := TryRotate(b, p);
    assert r.shape.rows[5][0] == p.shape.rows[2][5];
    assert Covers(r, 0, Height + 2) && !Free(b, 0, Height + 2);
  }

  /** The piece has a set cell on the board. */
  ghost predicate OnBoard(p: Piece)
  {
    exists x, y :: InBounds(x, y) && Covers(p, x, y)
  }

  /** The board after writing v into every on-board cell under a set cell of p. */
  function Placed(b: Board, p: Piece, v: int): (r: Board)
    requires IsBoard(b)
    ensures IsBoard(r)
    ensures forall x, y :: InBounds(x, y) ==> r[y][x] == if Covers(p, x, y) then v else b[y][x]
    ensures InRange(b) && 0 <= v <= |Catalog| ==> InRange(r)
  {
    seq(Height, y requires 0 <= y < Height =>
      seq(Width, x requires 0 <= x < Width => if Covers(p, x, y) then v else b[y][x]))
  }

  /** `place_tetromino`: the board with the piece written in its shape index + 1, or
      nothing when the catalog lookup raises, which happens for the first on-board set
      cell, before any write. A piece with no on-board cell writes nothing and never looks up. */
  ghost function Lock(b: Board, p: Piece): (r: Option<Board>)
    requires IsBoard(b)
    ensures r.None? <==> ShapeIndex(p.shape).None? && OnBoard(p)
    ensures r.Some? ==> IsBoard(r.value) && (InRange(b) ==> InRange(r.value))
    ensures r.Some? && ShapeIndex(p.shape).Some? ==>
      forall x, y :: InBounds(x, y) && Covers(p, x, y) ==> r.value[y][x] == ShapeIndex(p.shape).value + 1
    ensures r.Some? ==> forall x, y :: InBounds(x, y) && !Covers(p, x, y) ==> r.value[y][x] == b[y][x]
  {
    match ShapeIndex(p.shape)
    case Some(k) => Some(Placed(b, p, k + 1))
    case None =>
      if OnBoard(p) then None else Some(b)
  }

  /** Once written, the piece's own on-board cells are filled, so the piece as it stood
      now collides where it was placed. */
  lemma PlacedOccupies(b: Board, p: Piece, v: int)
    requires IsBoard(b) && v != 0 && OnBoard(p)
    ensures Collides(Placed(b, p, v), p)
  {
    var x, y :| InBounds(x, y) && Covers(p, x, y);
    assert !Free(Placed(b, p, v), x, y);
  }

  /** `all(row)`: every cell of the row is nonzero, that is, no cell is 0. */
  predicate FullRow(row: seq<int>)
    ensures FullRow(row) <==> 0 !in row
  {
    forall x :: 0 <= x < |row| ==> row[x] != 0
  }

  /** `[row for row in game_board if not all(row)]`. */
  function Incomplete(b: Board): (r: Board)
    ensures |r| <= |b|
  {
    if |b| == 0 then []
    else (if FullRow(b[0]) then [] else [b[0]]) + Incomplete(b[1..])
  }

  /** Every kept row is a row of the board, and none of them is full. */
  lemma {:induction false} IncompleteRows(b: Board)
    ensures forall y :: 0 <= y < |Incomplete(b)| ==>
      Incomplete(b)[y] in b && !FullRow(Incomplete(b)[y])
  {
    if |b| > 0 {
      IncompleteRows(b[1..]);
      var head: Board := if FullRow(b[0]) then [] else [b[0]];
      var rest := Incomplete(b[1..]);
      assert Incomplete(b) == head + rest;
      forall y | 0 <= y < |Incomplete(b)|
        ensures Incomplete(b)[y] in b && !FullRow(Incomplete(b)[y])
      {
        if y >= |head| {
          assert Incomplete(b)[y] == rest[y - |head|];
          assert rest[y - |head|] in b[1..];
        }
      }
    }
  }

  /** The number of full rows. */
  function FullCount(b: Board): nat
  {
    if |b| == 0 then 0
    else (if FullRow(b[0]) then 1 else 0) + FullCount(b[1..])
  }

  /** `clear_lines`: the incomplete rows in order, then one empty row for each row removed. */
  function Cleared(b: Board): (r: Board)
    requires IsBoard(b)
    ensures IsBoard(r)
  {
    IncompleteRows(b);
    var kept := Incomplete(b);
    kept + seq(Height - |kept|, _ => EmptyRow())
  }

  /** Filtering commutes with concatenation: surviving rows keep their relative order. */
  lemma {:induction false} IncompleteAppend(a: Board, c: Board)
    ensures Incomplete(a + c) == Incomplete(a) + Incomplete(c)
  {
    if |a| == 0 {
      assert a + c == c;
    } else {
      assert (a + c)[0] == a[0];
      assert (a + c)[1..] == a[1..] + c;
      IncompleteAppend(a[1..], c);
    }
  }

  /** Every row is either kept or counted as full. */
  lemma {:induction false} IncompleteCount(b: Board)
    ensures |Incomplete(b)| + FullCount(b) == |b|
  {
    if |b| > 0 {
      IncompleteCount(b[1..]);
    }
  }

  /** With no full row, nothing is filtered out. */
  lemma {:induction false} IncompleteNoFull(b: Board)
    requires forall y :: 0 <= y < |b| ==> !FullRow(b[y])
    ensures Incomplete(b) == b
  {
    if |b| > 0 {
      IncompleteNoFull(b[1..]);
      assert b == [b[0]] + b[1..];
    }
  }

  /** The layout `clear_lines` leaves: the incomplete rows first, in their original
      order, then exactly as many empty rows as there were full rows. */
  lemma ClearedLayout(b: Board)
    requires IsBoard(b)
    ensures Cleared(b)[..|Incomplete(b)|] == Incomplete(b)
    ensures Height - |Incomplete(b)| == FullCount(b)
    ensures forall y :: |Incomplete(b)| <= y < Height ==> Cleared(b)[y] == EmptyRow()
  {
    IncompleteCount(b);
  }

  /** No row of a cleared board is full. */
  lemma ClearedHasNoFullRow(b: Board)
    requires IsBoard(b)
    ensures forall y :: 0 <= y < Height ==> !FullRow(Cleared(b)[y])
  {
    var r, kept := Cleared(b), Incomplete(b);
    IncompleteRows(b);
    forall y | 0 <= y < Height
      ensures !FullRow(r[y])
    {
      if y >= |kept| {
        assert r[y][0] == 0;
      }
    }
  }

  /** A board without a full row is left as it is. */
  lemma ClearedNoFull(b: Board)
    requires IsBoard(b)
    requires forall y :: 0 <= y < Height ==> !FullRow(b[y])
    ensures Cleared(b) == b
  {
    IncompleteNoFull(b);
  }

  /** Clearing twice is clearing once. */
  lemma ClearedIdempotent(b: Board)
    requires IsBoard(b)
    ensures Cleared(Cleared(b)) == Cleared(b)
  {
    ClearedHasNoFullRow(b);
    ClearedNoFull(Cleared(b));
  }

  /** Cleared cells are cells of the board or empty, so the value range survives. */
  lemma ClearedInRange(b: Board)
    requires IsBoard(b) && InRange(b)
    ensures InRange(Cleared(b))
  {
    var r, kept := Cleared(b), Incomplete(b);
    IncompleteRows(b);
    forall y, x | 0 <= y < |r| && 0 <= x < |r[y]|
      ensures 0 <= r[y][x] <= |Catalog|
    {
      if y < |kept| {
        var z :| 0 <= z < |b| && b[z] == kept[y];
        assert r[y][x] == b[z][x];
      }
    }
  }

  /** A full row between two runs of incomplete rows is the only one filtered out. */
  lemma IncompleteDropRow(pre: Board, row: seq<int>, post: Board)
    requires FullRow(row)
    requires forall y :: 0 <= y < |pre| ==> !FullRow(pre[y])
    requires forall y :: 0 <= y < |post| ==> !FullRow(post[y])
    ensures Incomplete(pre + ([row] + post)) == pre + post
  {
    var tail := [row] + post;
    assert tail[1..] == post;
    IncompleteNoFull(post);
    assert Incomplete(tail) == post;
    IncompleteNoFull(pre);
    IncompleteAppend(pre, tail);
  }

  /** A slice of the board that leaves out row k has no full row. */
  lemma NoFullSlice(b: Board, lo: nat, hi: nat, k: nat)
    requires lo <= hi <= |b| && (k < lo || hi <= k)
    requires forall y :: 0 <= y < |b| && y != k ==> !FullRow(b[y])
    ensures forall y :: 0 <= y < hi - lo ==> !FullRow(b[lo..hi][y])
  {
    forall y | 0 <= y < hi - lo
      ensures !FullRow(b[lo..hi][y])
    {
      assert b[lo..hi][y] == b[lo + y];
    }
  }

  /** The board as the rows before k, row k, and the rows after it. */
  lemma SplitAt(b: Board, k: nat)
    requires k < |b|
    ensures b == b[..k] + ([b[k]] + b[k + 1..])
  {
    assert b[k..] == [b[k]] + b[k + 1..];
    assert b == b[..k] + b[k..];
  }

  /** Filtering a board whose only full row is row k drops exactly that row. */
  lemma IncompleteOneFull(b: Board, k: nat)
    requires k < |b| && FullRow(b[k])
    requires forall y :: 0 <= y < |b| && y != k ==> !FullRow(b[y])
    ensures Incomplete(b) == b[..k] + b[k + 1..]
  {
    NoFullSlice(b, 0, k, k);
    NoFullSlice(b, k + 1, |b|, k);
    assert b[0..k] == b[..k] && b[k + 1..|b|] == b[k + 1..];
    SplitAt(b, k);
    IncompleteDropRow(b[..k], b[k], b[k + 1..]);
  }

  /** A board whose only full row is row k: that row leaves its place, the rows
      after it move up by one, and one empty row is appended at the end. */
  lemma ClearOneRow(b: Board, k: nat)
    requires IsBoard(b) && k < Height && FullRow(b[k])
    requires forall y :: 0 <= y < Height && y != k ==> !FullRow(b[y])
    ensures Cleared(b) == b[..k] + b[k + 1..] + [EmptyRow()]
  {
    IncompleteOneFull(b, k);
    assert |b[..k] + b[k + 1..]| == Height - 1;
  }

  /** `new_tetromino` for the catalog index `random.choice` picked: the catalog
      footprint at x = 0, centred on y. */
  function SpawnPiece(k: nat): (p: Piece)
    requires k < |Catalog|
    ensures WellFormed(p.shape) && ShapeIndex(p.shape) == Some(k) && p.shape.rows == Catalog[k]
    ensures p.x == 0 && p.y == Height / 2 - |Catalog[k]| / 2
    ensures forall x, y :: Covers(p, x, y) ==> InBounds(x, y)
  {
    var f := CatalogFootprint(k);
    Piece(f, 0, Height / 2 - |f.rows| / 2)
  }

  /** A fresh piece lies wholly on the board, so the game-over test after a spawn
      fires exactly when it overlaps a filled cell; on an empty board it never fires. */
  lemma SpawnCollision(b: Board, k: nat)
    requires IsBoard(b) && k < |Catalog|
    ensures CheckCollision(b, SpawnPiece(k), 0, 0) <==>
      exists x, y :: InBounds(x, y) && Covers(SpawnPiece(k), x, y) && b[y][x] != 0
    ensures b == EmptyBoard() ==> !CheckCollision(b, SpawnPiece(k), 0, 0)
  {
    var p := SpawnPiece(k);
    CheckCollisionMeans(b, p, 0, 0);
    assert Shift(p, 0, 0) == p;
  }
}
