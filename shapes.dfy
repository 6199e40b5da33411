/** The shape catalog, piece footprints, rotation, and the recovery of a
    footprint's catalog index by value search. */
module Shapes {
  import opened Wrappers

  /** A footprint grid: rows run along y, entries along x; a nonzero entry is a set cell. */
  type Grid = seq<seq<int>>

  /** The seven large tetrominoes, oriented to fall from the left. */
  const Catalog: seq<Grid> := [
    [[1, 1, 1, 1, 1, 1], [1, 1, 1, 1, 1, 1], [1, 1, 1, 1, 1, 1]],
    [[1, 1, 1, 1], [1, 1, 1, 1], [1, 1, 1, 1], [1, 1, 1, 1]],
    [[1, 1, 1, 1, 1, 1], [1, 1, 1, 1, 1, 1], [0, 0, 1, 1, 0, 0], [0, 0, 1, 1, 0, 0], [0, 0, 1, 1, 0, 0]],
    [[1, 1, 1, 1, 1, 1], [1, 1, 1, 1, 1, 1], [0, 0, 0, 0, 1, 1], [0, 0, 0, 0, 1, 1], [0, 0, 0, 0, 1, 1]],
    [[1, 1, 1, 1, 1, 1], [1, 1, 1, 1, 1, 1], [1, 1, 0, 0, 0, 0], [1, 1, 0, 0, 0, 0], [1, 1, 0, 0, 0, 0]],
    [[1, 1, 1, 1, 0, 0], [1, 1, 1, 1, 0, 0], [0, 0, 1, 1, 1, 1], [0, 0, 1, 1, 1, 1]],
    [[0, 0, 1, 1, 1, 1], [0, 0, 1, 1, 1, 1], [1, 1, 1, 1, 0, 0], [1, 1, 1, 1, 0, 0]]
  ]

  /** The colour of each catalog shape; palette entry k + 1 holds Colors[k], entry 0 is black. */
  const Colors: seq<int> := [0x6825CF, 0xCF2577, 0x2528CF, 0x2594CF, 0x1DB82B, 0xFF8000, 0xED0000]

  /** The number of palette entries a bitmap pixel may index. */
  const PaletteSize: nat := |Colors| + 1

  /** The footprint an active piece holds. `rotated` records that its rows were
      rebuilt by rotation (as tuples), so they never compare equal to a catalog entry. */
  datatype Footprint = Footprint(rows: Grid, rotated: bool)

  predicate Rectangular(g: Grid)
  {
    |g| > 0 && |g[0]| > 0 && forall i :: 0 <= i < |g| ==> |g[i]| == |g[0]|
  }

  predicate HasSetCell(g: Grid)
  {
    exists i, j :: 0 <= i < |g| && 0 <= j < |g[i]| && g[i][j] != 0
  }

  /** Every footprint the game ever holds is a non-empty rectangle with a set cell. */
  predicate WellFormed(f: Footprint)
  {
    Rectangular(f.rows) && HasSetCell(f.rows)
  }

  /** The quarter turn `zip(*g[::-1])`: row i of the result is column i of g read
      from the last row up. */
  function RotateGrid(g: Grid): (r: Grid)
    requires Rectangular(g)
    ensures Rectangular(r)
    ensures |r| == |g[0]| && |r[0]| == |g|
  {
    seq(|g[0]|, i requires 0 <= i < |g[0]| =>
      seq(|g|, j requires 0 <= j < |g| => g[|g| - 1 - j][i]))
  }

  /** A quarter turn keeps every set cell: cell (i, j) moves to (j, R-1-i). */
  lemma RotateKeepsSetCells(g: Grid)
    requires Rectangular(g)
    ensures forall i, j :: 0 <= i < |g| && 0 <= j < |g[i]| ==>
      RotateGrid(g)[j][|g| - 1 - i] == g[i][j]
    ensures HasSetCell(g) ==> HasSetCell(RotateGrid(g))
  {
    if HasSetCell(g) {
      var i, j :| 0 <= i < |g| && 0 <= j < |g[i]| && g[i][j] != 0;
      assert RotateGrid(g)[j][|g| - 1 - i] != 0;
    }
  }

  /** The rotation the active piece adopts: the grid turns and the rows become tuples. */
  function Rotate(f: Footprint): (r: Footprint)
    requires WellFormed(f)
    ensures WellFormed(r) && r.rotated
    ensures |r.rows| == |f.rows[0]| && |r.rows[0]| == |f.rows|
  {
    RotateKeepsSetCells(f.rows);
    Footprint(RotateGrid(f.rows), true)
  }

  /** Two quarter turns reflect a grid through its centre. */
  lemma HalfTurn(g: Grid)
    requires Rectangular(g)
    ensures var h := RotateGrid(RotateGrid(g));
      |h| == |g| && (forall i :: 0 <= i < |h| ==> |h[i]| == |g[0]|) &&
      forall i, j :: 0 <= i < |g| && 0 <= j < |g[0]| ==> h[i][j] == g[|g| - 1 - i][|g[0]| - 1 - j]
  {
  }

  /** Four quarter turns give back the original grid. */
  lemma {:induction false} FullTurn(g: Grid)
    requires Rectangular(g)
    ensures RotateGrid(RotateGrid(RotateGrid(RotateGrid(g)))) == g
  {
    var h := RotateGrid(RotateGrid(g));
    HalfTurn(g);
    HalfTurn(h);
    var k := RotateGrid(RotateGrid(h));
    assert |k| == |g|;
    forall i | 0 <= i < |g|
      ensures k[i] == g[i]
    {
      assert |k[i]| == |g[i]|;
      forall j | 0 <= j < |g[i]|
        ensures k[i][j] == g[i][j]
      {
        assert k[i][j] == h[|g| - 1 - i][|g[0]| - 1 - j];
      }
    }
  }

  /** The first position of g in s, as `list.index` finds it. */
  function IndexOf(s: seq<Grid>, g: Grid): (r: Option<nat>)
    ensures r.Some? ==> r.value < |s| && s[r.value] == g
    ensures r.Some? ==> forall j :: 0 <= j < r.value ==> s[j] != g
    ensures r.None? <==> g !in s
  {
    if |s| == 0 then None
    else if s[0] == g then Some(0)
    else match IndexOf(s[1..], g)
      case None => None
      case Some(k) => Some(k + 1)
  }

  /** `SHAPES.index(current_tetromino)`: a catalog index when the footprint equals a
      catalog entry by value, nothing (Python raises) otherwise; rotated rows are tuples
      and never equal a catalog list, whatever their entries. */
  function ShapeIndex(f: Footprint): (r: Option<nat>)
    ensures r.Some? ==> !f.rotated && r.value < |Catalog| && Catalog[r.value] == f.rows
    ensures r.None? <==> f.rotated || f.rows !in Catalog
  {
    if f.rotated then None else IndexOf(Catalog, f.rows)
  }

  /** No two catalog shapes are equal, so a catalog footprint is found at its own index. */
  lemma CatalogDistinct()
    ensures forall i, j :: 0 <= i < j < |Catalog| ==> Catalog[i] != Catalog[j]
  {
    assert Catalog[1][0] != Catalog[5][0] && Catalog[1][0] != Catalog[6][0];
    assert Catalog[5][0] != Catalog[6][0];
    assert Catalog[2][2] != Catalog[3][2] && Catalog[2][2] != Catalog[4][2];
    assert Catalog[3][2] != Catalog[4][2];
  }

  /** The shape of every catalog entry: at most 5 rows of at most 6 cells, with the
      cell at row 0, column 2 set. */
  lemma CatalogShapes()
    ensures forall k :: 0 <= k < |Catalog| ==>
      Rectangular(Catalog[k]) && |Catalog[k]| <= 5 && |Catalog[k][0]| <= 6 && Catalog[k][0][2] != 0
  {
  }

  /** The footprint `random.choice(SHAPES)` yields for index k. */
  function CatalogFootprint(k: nat): (f: Footprint)
    requires k < |Catalog|
    ensures WellFormed(f) && !f.rotated
    ensures ShapeIndex(f) == Some(k)
    ensures |f.rows| <= 5 && forall i :: 0 <= i < |f.rows| ==> |f.rows[i]| <= 6
  {
    CatalogShapes();
    CatalogDistinct();
    assert Catalog[k][0][2] != 0;
    Footprint(Catalog[k], false)
  }
}
