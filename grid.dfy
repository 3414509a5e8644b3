/** Grid arithmetic of terrainy's Connection: widening a bounding box onto the
    tile grid (get_tileset_bounds) and enumerating the grid cells that cover it
    (get_tile_bounds). Coordinates and the resolution are integers; the tile
    side on the ground is TilePixels * res. */
module Grid {
  import opened Arith

  /** Pixels along each side of a tile (tile_pixel_length and tile_pixel_width are both 1024). */
  const TilePixels: nat := 1024

  /** An axis-aligned box (xmin, ymin, xmax, ymax) in the dataset's projected CRS. */
  datatype BBox = BBox(xmin: int, ymin: int, xmax: int, ymax: int) {
    predicate Ordered() { xmin <= xmax && ymin <= ymax }

    predicate Contains(o: BBox) {
      xmin <= o.xmin && o.xmax <= xmax && ymin <= o.ymin && o.ymax <= ymax
    }

    /** The ground point (x, y) lies in the box, counting the west and south edges only,
        so that boxes sharing an edge do not share a point. */
    predicate Holds(x: int, y: int) { xmin <= x < xmax && ymin <= y < ymax }

    /** The interiors of the two boxes intersect. */
    predicate Overlaps(o: BBox) {
      xmin < o.xmax && o.xmin < xmax && ymin < o.ymax && o.ymin < ymax
    }
  }

  /** One grid cell as yielded by get_tile_bounds: column, row (row 0 is the northernmost) and its box. */
  datatype Tile = Tile(col: nat, row: nat, bounds: BBox)

  /** Ground length of a tile side: tile_pixel_width * tif_res. */
  function TileGround(res: int): (s: int)
    requires res > 0
    ensures s > 0 && s % TilePixels == 0
  {
    DivMulExact(res, TilePixels);
    TilePixels * res
  }

  /** math.floor(a / s) for positive s. */
  function FloorDiv(a: int, s: int): (q: int)
    requires s > 0
    ensures q * s <= a < q * s + s
  {
    a / s
  }

  /** math.ceil(a / s) for positive s. */
  function CeilDiv(a: int, s: int): (q: int)
    requires s > 0
    ensures q * s - s < a <= q * s
  {
    if a % s == 0 then a / s else a / s + 1
  }

  /** The greatest multiple of s that is at most x. */
  function SnapDown(x: int, s: int): (r: int)
    requires s > 0
    ensures r % s == 0 && r <= x < r + s
  {
    var q := FloorDiv(x, s);
    DivMulExact(q, s);
    q * s
  }

  /** The least multiple of s that is at least x. */
  function SnapUp(x: int, s: int): (r: int)
    requires s > 0
    ensures r % s == 0 && r - s < x <= r
  {
    var q := CeilDiv(x, s);
    DivMulExact(q, s);
    q * s
  }

  predicate OnGrid(b: BBox, s: int)
    requires s > 0
  {
    b.xmin % s == 0 && b.ymin % s == 0 && b.xmax % s == 0 && b.ymax % s == 0
  }

  /** get_tileset_bounds: widen b outward to the tile grid, flooring the minima and
      ceiling the maxima. The result is the smallest grid-aligned box containing b. */
  function Snap(b: BBox, res: int): (r: BBox)
    requires res > 0
    ensures r.Contains(b)
    ensures OnGrid(r, TileGround(res))
    ensures var s := TileGround(res);
      b.xmin - s < r.xmin && b.ymin - s < r.ymin && r.xmax < b.xmax + s && r.ymax < b.ymax + s
  {
    var s := TileGround(res);
    BBox(SnapDown(b.xmin, s), SnapDown(b.ymin, s), SnapUp(b.xmax, s), SnapUp(b.ymax, s))
  }

  /** The number of grid columns: the snapped width in tiles, rounded up. */
  function NrCols(sb: BBox, res: int): (n: int)
    requires res > 0
    ensures sb.xmin <= sb.xmax ==> n >= 0
  {
    CeilDiv(sb.xmax - sb.xmin, TileGround(res))
  }

  /** The number of grid rows: the snapped height in tiles, rounded up. */
  function NrRows(sb: BBox, res: int): (n: int)
    requires res > 0
    ensures sb.ymin <= sb.ymax ==> n >= 0
  {
    CeilDiv(sb.ymax - sb.ymin, TileGround(res))
  }

  /** The box of grid cell (i, j) of the snapped box sb: x grows with the column,
      y falls with the row (row 0 touches sb.ymax). */
  function CellBounds(sb: BBox, res: int, i: int, j: int): BBox
    requires res > 0
  {
    var s := TileGround(res);
    BBox(sb.xmin + i * s, sb.ymax - j * s - s, sb.xmin + i * s + s, sb.ymax - j * s)
  }

  /** The k-th cell in column-major order over a grid with `rows` rows. */
  function TileAt(sb: BBox, res: int, rows: int, k: int): Tile
    requires res > 0 && rows > 0 && k >= 0
  {
    Tile(k / rows, k % rows, CellBounds(sb, res, k / rows, k % rows))
  }

  /** Everything get_tile_bounds yields for (b, res), in order. */
  function Tiles(b: BBox, res: int): seq<Tile>
    requires res > 0 && b.Ordered()
  {
    var sb := Snap(b, res);
    var cols, rows := NrCols(sb, res), NrRows(sb, res);
    if rows == 0 then []
    else seq(cols * rows, k requires 0 <= k < cols * rows => TileAt(sb, res, rows, k))
  }

  /** get_tile_bounds: the nested loop over columns (outer) and rows (inner). */
  method TileBounds(b: BBox, res: int) returns (tiles: seq<Tile>)
    requires res > 0 && b.Ordered()
    ensures tiles == Tiles(b, res)
  {
    var sb := Snap(b, res);
    var s := TileGround(res);
    var cols := NrCols(sb, res);
    var rows := NrRows(sb, res);
    tiles := [];
    for xIdx := 0 to cols
      invariant |tiles| == xIdx * rows
      invariant forall k :: 0 <= k < |tiles| ==> rows > 0 && tiles[k] == TileAt(sb, res, rows, k)
    {
      for yIdx := 0 to rows
        invariant |tiles| == xIdx * rows + yIdx
        invariant forall k :: 0 <= k < |tiles| ==> rows > 0 && tiles[k] == TileAt(sb, res, rows, k)
      {
        var x := sb.xmin + xIdx * s;
        var y := sb.ymax - yIdx * s - s;
        DivModUnique(xIdx * rows + yIdx, rows, xIdx);
        tiles := tiles + [Tile(xIdx, yIdx, BBox(x, y, x + s, y + s))];
      }
      assert (xIdx + 1) * rows == xIdx * rows + rows;
    }
    assert |tiles| == cols * rows;
    assert rows == 0 ==> tiles == [];
  }

  // ---------------------------------------------------------------------------
  // Properties of snapping

  /** A box already on the grid is left unchanged by snapping. */
  lemma SnapFixesGridBoxes(b: BBox, res: int)
    requires res > 0 && OnGrid(b, TileGround(res))
    ensures Snap(b, res) == b
  {
    var s := TileGround(res);
    DivModUnique(b.xmin, s, b.xmin / s);
    DivModUnique(b.ymin, s, b.ymin / s);
    DivModUnique(b.xmax, s, b.xmax / s);
    DivModUnique(b.ymax, s, b.ymax / s);
  }

  /** get_tileset_bounds is idempotent. */
  lemma SnapIdempotent(b: BBox, res: int)
    requires res > 0
    ensures Snap(Snap(b, res), res) == Snap(b, res)
  {
    SnapFixesGridBoxes(Snap(b, res), res);
  }

  /** The snapped box is an exact whole number of tiles wide and tall, nr_cols and
      nr_rows count those tiles, and both are positive when b has positive extent. */
  lemma GridExact(b: BBox, res: int)
    requires res > 0 && b.Ordered()
    ensures var sb := Snap(b, res); var s := TileGround(res);
      && NrCols(sb, res) * s == sb.xmax - sb.xmin
      && NrRows(sb, res) * s == sb.ymax - sb.ymin
      && NrCols(sb, res) >= 0 && NrRows(sb, res) >= 0
      && (b.xmin < b.xmax ==> NrCols(sb, res) > 0)
      && (b.ymin < b.ymax ==> NrRows(sb, res) > 0)
  {
    var sb := Snap(b, res);
    var s := TileGround(res);
    var dx := sb.xmax / s - sb.xmin / s;
    var dy := sb.ymax / s - sb.ymin / s;
    assert sb.xmax - sb.xmin == dx * s;
    assert sb.ymax - sb.ymin == dy * s;
    DivMulExact(dx, s);
    DivMulExact(dy, s);
  }

  /** Example: (10, 10, 500, 500) at resolution 10 snaps to one 10240-unit tile. */
  lemma SnapExample()
    ensures Snap(BBox(10, 10, 500, 500), 10) == BBox(0, 0, 10240, 10240)
  {
  }

  // ---------------------------------------------------------------------------
  // Properties of the enumeration

  /** Every entry is a cell of the grid, with the box CellBounds gives for it. */
  lemma TilesInGrid(b: BBox, res: int)
    requires res > 0 && b.Ordered()
    ensures var sb := Snap(b, res); var ts := Tiles(b, res);
      && |ts| == NrCols(sb, res) * NrRows(sb, res)
      && forall k :: 0 <= k < |ts| ==>
           ts[k].col < NrCols(sb, res) && ts[k].row < NrRows(sb, res)
           && ts[k].bounds == CellBounds(sb, res, ts[k].col, ts[k].row)
  {
    var sb := Snap(b, res);
    var cols, rows := NrCols(sb, res), NrRows(sb, res);
    GridExact(b, res);
    var ts := Tiles(b, res);
    if rows == 0 {
      assert cols * rows == 0;
    } else {
      forall k | 0 <= k < |ts|
        ensures ts[k].col < cols && ts[k].row < rows
      {
        DivBelow(k, rows, cols);
      }
    }
  }

  /** Cell (i, j) sits at position i * nr_rows + j: the row index varies fastest. */
  lemma TileAtIndex(b: BBox, res: int, i: nat, j: nat) returns (k: nat)
    requires res > 0 && b.Ordered()
    requires i < NrCols(Snap(b, res), res) && j < NrRows(Snap(b, res), res)
    ensures k == i * NrRows(Snap(b, res), res) + j
    ensures k < |Tiles(b, res)| && Tiles(b, res)[k] == Tile(i, j, CellBounds(Snap(b, res), res, i, j))
  {
    var sb := Snap(b, res);
    var cols, rows := NrCols(sb, res), NrRows(sb, res);
    assert 0 <= i * rows by { MulMonotone(0, i, rows); }
    k := i * rows + j;
    assert k < cols * rows by { MulStrict(i, cols, rows); }
    assert k / rows == i && k % rows == j by { DivModUnique(k, rows, i); }
    var ts := Tiles(b, res);
    assert |ts| == cols * rows && ts[k] == TileAt(sb, res, rows, k);
  }

  /** Entries are strictly increasing in (column, row): no cell is yielded twice and
      within a column the rows come in order. */
  lemma TilesOrdered(b: BBox, res: int)
    requires res > 0 && b.Ordered()
    ensures var ts := Tiles(b, res);
      forall k, k' :: 0 <= k < k' < |ts| ==>
        ts[k].col < ts[k'].col || (ts[k].col == ts[k'].col && ts[k].row < ts[k'].row)
  {
    var sb := Snap(b, res);
    var rows := NrRows(sb, res);
    var ts := Tiles(b, res);
    forall k, k' | 0 <= k < k' < |ts|
      ensures ts[k].col < ts[k'].col || (ts[k].col == ts[k'].col && ts[k].row < ts[k'].row)
    {
      DivOrder(k, k', rows);
    }
  }

  /** Every cell lies inside the snapped box. */
  lemma CellInside(b: BBox, res: int, i: nat, j: nat)
    requires res > 0 && b.Ordered()
    requires i < NrCols(Snap(b, res), res) && j < NrRows(Snap(b, res), res)
    ensures Snap(b, res).Contains(CellBounds(Snap(b, res), res, i, j))
  {
    var sb := Snap(b, res);
    var s := TileGround(res);
    GridExact(b, res);
    MulStrict(i, NrCols(sb, res), s);
    MulStrict(j, NrRows(sb, res), s);
  }

  /** Distinct cells have disjoint interiors. */
  lemma CellsDisjoint(sb: BBox, res: int, i: int, j: int, i': int, j': int)
    requires res > 0 && (i != i' || j != j')
    ensures !CellBounds(sb, res, i, j).Overlaps(CellBounds(sb, res, i', j'))
  {
    var s := TileGround(res);
    if i < i' {
      MulStrict(i, i', s);
    } else if i' < i {
      MulStrict(i', i, s);
    } else if j < j' {
      MulStrict(j, j', s);
    } else {
      MulStrict(j', j, s);
    }
  }

  /** Every point of the snapped box lies in some cell of the grid; with CellsDisjoint
      and CellInside, the cells tile the snapped box exactly. */
  lemma CellCovering(b: BBox, res: int, x: int, y: int) returns (i: nat, j: nat)
    requires res > 0 && b.Ordered() && Snap(b, res).Holds(x, y)
    ensures i < NrCols(Snap(b, res), res) && j < NrRows(Snap(b, res), res)
    ensures CellBounds(Snap(b, res), res, i, j).Holds(x, y)
  {
    var sb := Snap(b, res);
    var s := TileGround(res);
    GridExact(b, res);
    var cols, rows := NrCols(sb, res), NrRows(sb, res);
    DivBelow(x - sb.xmin, s, cols);
    DivBelow(sb.ymax - 1 - y, s, rows);
    i := FloorDiv(x - sb.xmin, s);
    j := FloorDiv(sb.ymax - 1 - y, s);
    assert i * s <= x - sb.xmin < i * s + s;
    assert j * s <= sb.ymax - 1 - y < j * s + s;
  }

  /** Distinct cells have distinct boxes, hence distinct cache keys. */
  lemma CellBoundsInjective(sb: BBox, res: int, i: int, j: int, i': int, j': int)
    requires res > 0 && (i != i' || j != j')
    ensures CellBounds(sb, res, i, j) != CellBounds(sb, res, i', j')
  {
    CellsDisjoint(sb, res, i, j, i', j');
  }

  /** A grid-aligned box two tiles wide and two tall, such as (0, 0, 2048, 2048) at
      resolution 1, yields its four cells in the order column 0 north, column 0 south,
      column 1 north, column 1 south. */
  lemma TilesOfTwoByTwo(b: BBox, res: int)
    requires res > 0 && OnGrid(b, TileGround(res))
    requires b.xmax == b.xmin + 2 * TileGround(res) && b.ymax == b.ymin + 2 * TileGround(res)
    ensures var s, x, y := TileGround(res), b.xmin, b.ymax;
      Tiles(b, res) ==
        [ Tile(0, 0, BBox(x, y - s, x + s, y)), Tile(0, 1, BBox(x, y - 2 * s, x + s, y - s)),
          Tile(1, 0, BBox(x + s, y - s, x + 2 * s, y)), Tile(1, 1, BBox(x + s, y - 2 * s, x + 2 * s, y - s)) ]
  {
    var s := TileGround(res);
    assert Snap(b, res) == b by { SnapFixesGridBoxes(b, res); }
    assert NrCols(b, res) == 2 && NrRows(b, res) == 2 by { DivMulExact(2, s); }
    var ts := Tiles(b, res);
    var k00 := TileAtIndex(b, res, 0, 0);
    var k01 := TileAtIndex(b, res, 0, 1);
    var k10 := TileAtIndex(b, res, 1, 0);
    var k11 := TileAtIndex(b, res, 1, 1);
    assert |ts| == 4 && k00 == 0 && k01 == 1 && k10 == 2 && k11 == 3;
  }
}
