/** Mosaic assembly of download: where each tile lands in the output array, how the
    array is georeferenced, and the in-place copy of one tile into its slice. */
module Mosaic {
  import opened Arith
  import opened Grid
  import opened Raster
  import opened TileCache

  /** The open_tile call download makes for grid cell (i, j): the cell's box, the mosaic
      resolution and the default tile size. */
  function CellRequest(sb: BBox, res: int, i: int, j: int): TileRequest
    requires res > 0
  {
    TileRequest(CellBounds(sb, res, i, j), res as real, DefaultSize())
  }

  /** Distinct cells of one download are cached under distinct keys, so no open_tile call
      of the loop can hit a file another cell's call wrote. */
  lemma CellKeysDistinct(title: string, sb: BBox, res: int, i: int, j: int, i': int, j': int)
    requires res > 0
    ensures KeyOf(title, CellRequest(sb, res, i, j)) == KeyOf(title, CellRequest(sb, res, i', j'))
        <==> i == i' && j == j'
  {
    if i != i' || j != j' {
      CellBoundsInjective(sb, res, i, j, i', j');
    }
  }

  /** The open_tile calls download makes, one per tile in the order the tiles come:
      each tile's box, the mosaic resolution and the default tile size. */
  function DownloadRequests(tiles: seq<Tile>, res: int): seq<TileRequest> {
    seq(|tiles|, k requires 0 <= k < |tiles| => TileRequest(tiles[k].bounds, res as real, DefaultSize()))
  }

  /** The k-th open_tile call of download is the cell request of the k-th tile the grid
      enumeration yields. */
  lemma DownloadRequestAt(b: BBox, res: int, k: nat)
    requires res > 0 && b.Ordered() && k < |Tiles(b, res)|
    ensures |DownloadRequests(Tiles(b, res), res)| == |Tiles(b, res)|
    ensures var t := Tiles(b, res)[k];
      DownloadRequests(Tiles(b, res), res)[k] == CellRequest(Snap(b, res), res, t.col, t.row)
  {
    TilesInGrid(b, res);
  }

  /** The mosaic's georeferencing: a translation to the north-west corner of the snapped
      box composed with a scale by res along x and -res along y. */
  function MosaicTransform(sb: BBox, res: int): (t: Affine)
    ensures forall col, row ::
      t.Apply(col, row) == Point(sb.xmin as real + res as real * col, sb.ymax as real - res as real * row)
  {
    Compose(Translation(sb.xmin as real, sb.ymax as real), Scale(res as real, -(res as real)))
  }

  /** What download returns: the pixel array and its transform. */
  datatype MosaicResult = MosaicResult(pixels: array3<int>, transform: Affine)

  /** Pixel (row, col) of a band lies in the slice
      [j * 1024, j * 1024 + 1024) x [i * 1024, i * 1024 + 1024) written for tile (i, j). */
  predicate InSlice(i: int, j: int, row: int, col: int) {
    j * TilePixels <= row < j * TilePixels + TilePixels && i * TilePixels <= col < i * TilePixels + TilePixels
  }

  /** Each pixel belongs to the slice of exactly one tile: (col / 1024, row / 1024). */
  lemma SliceOfPixel(row: nat, col: nat, i: int, j: int)
    ensures InSlice(col / TilePixels, row / TilePixels, row, col)
    ensures InSlice(i, j, row, col) ==> i == col / TilePixels && j == row / TilePixels
  {
    if InSlice(i, j, row, col) {
      DivModUnique(row, TilePixels, j);
      DivModUnique(col, TilePixels, i);
    }
  }

  /** Slices of distinct tiles are disjoint. */
  lemma SlicesDisjoint(i: int, j: int, i': int, j': int, row: nat, col: nat)
    requires i != i' || j != j'
    ensures !(InSlice(i, j, row, col) && InSlice(i', j', row, col))
  {
    SliceOfPixel(row, col, i, j);
    SliceOfPixel(row, col, i', j');
  }

  /** The slice of every grid cell lies inside the 1024*nr_rows x 1024*nr_cols array, and
      every pixel of that array lies in the slice of a grid cell. */
  lemma SlicesFitArray(cols: nat, rows: nat, i: nat, j: nat, row: nat, col: nat)
    ensures i < cols && j < rows ==>
      j * TilePixels + TilePixels <= TilePixels * rows && i * TilePixels + TilePixels <= TilePixels * cols
    ensures row < TilePixels * rows && col < TilePixels * cols ==>
      col / TilePixels < cols && row / TilePixels < rows
  {
    if i < cols && j < rows {
      MulStrict(i, cols, TilePixels);
      MulStrict(j, rows, TilePixels);
    }
    if row < TilePixels * rows && col < TilePixels * cols {
      DivBelow(row, TilePixels, rows);
      DivBelow(col, TilePixels, cols);
    }
  }

  /** The position, in download's order (columns outer, rows inner), of the tile whose
      slice holds pixel (row, col). */
  function TileIndex(rows: nat, row: nat, col: nat): nat {
    (col / TilePixels) * rows + row / TilePixels
  }

  /** The k-th tile written is the one whose slice holds the pixel, and no other. */
  lemma TileIndexIffSlice(rows: nat, k: nat, row: nat, col: nat)
    requires rows > 0 && row < TilePixels * rows
    ensures TileIndex(rows, row, col) == k <==> InSlice(k / rows, k % rows, row, col)
  {
    var i, j := col / TilePixels, row / TilePixels;
    DivBelow(row, TilePixels, rows);
    SliceOfPixel(row, col, k / rows, k % rows);
    if TileIndex(rows, row, col) == k {
      DivModUnique(k, rows, i);
    }
  }

  /** Every pixel of the array is written by one of the cols * rows tiles. */
  lemma TileIndexInRange(cols: nat, rows: nat, row: nat, col: nat)
    requires row < TilePixels * rows && col < TilePixels * cols
    ensures TileIndex(rows, row, col) < cols * rows
  {
    SlicesFitArray(cols, rows, 0, 0, row, col);
    MulStrict(col / TilePixels, cols, rows);
  }

  /** The ground box covered by pixel (row, col) of the mosaic. */
  function PixelBounds(sb: BBox, res: int, row: int, col: int): BBox {
    BBox(sb.xmin + col * res, sb.ymax - row * res - res, sb.xmin + col * res + res, sb.ymax - row * res)
  }

  /** The transform sends pixel (i * 1024, j * 1024), the first pixel of tile (i, j)'s
      slice, to the north-west corner (x, y + tile_m_length) of that tile. */
  lemma TileCornerGeoreferenced(sb: BBox, res: int, i: int, j: int)
    requires res > 0
    ensures var c := CellBounds(sb, res, i, j);
      MosaicTransform(sb, res).Apply((i * TilePixels) as real, (j * TilePixels) as real)
        == Point(c.xmin as real, c.ymax as real)
  {
    var s := TileGround(res);
    CastMul(res, i * TilePixels);
    CastMul(res, j * TilePixels);
    assert res * (i * TilePixels) == i * s;
    assert res * (j * TilePixels) == j * s;
  }

  /** Pixel (row, col) sits, on the ground, where its tile put it: the transform sends it
      to the north-west corner of its pixel box, and that box lies inside the box of the
      tile whose data was copied into it. */
  lemma PixelInsideItsTile(sb: BBox, res: int, row: nat, col: nat)
    requires res > 0
    ensures var p := PixelBounds(sb, res, row, col);
      && MosaicTransform(sb, res).Apply(col as real, row as real) == Point(p.xmin as real, p.ymax as real)
      && CellBounds(sb, res, col / TilePixels, row / TilePixels).Contains(p)
  {
    CastMul(res, col);
    CastMul(res, row);
    PixelInsideItsCell(res, col);
    PixelInsideItsCell(res, row);
  }

  /** Along one axis: pixel n of the mosaic spans [n * res, n * res + res), which lies in
      the span [i * s, i * s + s) of cell i = n / 1024, s being the tile's ground side. */
  lemma PixelInsideItsCell(res: int, n: nat)
    requires res > 0
    ensures var i, s := n / TilePixels, TileGround(res);
      i * s <= n * res && n * res + res <= i * s + s
  {
    var i, s := n / TilePixels, TileGround(res);
    assert i * TilePixels <= n < i * TilePixels + TilePixels;
    MulMonotone(i * TilePixels, n, res);
    MulMonotone(n + 1, i * TilePixels + TilePixels, res);
    assert i * TilePixels * res == i * s;
    assert (i * TilePixels + TilePixels) * res == i * s + s;
  }

  // ---------------------------------------------------------------------------
  // The slice assignment of download: every band of a tile goes into rows j * 1024 up to
  // j * 1024 + 1024 and columns i * 1024 up to i * 1024 + 1024 of the array.

  /** Copies row r of band b of the tile into the array. */
  method CopyRow(a: array3<int>, tile: Raster, i: nat, j: nat, b: nat, r: nat)
    requires ShapeOf(tile) == Shape(a.Length0, TilePixels, TilePixels)
    requires b < a.Length0 && r < TilePixels
    requires j * TilePixels + TilePixels <= a.Length1 && i * TilePixels + TilePixels <= a.Length2
    modifies a
    ensures forall bb, row, col :: 0 <= bb < a.Length0 && 0 <= row < a.Length1 && 0 <= col < a.Length2 ==>
      a[bb, row, col] ==
        if bb == b && row == j * TilePixels + r && i * TilePixels <= col < i * TilePixels + TilePixels
        then tile[b][r][col - i * TilePixels] else old(a[bb, row, col])
  {
    for c := 0 to TilePixels
      invariant forall bb, row, col :: 0 <= bb < a.Length0 && 0 <= row < a.Length1 && 0 <= col < a.Length2 ==>
        a[bb, row, col] ==
          if bb == b && row == j * TilePixels + r && i * TilePixels <= col < i * TilePixels + c
          then tile[b][r][col - i * TilePixels] else old(a[bb, row, col])
    {
      a[b, j * TilePixels + r, i * TilePixels + c] := tile[b][r][c];
    }
  }

  /** Copies band b of the tile into its slice. */
  method CopyBand(a: array3<int>, tile: Raster, i: nat, j: nat, b: nat)
    requires ShapeOf(tile) == Shape(a.Length0, TilePixels, TilePixels)
    requires b < a.Length0
    requires j * TilePixels + TilePixels <= a.Length1 && i * TilePixels + TilePixels <= a.Length2
    modifies a
    ensures forall bb, row, col :: 0 <= bb < a.Length0 && 0 <= row < a.Length1 && 0 <= col < a.Length2 ==>
      a[bb, row, col] ==
        if bb == b && InSlice(i, j, row, col)
        then tile[b][row - j * TilePixels][col - i * TilePixels] else old(a[bb, row, col])
  {
    for r := 0 to TilePixels
      invariant forall bb, row, col :: 0 <= bb < a.Length0 && 0 <= row < a.Length1 && 0 <= col < a.Length2 ==>
        a[bb, row, col] ==
          if bb == b && j * TilePixels <= row < j * TilePixels + r && i * TilePixels <= col < i * TilePixels + TilePixels
          then tile[b][row - j * TilePixels][col - i * TilePixels] else old(a[bb, row, col])
    {
      CopyRow(a, tile, i, j, b, r);
    }
  }

  /** Copies every band of the tile into the slice of cell (i, j) and leaves every
      pixel outside that slice unchanged. */
  method CopyTile(a: array3<int>, tile: Raster, i: nat, j: nat)
    requires ShapeOf(tile) == Shape(a.Length0, TilePixels, TilePixels)
    requires j * TilePixels + TilePixels <= a.Length1 && i * TilePixels + TilePixels <= a.Length2
    modifies a
    ensures forall bb, row, col :: 0 <= bb < a.Length0 && 0 <= row < a.Length1 && 0 <= col < a.Length2 ==>
      a[bb, row, col] ==
        if InSlice(i, j, row, col)
        then tile[bb][row - j * TilePixels][col - i * TilePixels] else old(a[bb, row, col])
  {
    for b := 0 to a.Length0
      invariant forall bb, row, col :: 0 <= bb < a.Length0 && 0 <= row < a.Length1 && 0 <= col < a.Length2 ==>
        a[bb, row, col] ==
          if bb < b && InSlice(i, j, row, col)
          then tile[bb][row - j * TilePixels][col - i * TilePixels] else old(a[bb, row, col])
    {
      CopyBand(a, tile, i, j, b);
    }
  }

  /** The array after download has copied the tiles `placed`, in its order: every pixel
      of the slice of the k-th tile holds that tile's pixel, and every other pixel is
      still the 0 np.zeros put there. */
  predicate Filled(a: array3<int>, rows: nat, placed: seq<Raster>)
    reads a
  {
    forall bb, row, col :: 0 <= bb < a.Length0 && 0 <= row < a.Length1 && 0 <= col < a.Length2 ==>
      a[bb, row, col] ==
        var k := TileIndex(rows, row, col);
        if k < |placed| then At(placed[k], bb, row % TilePixels, col % TilePixels) else 0
  }

  /** One iteration of download's loop body after open_tile: tile number k goes into
      the slice of cell (k / nr_rows, k % nr_rows). */
  method PlaceTile(a: array3<int>, cols: nat, rows: nat, k: nat, ghost placed: seq<Raster>, tile: Raster)
    requires |placed| == k
    requires a.Length1 == TilePixels * rows && a.Length2 == TilePixels * cols
    requires |placed| < cols * rows
    requires ShapeOf(tile) == Shape(a.Length0, TilePixels, TilePixels)
    requires Filled(a, rows, placed)
    modifies a
    ensures Filled(a, rows, placed + [tile])
  {
    assert rows > 0;
    DivBelow(k, rows, cols);
    var i, j := k / rows, k % rows;
    SlicesFitArray(cols, rows, i, j, 0, 0);
    CopyTile(a, tile, i, j);
    forall bb, row, col | 0 <= bb < a.Length0 && 0 <= row < a.Length1 && 0 <= col < a.Length2
      ensures a[bb, row, col] ==
        var k' := TileIndex(rows, row, col);
        if k' < k + 1 then At((placed + [tile])[k'], bb, row % TilePixels, col % TilePixels) else 0
    {
      TileIndexIffSlice(rows, k, row, col);
      SliceOfPixel(row, col, i, j);
      if bb < ShapeOf(tile).bands && InSlice(i, j, row, col) {
        AtInside(tile, bb, row % TilePixels, col % TilePixels);
      }
    }
  }

  /** The array is the mosaic of the grid of sb: pixel (row, col) of band bb holds pixel
      (row % 1024, col % 1024) of what open_tile serves, from cache state s, for cell
      (col / 1024, row / 1024), or 0 where that tile has no such pixel. */
  predicate CellsLaidOut(a: array3<int>, sb: BBox, res: int, s: CacheState, title: string, cacheTiles: bool,
                         source: TileRequest -> Raster)
    requires res > 0
    reads a
  {
    forall bb, row, col :: 0 <= bb < a.Length0 && 0 <= row < a.Length1 && 0 <= col < a.Length2 ==>
      a[bb, row, col] ==
        At(Open(s, title, cacheTiles, source, CellRequest(sb, res, col / TilePixels, row / TilePixels)).0,
           bb, row % TilePixels, col % TilePixels)
  }

  /** The n-th request of download fetches a grid cell, so a misfit n-th tile is a cell
      of the grid that open_tile served, from cache state s0, with the wrong shape. */
  lemma MisfitCell(b: BBox, res: int, s0: CacheState, title: string, cacheTiles: bool,
                   source: TileRequest -> Raster, bands: nat, n: nat)
    requires res > 0 && b.Ordered() && n < |Tiles(b, res)|
    requires ShapeOf(Open(s0, title, cacheTiles, source, DownloadRequests(Tiles(b, res), res)[n]).0)
               != Shape(bands, TilePixels, TilePixels)
    ensures var sb := Snap(b, res);
      exists i, j :: 0 <= i < NrCols(sb, res) && 0 <= j < NrRows(sb, res)
        && ShapeOf(Open(s0, title, cacheTiles, source, CellRequest(sb, res, i, j)).0)
             != Shape(bands, TilePixels, TilePixels)
  {
    var t := Tiles(b, res)[n];
    TilesInGrid(b, res);
    DownloadRequestAt(b, res, n);
    assert ShapeOf(Open(s0, title, cacheTiles, source, CellRequest(Snap(b, res), res, t.col, t.row)).0)
             != Shape(bands, TilePixels, TilePixels);
  }

  /** download's result once every tile is placed: every cell of the grid was served with
      the right shape, and pixel (row, col) of band bb holds pixel (row % 1024, col % 1024)
      of what open_tile served, from cache state s0, for cell (col / 1024, row / 1024). */
  lemma MosaicOfCells(b: BBox, res: int, s0: CacheState, title: string, cacheTiles: bool,
                      source: TileRequest -> Raster, bands: nat, placed: seq<Raster>, a: array3<int>)
    requires res > 0 && b.Ordered()
    requires a.Length0 == bands
    requires a.Length1 == TilePixels * NrRows(Snap(b, res), res)
    requires a.Length2 == TilePixels * NrCols(Snap(b, res), res)
    requires Filled(a, NrRows(Snap(b, res), res), placed)
    requires var sb, ts := Snap(b, res), Tiles(b, res);
      |placed| == |ts| && forall k :: 0 <= k < |ts| ==>
        placed[k] == Open(s0, title, cacheTiles, source, DownloadRequests(ts, res)[k]).0
        && ShapeOf(placed[k]) == Shape(bands, TilePixels, TilePixels)
    ensures var sb := Snap(b, res);
      forall i, j :: 0 <= i < NrCols(sb, res) && 0 <= j < NrRows(sb, res) ==>
        ShapeOf(Open(s0, title, cacheTiles, source, CellRequest(sb, res, i, j)).0)
          == Shape(bands, TilePixels, TilePixels)
    ensures CellsLaidOut(a, Snap(b, res), res, s0, title, cacheTiles, source)
  {
    var sb := Snap(b, res);
    var cols, rows := NrCols(sb, res), NrRows(sb, res);
    GridExact(b, res);
    TilesInGrid(b, res);
    forall i, j | 0 <= i < cols && 0 <= j < rows
      ensures ShapeOf(Open(s0, title, cacheTiles, source, CellRequest(sb, res, i, j)).0)
                == Shape(bands, TilePixels, TilePixels)
    {
      var k := TileAtIndex(b, res, i, j);
      DownloadRequestAt(b, res, k);
    }
    forall bb, row, col | 0 <= bb < a.Length0 && 0 <= row < a.Length1 && 0 <= col < a.Length2
      ensures a[bb, row, col] ==
        At(Open(s0, title, cacheTiles, source, CellRequest(sb, res, col / TilePixels, row / TilePixels)).0,
           bb, row % TilePixels, col % TilePixels)
    {
      TileIndexInRange(cols, rows, row, col);
      SlicesFitArray(cols, rows, 0, 0, row, col);
      var k := TileAtIndex(b, res, col / TilePixels, row / TilePixels);
      DownloadRequestAt(b, res, k);
    }
  }

  /** What download concludes when its loop placed every tile. s0 is the cache state on
      entry and s1 the one the loop left: the cache grew, every cell of the grid was
      served with the full shape, and the array is the mosaic. */
  lemma DownloadSucceeded(b: BBox, res: int, s0: CacheState, s1: CacheState, title: string, cacheTiles: bool,
                          source: TileRequest -> Raster, bands: nat, placed: seq<Raster>, a: array3<int>)
    requires res > 0 && b.Ordered()
    requires a.Length0 == bands
    requires a.Length1 == TilePixels * NrRows(Snap(b, res), res)
    requires a.Length2 == TilePixels * NrCols(Snap(b, res), res)
    requires Filled(a, NrRows(Snap(b, res), res), placed)
    requires var ts := Tiles(b, res); var reqs := DownloadRequests(ts, res);
      && |placed| == |ts|
      && (forall k :: 0 <= k < |placed| ==>
            && placed[k] == Open(s0, title, cacheTiles, source, reqs[k]).0
            && ShapeOf(placed[k]) == Shape(bands, TilePixels, TilePixels))
      && s1 == OpenAll(s0, title, cacheTiles, source, reqs, |ts|)
    ensures Extends(s0, s1)
    ensures var reqs := DownloadRequests(Tiles(b, res), res);
      s1 == OpenAll(s0, title, cacheTiles, source, reqs, |reqs|)
    ensures var sb := Snap(b, res);
      forall i, j :: 0 <= i < NrCols(sb, res) && 0 <= j < NrRows(sb, res) ==>
        ShapeOf(Open(s0, title, cacheTiles, source, CellRequest(sb, res, i, j)).0) == Shape(bands, TilePixels, TilePixels)
    ensures CellsLaidOut(a, Snap(b, res), res, s0, title, cacheTiles, source)
  {
    var reqs := DownloadRequests(Tiles(b, res), res);
    if |placed| > 0 {
      DownloadRequestAt(b, res, 0);
    }
    OpenAllExtends(s0, title, cacheTiles, source, reqs, |reqs|);
    MosaicOfCells(b, res, s0, title, cacheTiles, source, bands, placed, a);
  }

  /** What download concludes when its loop stopped at request n = |placed|: the cache
      grew by the calls up to and including n, request n is the first misshapen one, and
      so some cell of the grid was not served with the full shape. */
  lemma DownloadFailed(b: BBox, res: int, s0: CacheState, s1: CacheState, title: string, cacheTiles: bool,
                       source: TileRequest -> Raster, bands: nat, placed: seq<Raster>)
    requires res > 0 && b.Ordered()
    requires var ts := Tiles(b, res); var reqs := DownloadRequests(ts, res); var n := |placed|;
      && n < |ts|
      && (forall k :: 0 <= k < n ==>
            && placed[k] == Open(s0, title, cacheTiles, source, reqs[k]).0
            && ShapeOf(placed[k]) == Shape(bands, TilePixels, TilePixels))
      && s1 == OpenAll(s0, title, cacheTiles, source, reqs, n + 1)
      && ShapeOf(Open(s0, title, cacheTiles, source, reqs[n]).0) != Shape(bands, TilePixels, TilePixels)
    ensures Extends(s0, s1)
    ensures var reqs := DownloadRequests(Tiles(b, res), res);
      exists n :: 0 <= n < |reqs|
        && s1 == OpenAll(s0, title, cacheTiles, source, reqs, n + 1)
        && ShapeOf(Open(s0, title, cacheTiles, source, reqs[n]).0) != Shape(bands, TilePixels, TilePixels)
        && forall m :: 0 <= m < n ==> ShapeOf(Open(s0, title, cacheTiles, source, reqs[m]).0) == Shape(bands, TilePixels, TilePixels)
    ensures var sb := Snap(b, res);
      exists i, j :: 0 <= i < NrCols(sb, res) && 0 <= j < NrRows(sb, res)
        && ShapeOf(Open(s0, title, cacheTiles, source, CellRequest(sb, res, i, j)).0) != Shape(bands, TilePixels, TilePixels)
  {
    var reqs := DownloadRequests(Tiles(b, res), res);
    var n := |placed|;
    DownloadRequestAt(b, res, n);
    OpenAllExtends(s0, title, cacheTiles, source, reqs, n + 1);
    MisfitCell(b, res, s0, title, cacheTiles, source, bands, n);
  }
}
