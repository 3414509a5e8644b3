/** terrainy's Connection: the on-disk tile cache it fills, and the two operations
    built on it, download (mosaic assembly) and get_shape (footprint probe).
    download_tile, supplied by each backend, is a deterministic function of its
    arguments; every call of it is logged in `downloads`. */
module Terrainy {
  import opened Arith
  import opened Grid
  import opened Raster
  import opened TileCache
  import opened Mosaic
  import opened Footprint

  class Connection {
    /** The dataset title, part of every cache path. */
    const title: string
    const cacheTiles: bool
    /** self.bands of the backend. */
    const bands: nat
    /** The backend's download_tile(bounds, tif_res, size). */
    const downloadTile: TileRequest -> Raster

    /** The cache directory: key to the raster stored in its .tif file. */
    var files: map<CacheKey, Raster>
    /** Every download_tile call made so far, in order. */
    var downloads: seq<TileRequest>

    constructor (title: string, cacheTiles: bool, bands: nat, downloadTile: TileRequest -> Raster,
                 files: map<CacheKey, Raster>)
      ensures this.title == title && this.cacheTiles == cacheTiles && this.bands == bands
      ensures this.downloadTile == downloadTile
      ensures this.files == files && downloads == []
    {
      this.title := title;
      this.cacheTiles := cacheTiles;
      this.bands := bands;
      this.downloadTile := downloadTile;
      this.files := files;
      this.downloads := [];
    }

    function State(): CacheState
      reads this
    {
      CacheState(files, downloads)
    }

    /** What open_tile would return for req in the current state. */
    function Served(req: TileRequest): Raster
      reads this
    {
      Open(State(), title, cacheTiles, downloadTile, req).0
    }

    /** get_tile_file: download the tile into the cache if its file is missing, and give its key. */
    method GetTileFile(req: TileRequest) returns (key: CacheKey)
      modifies this
      ensures key == KeyOf(title, req) && key in files
      ensures State() == Fetch(old(State()), title, downloadTile, req)
    {
      key := KeyOf(title, req);
      if key !in files {
        var response := downloadTile(req);
        downloads := downloads + [req];
        files := files[key := response];
      }
    }

    /** open_tile: read through the cache, or download directly when cache_tiles is false. */
    method OpenTile(req: TileRequest) returns (data: Raster)
      modifies this
      ensures (data, State()) == Open(old(State()), title, cacheTiles, downloadTile, req)
    {
      if cacheTiles {
        var key := GetTileFile(req);
        data := files[key];
      } else {
        data := downloadTile(req);
        downloads := downloads + [req];
      }
    }

    /** download's open_tile call for grid cell (i, j): it returns what
        open_tile serves for the cell, and what it would serve for any other cell is unchanged. */
    method OpenCell(sb: BBox, res: int, i: int, j: int) returns (data: Raster)
      requires res > 0
      modifies this
      ensures data == old(Served(CellRequest(sb, res, i, j)))
      ensures State() == Open(old(State()), title, cacheTiles, downloadTile, CellRequest(sb, res, i, j)).1
      ensures Extends(old(State()), State())
      ensures forall i', j' :: i' != i || j' != j ==>
        Served(CellRequest(sb, res, i', j')) == old(Served(CellRequest(sb, res, i', j')))
    {
      ghost var before := State();
      data := OpenTile(CellRequest(sb, res, i, j));
      forall i', j' | i' != i || j' != j
        ensures Served(CellRequest(sb, res, i', j')) == old(Served(CellRequest(sb, res, i', j')))
      {
        CellBoundsInjective(sb, res, i, j, i', j');
        OpenServedStable(before, title, cacheTiles, downloadTile, CellRequest(sb, res, i, j),
                         CellRequest(sb, res, i', j'));
      }
    }

    /** download: snap the region to the grid, allocate a zeroed bands x (1024 * nr_rows) x
        (1024 * nr_cols) array, fetch every cell through open_tile and copy it into its slice.
        Pixel (row, col) then holds pixel (row % 1024, col % 1024) of the tile of cell
        (col / 1024, row / 1024), as open_tile would have served it on entry. The cache
        ends as open_tile left it after the calls made: all of them on success, those up to
        and including the first misshapen tile otherwise. */
    method Download(b: BBox, res: int) returns (r: Result<MosaicResult>)
      requires res > 0 && b.Ordered()
      modifies this
      ensures Extends(old(State()), State())
      ensures r.Ok? ==>
        var reqs := DownloadRequests(Tiles(b, res), res);
        State() == OpenAll(old(State()), title, cacheTiles, downloadTile, reqs, |reqs|)
      ensures r.Err? ==> var reqs := DownloadRequests(Tiles(b, res), res);
        exists n :: 0 <= n < |reqs|
          && State() == OpenAll(old(State()), title, cacheTiles, downloadTile, reqs, n + 1)
          && ShapeOf(old(Served(reqs[n]))) != Shape(bands, TilePixels, TilePixels)
          && forall m :: 0 <= m < n ==> ShapeOf(old(Served(reqs[m]))) == Shape(bands, TilePixels, TilePixels)
      ensures var sb := Snap(b, res);
        r.Ok? <==> forall i, j :: 0 <= i < NrCols(sb, res) && 0 <= j < NrRows(sb, res) ==>
          ShapeOf(old(Served(CellRequest(sb, res, i, j)))) == Shape(bands, TilePixels, TilePixels)
      ensures r.Err? ==> r.error == ShapeMismatch
      ensures r.Ok? ==> fresh(r.value.pixels) && r.value.transform == MosaicTransform(Snap(b, res), res)
      ensures r.Ok? ==> var sb := Snap(b, res); var a := r.value.pixels;
        && a.Length0 == bands
        && a.Length1 == TilePixels * NrRows(sb, res)
        && a.Length2 == TilePixels * NrCols(sb, res)
        && CellsLaidOut(a, sb, res, old(State()), title, cacheTiles, downloadTile)
    {
      ghost var s0 := State();
      var sb := Snap(b, res);
      var cols, rows := NrCols(sb, res), NrRows(sb, res);
      GridExact(b, res);
      var pixels := new int[bands, TilePixels * rows, TilePixels * cols]((_, _, _) => 0);
      var tiles := TileBounds(b, res);
      assert |tiles| == cols * rows
        && (forall k :: 0 <= k < |tiles| ==> tiles[k].bounds == CellBounds(sb, res, tiles[k].col, tiles[k].row))
        && forall k, k' :: 0 <= k < k' < |tiles| ==> tiles[k].col != tiles[k'].col || tiles[k].row != tiles[k'].row
      by {
        TilesInGrid(b, res);
        TilesOrdered(b, res);
      }
      ghost var placed;
      var ok;
      ok, placed := FillTiles(sb, res, cols, rows, tiles, pixels);
      if !ok {
        DownloadFailed(b, res, s0, State(), title, cacheTiles, downloadTile, bands, placed);
        r := Err(ShapeMismatch);
        return;
      }
      DownloadSucceeded(b, res, s0, State(), title, cacheTiles, downloadTile, bands, placed, pixels);
      r := Ok(MosaicResult(pixels, MosaicTransform(sb, res)));
    }

    /** The loop of download: open and place every tile in order, stopping at the first
        tile whose shape does not fit its slice. `placed` lists the tiles written, each as
        open_tile would have served it on entry. On success every request has gone through
        open_tile; otherwise those up to and including the misfit one have. */
    method FillTiles(sb: BBox, res: int, cols: nat, rows: nat, tiles: seq<Tile>, pixels: array3<int>)
        returns (ok: bool, ghost placed: seq<Raster>)
      requires res > 0
      requires pixels.Length0 == bands
      requires |tiles| == cols * rows
      requires pixels.Length1 == TilePixels * rows && pixels.Length2 == TilePixels * cols
      requires forall k :: 0 <= k < |tiles| ==> tiles[k].bounds == CellBounds(sb, res, tiles[k].col, tiles[k].row)
      requires forall k, k' :: 0 <= k < k' < |tiles| ==> tiles[k].col != tiles[k'].col || tiles[k].row != tiles[k'].row
      requires Filled(pixels, rows, [])
      modifies this, pixels
      ensures Filled(pixels, rows, placed)
      ensures |placed| <= |tiles|
      ensures forall k :: 0 <= k < |placed| ==>
        && placed[k] == Open(old(State()), title, cacheTiles, downloadTile, DownloadRequests(tiles, res)[k]).0
        && ShapeOf(placed[k]) == Shape(bands, TilePixels, TilePixels)
      ensures ok ==>
        && |placed| == |tiles|
        && State() == OpenAll(old(State()), title, cacheTiles, downloadTile, DownloadRequests(tiles, res), |tiles|)
      ensures !ok ==> var n := |placed|;
        && n < |tiles|
        && State() == OpenAll(old(State()), title, cacheTiles, downloadTile, DownloadRequests(tiles, res), n + 1)
        && ShapeOf(Open(old(State()), title, cacheTiles, downloadTile, DownloadRequests(tiles, res)[n]).0)
             != Shape(bands, TilePixels, TilePixels)
    {
      ghost var s0 := State();
      ghost var reqs := DownloadRequests(tiles, res);
      ghost var served := seq(|reqs|, i requires 0 <= i < |reqs| => Open(s0, title, cacheTiles, downloadTile, reqs[i]).0);
      placed := [];
      var k := 0;
      while k < |tiles|
        invariant 0 <= k <= |tiles| && |placed| == k
        invariant State() == OpenAll(s0, title, cacheTiles, downloadTile, reqs, k)
        invariant placed == served[..k]
        invariant forall k' :: 0 <= k' < k ==> ShapeOf(placed[k']) == Shape(bands, TilePixels, TilePixels)
        invariant Filled(pixels, rows, placed)
      {
        ok, placed := FillNext(sb, res, cols, rows, tiles, pixels, k, placed, s0, served);
        if !ok {
          return false, placed;
        }
        k := k + 1;
      }
      return true, placed;
    }

    /** One round of download's loop: open tile k and, when its shape fits, copy it into
        its slice and add it to `placed`. s0 is the cache state before the first round and
        `served` what open_tile serves in s0 for each tile; as no earlier tile shares tile
        k's key, tile k comes out as served[k]. */
    method FillNext(sb: BBox, res: int, cols: nat, rows: nat, tiles: seq<Tile>, pixels: array3<int>,
                    k: nat, ghost placed: seq<Raster>, ghost s0: CacheState, ghost served: seq<Raster>)
        returns (ok: bool, ghost placed': seq<Raster>)
      requires res > 0
      requires pixels.Length0 == bands
      requires k < |tiles| == cols * rows && |served| == |tiles|
      requires pixels.Length1 == TilePixels * rows && pixels.Length2 == TilePixels * cols
      requires forall k :: 0 <= k < |tiles| ==> tiles[k].bounds == CellBounds(sb, res, tiles[k].col, tiles[k].row)
      requires forall k, k' :: 0 <= k < k' < |tiles| ==> tiles[k].col != tiles[k'].col || tiles[k].row != tiles[k'].row
      requires served[k] == Open(s0, title, cacheTiles, downloadTile, DownloadRequests(tiles, res)[k]).0
      requires State() == OpenAll(s0, title, cacheTiles, downloadTile, DownloadRequests(tiles, res), k)
      requires placed == served[..k]
      requires forall k' :: 0 <= k' < k ==> ShapeOf(placed[k']) == Shape(bands, TilePixels, TilePixels)
      requires Filled(pixels, rows, placed)
      modifies this, pixels
      ensures ok <==> ShapeOf(served[k]) == Shape(bands, TilePixels, TilePixels)
      ensures State() == OpenAll(s0, title, cacheTiles, downloadTile, DownloadRequests(tiles, res), k + 1)
      ensures ok ==> placed' == served[..k + 1]
      ensures ok ==> forall k' :: 0 <= k' < k + 1 ==> ShapeOf(placed'[k']) == Shape(bands, TilePixels, TilePixels)
      ensures !ok ==> placed' == placed
      ensures Filled(pixels, rows, placed')
    {
      ghost var reqs := DownloadRequests(tiles, res);
      var t := tiles[k];
      var data := OpenCell(sb, res, t.col, t.row);
      assert reqs[k] == CellRequest(sb, res, t.col, t.row);
      forall m | 0 <= m < k
        ensures KeyOf(title, reqs[m]) != KeyOf(title, reqs[k])
      {
        CellBoundsInjective(sb, res, tiles[m].col, tiles[m].row, t.col, t.row);
      }
      OpenAllServedStable(s0, title, cacheTiles, downloadTile, reqs, k, reqs[k]);
      ok := ShapeOf(data) == Shape(bands, TilePixels, TilePixels);
      placed' := placed;
      if ok {
        PlaceTile(pixels, cols, rows, k, placed, data);
        placed' := placed + [data];
        assert served[..k + 1] == served[..k] + [data];
      }
    }

    /** get_shape, up to the empty check: fetch the probe tile one width to the west, then
        the real tile, both at width / 1024, and diff them. */
    method GetShape(b: BBox) returns (r: Result<ProbeResult>)
      modifies this
      ensures State() == Open(Open(old(State()), title, cacheTiles, downloadTile, ProbeRequest(b)).1,
                              title, cacheTiles, downloadTile, DataRequest(b)).1
      ensures Extends(old(State()), State())
      ensures r == Probe(old(Served(DataRequest(b))), old(Served(ProbeRequest(b))), b)
    {
      ghost var before := State();
      var empty := OpenTile(ProbeRequest(b));
      var data := OpenTile(DataRequest(b));
      OpenServedStable(before, title, cacheTiles, downloadTile, ProbeRequest(b), DataRequest(b));
      r := Probe(data, empty, b);
    }
  }
}
