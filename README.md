# terrainy Connection: tiling, tile cache and mosaic assembly in Dafny

This project models the engine of terrainy's `Connection` class
(`terrainy/connection.py`). terrainy fetches raster maps from web map services
tile by tile:

- **Grid snapping.** `get_tileset_bounds` widens a bounding box outward onto a grid of
  square tiles whose ground side is `1024 * tif_res`.
- **Tile enumeration.** `get_tile_bounds` enumerates the grid cells. Columns form the
  outer loop and rows the inner loop, with row 0 the northernmost.
- **Tile cache.** `get_tile_file` and `open_tile` read each tile through an on-disk cache
  keyed by dataset title, resolution and bounds. They download a tile only when its
  file is missing, and bypass the cache when `cache_tiles` is off.
- **Mosaic assembly.** `download` copies every tile into its slice of one zero-initialised
  `bands x (1024 * nr_rows) x (1024 * nr_cols)` array. It georeferences the array with
  `translation(xmin, ymax) * scale(res, -res)`.
- **Footprint probe.** `get_shape` fetches an "empty" tile one bbox width to the west and
  diffs it, pixel by pixel over all bands, against the real tile. It rejects the map
  when nothing differs.

Modules, in dependency order:

- `Arith` (`arith.dfy`): small facts about integer multiplication and division that the
  grid proofs use.
- `Grid` (`grid.dfy`): boxes, snapping (`Snap`), the grid dimensions, the cell boxes,
  the enumeration as a specification (`Tiles`) and as the nested loop of the source
  (`TileBounds`), and their properties.
- `Raster` (`raster.dfy`): rectangular band/row/column rasters, rasterio's `Affine`
  and its product, and the error results.
- `TileCache` (`tilecache.dfy`): the cache as a pure state transition. `Fetch` models
  `get_tile_file` and `Open` models `open_tile`, over a map from cache key to stored
  raster plus a log of every `download_tile` call. The hit, miss and bypass rules are
  proved about it.
- `Footprint` (`footprint.dfy`): the probe box, the difference mask, the transform
  and the empty check of `get_shape`.
- `Mosaic` (`mosaic.dfy`): where each tile lands in the array, the in-place copy of a
  tile into its slice (`CopyRow`, `CopyBand`, `CopyTile`), and the georeferencing
  lemmas.
- `Terrainy` (`connection.dfy`): `class Connection`. Its fields are the cache directory
  (`files`) and the download log, and it holds `GetTileFile`, `OpenTile`, `Download`
  and `GetShape`. Each method is proved against the pure specifications above.

Numbers:

- Coordinates and the mosaic resolution are integers, and the resolution must be
  positive (the source divides by it).
- The resolution inside the cache key is a real number, because `get_shape` fetches at
  `width / 1024`.
- `tile_pixel_length` and `tile_pixel_width` are both 1024. The source uses one where
  the other is meant (lines 122-123 and 149-150); this is harmless, so the model has a
  single constant `TilePixels`.

`download_tile` is supplied by each backend and is not part of this model. It is a
deterministic function passed to the `Connection` constructor, and every call of it
is appended to the `downloads` log, so the proofs can count downloads.

Two facts about the code that a reader might not expect:

- **`download` as written raises `NameError`.** It uses `nr_cols`, `nr_rows` and `array`
  (lines 145, 149 and 153), which are locals of the generator `get_tile_bounds`
  (lines 122-125). The model follows the evident intent: `download` computes the
  dimensions and allocates the zeroed array as lines 119-125 do, then runs the loop of
  lines 144-150.
- **Row order.** Rows vary fastest (lines 127-128); see `Grid.TileAtIndex`. At
  resolution 2, `(0, 0, 2048, 2048)` is a single tile, because the ground side is
  2048. `Grid.TilesOfTwoByTwo` covers any grid-aligned box two tiles square, such as
  that box at resolution 1, and gives its four cells in the code's order.

## Model

| member | source | states |
|---|---|---|
| Grid.TileGround | terrainy/connection.py:101-102 | the ground side of a tile is positive and a multiple of 1024 |
| Grid.FloorDiv | terrainy/connection.py:104 | the result q is math.floor(a / s): q * s <= a < q * s + s |
| Grid.CeilDiv | terrainy/connection.py:105 | the result q is math.ceil(a / s): q * s - s < a <= q * s |
| Grid.SnapDown | terrainy/connection.py:104 | the result is the greatest multiple of the tile side not above x |
| Grid.SnapUp | terrainy/connection.py:105 | the result is the least multiple of the tile side not below x |
| Grid.Snap | terrainy/connection.py:97-109 | the snapped box contains the input, lies on the grid, and each side is within one tile side of the input's (the smallest such box) |
| Grid.NrCols | terrainy/connection.py:119-122 | nr_cols = ceil(width / tile side) is non-negative for an ordered box |
| Grid.NrRows | terrainy/connection.py:120-123 | nr_rows = ceil(length / tile side) is non-negative for an ordered box |
| Grid.CellBounds | terrainy/connection.py:129-133 | cell (i, j) is the square of one tile side whose north-west corner is (xmin + i * side, ymax - j * side); its properties are stated by Grid.CellInside, Grid.CellsDisjoint, Grid.CellCovering and Grid.CellBoundsInjective |
| Grid.Tiles | terrainy/connection.py:127-135 | the specification of what get_tile_bounds yields: entry k is cell (k / nr_rows, k % nr_rows) with its box; its properties are stated by Grid.TilesInGrid, Grid.TileAtIndex, Grid.TilesOrdered and Grid.TilesOfTwoByTwo |
| Grid.TileBounds | terrainy/connection.py:111-135 | the nested column/row loop yields exactly the specification sequence Tiles(b, res) |
| Grid.SnapFixesGridBoxes | terrainy/connection.py:104-107 | floor and ceil leave a box already on the grid unchanged |
| Grid.SnapIdempotent | terrainy/connection.py:97-109 | snapping a snapped box returns it unchanged |
| Grid.GridExact | terrainy/connection.py:119-123 | nr_cols * side and nr_rows * side equal the snapped extents exactly; both counts are positive when the input has positive extent |
| Grid.SnapExample | terrainy/connection.py:97-109 | (10, 10, 500, 500) at resolution 10 snaps to (0, 0, 10240, 10240) |
| Grid.TilesInGrid | terrainy/connection.py:127-135 | there are nr_cols * nr_rows entries, each a cell of the grid carrying that cell's box |
| Grid.TileAtIndex | terrainy/connection.py:127-128 | every cell (i, j) of the grid is yielded, at position i * nr_rows + j (rows vary fastest) |
| Grid.TilesOrdered | terrainy/connection.py:127-128 | entries are strictly increasing in (column, row), so no cell is yielded twice |
| Grid.CellInside | terrainy/connection.py:129-133 | every cell box lies inside the snapped box |
| Grid.CellsDisjoint | terrainy/connection.py:129-133 | boxes of distinct cells have disjoint interiors |
| Grid.CellCovering | terrainy/connection.py:127-133 | every point of the snapped box lies in the box of some grid cell |
| Grid.CellBoundsInjective | terrainy/connection.py:129-133 | distinct cells have distinct boxes, hence distinct cache keys |
| Grid.TilesOfTwoByTwo | terrainy/connection.py:127-135 | a grid-aligned box two tiles wide and two tall, such as (0, 0, 2048, 2048) at resolution 1, yields its four cells in the order column 0 north, column 0 south, column 1 north, column 1 south, each with its box |
| Raster.Translation | terrainy/connection.py:57 | Affine.translation(xoff, yoff) maps (col, row) to (col + xoff, row + yoff) |
| Raster.Scale | terrainy/connection.py:57 | Affine.scale(sx, sy) maps (col, row) to (sx * col, sy * row) |
| Raster.Compose | terrainy/connection.py:152 | the Affine product m * n maps every point as n first, then m |
| Raster.ShapeOf | terrainy/connection.py:59 | numpy's `.shape`: the raster has exactly that many bands, each of that many rows of that many pixels; `!=` at line 59 and the slice assignment at line 150 compare these shapes |
| Raster.AtInside | terrainy/connection.py:149-150 | within the raster's shape, At reads pixel [b][r][c] itself, as `data_array[:, :, :]` does; At is 0 outside the raster |
| TileCache.KeyOf | terrainy/connection.py:70 | definition: the cache key of a request is (title, resolution, bounds), without the size; its property is stated by TileCache.KeyDetermination |
| TileCache.Fetch | terrainy/connection.py:68-83 | after get_tile_file the key's file exists, exactly that key was added, nothing stored was changed, and at most one download happened |
| TileCache.Open | terrainy/connection.py:85-95 | open_tile never removes or changes a stored file and downloads at most once; with caching on, the returned raster is the one stored under the key |
| TileCache.ExtendsTransitive | terrainy/connection.py:68-95 | a sequence of cache operations also only adds files and log entries |
| TileCache.KeyDetermination | terrainy/connection.py:70 | two requests share a cache file exactly when their resolution and bounds agree; the size is not part of the key |
| TileCache.OpenHit | terrainy/connection.py:71-83 | on a hit the stored raster is returned, and the cache and the download log are unchanged |
| TileCache.OpenMiss | terrainy/connection.py:71-80 | on a miss download_tile is called exactly once, and its answer is returned and stored under the key |
| TileCache.OpenUncached | terrainy/connection.py:91-95 | with cache_tiles off every call downloads and the cache directory is untouched |
| TileCache.OpenKeepsOtherKeys | terrainy/connection.py:68-95 | entries under every other key are unchanged, with caching on or off |
| TileCache.OpenTwice | terrainy/connection.py:68-90 | a second call with the same key downloads nothing and returns what the first call returned |
| TileCache.OpenServedStable | terrainy/connection.py:68-95 | what a request is served is not changed by an earlier call on another key or with the same arguments |
| TileCache.OpenDownloadsOnce | terrainy/connection.py:71-80 | with caching on, no key is ever downloaded twice and every download has its file |
| TileCache.OpenTransparent | terrainy/connection.py:85-95 | through a coherent cache, open_tile returns exactly what download_tile returns, and the cache stays coherent |
| TileCache.SizeIgnoredOnHit | terrainy/connection.py:69-71 | a request of any size is answered from a stored file of the default size when one exists |
| TileCache.OpenAll | terrainy/connection.py:144-147 | the cache state after open_tile has been called on the first n requests, in order (a specification function; its properties are the OpenAll lemmas) |
| TileCache.OpenAllDownloadsOnce | terrainy/connection.py:71-80 | with caching on, a run of open_tile calls keeps every key downloaded at most once, each download having its file |
| TileCache.OpenAddsKey | terrainy/connection.py:71-83 | with caching on, one call adds the request's key to the cache directory and no other key |
| TileCache.OpenAllCachesAll | terrainy/connection.py:71-83 | with caching on, a run of calls leaves exactly the files there were plus one for each request's key |
| TileCache.OpenAllUncached | terrainy/connection.py:91-95 | with caching off, a run of calls downloads every request, in order, and leaves the cache directory untouched |
| TileCache.OpenAllExtends | terrainy/connection.py:68-95 | a run of calls never removes or changes a stored file or a logged download |
| TileCache.OpenAllServedStable | terrainy/connection.py:68-95 | a run of calls on other keys does not change what open_tile serves for a request |
| Footprint.ProbeBounds | terrainy/connection.py:41-44 | the probe box has the bbox's width and height and is shifted west by exactly that width |
| Footprint.FetchResolution | terrainy/connection.py:46 | definition: a box is fetched at its width / 1024 (lines 46 and 51); its properties are stated by Footprint.ProbeRequest and Footprint.ProbeMatchesData |
| Footprint.ProbeRequest | terrainy/connection.py:45-47 | the probe request is for the box one width to the west, at the default size, at width / 1024 |
| Footprint.DataRequest | terrainy/connection.py:50-52 | definition: the second open_tile call, for the bbox itself at its width / 1024 and the default size; its properties are stated by Footprint.ProbeMatchesData |
| Footprint.ProbeMatchesData | terrainy/connection.py:45-52 | the real tile is fetched at width / 1024, the probe tile at the same resolution and size, and for positive width the probe box does not overlap the bbox |
| Footprint.BandsDiffer | terrainy/connection.py:59 | the max over bands of data != empty at a pixel holds exactly when some band differs there |
| Footprint.DiffMask | terrainy/connection.py:59 | the mask has the tile's height and width, and a pixel is set exactly when some band differs there |
| Footprint.MaskSetIffSomeDiff | terrainy/connection.py:58-61 | some mask pixel is set exactly when some pixel differs in some band |
| Footprint.ProbeTransform | terrainy/connection.py:55-57 | the transform maps pixel (col, row) to (xmin + xres * col, ymax - yres * row), with xres = width / 1024 and yres = height / 1024 |
| Footprint.ProbeTransformSpansBox | terrainy/connection.py:55-57 | the transform sends pixel (0, 0) to the bbox's north-west corner and pixel (1024, 1024) to its south-east corner |
| Footprint.Probe | terrainy/connection.py:55-62 | mismatched shapes and zero bands are errors; "Map has only empty tiles!" is raised exactly when no pixel differs; otherwise the result is the difference mask (with a set pixel) and the bbox transform |
| Footprint.IdenticalIffNoDiff | terrainy/connection.py:59-62 | two rasters of one shape are equal exactly when no band of any pixel differs |
| Footprint.EmptyIffIdentical | terrainy/connection.py:59-62 | the empty-map error is raised exactly when the real tile is identical to the probe tile and has a band |
| Mosaic.CellRequest | terrainy/connection.py:146 | definition: download's open_tile call for cell (i, j) is for the cell's box, at the mosaic resolution tif_res and the default size; its properties are stated by Mosaic.CellKeysDistinct and Terrainy.Connection.OpenCell |
| Mosaic.CellKeysDistinct | terrainy/connection.py:70 | two cells of one download share a cache key exactly when they are the same cell, so no call of the loop hits another cell's file |
| Mosaic.DownloadRequests | terrainy/connection.py:144-146 | definition: download's open_tile calls, one per tile in loop order, each for the tile's box at the mosaic resolution and the default size; its properties are stated by Mosaic.DownloadRequestAt, Terrainy.Connection.FillTiles and Terrainy.Connection.Download |
| Mosaic.DownloadRequestAt | terrainy/connection.py:144-146 | there is one call per tile, and the k-th call is the cell request of the k-th tile get_tile_bounds yields |
| Mosaic.MosaicTransform | terrainy/connection.py:152 | translation(xmin, ymax) * scale(res, -res) maps pixel (col, row) to (xmin + res * col, ymax - res * row) |
| Mosaic.SliceOfPixel | terrainy/connection.py:149-150 | each array pixel lies in the slice of cell (col / 1024, row / 1024) and of no other cell |
| Mosaic.SlicesDisjoint | terrainy/connection.py:149-150 | slices of distinct cells are disjoint |
| Mosaic.SlicesFitArray | terrainy/connection.py:149-150 | every cell's slice fits in the 1024 * nr_rows by 1024 * nr_cols array, and every array pixel belongs to some cell |
| Mosaic.TileIndexIffSlice | terrainy/connection.py:144-150 | the k-th tile of the loop writes exactly the pixels whose cell is at position k |
| Mosaic.TileIndexInRange | terrainy/connection.py:144-150 | every array pixel is covered by one of the nr_cols * nr_rows tiles |
| Mosaic.TileCornerGeoreferenced | terrainy/connection.py:152 | the transform maps pixel (i * 1024, j * 1024) to the north-west corner of cell (i, j) |
| Mosaic.PixelInsideItsTile | terrainy/connection.py:152 | each pixel maps to the north-west corner of its ground box, and that box lies inside the box of the tile copied into it |
| Mosaic.CopyRow | terrainy/connection.py:149-150 | one row of one band of the tile is copied into place and no other pixel changes |
| Mosaic.CopyBand | terrainy/connection.py:149-150 | one band of the tile is copied into its slice and no other pixel changes |
| Mosaic.CopyTile | terrainy/connection.py:149-150 | the slice assignment writes every band of the tile into its slice and leaves every pixel outside it unchanged |
| Mosaic.PlaceTile | terrainy/connection.py:144-150 | after the tiles before k are in place, placing tile k yields the array with the first k + 1 tiles in place and the rest still zero |
| Mosaic.PixelInsideItsCell | terrainy/connection.py:149-152 | along one axis, the ground span of pixel n lies in the span of cell n / 1024 |
| Mosaic.MosaicOfCells | terrainy/connection.py:144-150 | once every tile is placed, each grid cell's tile as open_tile served it has the full shape, and every array pixel holds its cell's tile pixel |
| Mosaic.CellsLaidOut | terrainy/connection.py:149-150 | definition: pixel (row, col) of every band holds pixel (row % 1024, col % 1024) of the tile open_tile serves for cell (col / 1024, row / 1024); it is established by Mosaic.MosaicOfCells and promised by Terrainy.Connection.Download |
| Mosaic.MisfitCell | terrainy/connection.py:144-150 | when the n-th tile of the loop has the wrong shape, some cell of the grid is served by open_tile with the wrong shape |
| Mosaic.DownloadSucceeded | terrainy/connection.py:144-150 | when the loop placed every tile, the cache only grew, it is OpenAll over all requests, every grid cell was served with the full shape, and the array is the mosaic of the cells |
| Mosaic.DownloadFailed | terrainy/connection.py:144-150 | when the loop stopped at tile n, the cache only grew, it is OpenAll over the requests up to and including n, request n is the first misshapen one, and some grid cell was served with the wrong shape |
| Terrainy.Connection.constructor | terrainy/connection.py:35-37 | a connection starts with the given settings and disk cache, and with no downloads |
| Terrainy.Connection.GetTileFile | terrainy/connection.py:68-83 | the method returns the key of the request and leaves the cache as Fetch specifies |
| Terrainy.Connection.OpenTile | terrainy/connection.py:85-95 | the returned raster and the new cache state are what Open specifies |
| Terrainy.Connection.OpenCell | terrainy/connection.py:146-147 | opening grid cell (i, j) returns what open_tile serves for it; the new cache state is the state open_tile leaves for that request, and what every other cell is served is unchanged |
| Terrainy.Connection.FillTiles | terrainy/connection.py:144-150 | the loop places tiles in order, each being what open_tile served on entry and having the full shape. On success it placed every tile and the cache is OpenAll over all requests. Otherwise it stopped at the first misshapen tile and the cache is OpenAll over the requests up to and including that one |
| Terrainy.Connection.FillNext | terrainy/connection.py:146-150 | one round of the loop: tile k is opened, coming out as it was served before the loop, and the cache state is OpenAll over the first k + 1 requests; the tile is placed exactly when its shape fits |
| Terrainy.Connection.Download | terrainy/connection.py:138-153 | the method succeeds exactly when every cell's tile has the bands x 1024 x 1024 shape; on success the cache is OpenAll over all requests; on failure it is OpenAll over the requests up to and including the first misshapen one, all earlier ones being well shaped; the array is bands x 1024 * nr_rows x 1024 * nr_cols; every pixel holds its cell's tile pixel (Mosaic.CellsLaidOut); the transform is translation(xmin, ymax) * scale(res, -res) |
| Terrainy.Connection.GetShape | terrainy/connection.py:39-62 | the result is the probe of the real tile against the tile one width to the west, both as open_tile served them; the new cache state is open_tile's on the probe request, then on the real request |

## Left out

- Reprojection: `gdf.to_crs` (lines 98, 113 and 139) and `total_bounds` are geopandas calls. The model takes the bounding box as input, and `get_shape` takes the result of `get_bounds` as its argument.
- Polygonisation: `rasterio.features.shapes`, `shapely.geometry.shape`, `unary_union`, the GeoDataFrame and `set_crs` (lines 58-66) are foreign geometry libraries. The model stops at the mask: "some polygon has value 1" is modelled as "some mask pixel is set".
- Terrainy.Connection.GetShape: returns the mask and transform rather than the unioned polygon, for the reason above.
- File I/O: `rasterio.open`, `MemoryFile`, `dataset.read`, writing the cache file and `os.makedirs` (lines 74-80 and 88-95) are not modelled. The cache directory is a map from key to the decoded raster, so a stored file reads back as what was downloaded.
- `download_tile` is backend code and is not part of this model. It is a deterministic function. A backend whose answers change over time, or whose calls fail, is not modelled.
- TileCache.KeyDetermination: the key holds the resolution as a number, not as the text `str(tif_res)`. So `10` and `10.0` share a key here but give different paths in the source.
- Floating point: `math.floor`/`math.ceil` on float quotients and float resolutions are modelled as exact integer and real arithmetic.
- Terrainy.Connection.Download: numpy would broadcast a tile of a different but compatible shape (for instance one band into many). The model treats any tile whose shape is not bands x 1024 x 1024 as an error, `ShapeMismatch`. The dtype of the array is not modelled (pixels are integers).
- Footprint.Probe: any shape difference between the two tiles is the error `ShapeMismatch`. numpy would broadcast compatible shapes, such as a one-band probe against a three-band tile, or (bands, 1, w) against (bands, h, w), and compare them. Shapes that cannot be broadcast raise in the source, with numpy's own message. `max` over zero bands is the error `NoBands`; numpy raises there too.
- Raster.ShapeOf: a raster with no rows is stored as nested sequences, which cannot carry a width, so every (b, 0, w) raster has shape (b, 0, 0). A (1, 0, 5) data tile and a (1, 0, 3) probe tile then compare as the same shape, and Footprint.Probe returns `EmptyTiles` where numpy's `!=` at line 59 raises.
- Footprint.EmptyIffIdentical: pixels are integers, so there is no NaN. With a float dtype whose nodata value is NaN, `NaN != NaN` sets mask pixels, and the source would not raise for identical tiles.
- Download's returned `data` (`self.kw`) and `gdf` entries are not modelled; the result holds the array and the transform.
- `connect` (lines 156-161), an entry-point registry lookup, is not modelled.
- Logging (lines 72, 82 and 145) is not modelled.
- The module's unused imports are not modelled.
