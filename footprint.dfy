/** The footprint probe of get_shape: an "empty" tile fetched one bbox width to the
    west is compared pixel by pixel with the real tile, and the map is rejected
    when nothing differs. Polygonising the mask is not part of this model. */
module Footprint {
  import opened Grid
  import opened Raster
  import opened TileCache

  /** The probe box of get_shape: bbox moved west by its own width. */
  function ProbeBounds(b: BBox): (p: BBox)
    ensures p.xmax == b.xmin && p.xmax - p.xmin == b.xmax - b.xmin
    ensures p.ymin == b.ymin && p.ymax == b.ymax
  {
    var w := b.xmax - b.xmin;
    BBox(b.xmin - w, b.ymin, b.xmax - w, b.ymax)
  }

  /** The resolution a box is fetched at: its width divided by tile_pixel_width. */
  function FetchResolution(b: BBox): real {
    (b.xmax - b.xmin) as real / TilePixels as real
  }

  /** The first open_tile call of get_shape. */
  function ProbeRequest(b: BBox): (r: TileRequest)
    ensures r.bounds == ProbeBounds(b) && r.size == DefaultSize()
    ensures r.res * TilePixels as real == (b.xmax - b.xmin) as real
  {
    var e := ProbeBounds(b);
    TileRequest(e, FetchResolution(e), DefaultSize())
  }

  /** The second open_tile call of get_shape. */
  function DataRequest(b: BBox): TileRequest {
    TileRequest(b, FetchResolution(b), DefaultSize())
  }

  /** Both tiles are fetched at w / 1024 and at the default size; the probe is as large
      as bbox and, for positive width, does not overlap it. */
  lemma ProbeMatchesData(b: BBox)
    ensures DataRequest(b).res * TilePixels as real == (b.xmax - b.xmin) as real
    ensures ProbeRequest(b).res == DataRequest(b).res
    ensures ProbeRequest(b).size == DataRequest(b).size
    ensures b.xmin < b.xmax ==> !ProbeRequest(b).bounds.Overlaps(b)
  {
  }

  /** Whether any of the bands 0 .. n-1 of pixel (r, c) differs between the two rasters. */
  function BandsDiffer(data: Raster, empty: Raster, r: nat, c: nat, n: nat): (d: bool)
    requires ShapeOf(data) == ShapeOf(empty)
    requires n <= |data| && r < Height(data) && c < Width(data)
    ensures d <==> exists b :: 0 <= b < n && data[b][r][c] != empty[b][r][c]
  {
    if n == 0 then false
    else BandsDiffer(data, empty, r, c, n - 1) || data[n - 1][r][c] != empty[n - 1][r][c]
  }

  /** The per-pixel difference mask: true where any band differs. */
  function DiffMask(data: Raster, empty: Raster): (m: seq<seq<bool>>)
    requires ShapeOf(data) == ShapeOf(empty)
    ensures |m| == Height(data)
    ensures forall r :: 0 <= r < |m| ==> |m[r]| == Width(data)
    ensures forall r, c :: 0 <= r < Height(data) && 0 <= c < Width(data) ==>
      (m[r][c] <==> exists b :: 0 <= b < |data| && data[b][r][c] != empty[b][r][c])
  {
    seq(Height(data), r requires 0 <= r < Height(data) =>
      seq(Width(data), c requires 0 <= c < Width(data) => BandsDiffer(data, empty, r, c, |data|)))
  }

  /** Some pixel of the mask is set, that is, polygonising it yields a shape with value 1. */
  predicate AnySet(m: seq<seq<bool>>) {
    exists r, c :: 0 <= r < |m| && 0 <= c < |m[r]| && m[r][c]
  }

  /** Every band of every pixel agrees between the two rasters. */
  predicate NoPixelDiffers(data: Raster, empty: Raster)
    requires ShapeOf(data) == ShapeOf(empty)
  {
    forall b, r, c :: 0 <= b < |data| && 0 <= r < Height(data) && 0 <= c < Width(data) ==>
      data[b][r][c] == empty[b][r][c]
  }

  /** Some mask pixel is set exactly when some band of some pixel differs. */
  lemma MaskSetIffSomeDiff(data: Raster, empty: Raster)
    requires ShapeOf(data) == ShapeOf(empty)
    ensures AnySet(DiffMask(data, empty)) <==> !NoPixelDiffers(data, empty)
  {
    var m := DiffMask(data, empty);
    if AnySet(m) {
      var r, c :| 0 <= r < |m| && 0 <= c < |m[r]| && m[r][c];
      var b :| 0 <= b < |data| && data[b][r][c] != empty[b][r][c];
    }
    if !NoPixelDiffers(data, empty) {
      var b, r, c :| 0 <= b < |data| && 0 <= r < Height(data) && 0 <= c < Width(data)
        && data[b][r][c] != empty[b][r][c];
      assert m[r][c];
    }
  }

  /** get_shape's transform: a translation to the north-west corner of bbox composed with
      a scale by the per-pixel width along x and minus the per-pixel height along y. */
  function ProbeTransform(b: BBox): (t: Affine)
    ensures forall col, row ::
      t.Apply(col, row) == Point(b.xmin as real + FetchResolution(b) * col,
                                 b.ymax as real - (b.ymax - b.ymin) as real / TilePixels as real * row)
  {
    var xres := FetchResolution(b);
    var yres := (b.ymax - b.ymin) as real / TilePixels as real;
    Compose(Translation(b.xmin as real, b.ymax as real), Scale(xres, -yres))
  }

  /** The transform stretches the 1024 x 1024 tile over exactly bbox: pixel (0, 0) is its
      north-west corner and pixel (1024, 1024) its south-east corner. */
  lemma ProbeTransformSpansBox(b: BBox)
    ensures ProbeTransform(b).Apply(0.0, 0.0) == Point(b.xmin as real, b.ymax as real)
    ensures ProbeTransform(b).Apply(TilePixels as real, TilePixels as real) == Point(b.xmax as real, b.ymin as real)
  {
    var t := ProbeTransform(b);
    assert t.Apply(0.0, 0.0) == Point(b.xmin as real, b.ymax as real);
    assert t.Apply(TilePixels as real, TilePixels as real).x == b.xmin as real + FetchResolution(b) * TilePixels as real;
  }

  /** The mask and the transform get_shape would polygonise. */
  datatype ProbeResult = ProbeResult(mask: seq<seq<bool>>, transform: Affine)

  /** Lines 55-62 of get_shape, stopping at the empty check. */
  function Probe(data: Raster, empty: Raster, b: BBox): (r: Result<ProbeResult>)
    ensures r == Err(ShapeMismatch) <==> ShapeOf(data) != ShapeOf(empty)
    ensures r == Err(NoBands) <==> ShapeOf(data) == ShapeOf(empty) && |data| == 0
    ensures r == Err(EmptyTiles) <==>
      ShapeOf(data) == ShapeOf(empty) && |data| > 0 && NoPixelDiffers(data, empty)
    ensures r.Ok? ==> r.value.transform == ProbeTransform(b) && AnySet(r.value.mask)
    ensures r.Ok? ==> r.value.mask == DiffMask(data, empty)
  {
    if ShapeOf(data) != ShapeOf(empty) then Err(ShapeMismatch)
    else if |data| == 0 then Err(NoBands)
    else
      var m := DiffMask(data, empty);
      MaskSetIffSomeDiff(data, empty);
      if !AnySet(m) then Err(EmptyTiles)
      else Ok(ProbeResult(m, ProbeTransform(b)))
  }

  /** Two rasters of one shape are equal exactly when no pixel of any band differs. */
  lemma {:induction false} IdenticalIffNoDiff(data: Raster, empty: Raster)
    requires ShapeOf(data) == ShapeOf(empty)
    ensures data == empty <==> NoPixelDiffers(data, empty)
  {
    if NoPixelDiffers(data, empty) {
      var h, w := Height(data), Width(data);
      assert |data| == |empty|;
      forall b | 0 <= b < |data|
        ensures data[b] == empty[b]
      {
        assert |data[b]| == h == |empty[b]|;
        forall r | 0 <= r < h
          ensures data[b][r] == empty[b][r]
        {
          assert |data[b][r]| == w == |empty[b][r]|;
        }
      }
    }
  }

  /** "Map has only empty tiles!" is raised exactly when the real tile is identical to the
      probe tile (and has at least one band). */
  lemma EmptyIffIdentical(data: Raster, empty: Raster, b: BBox)
    ensures Probe(data, empty, b) == Err(EmptyTiles) <==> |data| > 0 && data == empty
  {
    if ShapeOf(data) == ShapeOf(empty) {
      IdenticalIffNoDiff(data, empty);
    }
  }
}
