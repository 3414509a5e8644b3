/** Raster values as read from a tile (band, row, column) and the affine
    georeferencing transforms of rasterio, plus the errors the engine raises. */
module Raster {

  /** x has exactly `bands` bands of `height` rows of `width` pixels. */
  predicate Shaped(x: seq<seq<seq<int>>>, bands: nat, height: nat, width: nat) {
    && |x| == bands
    && (forall b :: 0 <= b < bands ==> |x[b]| == height)
    && (forall b, r :: 0 <= b < bands && 0 <= r < height ==> |x[b][r]| == width)
  }

  function Height(x: seq<seq<seq<int>>>): nat {
    if |x| == 0 then 0 else |x[0]|
  }

  function Width(x: seq<seq<seq<int>>>): nat {
    if |x| == 0 || |x[0]| == 0 then 0 else |x[0][0]|
  }

  /** The pixel array read from a dataset: rectangular, as a numpy array is. */
  type Raster = x: seq<seq<seq<int>>> | Shaped(x, |x|, Height(x), Width(x)) witness []

  datatype Shape = Shape(bands: nat, height: nat, width: nat)

  /** numpy's `.shape` of a raster. */
  function ShapeOf(x: Raster): (sh: Shape)
    ensures Shaped(x, sh.bands, sh.height, sh.width)
  {
    Shape(|x|, Height(x), Width(x))
  }

  /** x[b][r][c], and 0 outside the raster. */
  function At(x: Raster, b: int, r: int, c: int): int {
    if 0 <= b < |x| && 0 <= r < Height(x) && 0 <= c < Width(x) then x[b][r][c] else 0
  }

  /** Inside a raster of shape (bands, height, width), At reads the pixel itself. */
  lemma AtInside(x: Raster, b: int, r: int, c: int)
    requires 0 <= b < ShapeOf(x).bands && 0 <= r < ShapeOf(x).height && 0 <= c < ShapeOf(x).width
    ensures At(x, b, r, c) == x[b][r][c]
  {
  }

  /** A ground point in the dataset's CRS. */
  datatype Point = Point(x: real, y: real)

  /** A rasterio Affine(a, b, c, d, e, f): pixel (col, row) maps to
      (a * col + b * row + c, d * col + e * row + f). */
  datatype Affine = Affine(a: real, b: real, c: real, d: real, e: real, f: real) {
    function Apply(col: real, row: real): Point {
      Point(a * col + b * row + c, d * col + e * row + f)
    }
  }

  /** Affine.translation(xoff, yoff): shifts every point by (xoff, yoff). */
  function Translation(xoff: real, yoff: real): (t: Affine)
    ensures forall col, row :: t.Apply(col, row) == Point(col + xoff, row + yoff)
  {
    Affine(1.0, 0.0, xoff, 0.0, 1.0, yoff)
  }

  /** Affine.scale(sx, sy): stretches x by sx and y by sy. */
  function Scale(sx: real, sy: real): (t: Affine)
    ensures forall col, row :: t.Apply(col, row) == Point(sx * col, sy * row)
  {
    Affine(sx, 0.0, 0.0, 0.0, sy, 0.0)
  }

  /** The product m * n of rasterio's Affine, a matrix product: it applies n first, then m. */
  function Compose(m: Affine, n: Affine): (r: Affine)
    ensures forall col, row :: r.Apply(col, row) == m.Apply(n.Apply(col, row).x, n.Apply(col, row).y)
  {
    var r := Affine(m.a * n.a + m.b * n.d, m.a * n.b + m.b * n.e, m.a * n.c + m.b * n.f + m.c,
                    m.d * n.a + m.e * n.d, m.d * n.b + m.e * n.e, m.d * n.c + m.e * n.f + m.f);
    assert forall col, row :: r.Apply(col, row) == m.Apply(n.Apply(col, row).x, n.Apply(col, row).y) by {
      forall col, row ensures r.Apply(col, row) == m.Apply(n.Apply(col, row).x, n.Apply(col, row).y) {
        Regroup(m.a, m.b, n.a, n.b, n.c, n.d, n.e, n.f, col, row);
        Regroup(m.d, m.e, n.a, n.b, n.c, n.d, n.e, n.f, col, row);
        var p := n.Apply(col, row);
        assert r.Apply(col, row).x == m.a * p.x + m.b * p.y + m.c;
        assert r.Apply(col, row).y == m.d * p.x + m.e * p.y + m.f;
      }
    }
    r
  }

  /** One output coordinate of a product, regrouped. */
  lemma Regroup(p: real, q: real, u: real, v: real, w: real, u': real, v': real, w': real, col: real, row: real)
    ensures (p * u + q * u') * col + (p * v + q * v') * row + (p * w + q * w')
         == p * (u * col + v * row + w) + q * (u' * col + v' * row + w')
  {
    assert (p * u + q * u') * col == p * (u * col) + q * (u' * col);
    assert (p * v + q * v') * row == p * (v * row) + q * (v' * row);
    assert p * (u * col + v * row + w) == p * (u * col) + p * (v * row) + p * w;
    assert q * (u' * col + v' * row + w') == q * (u' * col) + q * (v' * row) + q * w';
  }

  datatype Error =
    | ShapeMismatch   // numpy cannot assign or compare arrays of different shapes
    | NoBands         // numpy's max over an empty band axis has no identity
    | EmptyTiles      // "Map has only empty tiles!"

  datatype Result<T> = Ok(value: T) | Err(error: Error)
}
