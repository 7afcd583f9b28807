/** Rasters as rectangular grids of cells, the RGB pixel, and the two output formats. */
module Rasters {

  /** A map extent: the axis-aligned box `[xmin, xmax] x [ymin, ymax]` of a raster or a mosaic. */
  datatype Extent = Extent(xmin: real, xmax: real, ymin: real, ymax: real)

  /** A raster: `g[y][x]` is the cell in row `y` and column `x`, as Pillow's `getpixel((x, y))`. */
  type Grid<T> = seq<seq<T>>

  /** `g` has `h` rows of `w` cells each. */
  predicate IsGrid<T>(g: Grid<T>, w: int, h: int) {
    |g| == h && forall y :: 0 <= y < |g| ==> |g[y]| == w
  }

  /** `a` and `b` have the same number of rows and each row the same length. */
  predicate SameShape<T, U>(a: Grid<T>, b: Grid<U>) {
    |a| == |b| && forall y :: 0 <= y < |a| ==> |a[y]| == |b[y]|
  }

  /** `(y, x)` names a cell of `g`. */
  predicate InGrid<T>(g: Grid<T>, y: int, x: int) {
    0 <= y < |g| && 0 <= x < |g[y]|
  }

  /** The cells in row-major order, as the comprehension
      `[getpixel((i, j)) for j in range(height) for i in range(width)]` lists them. */
  function Flatten<T>(g: Grid<T>): seq<T> {
    if |g| == 0 then [] else g[0] + Flatten(g[1..])
  }

  /** A value is listed exactly when some cell holds it. */
  lemma {:induction false} FlattenMembers<T>(g: Grid<T>, v: T)
    ensures v in Flatten(g) <==> exists y, x :: InGrid(g, y, x) && g[y][x] == v
  {
    if |g| > 0 {
      FlattenMembers(g[1..], v);
      if v in Flatten(g[1..]) {
        var y, x :| InGrid(g[1..], y, x) && g[1..][y][x] == v;
        assert InGrid(g, y + 1, x) && g[y + 1][x] == v;
      }
      if exists y, x :: InGrid(g, y, x) && g[y][x] == v {
        var y, x :| InGrid(g, y, x) && g[y][x] == v;
        if y > 0 {
          assert InGrid(g[1..], y - 1, x) && g[1..][y - 1][x] == v;
        } else {
          assert g[0][x] == v;
        }
      }
    }
  }

  /** A `w` by `h` raster lists `w * h` cells. */
  lemma {:induction false} FlattenLength<T>(g: Grid<T>, w: nat, h: nat)
    requires IsGrid(g, w, h)
    ensures |Flatten(g)| == w * h
  {
    if h > 0 {
      FlattenLength(g[1..], w, h - 1);
      assert |Flatten(g)| == w + w * (h - 1);
    }
  }

  /** The raster file formats the scripts write. */
  datatype Format = Jpeg | Tiff

  /** One 8-bit sample: a mask value in Pillow's "L" mode or one channel of an RGB pixel. */
  type Byte = v: int | 0 <= v <= 255

  /** One pixel of an 8-bit RGB image. */
  datatype Rgb = Rgb(red: Byte, green: Byte, blue: Byte)
}
