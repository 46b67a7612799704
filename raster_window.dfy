/**
 * The decoded raster (as the georaster library exposes it) and the pixel
 * window of `GET /:date` that covers the West Virginia bounding box.
 */
module RasterWindow {
  import opened Wrappers

  /** A geographic box in degrees, `[west, south, east, north]`. */
  datatype BBox = BBox(west: real, south: real, east: real, north: real)

  /** The fixed box of the route, used both for the search and for the window. */
  const WestVirginia: BBox := BBox(-82.644739, 37.201483, -77.719519, 40.638801)

  /**
   * A decoded GeoTIFF: `xmin` and `ymax` are the west and north edges of the
   * grid, `pixelWidth` and `pixelHeight` the (positive) size of a cell in
   * degrees, and `values[band][row][col]` a cell, `None` for null or NaN.
   */
  datatype Raster = Raster(
    xmin: real, ymax: real,
    pixelWidth: real, pixelHeight: real,
    width: int, height: int,
    values: seq<seq<seq<Option<real>>>>)

  /** What the decoder guarantees: positive cell sizes and dimensions, every band `height` rows of `width` cells. */
  predicate WellFormed(r: Raster)
  {
    && r.pixelWidth > 0.0 && r.pixelHeight > 0.0
    && r.width > 0 && r.height > 0
    && |r.values| >= 1
    && forall b :: 0 <= b < |r.values| ==>
         |r.values[b]| == r.height &&
         forall iy :: 0 <= iy < r.height ==> |r.values[b][iy]| == r.width
  }

  /** The longitude the route gives column `ix`: `xmin + ix * pixelWidth`. */
  function Lon(r: Raster, ix: int): real
  {
    r.xmin + ix as real * r.pixelWidth
  }

  /** The latitude the route gives row `iy`: `ymax - iy * pixelHeight`. */
  function Lat(r: Raster, iy: int): real
  {
    r.ymax - iy as real * r.pixelHeight
  }

  /** `Math.floor`. */
  function Floor(x: real): (n: int)
    ensures n as real <= x < n as real + 1.0
  {
    x.Floor
  }

  /** `Math.ceil`. */
  function Ceil(x: real): (n: int)
    ensures n as real - 1.0 < x <= n as real
  {
    -((-x).Floor)
  }

  /** The inclusive index ranges `[ixStart, ixEnd] × [iyStart, iyEnd]` the route iterates. */
  datatype Window = Window(ixStart: int, ixEnd: int, iyStart: int, iyEnd: int)

  /** Every index the loops can reach lies in the grid: starts clamped from below, ends from above. */
  predicate Clamped(r: Raster, w: Window)
  {
    0 <= w.ixStart && w.ixEnd <= r.width - 1 && 0 <= w.iyStart && w.iyEnd <= r.height - 1
  }

  predicate IsEmpty(w: Window)
  {
    w.ixStart > w.ixEnd || w.iyStart > w.iyEnd
  }

  predicate InWindow(w: Window, ix: int, iy: int)
  {
    w.ixStart <= ix <= w.ixEnd && w.iyStart <= iy <= w.iyEnd
  }

  /**
   * `ixStart` is the column whose west edge is the last one at or west of `x`,
   * or 0 when that column would be negative.
   */
  predicate StartColumn(r: Raster, x: real, ix: int)
  {
    || (ix > 0 && Lon(r, ix) <= x < Lon(r, ix + 1))
    || (ix == 0 && x < Lon(r, 1))
  }

  /**
   * `ixEnd` is the first column whose west edge is at or east of `x`, or the
   * last column when that one lies beyond the grid.
   */
  predicate EndColumn(r: Raster, x: real, ix: int)
  {
    || (ix < r.width - 1 && Lon(r, ix - 1) < x <= Lon(r, ix))
    || (ix == r.width - 1 && x > Lon(r, r.width - 2))
  }

  /** `iyStart` is the row whose north edge is the last one at or north of `y`, or 0. */
  predicate StartRow(r: Raster, y: real, iy: int)
  {
    || (iy > 0 && Lat(r, iy + 1) < y <= Lat(r, iy))
    || (iy == 0 && y > Lat(r, 1))
  }

  /** `iyEnd` is the first row whose north edge is at or south of `y`, or the last row. */
  predicate EndRow(r: Raster, y: real, iy: int)
  {
    || (iy < r.height - 1 && Lat(r, iy) <= y < Lat(r, iy - 1))
    || (iy == r.height - 1 && y < Lat(r, r.height - 2))
  }

  lemma MulMonotone(a: real, b: real, p: real)
    requires a <= b && p > 0.0
    ensures a * p <= b * p
  {
  }

  lemma MulStrict(a: real, b: real, p: real)
    requires a < b && p > 0.0
    ensures a * p < b * p
  {
  }

  /** `Math.floor(a / p)` brackets `a` between consecutive multiples of `p`. */
  lemma FloorScaled(a: real, p: real)
    requires p > 0.0
    ensures Floor(a / p) as real * p <= a < (Floor(a / p) as real + 1.0) * p
  {
    var q := a / p;
    var k := Floor(q) as real;
    assert q * p == a;
    assert k <= q < k + 1.0;
    MulMonotone(k, q, p);
    MulStrict(q, k + 1.0, p);
    assert a < (k + 1.0) * p;
  }

  /** `Math.ceil(a / p)` brackets `a` between consecutive multiples of `p`. */
  lemma CeilScaled(a: real, p: real)
    requires p > 0.0
    ensures (Ceil(a / p) as real - 1.0) * p < a <= Ceil(a / p) as real * p
  {
    var q := a / p;
    var k := Ceil(q) as real;
    assert q * p == a;
    assert k - 1.0 < q <= k;
    MulStrict(k - 1.0, q, p);
    MulMonotone(q, k, p);
  }

  /** Neighbouring column edges are one cell width apart, neighbouring row edges one cell height. */
  lemma EdgeStep(r: Raster, i: int)
    ensures Lon(r, i + 1) == Lon(r, i) + r.pixelWidth
    ensures Lat(r, i + 1) == Lat(r, i) - r.pixelHeight
  {
    assert (i + 1) as real * r.pixelWidth == i as real * r.pixelWidth + r.pixelWidth;
    assert (i + 1) as real * r.pixelHeight == i as real * r.pixelHeight + r.pixelHeight;
  }

  /** Column edges move east as the index grows; row edges move south. */
  lemma EdgesMonotone(r: Raster, i: int, j: int)
    requires r.pixelWidth > 0.0 && r.pixelHeight > 0.0
    ensures i < j <==> Lon(r, i) < Lon(r, j)
    ensures i < j <==> Lat(r, j) < Lat(r, i)
  {
    if i < j {
      MulStrict(i as real, j as real, r.pixelWidth);
      MulStrict(i as real, j as real, r.pixelHeight);
    } else {
      MulMonotone(j as real, i as real, r.pixelWidth);
      MulMonotone(j as real, i as real, r.pixelHeight);
    }
  }

  /**
   * The window of the route:
   *   ixStart = max(0, floor((west - xmin) / pixelWidth))
   *   ixEnd   = min(width - 1, ceil((east - xmin) / pixelWidth))
   *   iyStart = max(0, floor((ymax - north) / pixelHeight))
   *   iyEnd   = min(height - 1, ceil((ymax - south) / pixelHeight))
   * Starts are clamped only from below and ends only from above, so an empty
   * window shows up as a start past its end.
   */
  function PixelWindow(r: Raster, box: BBox): (w: Window)
    requires r.pixelWidth > 0.0 && r.pixelHeight > 0.0
    ensures Clamped(r, w)
    ensures StartColumn(r, box.west, w.ixStart) && EndColumn(r, box.east, w.ixEnd)
    ensures StartRow(r, box.north, w.iyStart) && EndRow(r, box.south, w.iyEnd)
  {
    var w := Window(
      Max(0, Floor((box.west - r.xmin) / r.pixelWidth)),
      Min(r.width - 1, Ceil((box.east - r.xmin) / r.pixelWidth)),
      Max(0, Floor((r.ymax - box.north) / r.pixelHeight)),
      Min(r.height - 1, Ceil((r.ymax - box.south) / r.pixelHeight)));
    StartColumnOf(r, box.west);
    EndColumnOf(r, box.east);
    StartRowOf(r, box.north);
    EndRowOf(r, box.south);
    w
  }

  function Max(a: int, b: int): int { if a < b then b else a }

  function Min(a: int, b: int): int { if a < b then a else b }

  lemma StartColumnOf(r: Raster, x: real)
    requires r.pixelWidth > 0.0
    ensures StartColumn(r, x, Max(0, Floor((x - r.xmin) / r.pixelWidth)))
  {
    var a := Floor((x - r.xmin) / r.pixelWidth);
    FloorScaled(x - r.xmin, r.pixelWidth);
    assert x - r.xmin < (a as real + 1.0) * r.pixelWidth;
    if a <= 0 {
      MulMonotone(a as real + 1.0, 1.0, r.pixelWidth);
      assert x < r.xmin + 1.0 * r.pixelWidth == Lon(r, 1);
    } else {
      assert (a + 1) as real == a as real + 1.0;
      assert Lon(r, a) <= x < Lon(r, a + 1);
    }
  }

  lemma EndColumnOf(r: Raster, x: real)
    requires r.pixelWidth > 0.0
    ensures EndColumn(r, x, Min(r.width - 1, Ceil((x - r.xmin) / r.pixelWidth)))
  {
    var b := Ceil((x - r.xmin) / r.pixelWidth);
    CeilScaled(x - r.xmin, r.pixelWidth);
    assert (b as real - 1.0) * r.pixelWidth < x - r.xmin;
    if b >= r.width - 1 {
      MulMonotone((r.width - 2) as real, b as real - 1.0, r.pixelWidth);
      assert Lon(r, r.width - 2) == r.xmin + (r.width - 2) as real * r.pixelWidth < x;
    } else {
      assert (b - 1) as real == b as real - 1.0;
      assert Lon(r, b - 1) < x <= Lon(r, b);
    }
  }

  lemma StartRowOf(r: Raster, y: real)
    requires r.pixelHeight > 0.0
    ensures StartRow(r, y, Max(0, Floor((r.ymax - y) / r.pixelHeight)))
  {
    var c := Floor((r.ymax - y) / r.pixelHeight);
    FloorScaled(r.ymax - y, r.pixelHeight);
    assert r.ymax - y < (c as real + 1.0) * r.pixelHeight;
    if c <= 0 {
      MulMonotone(c as real + 1.0, 1.0, r.pixelHeight);
      assert y > r.ymax - 1.0 * r.pixelHeight == Lat(r, 1);
    } else {
      assert (c + 1) as real == c as real + 1.0;
      assert Lat(r, c + 1) < y <= Lat(r, c);
    }
  }

  lemma EndRowOf(r: Raster, y: real)
    requires r.pixelHeight > 0.0
    ensures EndRow(r, y, Min(r.height - 1, Ceil((r.ymax - y) / r.pixelHeight)))
  {
    var d := Ceil((r.ymax - y) / r.pixelHeight);
    CeilScaled(r.ymax - y, r.pixelHeight);
    assert (d as real - 1.0) * r.pixelHeight < r.ymax - y;
    if d >= r.height - 1 {
      MulMonotone((r.height - 2) as real, d as real - 1.0, r.pixelHeight);
      assert Lat(r, r.height - 2) == r.ymax - (r.height - 2) as real * r.pixelHeight > y;
    } else {
      assert (d - 1) as real == d as real - 1.0;
      assert Lat(r, d) <= y < Lat(r, d - 1);
    }
  }

  /**
   * Every cell of the window has its coordinates within one cell of the box:
   * west - pixelWidth < lon < east + pixelWidth and
   * south - pixelHeight < lat < north + pixelHeight.
   */
  lemma WindowNearBox(r: Raster, box: BBox, ix: int, iy: int)
    requires r.pixelWidth > 0.0 && r.pixelHeight > 0.0
    requires InWindow(PixelWindow(r, box), ix, iy)
    ensures box.west - r.pixelWidth < Lon(r, ix) < box.east + r.pixelWidth
    ensures box.south - r.pixelHeight < Lat(r, iy) < box.north + r.pixelHeight
  {
    var w := PixelWindow(r, box);
    EdgeStep(r, w.ixStart);
    EdgeStep(r, w.ixEnd - 1);
    EdgeStep(r, w.iyStart);
    EdgeStep(r, w.iyEnd - 1);
    EdgeStep(r, 0);
    EdgeStep(r, r.width - 2);
    EdgeStep(r, r.height - 2);
    EdgesMonotone(r, w.ixStart, ix);
    EdgesMonotone(r, ix, w.ixEnd);
    EdgesMonotone(r, w.iyStart, iy);
    EdgesMonotone(r, iy, w.iyEnd);
  }

  /**
   * A box beyond the grid's east or south edge, or at least one full cell beyond
   * its west or north edge, gives an empty window. The margin is needed: the end
   * indices are `Math.ceil`s, so a box less than a cell west of (or north of) the
   * grid still keeps column 0 (or row 0).
   */
  lemma OutsideBoxEmptyWindow(r: Raster, box: BBox)
    requires r.pixelWidth > 0.0 && r.pixelHeight > 0.0 && r.width > 0 && r.height > 0
    requires || box.west >= Lon(r, r.width) || box.east <= Lon(r, -1)
             || box.north <= Lat(r, r.height) || box.south >= Lat(r, -1)
    ensures IsEmpty(PixelWindow(r, box))
  {
    var w := PixelWindow(r, box);
    if box.west >= Lon(r, r.width) {
      EdgesMonotone(r, w.ixStart + 1, r.width);
      EdgesMonotone(r, 1, r.width);
    } else if box.east <= Lon(r, -1) {
      EdgesMonotone(r, w.ixEnd - 1, -1);
      EdgesMonotone(r, r.width - 2, -1);
    } else if box.north <= Lat(r, r.height) {
      EdgesMonotone(r, w.iyStart + 1, r.height);
      EdgesMonotone(r, 1, r.height);
    } else {
      EdgesMonotone(r, w.iyEnd - 1, -1);
      EdgesMonotone(r, r.height - 2, -1);
    }
  }

  /** The window is a function of the grid's metadata and the box alone, never of the cell values. */
  lemma WindowIgnoresCells(r1: Raster, r2: Raster, box: BBox)
    requires r1.pixelWidth > 0.0 && r1.pixelHeight > 0.0
    requires r1.(values := r2.values) == r2
    ensures PixelWindow(r1, box) == PixelWindow(r2, box)
  {
  }
}
