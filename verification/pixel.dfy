/**
 * `drawPixel`: a bounds-clipped write of one colour into the surface, and
 * `PlotAll`, the effect of a sequence of such writes, which is what the
 * line and rectangle routines are specified by.
 */
module Pixel {
  import opened Int32
  import opened Raster

  /**
   * The cells after `drawPixel(surface, x, y, color)`: the in-bounds
   * pixel's own cell takes the colour, and a pixel off the grid, negative
   * coordinates included, changes nothing.
   */
  function PutPixel(cells: seq<Color>, width: int, height: int, x: int, y: int, color: Color): (r: seq<Color>)
    requires Shape(width, height, |cells|)
    ensures |r| == |cells|
    ensures forall k :: 0 <= k < |r| ==>
      r[k] == if InBounds(width, height, x, y) && k == Index(width, x, y) then color else cells[k]
  {
    if InBounds(width, height, x, y) then
      IndexInside(width, height, x, y);
      cells[Index(width, x, y) := color]
    else
      cells
  }

  /**
   * `drawPixel`.  The source clips with one unsigned comparison per
   * coordinate, `(uint32_t)y >= height || (uint32_t)x >= width`; by
   * `Int32.UnsignedBelow` that is exactly "off the grid".
   */
  method DrawPixel(surface: Canvas, x: int, y: int, color: Color)
    requires surface.Valid() && InRange(x) && InRange(y)
    modifies surface.memory
    ensures surface.memory[..] == PutPixel(old(surface.memory[..]), surface.width, surface.height, x, y, color)
  {
    UnsignedBelow(x, surface.width);
    UnsignedBelow(y, surface.height);
    if ToUnsigned(y) >= surface.height || ToUnsigned(x) >= surface.width {
      return;
    }
    IndexInside(surface.width, surface.height, x, y);
    surface.memory[y * surface.width + x] := color;
  }

  /** The cells after calling `drawPixel` on each point of `points`, in order. */
  function PlotAll(cells: seq<Color>, width: int, height: int, points: seq<(int, int)>, color: Color): (r: seq<Color>)
    requires Shape(width, height, |cells|)
    ensures |r| == |cells|
    decreases |points|
  {
    if points == [] then
      cells
    else
      var last := points[|points| - 1];
      PutPixel(PlotAll(cells, width, height, points[..|points| - 1], color), width, height, last.0, last.1, color)
  }

  /** Plotting one more point is one more `drawPixel` on the result so far. */
  lemma PlotAllSnoc(cells: seq<Color>, width: int, height: int, points: seq<(int, int)>, p: (int, int), color: Color)
    requires Shape(width, height, |cells|)
    ensures PlotAll(cells, width, height, points + [p], color)
         == PutPixel(PlotAll(cells, width, height, points, color), width, height, p.0, p.1, color)
  {
    assert (points + [p])[..|points|] == points;
  }

  /** Plotting the first `k + 1` points is plotting the first `k` and then drawing point `k`. */
  lemma PlotAllPrefix(cells: seq<Color>, width: int, height: int, points: seq<(int, int)>, k: int, color: Color)
    requires Shape(width, height, |cells|) && 0 <= k < |points|
    ensures PlotAll(cells, width, height, points[..k + 1], color)
         == PutPixel(PlotAll(cells, width, height, points[..k], color), width, height, points[k].0, points[k].1, color)
  {
    assert points[..k + 1] == points[..k] + [points[k]];
    PlotAllSnoc(cells, width, height, points[..k], points[k], color);
  }

  /** Some in-bounds point of `points` has cell `k`. */
  predicate Covers(width: int, height: int, points: seq<(int, int)>, k: int) {
    exists i :: 0 <= i < |points| && InBounds(width, height, points[i].0, points[i].1) && Index(width, points[i].0, points[i].1) == k
  }

  /**
   * Plotting a sequence of points paints exactly the cells of its in-bounds
   * points and leaves every other cell as it was: nothing is written
   * outside the grid, and an off-grid point never wraps into another row.
   */
  lemma {:induction false} PlotAllCell(cells: seq<Color>, width: int, height: int, points: seq<(int, int)>, color: Color, k: int)
    requires Shape(width, height, |cells|) && 0 <= k < |cells|
    ensures PlotAll(cells, width, height, points, color)[k] == if Covers(width, height, points, k) then color else cells[k]
    decreases |points|
  {
    if points != [] {
      var n := |points| - 1;
      var init, last := points[..n], points[n];
      PlotAllCell(cells, width, height, init, color, k);
      var hitsLast := InBounds(width, height, last.0, last.1) && Index(width, last.0, last.1) == k;
      if Covers(width, height, init, k) {
        var i :| 0 <= i < |init| && InBounds(width, height, init[i].0, init[i].1) && Index(width, init[i].0, init[i].1) == k;
        assert points[i] == init[i];
      }
      if hitsLast {
        assert points[n] == last;
      }
      if Covers(width, height, points, k) && !hitsLast {
        var i :| 0 <= i < |points| && InBounds(width, height, points[i].0, points[i].1) && Index(width, points[i].0, points[i].1) == k;
        assert i < n && init[i] == points[i];
      }
    }
  }
}
