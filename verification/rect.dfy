/**
 * `draw_filled_rect`: fill the pixel rectangle `[x0, x0 + width) x
 * [y0, y0 + height)`.  The x-range is cut into one column strip per
 * worker, strip `i` being `[x0 + i*width/n, x0 + (i+1)*width/n)`, and each
 * strip is filled row by row through `drawPixel`.  The workers run
 * concurrently in the source and write disjoint cells; here the strips
 * are filled one after another.
 */
module Rect {
  import opened Int32
  import opened Raster
  import opened Pixel

  /** Cell `k` of a grid `width` cells wide lies in the pixel rectangle `[x0, x1) x [y0, y1)`. */
  predicate InRect(width: int, k: int, x0: int, x1: int, y0: int, y1: int) {
    width > 0 && x0 <= k % width < x1 && y0 <= k / width < y1
  }

  /** `cells` with every pixel of the rectangle `[x0, x1) x [y0, y1)` that lies on the grid set to `color`. */
  function Filled(cells: seq<Color>, width: int, x0: int, x1: int, y0: int, y1: int, color: Color): (r: seq<Color>)
    ensures |r| == |cells|
  {
    seq(|cells|, k requires 0 <= k < |cells| => if InRect(width, k, x0, x1, y0, y1) then color else cells[k])
  }

  /**
   * In pixel terms: an on-grid pixel inside the rectangle holds `color`,
   * and every other pixel keeps its colour.
   */
  lemma FilledPixel(cells: seq<Color>, width: int, height: int, x0: int, x1: int, y0: int, y1: int, color: Color, px: int, py: int)
    requires Shape(width, height, |cells|) && InBounds(width, height, px, py)
    ensures 0 <= Index(width, px, py) < |cells|
    ensures Filled(cells, width, x0, x1, y0, y1, color)[Index(width, px, py)]
         == if x0 <= px < x1 && y0 <= py < y1 then color else cells[Index(width, px, py)]
  {
    IndexInside(width, height, px, py);
    CellOf(width, height, Index(width, px, py), px, py);
  }

  /** An empty rectangle changes nothing. */
  lemma FilledEmpty(cells: seq<Color>, width: int, x0: int, x1: int, y0: int, y1: int, color: Color)
    requires x1 <= x0 || y1 <= y0
    ensures Filled(cells, width, x0, x1, y0, y1, color) == cells
  {
  }

  /** Drawing pixel `(x, y)` extends a filled run `[fromX, x)` of row `y` to `[fromX, x + 1)`. */
  lemma ExtendRun(cells: seq<Color>, width: int, height: int, fromX: int, x: int, y: int, color: Color)
    requires Shape(width, height, |cells|) && fromX <= x
    ensures PutPixel(Filled(cells, width, fromX, x, y, y + 1, color), width, height, x, y, color)
         == Filled(cells, width, fromX, x + 1, y, y + 1, color)
  {
    forall k | 0 <= k < |cells|
      ensures (InBounds(width, height, x, y) && k == Index(width, x, y)) <==> (k % width == x && k / width == y)
    {
      CellOf(width, height, k, x, y);
    }
  }

  /** A strip filled on rows `[y0, y)` plus row `y` across the strip is the strip filled on rows `[y0, y + 1)`. */
  lemma ExtendRows(cells: seq<Color>, width: int, fromX: int, toX: int, y0: int, y: int, color: Color)
    requires y0 <= y
    ensures Filled(Filled(cells, width, fromX, toX, y0, y, color), width, fromX, if fromX <= toX then toX else fromX, y, y + 1, color)
         == Filled(cells, width, fromX, toX, y0, y + 1, color)
  {
  }

  /** Filling `[x0, fromX)` and then the adjacent strip `[fromX, toX)` fills `[x0, toX)`. */
  lemma ExtendStrips(cells: seq<Color>, width: int, x0: int, fromX: int, toX: int, y0: int, y1: int, color: Color)
    requires x0 <= fromX <= toX || toX <= fromX <= x0
    ensures Filled(Filled(cells, width, x0, fromX, y0, y1, color), width, fromX, toX, y0, y1, color)
         == Filled(cells, width, x0, toX, y0, y1, color)
  {
  }

  /**
   * Left edge `x0 + i * width / n` of strip `i`; strip `i` is
   * `[StripFrom(i), StripFrom(i + 1))`.  The first strip starts at `x0` and
   * the last one ends at `x0 + width`.
   */
  function StripFrom(x0: int, width: int, n: int, i: int): (from: int)
    requires n > 0
    ensures i == 0 ==> from == x0
    ensures i == n ==> from == x0 + width
  {
    assert n * width == width * n;
    DivMultiple(width, n);
    x0 + Div(i * width, n)
  }

  predicate InStrip(x0: int, width: int, n: int, i: int, px: int)
    requires n > 0
  {
    StripFrom(x0, width, n, i) <= px < StripFrom(x0, width, n, i + 1)
  }

  /** For a non-negative `w`, the scaled quotients `i * w / n` grow with `i` from 0 to `w`. */
  lemma ScaledQuotients(w: int, n: int, i: int, i': int)
    requires w >= 0 && n > 0 && 0 <= i <= i' <= n
    ensures 0 <= Div(i * w, n) <= Div(i' * w, n) <= w
  {
    var p, p', top := i * w, i' * w, n * w;
    assert 0 <= p <= p' <= top by {
      MulMonotone(0, i, w);
      MulMonotone(i, i', w);
      MulMonotone(i', n, w);
    }
    assert Div(top, n) == w by {
      assert top == w * n;
      DivMultiple(w, n);
    }
    assert 0 <= Div(p, n) by {
      DivMonotone(0, p, n);
      assert Div(0, n) == 0;
    }
    assert Div(p, n) <= Div(p', n) by {
      DivMonotone(p, p', n);
    }
    assert Div(p', n) <= w by {
      DivMonotone(p', top, n);
    }
  }

  /**
   * Strip edges move monotonically from `x0` towards `x0 + width`: for a
   * non-negative width the strips are contiguous and in order, and for a
   * negative width every strip is empty.
   */
  lemma StripsOrdered(x0: int, width: int, n: int, i: int, i': int)
    requires n > 0 && 0 <= i <= i' <= n
    ensures width >= 0 ==> x0 <= StripFrom(x0, width, n, i) <= StripFrom(x0, width, n, i') <= x0 + width
    ensures width < 0 ==> x0 + width <= StripFrom(x0, width, n, i') <= StripFrom(x0, width, n, i) <= x0
  {
    var from, from' := StripFrom(x0, width, n, i), StripFrom(x0, width, n, i');
    assert from == x0 + Div(i * width, n) && from' == x0 + Div(i' * width, n);
    if width >= 0 {
      ScaledQuotients(width, n, i, i');
    } else {
      var w := -width;
      ScaledQuotients(w, n, i, i');
      assert Div(i * width, n) == -Div(i * w, n) by {
        assert i * width == -(i * w);
        DivNegate(i * w, n);
      }
      assert Div(i' * width, n) == -Div(i' * w, n) by {
        assert i' * width == -(i' * w);
        DivNegate(i' * w, n);
      }
    }
  }

  /** No column lies in two strips. */
  lemma StripsDisjoint(x0: int, width: int, n: int, i: int, i': int, px: int)
    requires n > 0 && 0 <= i < i' < n
    ensures !(InStrip(x0, width, n, i, px) && InStrip(x0, width, n, i', px))
  {
    if width >= 0 {
      StripsOrdered(x0, width, n, i + 1, i');
    } else {
      StripsOrdered(x0, width, n, i, i + 1);
    }
  }

  /** For a non-negative width, every column of `[x0, x0 + width)` lies in some strip. */
  lemma StripsCover(x0: int, width: int, n: int, px: int)
    requires n > 0 && width >= 0 && x0 <= px < x0 + width
    ensures exists i :: 0 <= i < n && InStrip(x0, width, n, i, px)
  {
    StripAfter(x0, width, n, 0, px);
  }

  /** Some strip at or after `lo` holds `px`, given that strip `lo` starts at or before it. */
  lemma {:induction false} StripAfter(x0: int, width: int, n: int, lo: int, px: int)
    requires n > 0 && width >= 0 && 0 <= lo < n
    requires StripFrom(x0, width, n, lo) <= px < StripFrom(x0, width, n, n)
    ensures exists i :: lo <= i < n && InStrip(x0, width, n, i, px)
    decreases n - lo
  {
    if px < StripFrom(x0, width, n, lo + 1) {
      assert InStrip(x0, width, n, lo, px);
    } else {
      StripAfter(x0, width, n, lo + 1, px);
    }
  }

  /**
   * One worker's task: rows `y0 .. y0 + height - 1`, columns
   * `fromX .. toX - 1`, each pixel through `drawPixel`.  Afterwards exactly
   * the on-grid pixels of that block hold `color`.
   */
  method FillStrip(surface: Canvas, fromX: int, toX: int, y0: int, height: int, color: Color)
    requires surface.Valid()
    requires InRange(fromX) && InRange(toX) && InRange(y0) && InRange(y0 + height)
    modifies surface.memory
    ensures surface.memory[..] == Filled(old(surface.memory[..]), surface.width, fromX, toX, y0, y0 + height, color)
  {
    ghost var before := surface.memory[..];
    var y := y0;
    while y < y0 + height
      invariant y0 <= y && (y <= y0 + height || y == y0)
      invariant surface.memory[..] == Filled(before, surface.width, fromX, toX, y0, y, color)
      decreases y0 + height - y
    {
      ghost var rowStart := surface.memory[..];
      var x := fromX;
      while x < toX
        invariant fromX <= x && (x <= toX || x == fromX)
        invariant surface.memory[..] == Filled(rowStart, surface.width, fromX, x, y, y + 1, color)
        decreases toX - x
      {
        ExtendRun(rowStart, surface.width, surface.height, fromX, x, y, color);
        DrawPixel(surface, x, y, color);
        x := x + 1;
      }
      ExtendRows(before, surface.width, fromX, toX, y0, y, color);
      y := y + 1;
    }
    if y == y0 {
      FilledEmpty(before, surface.width, fromX, toX, y0, y, color);
      FilledEmpty(before, surface.width, fromX, toX, y0, y0 + height, color);
    }
  }

  /**
   * `draw_filled_rect` on integer inputs: `n` workers each fill the strip
   * `[x0 + i*width/n, x0 + (i+1)*width/n)` over rows `[y0, y0 + height)`.
   * The strips are contiguous, so together they fill the whole rectangle:
   * every on-grid pixel inside it holds `color` and every other cell is
   * unchanged (see `FilledPixel`).  The products `i * width` must not
   * overflow, which `n * width` bounds.
   */
  method DrawFilledRect(surface: Canvas, x0: int, y0: int, width: int, height: int, n: int, color: Color)
    requires surface.Valid() && n > 0
    requires InRange(x0) && InRange(y0) && InRange(x0 + width) && InRange(y0 + height) && InRange(n * width)
    modifies surface.memory
    ensures surface.memory[..] == Filled(old(surface.memory[..]), surface.width, x0, x0 + width, y0, y0 + height, color)
  {
    ghost var before := surface.memory[..];
    FilledEmpty(before, surface.width, x0, x0, y0, y0 + height, color);
    var i := 0;
    while i < n
      invariant 0 <= i <= n
      invariant surface.memory[..] == Filled(before, surface.width, x0, StripFrom(x0, width, n, i), y0, y0 + height, color)
    {
      MulBetween(i, n, width);
      MulBetween(i + 1, n, width);
      var fromX := x0 + Div(i * width, n);
      var toX := x0 + Div((i + 1) * width, n);
      StripsOrdered(x0, width, n, i, i + 1);
      StripsOrdered(x0, width, n, 0, i);
      FillStrip(surface, fromX, toX, y0, height, color);
      ExtendStrips(before, surface.width, x0, fromX, toX, y0, y0 + height, color);
      i := i + 1;
    }
  }
}
