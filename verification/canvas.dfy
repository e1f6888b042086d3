/**
 * The pixel surface the drawing primitives write into: a row-major grid
 * of `width * height` colours.  The window canvas and the off-screen image
 * expose the same shape (`width`, `height`, and cells `0 .. width*height`
 * checked by the canvas's indexing assertion), so one surface type stands
 * for both.
 */
module Raster {
  import opened Int32

  newtype Byte = v: int | 0 <= v < 256

  /** A 32-bit pixel, stored blue, green, red, alpha. */
  datatype Color = Color(b: Byte, g: Byte, r: Byte, a: Byte)

  /** A grid of `width` by `height` cells held in `len` slots addressable by a 32-bit index. */
  predicate Shape(width: int, height: int, len: int) {
    0 <= width <= MAX && 0 <= height <= MAX && len == width * height && len <= MAX
  }

  predicate InBounds(width: int, height: int, x: int, y: int) {
    0 <= x < width && 0 <= y < height
  }

  /** Row-major cell index of pixel `(x, y)`. */
  function Index(width: int, x: int, y: int): int {
    y * width + x
  }

  /** An in-bounds pixel has a cell inside the grid. */
  lemma IndexInside(width: int, height: int, x: int, y: int)
    requires 0 <= width && 0 <= height && InBounds(width, height, x, y)
    ensures 0 <= Index(width, x, y) < width * height
  {
    MulMonotone(0, y, width);
    MulMonotone(y + 1, height, width);
    assert (y + 1) * width == y * width + width;
  }

  /** Every cell of a grid is the cell of exactly the pixel `(k % width, k / width)`. */
  lemma Coordinates(width: int, height: int, k: int)
    requires 0 <= width && 0 <= height && 0 <= k < width * height
    ensures width > 0
    ensures InBounds(width, height, k % width, k / width)
    ensures k == Index(width, k % width, k / width)
  {
    assert width != 0;
    var q := k / width;
    assert k == q * width + k % width;
    MulCancel(q, height, width);
    if q < 0 {
      MulMonotone(q, -1, width);
    }
  }

  /** Cell `k` belongs to pixel `(x, y)` exactly when `(x, y)` is in bounds and indexes `k`. */
  lemma CellOf(width: int, height: int, k: int, x: int, y: int)
    requires 0 <= width && 0 <= height && 0 <= k < width * height
    ensures width > 0
    ensures (InBounds(width, height, x, y) && k == Index(width, x, y)) <==> (k % width == x && k / width == y)
  {
    Coordinates(width, height, k);
    if InBounds(width, height, x, y) && k == Index(width, x, y) {
      var q := k / width;
      assert (q - y) * width == x - k % width;
      assert (q - y) * width < 1 * width && (-1) * width < (q - y) * width;
      MulCancel(q - y, 1, width);
      MulCancel(-1, q - y, width);
    }
  }

  /**
   * The drawing surface.  `wholeSize` is the cell count the indexing
   * operator checks against; `memory` holds exactly that many cells.
   */
  class Canvas {
    var width: int
    var height: int
    var wholeSize: int
    var memory: array<Color>

    ghost predicate Valid()
      reads this
    {
      Shape(width, height, wholeSize) && memory.Length == wholeSize
    }

    /**
     * A surface of `width * height` cells.  The source leaves the cells
     * uninitialised; `initial` stands for whatever they hold, and the
     * drawing contracts are stated relative to any such contents.
     */
    constructor (width: int, height: int, initial: Color)
      requires 0 <= width <= MAX && 0 <= height <= MAX && width * height <= MAX
      ensures Valid() && fresh(memory)
      ensures this.width == width && this.height == height
      ensures forall k :: 0 <= k < memory.Length ==> memory[k] == initial
    {
      this.width := width;
      this.height := height;
      wholeSize := width * height;
      memory := new Color[width * height](_ => initial);
    }
  }
}
