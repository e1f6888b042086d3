/**
 * `drawLine`: an integer line rasteriser.  It steps the major axis (the
 * one with the strictly larger extent; ties go to x) by one pixel per
 * point and carries the minor coordinate in a 16.16 fixed-point
 * accumulator `j`, starting half a pixel in (`0x8000`) and advancing by
 * `decInc = (shortLen << 16) / longLen` per point.
 *
 * `Points` gives the k-th plotted point in closed form; `DrawLine` runs
 * the four loops of the rasteriser and is proved to plot exactly
 * `Points`, in order.  The lemmas state what the point sequence is: its
 * length, its endpoints, its bounding box, and 8-connectivity.
 */
module Line {
  import opened Int32
  import opened Raster
  import opened Pixel

  /**
   * Coordinates below 2^14 in magnitude keep every 32-bit intermediate of
   * the rasteriser in range: `x << 16`, `shortLen << 16`, and the
   * accumulator including its final, unused increment.
   */
  const LIMIT: int := 0x4000

  predicate Fits(v: int) {
    -LIMIT <= v < LIMIT
  }

  predicate EndpointsFit(x: int, y: int, x2: int, y2: int) {
    Fits(x) && Fits(y) && Fits(x2) && Fits(y2)
  }

  function Max(a: int, b: int): int {
    if a < b then b else a
  }

  /** The locals `drawLine` computes before it plots anything. */
  datatype Setup = Setup(yLonger: bool, shortLen: int, longLen: int, decInc: int)

  function Prepare(x: int, y: int, x2: int, y2: int): (s: Setup)
    requires EndpointsFit(x, y, x2, y2)
    ensures s.yLonger <==> Abs(y2 - y) > Abs(x2 - x)
    ensures Abs(s.shortLen) <= Abs(s.longLen)
    ensures s.longLen == 0 ==> s.decInc == 0
  {
    var dy, dx := y2 - y, x2 - x;
    var yLonger := Abs(dy) > Abs(dx);
    var shortLen := if yLonger then dx else dy;
    var longLen := if yLonger then dy else dx;
    Setup(yLonger, shortLen, longLen, if longLen == 0 then 0 else Div(Shl16(shortLen), longLen))
  }

  /** Start of the major and of the minor coordinate. */
  function MajorStart(x: int, y: int, s: Setup): int {
    if s.yLonger then y else x
  }

  function MinorStart(x: int, y: int, s: Setup): int {
    if s.yLonger then x else y
  }

  /** The major coordinate of the k-th point: `++` per point when `longLen > 0`, else `--`. */
  function MajorAt(major0: int, s: Setup, k: int): int {
    if s.longLen > 0 then major0 + k else major0 - k
  }

  /** Change of the accumulator per point: `j += decInc` when stepping up, `j -= decInc` when stepping down. */
  function Delta(s: Setup): int {
    if s.longLen > 0 then s.decInc else -s.decInc
  }

  /**
   * The accumulator `j` when the k-th point is plotted.  It starts half a
   * pixel into the minor start coordinate, so the first point shifts back
   * to that coordinate.
   */
  function Acc(minor0: int, s: Setup, k: int): (j: int)
    ensures k == 0 ==> Sar16(j) == minor0
  {
    HALF + Shl16(minor0) + k * Delta(s)
  }

  /** Each point advances the accumulator by one `Delta`. */
  lemma AccNext(minor0: int, s: Setup, k: int)
    ensures Acc(minor0, s, k + 1) == Acc(minor0, s, k) + Delta(s)
  {
    assert (k + 1) * Delta(s) == k * Delta(s) + Delta(s);
  }

  /** The k-th point `drawLine(x, y, x2, y2)` plots, counting from 0. */
  function Point(x: int, y: int, x2: int, y2: int, k: int): (p: (int, int))
    requires EndpointsFit(x, y, x2, y2) && 0 <= k <= Abs(Prepare(x, y, x2, y2).longLen)
    ensures Between(p.0, x, x2) && Between(p.1, y, y2)
  {
    var s := Prepare(x, y, x2, y2);
    PrepareBounds(x, y, x2, y2);
    MinorBetween(x, y, x2, y2, k);
    var major := MajorAt(MajorStart(x, y, s), s, k);
    var minor := Sar16(Acc(MinorStart(x, y, s), s, k));
    if s.yLonger then (minor, major) else (major, minor)
  }

  /**
   * All points `drawLine(x, y, x2, y2)` plots, in order: one per step of
   * the major axis, from `(x, y)` to `(x2, y2)` inclusive, all inside the
   * box the two endpoints span.
   */
  function Points(x: int, y: int, x2: int, y2: int): (ps: seq<(int, int)>)
    requires EndpointsFit(x, y, x2, y2)
    ensures |ps| == Max(Abs(x2 - x), Abs(y2 - y)) + 1
    ensures ps[0] == (x, y) && ps[|ps| - 1] == (x2, y2)
    ensures forall i :: 0 <= i < |ps| ==> Between(ps[i].0, x, x2) && Between(ps[i].1, y, y2)
  {
    var n := Abs(Prepare(x, y, x2, y2).longLen);
    PrepareBounds(x, y, x2, y2);
    FirstPoint(x, y, x2, y2);
    LastPoint(x, y, x2, y2);
    seq(n + 1, k requires 0 <= k <= n => Point(x, y, x2, y2, k))
  }

  /**
   * The major axis is the one whose extent is strictly larger (x on a
   * tie); after the swap `|shortLen| <= |longLen|`, so the per-point
   * increment is at most 1.0, and it is zero on a zero-length line.  The
   * 16-bit shift of `shortLen` stays within 32 bits.
   */
  lemma PrepareBounds(x: int, y: int, x2: int, y2: int)
    requires EndpointsFit(x, y, x2, y2)
    ensures var s := Prepare(x, y, x2, y2);
      && (s.yLonger <==> Abs(y2 - y) > Abs(x2 - x))
      && s.longLen == (if s.yLonger then y2 - y else x2 - x)
      && s.shortLen == (if s.yLonger then x2 - x else y2 - y)
      && Abs(s.longLen) == Max(Abs(x2 - x), Abs(y2 - y))
      && Abs(s.shortLen) <= Abs(s.longLen)
      && InRange(Shl16(s.shortLen))
      && Abs(s.decInc) <= ONE
      && (s.longLen == 0 ==> s.decInc == 0)
  {
    var s := Prepare(x, y, x2, y2);
    assert InRange(Shl16(s.shortLen)) by {
      MulMonotone(-0x7FFF, s.shortLen, ONE);
      MulMonotone(s.shortLen, 0x7FFF, ONE);
    }
    if s.longLen != 0 {
      DecIncBound(s.shortLen, s.longLen);
    }
  }

  /** `(shortLen << 16) / longLen` is at most 1.0 in magnitude when `|shortLen| <= |longLen|`. */
  lemma DecIncBound(shortLen: int, longLen: int)
    requires longLen != 0 && Abs(shortLen) <= Abs(longLen)
    ensures Abs(Div(Shl16(shortLen), longLen)) <= ONE
  {
    var a, b := Abs(shortLen) * ONE, Abs(longLen);
    assert Abs(Div(Shl16(shortLen), longLen)) == a / b by {
      assert Abs(Shl16(shortLen)) == a;
    }
    assert a <= ONE * b by {
      MulMonotone(Abs(shortLen), b, ONE);
    }
    DivMonotone(a, ONE * b, b);
    NatDivMultiple(ONE, b);
  }

  /** Per point, the accumulator moves by `shortLen << 16` divided by the number of steps, in either direction. */
  lemma DeltaIsQuotient(s: Setup, x: int, y: int, x2: int, y2: int)
    requires EndpointsFit(x, y, x2, y2) && s == Prepare(x, y, x2, y2) && s.longLen != 0
    ensures Delta(s) == Div(Shl16(s.shortLen), Abs(s.longLen))
  {
  }

  /**
   * `k` steps of the truncated quotient `a / n` travel from 0 towards `a`
   * without passing it, and `n` steps fall short of `a` by less than `n`.
   */
  lemma ScaledSteps(a: int, n: int, k: int)
    requires n > 0 && 0 <= k <= n
    ensures a >= 0 ==> 0 <= k * Div(a, n) <= a
    ensures a < 0 ==> a <= k * Div(a, n) <= 0
    ensures Abs(a - n * Div(a, n)) < n
  {
    var d := Div(a, n);
    assert Abs(a - n * d) < n && (a - n * d == 0 || (a - n * d < 0 <==> a < 0)) by {
      DivRemainder(a, n);
      assert n * d == d * n;
    }
    assert Between(k * d, 0, n * d) by {
      MulBetween(k, n, d);
    }
    DivSign(a, n);
  }

  /** The accumulator at point k has moved from its start by between 0 and `shortLen << 16`. */
  lemma AccTravel(x: int, y: int, x2: int, y2: int, k: int)
    requires EndpointsFit(x, y, x2, y2)
    requires 0 <= k <= Abs(Prepare(x, y, x2, y2).longLen)
    ensures var s := Prepare(x, y, x2, y2);
      var t := k * Delta(s);
      && Between(t, 0, Shl16(s.shortLen))
      && (k == Abs(s.longLen) && s.longLen != 0 ==> Abs(Shl16(s.shortLen) - t) < Abs(s.longLen))
      && (s.longLen == 0 ==> t == 0 && s.shortLen == 0)
  {
    var s := Prepare(x, y, x2, y2);
    PrepareBounds(x, y, x2, y2);
    if s.longLen != 0 {
      DeltaIsQuotient(s, x, y, x2, y2);
      ScaledSteps(Shl16(s.shortLen), Abs(s.longLen), k);
    }
  }

  /** The minor coordinate of point k lies between the minor coordinates of the two endpoints. */
  lemma MinorBetween(x: int, y: int, x2: int, y2: int, k: int)
    requires EndpointsFit(x, y, x2, y2)
    requires 0 <= k <= Abs(Prepare(x, y, x2, y2).longLen)
    ensures var s := Prepare(x, y, x2, y2);
      var m0 := MinorStart(x, y, s);
      && Between(Sar16(Acc(m0, s, k)), m0, m0 + s.shortLen)
      && Between(Acc(m0, s, k), Shl16(m0) + HALF, Shl16(m0 + s.shortLen) + HALF)
  {
    var s := Prepare(x, y, x2, y2);
    var m0 := MinorStart(x, y, s);
    AccTravel(x, y, x2, y2, k);
    var lo, hi := m0, m0 + s.shortLen;
    if s.shortLen < 0 {
      lo, hi := hi, lo;
    }
    Sar16Of(lo, HALF);
    Sar16Of(hi, HALF);
    Sar16Monotone(Shl16(lo) + HALF, Acc(m0, s, k));
    Sar16Monotone(Acc(m0, s, k), Shl16(hi) + HALF);
  }

  /** The accumulator never leaves the 32-bit range, even after the increment that follows the last point. */
  lemma AccInRange(x: int, y: int, x2: int, y2: int, k: int)
    requires EndpointsFit(x, y, x2, y2)
    requires 0 <= k <= Abs(Prepare(x, y, x2, y2).longLen) + 1
    ensures InRange(Acc(MinorStart(x, y, Prepare(x, y, x2, y2)), Prepare(x, y, x2, y2), k))
  {
    var s := Prepare(x, y, x2, y2);
    var m0 := MinorStart(x, y, s);
    PrepareBounds(x, y, x2, y2);
    if k <= Abs(s.longLen) {
      MinorBetween(x, y, x2, y2, k);
    } else {
      MinorBetween(x, y, x2, y2, k - 1);
      AccNext(m0, s, k - 1);
    }
  }

  /** The first point is the start point: `(0x8000 + (c << 16)) >> 16 == c`. */
  lemma FirstPoint(x: int, y: int, x2: int, y2: int)
    requires EndpointsFit(x, y, x2, y2)
    ensures Point(x, y, x2, y2, 0) == (x, y)
  {
    var s := Prepare(x, y, x2, y2);
    Sar16Of(MinorStart(x, y, s), HALF);
  }

  /**
   * The last point is the end point: the major coordinate arrives after
   * `|longLen|` unit steps, and the truncation error of `decInc`, less
   * than `|longLen|` in 16.16 units, is absorbed by the half-pixel offset.
   */
  lemma LastPoint(x: int, y: int, x2: int, y2: int)
    requires EndpointsFit(x, y, x2, y2)
    ensures Point(x, y, x2, y2, Abs(Prepare(x, y, x2, y2).longLen)) == (x2, y2)
  {
    var s := Prepare(x, y, x2, y2);
    var n := Abs(s.longLen);
    var m0 := MinorStart(x, y, s);
    PrepareBounds(x, y, x2, y2);
    AccTravel(x, y, x2, y2, n);
    var e := Shl16(s.shortLen) - n * Delta(s);
    assert Acc(m0, s, n) == Shl16(m0 + s.shortLen) + (HALF - e);
    Sar16Of(m0 + s.shortLen, HALF - e);
  }

  /**
   * Consecutive points are 8-neighbours: the major coordinate moves by
   * exactly one towards the end point, the minor one by at most one.
   */
  lemma Connected(x: int, y: int, x2: int, y2: int, k: int)
    requires EndpointsFit(x, y, x2, y2)
    requires 0 <= k < Abs(Prepare(x, y, x2, y2).longLen)
    ensures var p, q := Point(x, y, x2, y2, k), Point(x, y, x2, y2, k + 1);
      && Abs(q.0 - p.0) <= 1 && Abs(q.1 - p.1) <= 1
      && (Abs(y2 - y) > Abs(x2 - x) ==> q.1 - p.1 == (if y2 > y then 1 else -1))
      && (Abs(y2 - y) <= Abs(x2 - x) ==> q.0 - p.0 == (if x2 > x then 1 else -1))
  {
    var s := Prepare(x, y, x2, y2);
    var m0 := MinorStart(x, y, s);
    assert Abs(Sar16(Acc(m0, s, k + 1)) - Sar16(Acc(m0, s, k))) <= 1 by {
      PrepareBounds(x, y, x2, y2);
      AccNext(m0, s, k);
      Sar16Close(Acc(m0, s, k + 1), Acc(m0, s, k));
    }
    PrepareBounds(x, y, x2, y2);
  }

  /**
   * The coordinate bound is sufficient, not necessary, and the end point
   * is not reached for every line the source can draw without overflow.
   * `drawLine(-43000, 0, 691, 2)` keeps every intermediate within 32 bits
   * (only the minor start 0 and `shortLen` 2 are shifted), but it takes
   * 43691 steps of `decInc = (2 << 16) / 43691 = 2`, whose truncation
   * error of almost 2.0 in 16.16 units overruns the half-pixel offset: the
   * last point plotted is `(691, 1)`, not `(691, 2)`.
   */
  lemma LongLineMissesEnd()
    ensures var s := Setup(false, 2, 43691, Div(Shl16(2), 43691));
      && 691 - -43000 == s.longLen && 2 - 0 == s.shortLen
      && s.decInc == 2
      && InRange(Shl16(s.shortLen)) && InRange(Acc(0, s, s.longLen + 1))
      && MajorAt(-43000, s, s.longLen) == 691
      && Sar16(Acc(0, s, s.longLen)) == 1
  {
  }

  /** A line whose ends coincide plots exactly one pixel, at that point. */
  lemma ZeroLength(x: int, y: int)
    requires Fits(x) && Fits(y)
    ensures Points(x, y, x, y) == [(x, y)]
  {
  }

  /** What one iteration of any of the four loops needs to know about point k. */
  lemma StepFacts(x: int, y: int, x2: int, y2: int, k: int)
    requires EndpointsFit(x, y, x2, y2) && 0 <= k <= Abs(Prepare(x, y, x2, y2).longLen)
    ensures var s := Prepare(x, y, x2, y2);
      var m0 := MinorStart(x, y, s);
      var p := Points(x, y, x2, y2)[k];
      && |Points(x, y, x2, y2)| == Abs(s.longLen) + 1
      && p == (if s.yLonger then (Sar16(Acc(m0, s, k)), MajorAt(MajorStart(x, y, s), s, k))
                            else (MajorAt(MajorStart(x, y, s), s, k), Sar16(Acc(m0, s, k))))
      && InRange(p.0) && InRange(p.1)
      && InRange(Acc(m0, s, k + 1))
      && Acc(m0, s, k + 1) == Acc(m0, s, k) + Delta(s)
  {
    var s := Prepare(x, y, x2, y2);
    PrepareBounds(x, y, x2, y2);
    assert Points(x, y, x2, y2)[k] == Point(x, y, x2, y2, k);
    AccInRange(x, y, x2, y2, k + 1);
    AccNext(MinorStart(x, y, s), s, k);
  }

  /** The loop of `drawLine` for a steep line drawn downwards the screen: `++y` per point, `j += decInc`. */
  method StepYUp(surface: Canvas, x: int, y: int, x2: int, y2: int, longLen: int, decInc: int, color: Color)
    requires surface.Valid() && EndpointsFit(x, y, x2, y2)
    requires var s := Prepare(x, y, x2, y2); s.yLonger && s.longLen > 0 && longLen == s.longLen && decInc == s.decInc
    modifies surface.memory
    ensures surface.memory[..] == PlotAll(old(surface.memory[..]), surface.width, surface.height, Points(x, y, x2, y2), color)
  {
    ghost var s := Prepare(x, y, x2, y2);
    ghost var n := Abs(longLen);
    ghost var pts := Points(x, y, x2, y2);
    ghost var before := surface.memory[..];
    var cx, cy := x, y;
    var last := longLen + cy;
    var j := HALF + Shl16(cx);
    ghost var k := 0;
    while cy <= last
      invariant 0 <= k <= n + 1 && cy == y + k && cx == x
      invariant j == Acc(x, s, k)
      invariant surface.memory[..] == PlotAll(before, surface.width, surface.height, pts[..k], color)
      decreases last - cy
    {
      StepFacts(x, y, x2, y2, k);
      PlotAllPrefix(before, surface.width, surface.height, pts, k, color);
      DrawPixel(surface, Sar16(j), cy, color);
      j := j + decInc;
      cy := cy + 1;
      k := k + 1;
    }
    assert pts[..k] == pts;
  }

  /** The loop of `drawLine` for a steep line drawn upwards: `--y` per point, `j -= decInc`. */
  method StepYDown(surface: Canvas, x: int, y: int, x2: int, y2: int, longLen: int, decInc: int, color: Color)
    requires surface.Valid() && EndpointsFit(x, y, x2, y2)
    requires var s := Prepare(x, y, x2, y2); s.yLonger && s.longLen <= 0 && longLen == s.longLen && decInc == s.decInc
    modifies surface.memory
    ensures surface.memory[..] == PlotAll(old(surface.memory[..]), surface.width, surface.height, Points(x, y, x2, y2), color)
  {
    ghost var s := Prepare(x, y, x2, y2);
    ghost var n := Abs(longLen);
    ghost var pts := Points(x, y, x2, y2);
    ghost var before := surface.memory[..];
    var cx, cy := x, y;
    var last := longLen + cy;
    var j := HALF + Shl16(cx);
    ghost var k := 0;
    while cy >= last
      invariant 0 <= k <= n + 1 && cy == y - k && cx == x
      invariant j == Acc(x, s, k)
      invariant surface.memory[..] == PlotAll(before, surface.width, surface.height, pts[..k], color)
      decreases cy - last
    {
      StepFacts(x, y, x2, y2, k);
      PlotAllPrefix(before, surface.width, surface.height, pts, k, color);
      DrawPixel(surface, Sar16(j), cy, color);
      j := j - decInc;
      cy := cy - 1;
      k := k + 1;
    }
    assert pts[..k] == pts;
  }

  /** The loop of `drawLine` for a shallow line drawn rightwards: `++x` per point, `j += decInc`. */
  method StepXUp(surface: Canvas, x: int, y: int, x2: int, y2: int, longLen: int, decInc: int, color: Color)
    requires surface.Valid() && EndpointsFit(x, y, x2, y2)
    requires var s := Prepare(x, y, x2, y2); !s.yLonger && s.longLen > 0 && longLen == s.longLen && decInc == s.decInc
    modifies surface.memory
    ensures surface.memory[..] == PlotAll(old(surface.memory[..]), surface.width, surface.height, Points(x, y, x2, y2), color)
  {
    ghost var s := Prepare(x, y, x2, y2);
    ghost var n := Abs(longLen);
    ghost var pts := Points(x, y, x2, y2);
    ghost var before := surface.memory[..];
    var cx, cy := x, y;
    var last := longLen + cx;
    var j := HALF + Shl16(cy);
    ghost var k := 0;
    while cx <= last
      invariant 0 <= k <= n + 1 && cx == x + k && cy == y
      invariant j == Acc(y, s, k)
      invariant surface.memory[..] == PlotAll(before, surface.width, surface.height, pts[..k], color)
      decreases last - cx
    {
      StepFacts(x, y, x2, y2, k);
      PlotAllPrefix(before, surface.width, surface.height, pts, k, color);
      DrawPixel(surface, cx, Sar16(j), color);
      j := j + decInc;
      cx := cx + 1;
      k := k + 1;
    }
    assert pts[..k] == pts;
  }

  /** The loop of `drawLine` for a shallow line drawn leftwards (or a single point): `--x` per point, `j -= decInc`. */
  method StepXDown(surface: Canvas, x: int, y: int, x2: int, y2: int, longLen: int, decInc: int, color: Color)
    requires surface.Valid() && EndpointsFit(x, y, x2, y2)
    requires var s := Prepare(x, y, x2, y2); !s.yLonger && s.longLen <= 0 && longLen == s.longLen && decInc == s.decInc
    modifies surface.memory
    ensures surface.memory[..] == PlotAll(old(surface.memory[..]), surface.width, surface.height, Points(x, y, x2, y2), color)
  {
    ghost var s := Prepare(x, y, x2, y2);
    ghost var n := Abs(longLen);
    ghost var pts := Points(x, y, x2, y2);
    ghost var before := surface.memory[..];
    var cx, cy := x, y;
    var last := longLen + cx;
    var j := HALF + Shl16(cy);
    ghost var k := 0;
    while cx >= last
      invariant 0 <= k <= n + 1 && cx == x - k && cy == y
      invariant j == Acc(y, s, k)
      invariant surface.memory[..] == PlotAll(before, surface.width, surface.height, pts[..k], color)
      decreases cx - last
    {
      StepFacts(x, y, x2, y2, k);
      PlotAllPrefix(before, surface.width, surface.height, pts, k, color);
      DrawPixel(surface, cx, Sar16(j), color);
      j := j - decInc;
      cx := cx - 1;
      k := k + 1;
    }
    assert pts[..k] == pts;
  }

  /**
   * `drawLine(surface, x, y, x2, y2, color)`: choose the major axis, compute
   * the fixed-point increment, then run the loop for that axis and
   * direction.  Every plot goes through `DrawPixel`, so the surface ends up
   * as `PlotAll` of `Points`; `Pixel.PlotAllCell` says which cells that
   * paints and that all others keep their colour.
   */
  method DrawLine(surface: Canvas, x: int, y: int, x2: int, y2: int, color: Color)
    requires surface.Valid() && EndpointsFit(x, y, x2, y2)
    modifies surface.memory
    ensures surface.memory[..] == PlotAll(old(surface.memory[..]), surface.width, surface.height, Points(x, y, x2, y2), color)
  {
    var yLonger := false;
    var shortLen := y2 - y;
    var longLen := x2 - x;
    if Abs(shortLen) > Abs(longLen) {
      var swap := shortLen;
      shortLen := longLen;
      longLen := swap;
      yLonger := true;
    }
    var decInc;
    if longLen == 0 {
      decInc := 0;
    } else {
      decInc := Div(Shl16(shortLen), longLen);
    }
    assert Prepare(x, y, x2, y2) == Setup(yLonger, shortLen, longLen, decInc);

    if yLonger {
      if longLen > 0 {
        StepYUp(surface, x, y, x2, y2, longLen, decInc, color);
        return;
      }
      StepYDown(surface, x, y, x2, y2, longLen, decInc, color);
      return;
    }
    if longLen > 0 {
      StepXUp(surface, x, y, x2, y2, longLen, decInc, color);
      return;
    }
    StepXDown(surface, x, y, x2, y2, longLen, decInc, color);
  }
}
