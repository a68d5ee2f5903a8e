/**
 * Blob intensity from the second derivatives of an image, 16-bit variant: the determinant
 * dxx * dyy - dxy * dxy and the trace |dxx + dyy| of the Hessian at every pixel.
 *
 * The derivatives are `short`, the arithmetic is Java `int` (Mul32, Sub32, Add32, Abs32), and
 * the proofs show that with 16-bit inputs it never overflows: every stored value is the exact
 * integer formula. The loops cover the extent of the XX derivative; every buffer is addressed
 * through its own start index and stride.
 */
module HessianBlobIntensity {
  import opened Ints
  import opened Images

  /** Java's `int` determinant of 16-bit derivatives is the exact determinant. */
  lemma DeterminantExact(dxx: Short, dyy: Short, dxy: Short)
    ensures Sub32(Mul32(dxx, dyy), Mul32(dxy, dxy)) == dxx * dyy - dxy * dxy
  {
    ShortProduct(dxx, dyy);
    ShortProduct(dxy, dxy);
    Wrap32InRange(dxx * dyy);
    Wrap32InRange(dxy * dxy);
    Wrap32InRange(dxx * dyy - dxy * dxy);
  }

  /** Magnitudes up to 2^15 multiply to at most 2^30. */
  lemma MagnitudeProduct(m: int, n: int)
    requires 0 <= m <= 0x8000 && 0 <= n <= 0x8000
    ensures 0 <= m * n <= 0x4000_0000
  {
    MulMonotone(0, m, n);
    MulMonotone(m, 0x8000, n);
    MulMonotone(n, 0x8000, 0x8000);
  }

  /** The product of two `short`s is at most 2^30 in magnitude, and a square is not negative. */
  lemma ShortProduct(a: Short, b: Short)
    ensures -0x4000_0000 <= a * b <= 0x4000_0000
    ensures a == b ==> 0 <= a * b
  {
    var x, y: int := a, b;
    if x >= 0 && y >= 0 {
      MagnitudeProduct(x, y);
    } else if x < 0 && y < 0 {
      MagnitudeProduct(-x, -y);
      assert x * y == (-x) * (-y);
    } else if x < 0 {
      MagnitudeProduct(-x, y);
      assert x * y == -((-x) * y);
    } else {
      MagnitudeProduct(x, -y);
      assert x * y == -(x * (-y));
    }
  }

  /** Java's `Math.abs(dxx + dyy)` on 16-bit derivatives is the exact, non-negative |dxx + dyy|. */
  lemma TraceExact(dxx: Short, dyy: Short)
    ensures Abs32(Add32(dxx, dyy)) == (if dxx + dyy < 0 then -(dxx + dyy) else dxx + dyy)
    ensures Abs32(Add32(dxx, dyy)) >= 0
  {
    Wrap32InRange(dxx + dyy);
    Wrap32InRange(-(dxx + dyy));
  }

  /** What the routines need of their buffers: all valid, each covering the XX extent. */
  predicate HessianShapes(xxLen: int, gxx: Geometry, yyLen: int, gyy: Geometry,
                          xyLen: int, gxy: Geometry, dLen: int, gd: Geometry)
  {
    ValidGeometry(gxx, xxLen) && ValidGeometry(gyy, yyLen) && ValidGeometry(gxy, xyLen) &&
    ValidGeometry(gd, dLen) &&
    gxx.width <= gyy.width && gxx.height <= gyy.height &&
    gxx.width <= gxy.width && gxx.height <= gxy.height &&
    gxx.width <= gd.width && gxx.height <= gd.height
  }

  /** Pixel (x, y) lies inside image g over a buffer of `len` elements. */
  predicate Inside(g: Geometry, len: int, x: int, y: int) {
    ValidGeometry(g, len) && 0 <= x < g.width && 0 <= y < g.height
  }

  /** The exact determinant at (x, y); 0 where a derivative image does not cover it. */
  function DeterminantAt(xx: seq<Short>, gxx: Geometry, yy: seq<Short>, gyy: Geometry,
                         xy: seq<Short>, gxy: Geometry, x: int, y: int): int
  {
    if Inside(gxx, |xx|, x, y) && Inside(gyy, |yy|, x, y) && Inside(gxy, |xy|, x, y)
    then
      var dxx: int, dyy: int, dxy: int := Pixel(xx, gxx, x, y), Pixel(yy, gyy, x, y), Pixel(xy, gxy, x, y);
      dxx * dyy - dxy * dxy
    else 0
  }

  /** The exact trace magnitude at (x, y); 0 where a derivative image does not cover it. */
  function TraceAt(xx: seq<Short>, gxx: Geometry, yy: seq<Short>, gyy: Geometry,
                   x: int, y: int): int
  {
    if Inside(gxx, |xx|, x, y) && Inside(gyy, |yy|, x, y)
    then
      var t: int := Pixel(xx, gxx, x, y) as int + Pixel(yy, gyy, x, y);
      if t < 0 then -t else t
    else 0
  }

  function DeterminantPixels(xx: seq<Short>, gxx: Geometry, yy: seq<Short>, gyy: Geometry,
                             xy: seq<Short>, gxy: Geometry): (int, int) -> int
  {
    (x: int, y: int) => DeterminantAt(xx, gxx, yy, gyy, xy, gxy, x, y)
  }

  function TracePixels(xx: seq<Short>, gxx: Geometry, yy: seq<Short>, gyy: Geometry): (int, int) -> int
  {
    (x: int, y: int) => TraceAt(xx, gxx, yy, gyy, x, y)
  }

  /** The intensity after `determinant`: the XX extent holds the determinant, the rest is kept. */
  function DeterminantImage(xx: seq<Short>, gxx: Geometry, yy: seq<Short>, gyy: Geometry,
                            xy: seq<Short>, gxy: Geometry, d0: seq<int>, gd: Geometry): seq<int>
  {
    Paint(d0, gd, 0, gxx.width, 0, gxx.height, DeterminantPixels(xx, gxx, yy, gyy, xy, gxy))
  }

  /** The intensity after `trace`: the XX extent holds |dxx + dyy|, the rest is kept. */
  function TraceImage(xx: seq<Short>, gxx: Geometry, yy: seq<Short>, gyy: Geometry,
                      d0: seq<int>, gd: Geometry): seq<int>
  {
    Paint(d0, gd, 0, gxx.width, 0, gxx.height, TracePixels(xx, gxx, yy, gyy))
  }

  /** Storing Java's determinant of the three derivatives at (x, y) advances the walk by one pixel. */
  lemma DeterminantStep(xx: seq<Short>, gxx: Geometry, yy: seq<Short>, gyy: Geometry,
                        xy: seq<Short>, gxy: Geometry, d0: seq<int>, gd: Geometry,
                        y: int, x: int, dxx: Short, dyy: Short, dxy: Short)
    requires HessianShapes(|xx|, gxx, |yy|, gyy, |xy|, gxy, |d0|, gd)
    requires 0 <= x < gxx.width && 0 <= y < gxx.height
    requires dxx == Pixel(xx, gxx, x, y) && dyy == Pixel(yy, gyy, x, y) && dxy == Pixel(xy, gxy, x, y)
    ensures 0 <= Index(gd, x, y) < |d0|
    ensures PaintedSoFar(d0, gd, 0, gxx.width, 0, y, x, DeterminantPixels(xx, gxx, yy, gyy, xy, gxy))
              [Index(gd, x, y) := Sub32(Mul32(dxx, dyy), Mul32(dxy, dxy))]
         == PaintedSoFar(d0, gd, 0, gxx.width, 0, y, x + 1, DeterminantPixels(xx, gxx, yy, gyy, xy, gxy))
  {
    IndexInBounds(gd, |d0|, x, y);
    DeterminantExact(dxx, dyy, dxy);
    PaintStep(d0, gd, 0, gxx.width, 0, y, x, DeterminantPixels(xx, gxx, yy, gyy, xy, gxy));
  }

  /** Storing Java's `Math.abs(dxx + dyy)` at (x, y) advances the walk by one pixel. */
  lemma TraceStep(xx: seq<Short>, gxx: Geometry, yy: seq<Short>, gyy: Geometry,
                  d0: seq<int>, gd: Geometry, y: int, x: int, dxx: Short, dyy: Short)
    requires HessianShapes(|xx|, gxx, |yy|, gyy, |yy|, gyy, |d0|, gd)
    requires 0 <= x < gxx.width && 0 <= y < gxx.height
    requires dxx == Pixel(xx, gxx, x, y) && dyy == Pixel(yy, gyy, x, y)
    ensures 0 <= Index(gd, x, y) < |d0|
    ensures PaintedSoFar(d0, gd, 0, gxx.width, 0, y, x, TracePixels(xx, gxx, yy, gyy))
              [Index(gd, x, y) := Abs32(Add32(dxx, dyy))]
         == PaintedSoFar(d0, gd, 0, gxx.width, 0, y, x + 1, TracePixels(xx, gxx, yy, gyy))
  {
    IndexInBounds(gd, |d0|, x, y);
    TraceExact(dxx, dyy);
    PaintStep(d0, gd, 0, gxx.width, 0, y, x, TracePixels(xx, gxx, yy, gyy));
  }

  /**
   * `determinant`: for each pixel of the XX extent, reads the three derivatives through their
   * own indices and stores dxx * dyy - dxy * dxy, computed in Java `int`.
   */
  method Determinant(featureIntensity: array<int>, gd: Geometry, hessianXX: array<Short>, gxx: Geometry,
                     hessianYY: array<Short>, gyy: Geometry, hessianXY: array<Short>, gxy: Geometry)
    requires HessianShapes(hessianXX.Length, gxx, hessianYY.Length, gyy,
                           hessianXY.Length, gxy, featureIntensity.Length, gd)
    modifies featureIntensity
    ensures featureIntensity[..] == DeterminantImage(hessianXX[..], gxx, hessianYY[..], gyy,
                                                     hessianXY[..], gxy, old(featureIntensity[..]), gd)
  {
    var width := gxx.width;
    var height := gxx.height;
    ghost var xx, yy, xy, d0 := hessianXX[..], hessianYY[..], hessianXY[..], featureIntensity[..];
    ghost var f := DeterminantPixels(xx, gxx, yy, gyy, xy, gxy);
    PaintStart(d0, gd, 0, width, 0, f);
    var y := 0;
    while y < height
      invariant 0 <= y <= height
      invariant featureIntensity[..] == PaintedSoFar(d0, gd, 0, width, 0, y, 0, f)
    {
      var indexXX := gxx.start + y * gxx.stride;
      var indexYY := gyy.start + y * gyy.stride;
      var indexXY := gxy.start + y * gxy.stride;
      var indexInten := gd.start + y * gd.stride;
      var x := 0;
      while x < width
        invariant 0 <= x <= width
        invariant indexXX == Index(gxx, x, y) && indexYY == Index(gyy, x, y)
        invariant indexXY == Index(gxy, x, y) && indexInten == Index(gd, x, y)
        invariant featureIntensity[..] == PaintedSoFar(d0, gd, 0, width, 0, y, x, f)
      {
        IndexInBounds(gxx, hessianXX.Length, x, y);
        IndexInBounds(gyy, hessianYY.Length, x, y);
        IndexInBounds(gxy, hessianXY.Length, x, y);
        var dxx := hessianXX[indexXX];
        indexXX := indexXX + 1;
        var dyy := hessianYY[indexYY];
        indexYY := indexYY + 1;
        var dxy := hessianXY[indexXY];
        indexXY := indexXY + 1;
        DeterminantStep(xx, gxx, yy, gyy, xy, gxy, d0, gd, y, x, dxx, dyy, dxy);
        featureIntensity[indexInten] := Sub32(Mul32(dxx, dyy), Mul32(dxy, dxy));
        indexInten := indexInten + 1;
        x := x + 1;
      }
      PaintNextRow(d0, gd, 0, width, 0, y, x, f);
      y := y + 1;
    }
    PaintDone(d0, gd, 0, width, 0, height, y, f);
  }

  /**
   * `trace`: for each pixel of the XX extent, reads dxx and dyy through their own indices and
   * stores `Math.abs(dxx + dyy)`, computed in Java `int`.
   */
  method Trace(featureIntensity: array<int>, gd: Geometry, hessianXX: array<Short>, gxx: Geometry,
               hessianYY: array<Short>, gyy: Geometry)
    requires HessianShapes(hessianXX.Length, gxx, hessianYY.Length, gyy,
                           hessianYY.Length, gyy, featureIntensity.Length, gd)
    modifies featureIntensity
    ensures featureIntensity[..] == TraceImage(hessianXX[..], gxx, hessianYY[..], gyy,
                                               old(featureIntensity[..]), gd)
  {
    var width := gxx.width;
    var height := gxx.height;
    ghost var xx, yy, d0 := hessianXX[..], hessianYY[..], featureIntensity[..];
    ghost var f := TracePixels(xx, gxx, yy, gyy);
    PaintStart(d0, gd, 0, width, 0, f);
    var y := 0;
    while y < height
      invariant 0 <= y <= height
      invariant featureIntensity[..] == PaintedSoFar(d0, gd, 0, width, 0, y, 0, f)
    {
      var indexXX := gxx.start + y * gxx.stride;
      var indexYY := gyy.start + y * gyy.stride;
      var indexInten := gd.start + y * gd.stride;
      var x := 0;
      while x < width
        invariant 0 <= x <= width
        invariant indexXX == Index(gxx, x, y) && indexYY == Index(gyy, x, y)
        invariant indexInten == Index(gd, x, y)
        invariant featureIntensity[..] == PaintedSoFar(d0, gd, 0, width, 0, y, x, f)
      {
        IndexInBounds(gxx, hessianXX.Length, x, y);
        IndexInBounds(gyy, hessianYY.Length, x, y);
        var dxx := hessianXX[indexXX];
        indexXX := indexXX + 1;
        var dyy := hessianYY[indexYY];
        indexYY := indexYY + 1;
        TraceStep(xx, gxx, yy, gyy, d0, gd, y, x, dxx, dyy);
        featureIntensity[indexInten] := Abs32(Add32(dxx, dyy));
        indexInten := indexInten + 1;
        x := x + 1;
      }
      PaintNextRow(d0, gd, 0, width, 0, y, x, f);
      y := y + 1;
    }
    PaintDone(d0, gd, 0, width, 0, height, y, f);
  }

  /** After `determinant`, pixel (x, y) of the XX extent holds dxx * dyy - dxy * dxy exactly. */
  lemma DeterminantImageAt(xx: seq<Short>, gxx: Geometry, yy: seq<Short>, gyy: Geometry,
                           xy: seq<Short>, gxy: Geometry, d0: seq<int>, gd: Geometry, x: int, y: int)
    requires HessianShapes(|xx|, gxx, |yy|, gyy, |xy|, gxy, |d0|, gd)
    requires 0 <= x < gxx.width && 0 <= y < gxx.height
    ensures 0 <= Index(gd, x, y) < |d0|
    ensures var dxx: int, dyy: int, dxy: int := Pixel(xx, gxx, x, y), Pixel(yy, gyy, x, y), Pixel(xy, gxy, x, y);
            DeterminantImage(xx, gxx, yy, gyy, xy, gxy, d0, gd)[Index(gd, x, y)] == dxx * dyy - dxy * dxy
  {
    IndexInBounds(gd, |d0|, x, y);
    PaintAt(d0, gd, 0, gxx.width, 0, gxx.height, DeterminantPixels(xx, gxx, yy, gyy, xy, gxy), x, y);
  }

  /** After `trace`, pixel (x, y) of the XX extent holds |dxx + dyy|, which is never negative. */
  lemma TraceImageAt(xx: seq<Short>, gxx: Geometry, yy: seq<Short>, gyy: Geometry,
                     d0: seq<int>, gd: Geometry, x: int, y: int)
    requires HessianShapes(|xx|, gxx, |yy|, gyy, |yy|, gyy, |d0|, gd)
    requires 0 <= x < gxx.width && 0 <= y < gxx.height
    ensures 0 <= Index(gd, x, y) < |d0|
    ensures var t: int := Pixel(xx, gxx, x, y) as int + Pixel(yy, gyy, x, y);
            TraceImage(xx, gxx, yy, gyy, d0, gd)[Index(gd, x, y)] == (if t < 0 then -t else t)
    ensures TraceImage(xx, gxx, yy, gyy, d0, gd)[Index(gd, x, y)] >= 0
  {
    IndexInBounds(gd, |d0|, x, y);
    PaintAt(d0, gd, 0, gxx.width, 0, gxx.height, TracePixels(xx, gxx, yy, gyy), x, y);
  }

  /** `determinant` changes no element outside the XX extent of the intensity image. */
  lemma DeterminantImageElsewhere(xx: seq<Short>, gxx: Geometry, yy: seq<Short>, gyy: Geometry,
                                  xy: seq<Short>, gxy: Geometry, d0: seq<int>, gd: Geometry, p: int)
    requires 0 <= p < |d0| && !InWindow(gd, p, 0, gxx.width, 0, gxx.height)
    ensures |DeterminantImage(xx, gxx, yy, gyy, xy, gxy, d0, gd)| == |d0|
    ensures DeterminantImage(xx, gxx, yy, gyy, xy, gxy, d0, gd)[p] == d0[p]
  {
    PaintOutside(d0, gd, 0, gxx.width, 0, gxx.height, DeterminantPixels(xx, gxx, yy, gyy, xy, gxy), p);
  }

  /** `trace` changes no element outside the XX extent of the intensity image. */
  lemma TraceImageElsewhere(xx: seq<Short>, gxx: Geometry, yy: seq<Short>, gyy: Geometry,
                            d0: seq<int>, gd: Geometry, p: int)
    requires 0 <= p < |d0| && !InWindow(gd, p, 0, gxx.width, 0, gxx.height)
    ensures |TraceImage(xx, gxx, yy, gyy, d0, gd)| == |d0|
    ensures TraceImage(xx, gxx, yy, gyy, d0, gd)[p] == d0[p]
  {
    PaintOutside(d0, gd, 0, gxx.width, 0, gxx.height, TracePixels(xx, gxx, yy, gyy), p);
  }
}
