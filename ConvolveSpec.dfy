/**
 * The generic 1-D convolution of a 16-bit image with an integer kernel: the reference the
 * unrolled kernels are proved against. A kernel is its coefficient sequence; its width is
 * the sequence's length and its radius is width / 2, so coefficient k applies at offset
 * k - radius from the target pixel.
 */
module ConvolveSpec {
  import opened Ints
  import opened Images

  /** The radius of a kernel of odd width 2r+1. */
  function Radius(kernel: seq<Int32>): nat { |kernel| / 2 }

  /** Sum over k < n of kernel[k] * image(x0 + k, y): a kernel prefix against a row window. */
  function RowDot(kernel: seq<Int32>, s: seq<Short>, g: Geometry, x0: int, y: int, n: nat): int
    requires n <= |kernel| && ValidGeometry(g, |s|)
    requires 0 <= x0 && x0 + n <= g.width && 0 <= y < g.height
  {
    if n == 0 then 0
    else RowDot(kernel, s, g, x0, y, n - 1) + kernel[n - 1] * Pixel(s, g, x0 + n - 1, y)
  }

  /** Sum over k < n of kernel[k] * image(x, y0 + k): a kernel prefix against a column window. */
  function ColDot(kernel: seq<Int32>, s: seq<Short>, g: Geometry, x: int, y0: int, n: nat): int
    requires n <= |kernel| && ValidGeometry(g, |s|)
    requires 0 <= x < g.width && 0 <= y0 && y0 + n <= g.height
  {
    if n == 0 then 0
    else ColDot(kernel, s, g, x, y0, n - 1) + kernel[n - 1] * Pixel(s, g, x, y0 + n - 1)
  }

  /** The row window of (x, y) lies inside the image. */
  predicate RowWindowInside(kernel: seq<Int32>, s: seq<Short>, g: Geometry, x: int, y: int) {
    ValidGeometry(g, |s|) && 0 <= y < g.height &&
    0 <= x - Radius(kernel) && x - Radius(kernel) + |kernel| <= g.width
  }

  /** The column window of (x, y) lies inside the image. */
  predicate ColWindowInside(kernel: seq<Int32>, s: seq<Short>, g: Geometry, x: int, y: int) {
    ValidGeometry(g, |s|) && 0 <= x < g.width &&
    0 <= y - Radius(kernel) && y - Radius(kernel) + |kernel| <= g.height
  }

  /** The 16-bit horizontal convolution at (x, y); 0 where the window leaves the image. */
  function HorizontalAt(kernel: seq<Int32>, s: seq<Short>, g: Geometry, x: int, y: int): Short {
    if RowWindowInside(kernel, s, g, x, y)
    then Wrap16(RowDot(kernel, s, g, x - Radius(kernel), y, |kernel|))
    else 0
  }

  /** The 16-bit vertical convolution at (x, y); 0 where the window leaves the image. */
  function VerticalAt(kernel: seq<Int32>, s: seq<Short>, g: Geometry, x: int, y: int): Short {
    if ColWindowInside(kernel, s, g, x, y)
    then Wrap16(ColDot(kernel, s, g, x, y - Radius(kernel), |kernel|))
    else 0
  }

  function HorizontalPixels(kernel: seq<Int32>, s: seq<Short>, g: Geometry): (int, int) -> Short {
    (x: int, y: int) => HorizontalAt(kernel, s, g, x, y)
  }

  function VerticalPixels(kernel: seq<Int32>, s: seq<Short>, g: Geometry): (int, int) -> Short {
    (x: int, y: int) => VerticalAt(kernel, s, g, x, y)
  }

  /** The rows a horizontal pass fills: all of them with the border included, else radius..h-radius. */
  function YBorder(kernel: seq<Int32>, includeBorder: bool): nat {
    if includeBorder then 0 else Radius(kernel)
  }

  /**
   * The destination after a horizontal pass: columns [r, w - r) of rows [b, h - b) of the
   * source's extent hold the convolution, b being 0 or r as the border flag says.
   */
  function HorizontalImage(kernel: seq<Int32>, s: seq<Short>, sg: Geometry, d0: seq<Short>,
                           dg: Geometry, includeBorder: bool): seq<Short>
  {
    var r, b := Radius(kernel), YBorder(kernel, includeBorder);
    Paint(d0, dg, r, sg.width - r, b, sg.height - b, HorizontalPixels(kernel, s, sg))
  }

  /**
   * The destination after a vertical pass: rows [r, h - r) and columns [b, w - b) of the
   * destination's extent hold the convolution.
   */
  function VerticalImage(kernel: seq<Int32>, s: seq<Short>, sg: Geometry, d0: seq<Short>,
                         dg: Geometry, includeBorder: bool): seq<Short>
  {
    var r, b := Radius(kernel), YBorder(kernel, includeBorder);
    Paint(d0, dg, b, dg.width - b, r, dg.height - r, VerticalPixels(kernel, s, sg))
  }

  /** What a pass needs of its two images: both valid, and the destination covers the source. */
  predicate HorizontalShapes(sLen: int, sg: Geometry, dLen: int, dg: Geometry) {
    ValidGeometry(sg, sLen) && ValidGeometry(dg, dLen) &&
    sg.width <= dg.width && sg.height <= dg.height
  }

  /** For a vertical pass the loops follow the destination, so the source must cover it. */
  predicate VerticalShapes(sLen: int, sg: Geometry, dLen: int, dg: Geometry) {
    ValidGeometry(sg, sLen) && ValidGeometry(dg, dLen) &&
    dg.width <= sg.width && dg.height <= sg.height
  }

  /** One more unrolled term of a Java `int` accumulation keeps it the wrapped exact row sum. */
  lemma RowDotNext(kernel: seq<Int32>, s: seq<Short>, g: Geometry, x0: int, y: int, n: nat,
                   total: Int32)
    requires n < |kernel| && ValidGeometry(g, |s|)
    requires 0 <= x0 && x0 + n + 1 <= g.width && 0 <= y < g.height
    requires total == Wrap32(RowDot(kernel, s, g, x0, y, n))
    ensures Add32(total, Mul32(Pixel(s, g, x0 + n, y), kernel[n]))
         == Wrap32(RowDot(kernel, s, g, x0, y, n + 1))
  {
    Add32OfWrapped(RowDot(kernel, s, g, x0, y, n), Pixel(s, g, x0 + n, y) * kernel[n]);
  }

  /**
   * Unrolled step n of a row sum reads v, coefficient n's pixel (x0 + n, y), n elements after the
   * window's first pixel: adding its product to the wrapped sum of the first n terms gives the
   * wrapped sum of n + 1 terms, and the next pixel of the window is in the buffer.
   */
  lemma RowDotAt(kernel: seq<Int32>, s: seq<Short>, g: Geometry, x0: int, y: int, n: nat,
                 total: Int32, index: int, v: Short, k: Int32)
    requires n < |kernel| && ValidGeometry(g, |s|)
    requires 0 <= x0 && x0 + n < g.width && 0 <= y < g.height
    requires total == Wrap32(RowDot(kernel, s, g, x0, y, n))
    requires index == Index(g, x0, y) + n && 0 <= index < |s| && v == s[index] && k == kernel[n]
    ensures Add32(total, Mul32(v, k)) == Wrap32(RowDot(kernel, s, g, x0, y, n + 1))
    ensures n == 0 ==> Mul32(v, k) == Wrap32(RowDot(kernel, s, g, x0, y, 1))
    ensures x0 + n + 1 < g.width ==> 0 <= index + 1 < |s|
  {
    RowDotNext(kernel, s, g, x0, y, n, total);
    if n == 0 {
      assert RowDot(kernel, s, g, x0, y, 1) == v * k;
    }
    if x0 + n + 1 < g.width {
      IndexInBounds(g, |s|, x0 + n + 1, y);
    }
  }

  /** One more unrolled term of a column accumulation. */
  lemma ColDotNext(kernel: seq<Int32>, s: seq<Short>, g: Geometry, x: int, y0: int, n: nat,
                   total: Int32)
    requires n < |kernel| && ValidGeometry(g, |s|)
    requires 0 <= x < g.width && 0 <= y0 && y0 + n + 1 <= g.height
    requires total == Wrap32(ColDot(kernel, s, g, x, y0, n))
    ensures Add32(total, Mul32(Pixel(s, g, x, y0 + n), kernel[n]))
         == Wrap32(ColDot(kernel, s, g, x, y0, n + 1))
  {
    Add32OfWrapped(ColDot(kernel, s, g, x, y0, n), Pixel(s, g, x, y0 + n) * kernel[n]);
  }

  /**
   * Unrolled step n of a column sum reads v, coefficient n's pixel (x, y0 + n), n strides after
   * the window's first pixel: adding its product to the wrapped sum of the first n terms gives
   * the wrapped sum of n + 1 terms, and the pixel below, if in the window, is in the buffer.
   */
  lemma ColDotAt(kernel: seq<Int32>, s: seq<Short>, g: Geometry, x: int, y0: int, n: nat,
                 total: Int32, index: int, v: Short, k: Int32)
    requires n < |kernel| && ValidGeometry(g, |s|)
    requires 0 <= x < g.width && 0 <= y0 && y0 + n < g.height
    requires total == Wrap32(ColDot(kernel, s, g, x, y0, n))
    requires index == Index(g, x, y0) + n * g.stride && 0 <= index < |s|
    requires v == s[index] && k == kernel[n]
    ensures Add32(total, Mul32(v, k)) == Wrap32(ColDot(kernel, s, g, x, y0, n + 1))
    ensures n == 0 ==> Mul32(v, k) == Wrap32(ColDot(kernel, s, g, x, y0, 1))
    ensures y0 + n + 1 < g.height ==> 0 <= index + g.stride < |s|
  {
    IndexRowsBelow(g, x, y0, n);
    ColDotNext(kernel, s, g, x, y0, n, total);
    if n == 0 {
      assert ColDot(kernel, s, g, x, y0, 1) == v * k;
    }
    if y0 + n + 1 < g.height {
      IndexRowsBelow(g, x, y0, n + 1);
      IndexInBounds(g, |s|, x, y0 + n + 1);
    }
  }

  /**
   * A horizontal pass writes, at each interior pixel (x, y), the `(short)` of the exact dot
   * product of the kernel with the source row window centred on x.
   */
  lemma HorizontalImageAt(kernel: seq<Int32>, s: seq<Short>, sg: Geometry, d0: seq<Short>,
                          dg: Geometry, includeBorder: bool, x: int, y: int)
    requires HorizontalShapes(|s|, sg, |d0|, dg)
    requires Radius(kernel) <= x < sg.width - Radius(kernel)
    requires YBorder(kernel, includeBorder) <= y < sg.height - YBorder(kernel, includeBorder)
    ensures 0 <= Index(dg, x, y) < |d0|
    ensures HorizontalImage(kernel, s, sg, d0, dg, includeBorder)[Index(dg, x, y)]
         == Wrap16(RowDot(kernel, s, sg, x - Radius(kernel), y, |kernel|))
  {
    var r, b := Radius(kernel), YBorder(kernel, includeBorder);
    IndexInBounds(dg, |d0|, x, y);
    assert |kernel| <= 2 * r + 1;
    assert RowWindowInside(kernel, s, sg, x, y);
    PaintAt(d0, dg, r, sg.width - r, b, sg.height - b, HorizontalPixels(kernel, s, sg), x, y);
  }

  /** A horizontal pass leaves every element outside its window as it was. */
  lemma HorizontalImageElsewhere(kernel: seq<Int32>, s: seq<Short>, sg: Geometry, d0: seq<Short>,
                                 dg: Geometry, includeBorder: bool, p: int)
    requires 0 <= p < |d0|
    requires !InWindow(dg, p, Radius(kernel), sg.width - Radius(kernel),
                       YBorder(kernel, includeBorder), sg.height - YBorder(kernel, includeBorder))
    ensures |HorizontalImage(kernel, s, sg, d0, dg, includeBorder)| == |d0|
    ensures HorizontalImage(kernel, s, sg, d0, dg, includeBorder)[p] == d0[p]
  {
    var r, b := Radius(kernel), YBorder(kernel, includeBorder);
    PaintOutside(d0, dg, r, sg.width - r, b, sg.height - b, HorizontalPixels(kernel, s, sg), p);
  }

  /**
   * A vertical pass writes, at each interior pixel (x, y) of the destination's extent, the
   * `(short)` of the exact dot product of the kernel with the source column window centred on y.
   */
  lemma VerticalImageAt(kernel: seq<Int32>, s: seq<Short>, sg: Geometry, d0: seq<Short>,
                        dg: Geometry, includeBorder: bool, x: int, y: int)
    requires VerticalShapes(|s|, sg, |d0|, dg)
    requires YBorder(kernel, includeBorder) <= x < dg.width - YBorder(kernel, includeBorder)
    requires Radius(kernel) <= y < dg.height - Radius(kernel)
    ensures 0 <= Index(dg, x, y) < |d0|
    ensures VerticalImage(kernel, s, sg, d0, dg, includeBorder)[Index(dg, x, y)]
         == Wrap16(ColDot(kernel, s, sg, x, y - Radius(kernel), |kernel|))
  {
    var r, b := Radius(kernel), YBorder(kernel, includeBorder);
    IndexInBounds(dg, |d0|, x, y);
    assert |kernel| <= 2 * r + 1;
    assert ColWindowInside(kernel, s, sg, x, y);
    PaintAt(d0, dg, b, dg.width - b, r, dg.height - r, VerticalPixels(kernel, s, sg), x, y);
  }

  /** A vertical pass leaves every element outside its window as it was. */
  lemma VerticalImageElsewhere(kernel: seq<Int32>, s: seq<Short>, sg: Geometry, d0: seq<Short>,
                               dg: Geometry, includeBorder: bool, p: int)
    requires 0 <= p < |d0|
    requires !InWindow(dg, p, YBorder(kernel, includeBorder), dg.width - YBorder(kernel, includeBorder),
                       Radius(kernel), dg.height - Radius(kernel))
    ensures |VerticalImage(kernel, s, sg, d0, dg, includeBorder)| == |d0|
    ensures VerticalImage(kernel, s, sg, d0, dg, includeBorder)[p] == d0[p]
  {
    var r, b := Radius(kernel), YBorder(kernel, includeBorder);
    PaintOutside(d0, dg, b, dg.width - b, r, dg.height - r, VerticalPixels(kernel, s, sg), p);
  }

  /** The destination part-way through a horizontal pass: rows before y done, row y before column x. */
  function HorizontalSoFar(kernel: seq<Int32>, s: seq<Short>, sg: Geometry, d0: seq<Short>,
                           dg: Geometry, includeBorder: bool, y: int, x: int): seq<Short>
  {
    var r, b := Radius(kernel), YBorder(kernel, includeBorder);
    PaintedSoFar(d0, dg, r, sg.width - r, b, y, x, HorizontalPixels(kernel, s, sg))
  }

  /** Storing the narrowed row sum at (x, y) advances a horizontal pass by one pixel. */
  lemma HorizontalStep(kernel: seq<Int32>, s: seq<Short>, sg: Geometry, d0: seq<Short>,
                       dg: Geometry, includeBorder: bool, y: int, x: int, total: Int32)
    requires HorizontalShapes(|s|, sg, |d0|, dg)
    requires Radius(kernel) <= x < sg.width - Radius(kernel)
    requires YBorder(kernel, includeBorder) <= y < sg.height - YBorder(kernel, includeBorder)
    requires total == Wrap32(RowDot(kernel, s, sg, x - Radius(kernel), y, |kernel|))
    ensures 0 <= Index(dg, x, y) < |d0|
    ensures HorizontalSoFar(kernel, s, sg, d0, dg, includeBorder, y, x)[Index(dg, x, y) := Wrap16(total)]
         == HorizontalSoFar(kernel, s, sg, d0, dg, includeBorder, y, x + 1)
  {
    var r, b := Radius(kernel), YBorder(kernel, includeBorder);
    IndexInBounds(dg, |d0|, x, y);
    Wrap16OfWrap32(RowDot(kernel, s, sg, x - r, y, |kernel|));
    PaintStep(d0, dg, r, sg.width - r, b, y, x, HorizontalPixels(kernel, s, sg));
  }

  /** A horizontal pass starts from the untouched destination. */
  lemma HorizontalStart(kernel: seq<Int32>, s: seq<Short>, sg: Geometry, d0: seq<Short>,
                        dg: Geometry, includeBorder: bool)
    ensures HorizontalSoFar(kernel, s, sg, d0, dg, includeBorder,
                            YBorder(kernel, includeBorder), Radius(kernel)) == d0
  {
    var r, b := Radius(kernel), YBorder(kernel, includeBorder);
    PaintStart(d0, dg, r, sg.width - r, b, HorizontalPixels(kernel, s, sg));
  }

  /** A horizontal pass that has run out of rows (or had none) has produced HorizontalImage. */
  lemma HorizontalDone(kernel: seq<Int32>, s: seq<Short>, sg: Geometry, d0: seq<Short>,
                       dg: Geometry, includeBorder: bool, y: int)
    requires var b := YBorder(kernel, includeBorder);
             b <= y && (y == sg.height - b || (sg.height - b <= b && y == b))
    ensures HorizontalSoFar(kernel, s, sg, d0, dg, includeBorder, y, Radius(kernel))
         == HorizontalImage(kernel, s, sg, d0, dg, includeBorder)
  {
    var r, b := Radius(kernel), YBorder(kernel, includeBorder);
    PaintDone(d0, dg, r, sg.width - r, b, sg.height - b, y, HorizontalPixels(kernel, s, sg));
  }

  /** Finishing a row of a horizontal pass moves it to the start of the next. */
  lemma HorizontalNextRow(kernel: seq<Int32>, s: seq<Short>, sg: Geometry, d0: seq<Short>,
                          dg: Geometry, includeBorder: bool, y: int, x: int)
    requires YBorder(kernel, includeBorder) <= y && sg.width - Radius(kernel) <= x
    ensures HorizontalSoFar(kernel, s, sg, d0, dg, includeBorder, y, x)
         == HorizontalSoFar(kernel, s, sg, d0, dg, includeBorder, y + 1, Radius(kernel))
  {
    var r, b := Radius(kernel), YBorder(kernel, includeBorder);
    PaintNextRow(d0, dg, r, sg.width - r, b, y, x, HorizontalPixels(kernel, s, sg));
  }

  /** The destination part-way through a vertical pass. */
  function VerticalSoFar(kernel: seq<Int32>, s: seq<Short>, sg: Geometry, d0: seq<Short>,
                         dg: Geometry, includeBorder: bool, y: int, x: int): seq<Short>
  {
    var r, b := Radius(kernel), YBorder(kernel, includeBorder);
    PaintedSoFar(d0, dg, b, dg.width - b, r, y, x, VerticalPixels(kernel, s, sg))
  }

  /** Storing the narrowed column sum at (x, y) advances a vertical pass by one pixel. */
  lemma VerticalStep(kernel: seq<Int32>, s: seq<Short>, sg: Geometry, d0: seq<Short>,
                     dg: Geometry, includeBorder: bool, y: int, x: int, total: Int32)
    requires VerticalShapes(|s|, sg, |d0|, dg)
    requires YBorder(kernel, includeBorder) <= x < dg.width - YBorder(kernel, includeBorder)
    requires Radius(kernel) <= y < dg.height - Radius(kernel)
    requires total == Wrap32(ColDot(kernel, s, sg, x, y - Radius(kernel), |kernel|))
    ensures 0 <= Index(dg, x, y) < |d0|
    ensures VerticalSoFar(kernel, s, sg, d0, dg, includeBorder, y, x)[Index(dg, x, y) := Wrap16(total)]
         == VerticalSoFar(kernel, s, sg, d0, dg, includeBorder, y, x + 1)
  {
    var r, b := Radius(kernel), YBorder(kernel, includeBorder);
    IndexInBounds(dg, |d0|, x, y);
    Wrap16OfWrap32(ColDot(kernel, s, sg, x, y - r, |kernel|));
    PaintStep(d0, dg, b, dg.width - b, r, y, x, VerticalPixels(kernel, s, sg));
  }

  /** A vertical pass starts from the untouched destination. */
  lemma VerticalStart(kernel: seq<Int32>, s: seq<Short>, sg: Geometry, d0: seq<Short>,
                      dg: Geometry, includeBorder: bool)
    ensures VerticalSoFar(kernel, s, sg, d0, dg, includeBorder,
                          Radius(kernel), YBorder(kernel, includeBorder)) == d0
  {
    var r, b := Radius(kernel), YBorder(kernel, includeBorder);
    PaintStart(d0, dg, b, dg.width - b, r, VerticalPixels(kernel, s, sg));
  }

  /** A vertical pass that has run out of rows (or had none) has produced VerticalImage. */
  lemma VerticalDone(kernel: seq<Int32>, s: seq<Short>, sg: Geometry, d0: seq<Short>,
                     dg: Geometry, includeBorder: bool, y: int)
    requires var r := Radius(kernel);
             r <= y && (y == dg.height - r || (dg.height - r <= r && y == r))
    ensures VerticalSoFar(kernel, s, sg, d0, dg, includeBorder, y, YBorder(kernel, includeBorder))
         == VerticalImage(kernel, s, sg, d0, dg, includeBorder)
  {
    var r, b := Radius(kernel), YBorder(kernel, includeBorder);
    PaintDone(d0, dg, b, dg.width - b, r, dg.height - r, y, VerticalPixels(kernel, s, sg));
  }

  /** Finishing a row of a vertical pass moves it to the start of the next. */
  lemma VerticalNextRow(kernel: seq<Int32>, s: seq<Short>, sg: Geometry, d0: seq<Short>,
                        dg: Geometry, includeBorder: bool, y: int, x: int)
    requires Radius(kernel) <= y && dg.width - YBorder(kernel, includeBorder) <= x
    ensures VerticalSoFar(kernel, s, sg, d0, dg, includeBorder, y, x)
         == VerticalSoFar(kernel, s, sg, d0, dg, includeBorder, y + 1, YBorder(kernel, includeBorder))
  {
    var r, b := Radius(kernel), YBorder(kernel, includeBorder);
    PaintNextRow(d0, dg, b, dg.width - b, r, y, x, VerticalPixels(kernel, s, sg));
  }
}
