/**
 * The layout of a strided image buffer and the row-major "paint" of a rectangular window,
 * the access pattern every kernel of this model shares.
 *
 * Pixel (x, y) of an image lives at data[start + y * stride + x]. The element array itself is
 * kept apart from this header (an `array` or a `seq`), as the kernels pass `image.data` around.
 */
module Images {

  /** The header of an image: width, height, row stride and the index of pixel (0, 0). */
  datatype Geometry = Geometry(width: nat, height: nat, stride: nat, start: nat)

  /** The header describes a buffer of `len` elements: rows do not overlap and the last one fits. */
  predicate ValidGeometry(g: Geometry, len: int) {
    g.width <= g.stride &&
    (g.height > 0 ==> g.start + (g.height - 1) * g.stride + g.width <= len)
  }

  /** The element index of pixel (x, y). */
  function Index(g: Geometry, x: int, y: int): int {
    g.start + y * g.stride + x
  }

  /** The pixel (x, y) of an image whose elements are s. */
  function Pixel<T>(s: seq<T>, g: Geometry, x: int, y: int): T
    requires ValidGeometry(g, |s|) && 0 <= x < g.width && 0 <= y < g.height
  {
    IndexInBounds(g, |s|, x, y);
    s[Index(g, x, y)]
  }

  /** The row of element index p. */
  function Row(g: Geometry, p: int): int
    requires g.stride > 0
  {
    (p - g.start) / g.stride
  }

  /** The column of element index p. */
  function Col(g: Geometry, p: int): int
    requires g.stride > 0
  {
    (p - g.start) % g.stride
  }

  lemma MulMonotone(a: int, b: int, c: int)
    requires 0 <= a <= b && 0 <= c
    ensures a * c <= b * c
  {
    assert b * c - a * c == (b - a) * c;
  }

  /** Euclidean division is determined by any quotient/remainder pair. */
  lemma DivModUnique(n: int, d: int, q: int, r: int)
    requires d > 0 && 0 <= r < d && n == q * d + r
    ensures n / d == q && n % d == r
  {
    var q', r' := n / d, n % d;
    assert (q' - q) * d == r - r';
    if q' > q {
      MulMonotone(1, q' - q, d);
    } else if q' < q {
      MulMonotone(1, q - q', d);
    }
  }

  /** Every pixel of a valid image is an element of its buffer. */
  lemma IndexInBounds(g: Geometry, len: int, x: int, y: int)
    requires ValidGeometry(g, len)
    requires 0 <= x < g.width && 0 <= y < g.height
    ensures 0 <= Index(g, x, y) < len
  {
    MulMonotone(y, g.height - 1, g.stride);
  }

  /** The pixel r rows above (x, y) is r strides back. */
  lemma IndexRowsAbove(g: Geometry, x: int, y: int, r: int)
    ensures Index(g, x, y - r) == Index(g, x, y) - r * g.stride
  {
    assert (y - r) * g.stride == y * g.stride - r * g.stride;
  }

  /** The pixel n rows below (x, y0) lies n strides after it. */
  lemma IndexRowsBelow(g: Geometry, x: int, y0: int, n: int)
    ensures Index(g, x, y0 + n) == Index(g, x, y0) + n * g.stride
  {
    assert (y0 + n) * g.stride == y0 * g.stride + n * g.stride;
  }

  /** Distinct columns below the stride give distinct indices that map back to their pixel. */
  lemma RowColOfIndex(g: Geometry, x: int, y: int)
    requires 0 <= x < g.stride && 0 <= y
    ensures Row(g, Index(g, x, y)) == y && Col(g, Index(g, x, y)) == x
  {
    DivModUnique(Index(g, x, y) - g.start, g.stride, y, x);
  }

  /** Every index at or after the start is the index of its row and column. */
  lemma IndexOfRowCol(g: Geometry, p: int)
    requires g.stride > 0 && g.start <= p
    ensures 0 <= Row(g, p) && 0 <= Col(g, p) < g.stride
    ensures Index(g, Col(g, p), Row(g, p)) == p
  {
    var n := p - g.start;
    assert n == Row(g, p) * g.stride + Col(g, p);
  }

  /** Element p is pixel (Col, Row) with x0 <= Col < x1 and y0 <= Row < y1. */
  predicate InWindow(g: Geometry, p: int, x0: int, x1: int, y0: int, y1: int) {
    g.stride > 0 && g.start <= p &&
    y0 <= Row(g, p) < y1 && x0 <= Col(g, p) < x1
  }

  /**
   * Element p has been reached by a row-major walk of the window's columns [x0, x1) that has
   * finished rows [y0, i) and, in row i, columns before x.
   */
  predicate Reached(g: Geometry, p: int, x0: int, x1: int, y0: int, i: int, x: int) {
    InWindow(g, p, x0, x1, y0, i) || (InWindow(g, p, x0, x1, i, i + 1) && Col(g, p) < x)
  }

  /** `d0` with every pixel of the window set to f(x, y); all other elements are kept. */
  function Paint<T>(d0: seq<T>, g: Geometry, x0: int, x1: int, y0: int, y1: int,
                    f: (int, int) -> T): seq<T>
  {
    seq(|d0|, p requires 0 <= p < |d0| =>
      if InWindow(g, p, x0, x1, y0, y1) then f(Col(g, p), Row(g, p)) else d0[p])
  }

  /** `d0` after the row-major walk of the window has painted what it has reached. */
  function PaintedSoFar<T>(d0: seq<T>, g: Geometry, x0: int, x1: int, y0: int, i: int, x: int,
                           f: (int, int) -> T): seq<T>
  {
    seq(|d0|, p requires 0 <= p < |d0| =>
      if Reached(g, p, x0, x1, y0, i, x) then f(Col(g, p), Row(g, p)) else d0[p])
  }

  /** Before the walk nothing is painted. */
  lemma PaintStart<T>(d0: seq<T>, g: Geometry, x0: int, x1: int, y0: int, f: (int, int) -> T)
    ensures PaintedSoFar(d0, g, x0, x1, y0, y0, x0, f) == d0
  {
    var a := PaintedSoFar(d0, g, x0, x1, y0, y0, x0, f);
    forall p | 0 <= p < |d0|
      ensures a[p] == d0[p]
    {
      assert !Reached(g, p, x0, x1, y0, y0, x0);
    }
  }

  /** Writing f(x, i) at pixel (x, i) advances the walk by one column. */
  lemma PaintStep<T>(d0: seq<T>, g: Geometry, x0: int, x1: int, y0: int, i: int, x: int,
                     f: (int, int) -> T)
    requires 0 <= x0 <= x < x1 <= g.stride && 0 <= y0 <= i
    requires Index(g, x, i) < |d0|
    ensures PaintedSoFar(d0, g, x0, x1, y0, i, x, f)[Index(g, x, i) := f(x, i)]
         == PaintedSoFar(d0, g, x0, x1, y0, i, x + 1, f)
  {
    var q := Index(g, x, i);
    RowColOfIndex(g, x, i);
    MulMonotone(0, i, g.stride);
    var a := PaintedSoFar(d0, g, x0, x1, y0, i, x, f)[q := f(x, i)];
    var b := PaintedSoFar(d0, g, x0, x1, y0, i, x + 1, f);
    forall p | 0 <= p < |d0|
      ensures a[p] == b[p]
    {
      if p == q {
        assert InWindow(g, p, x0, x1, i, i + 1);
        assert Reached(g, p, x0, x1, y0, i, x + 1);
        assert b[p] == f(x, i);
        assert a[p] == f(x, i);
      } else {
        assert a[p] == PaintedSoFar(d0, g, x0, x1, y0, i, x, f)[p];
        if g.start <= p {
          IndexOfRowCol(g, p);
          assert Reached(g, p, x0, x1, y0, i, x) == Reached(g, p, x0, x1, y0, i, x + 1);
        } else {
          assert !Reached(g, p, x0, x1, y0, i, x) && !Reached(g, p, x0, x1, y0, i, x + 1);
        }
      }
    }
  }

  /** Once a row's columns are all done, the walk moves to the start of the next row. */
  lemma PaintNextRow<T>(d0: seq<T>, g: Geometry, x0: int, x1: int, y0: int, i: int, x: int,
                        f: (int, int) -> T)
    requires y0 <= i && x1 <= x
    ensures PaintedSoFar(d0, g, x0, x1, y0, i, x, f) == PaintedSoFar(d0, g, x0, x1, y0, i + 1, x0, f)
  {
    var a := PaintedSoFar(d0, g, x0, x1, y0, i, x, f);
    var b := PaintedSoFar(d0, g, x0, x1, y0, i + 1, x0, f);
    forall p | 0 <= p < |d0|
      ensures a[p] == b[p]
    {
      assert Reached(g, p, x0, x1, y0, i, x) == Reached(g, p, x0, x1, y0, i + 1, x0);
    }
  }

  /** A walk that stopped at the window's last row (or never started) has painted the window. */
  lemma PaintDone<T>(d0: seq<T>, g: Geometry, x0: int, x1: int, y0: int, y1: int, i: int,
                     f: (int, int) -> T)
    requires y0 <= i && (i == y1 || (y1 <= y0 && i == y0))
    ensures PaintedSoFar(d0, g, x0, x1, y0, i, x0, f) == Paint(d0, g, x0, x1, y0, y1, f)
  {
    var a := PaintedSoFar(d0, g, x0, x1, y0, i, x0, f);
    var b := Paint(d0, g, x0, x1, y0, y1, f);
    forall p | 0 <= p < |d0|
      ensures a[p] == b[p]
    {
      assert Reached(g, p, x0, x1, y0, i, x0) == InWindow(g, p, x0, x1, y0, y1);
    }
  }

  /** The painted window holds f at each of its pixels. */
  lemma PaintAt<T>(d0: seq<T>, g: Geometry, x0: int, x1: int, y0: int, y1: int,
                   f: (int, int) -> T, x: int, y: int)
    requires 0 <= x0 <= x < x1 <= g.stride && 0 <= y0 <= y < y1
    requires Index(g, x, y) < |d0|
    ensures Paint(d0, g, x0, x1, y0, y1, f)[Index(g, x, y)] == f(x, y)
  {
    RowColOfIndex(g, x, y);
  }

  /** Outside the window every element is kept. */
  lemma PaintOutside<T>(d0: seq<T>, g: Geometry, x0: int, x1: int, y0: int, y1: int,
                        f: (int, int) -> T, p: int)
    requires 0 <= p < |d0| && !InWindow(g, p, x0, x1, y0, y1)
    ensures Paint(d0, g, x0, x1, y0, y1, f)[p] == d0[p]
  {
  }
}
