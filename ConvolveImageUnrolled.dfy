/**
 * The 16-bit separable convolution with the kernel unrolled for widths 3, 5, 7, 9 and 11:
 * each pass reads the coefficients into locals, walks the interior of the image and writes
 * the narrowed `int` dot product of the kernel with a row (horizontal) or column (vertical)
 * window. Every pass is proved to leave the destination equal to the generic convolution of
 * ConvolveSpec, so all widths agree with the reference kernel loop.
 *
 * Each accumulation step is Java `int` arithmetic (Mul32, Add32) and the store is the `(short)`
 * cast (Wrap16); the source image is only read.
 */
module ConvolveImageUnrolled {
  import opened Ints
  import opened Images
  import opened ConvolveSpec

  /** The widths that have an unrolled pass. */
  predicate Unrolled(width: int) {
    width == 3 || width == 5 || width == 7 || width == 9 || width == 11
  }

  /**
   * Dispatches on the kernel width: true, and the destination convolved, for an unrolled width;
   * false, and the destination untouched, for any other.
   */
  method Horizontal(kernel: seq<Int32>, image: array<Short>, ig: Geometry, dest: array<Short>,
                    dg: Geometry, includeBorder: bool) returns (ok: bool)
    requires Unrolled(|kernel|) ==> HorizontalShapes(image.Length, ig, dest.Length, dg) && image != dest
    modifies dest
    ensures ok <==> Unrolled(|kernel|)
    ensures ok ==> dest[..] == HorizontalImage(kernel, image[..], ig, old(dest[..]), dg, includeBorder)
    ensures !ok ==> dest[..] == old(dest[..])
    ensures image[..] == old(image[..])
  {
    ok := true;
    match |kernel|
    case 3 => Horizontal3(kernel, image, ig, dest, dg, includeBorder);
    case 5 => Horizontal5(kernel, image, ig, dest, dg, includeBorder);
    case 7 => Horizontal7(kernel, image, ig, dest, dg, includeBorder);
    case 9 => Horizontal9(kernel, image, ig, dest, dg, includeBorder);
    case 11 => Horizontal11(kernel, image, ig, dest, dg, includeBorder);
    case _ => ok := false;
  }

  /** The vertical counterpart of Horizontal. */
  method Vertical(kernel: seq<Int32>, image: array<Short>, ig: Geometry, dest: array<Short>,
                  dg: Geometry, includeBorder: bool) returns (ok: bool)
    requires Unrolled(|kernel|) ==> VerticalShapes(image.Length, ig, dest.Length, dg) && image != dest
    modifies dest
    ensures ok <==> Unrolled(|kernel|)
    ensures ok ==> dest[..] == VerticalImage(kernel, image[..], ig, old(dest[..]), dg, includeBorder)
    ensures !ok ==> dest[..] == old(dest[..])
    ensures image[..] == old(image[..])
  {
    ok := true;
    match |kernel|
    case 3 => Vertical3(kernel, image, ig, dest, dg, includeBorder);
    case 5 => Vertical5(kernel, image, ig, dest, dg, includeBorder);
    case 7 => Vertical7(kernel, image, ig, dest, dg, includeBorder);
    case 9 => Vertical9(kernel, image, ig, dest, dg, includeBorder);
    case 11 => Vertical11(kernel, image, ig, dest, dg, includeBorder);
    case _ => ok := false;
  }


  /**
   * The unrolled inner step of a width-3 horizontal pass: the `int` sum of the coefficients
   * times the row window whose first pixel (x0, y) is element `index`.
   */
  method RowTotal3(image: array<Short>, ig: Geometry, index: int,
                    k1: Int32, k2: Int32, k3: Int32,
                    ghost kernel: seq<Int32>, ghost x0: int, ghost y: int) returns (total: Int32)
    requires |kernel| == 3
    requires k1 == kernel[0] && k2 == kernel[1] && k3 == kernel[2]
    requires ValidGeometry(ig, image.Length) && 0 <= x0 && x0 + 3 <= ig.width && 0 <= y < ig.height
    requires index == Index(ig, x0, y)
    ensures total == Wrap32(RowDot(kernel, image[..], ig, x0, y, |kernel|))
  {
    ghost var s := image[..];
    var indexSrc := index;
    IndexInBounds(ig, image.Length, x0, y);
    RowDotAt(kernel, s, ig, x0, y, 0, 0, indexSrc, image[indexSrc], k1);
    total := Mul32(image[indexSrc], k1);
    indexSrc := indexSrc + 1;
    RowDotAt(kernel, s, ig, x0, y, 1, total, indexSrc, image[indexSrc], k2);
    total := Add32(total, Mul32(image[indexSrc], k2));
    indexSrc := indexSrc + 1;
    RowDotAt(kernel, s, ig, x0, y, 2, total, indexSrc, image[indexSrc], k3);
    total := Add32(total, Mul32(image[indexSrc], k3));
  }

  /** The horizontal pass for a kernel of width 3. */
  method Horizontal3(kernel: seq<Int32>, image: array<Short>, ig: Geometry, dest: array<Short>,
                    dg: Geometry, includeBorder: bool)
    requires |kernel| == 3
    requires HorizontalShapes(image.Length, ig, dest.Length, dg) && image != dest
    modifies dest
    ensures dest[..] == HorizontalImage(kernel, image[..], ig, old(dest[..]), dg, includeBorder)
  {
    var k1, k2, k3 := kernel[0], kernel[1], kernel[2];
    var radius := Radius(kernel);
    var yBorder := YBorder(kernel, includeBorder);
    var width := ig.width;
    var height := ig.height - yBorder;
    ghost var s, d0 := image[..], dest[..];
    HorizontalStart(kernel, s, ig, d0, dg, includeBorder);
    var i := yBorder;
    while i < height
      invariant yBorder <= i && (i <= height || i == yBorder)
      invariant dest[..] == HorizontalSoFar(kernel, s, ig, d0, dg, includeBorder, i, radius)
    {
      var indexDst := dg.start + i * dg.stride + radius;
      var j := ig.start + i * ig.stride;
      ghost var rowStart := j;
      var jEnd := j + width - radius;
      j := j + radius;
      while j < jEnd
        invariant radius <= j - rowStart && (j <= jEnd || j - rowStart == radius)
        invariant indexDst == Index(dg, j - rowStart, i)
        invariant dest[..] == HorizontalSoFar(kernel, s, ig, d0, dg, includeBorder, i, j - rowStart)
      {
        var total := RowTotal3(image, ig, j - radius, k1, k2, k3,
                                  kernel, j - rowStart - radius, i);
        HorizontalStep(kernel, s, ig, d0, dg, includeBorder, i, j - rowStart, total);
        dest[indexDst] := Wrap16(total);
        indexDst := indexDst + 1;
        j := j + 1;
      }
      HorizontalNextRow(kernel, s, ig, d0, dg, includeBorder, i, j - rowStart);
      i := i + 1;
    }
    HorizontalDone(kernel, s, ig, d0, dg, includeBorder, i);
  }

  /**
   * The unrolled inner step of a width-5 horizontal pass: the `int` sum of the coefficients
   * times the row window whose first pixel (x0, y) is element `index`.
   */
  method RowTotal5(image: array<Short>, ig: Geometry, index: int,
                    k1: Int32, k2: Int32, k3: Int32, k4: Int32, k5: Int32,
                    ghost kernel: seq<Int32>, ghost x0: int, ghost y: int) returns (total: Int32)
    requires |kernel| == 5
    requires k1 == kernel[0] && k2 == kernel[1] && k3 == kernel[2] && k4 == kernel[3]
    requires k5 == kernel[4]
    requires ValidGeometry(ig, image.Length) && 0 <= x0 && x0 + 5 <= ig.width && 0 <= y < ig.height
    requires index == Index(ig, x0, y)
    ensures total == Wrap32(RowDot(kernel, image[..], ig, x0, y, |kernel|))
  {
    ghost var s := image[..];
    var indexSrc := index;
    IndexInBounds(ig, image.Length, x0, y);
    RowDotAt(kernel, s, ig, x0, y, 0, 0, indexSrc, image[indexSrc], k1);
    total := Mul32(image[indexSrc], k1);
    indexSrc := indexSrc + 1;
    RowDotAt(kernel, s, ig, x0, y, 1, total, indexSrc, image[indexSrc], k2);
    total := Add32(total, Mul32(image[indexSrc], k2));
    indexSrc := indexSrc + 1;
    RowDotAt(kernel, s, ig, x0, y, 2, total, indexSrc, image[indexSrc], k3);
    total := Add32(total, Mul32(image[indexSrc], k3));
    indexSrc := indexSrc + 1;
    RowDotAt(kernel, s, ig, x0, y, 3, total, indexSrc, image[indexSrc], k4);
    total := Add32(total, Mul32(image[indexSrc], k4));
    indexSrc := indexSrc + 1;
    RowDotAt(kernel, s, ig, x0, y, 4, total, indexSrc, image[indexSrc], k5);
    total := Add32(total, Mul32(image[indexSrc], k5));
  }

  /** The horizontal pass for a kernel of width 5. */
  method Horizontal5(kernel: seq<Int32>, image: array<Short>, ig: Geometry, dest: array<Short>,
                    dg: Geometry, includeBorder: bool)
    requires |kernel| == 5
    requires HorizontalShapes(image.Length, ig, dest.Length, dg) && image != dest
    modifies dest
    ensures dest[..] == HorizontalImage(kernel, image[..], ig, old(dest[..]), dg, includeBorder)
  {
    var k1, k2, k3, k4, k5 := kernel[0], kernel[1], kernel[2], kernel[3], kernel[4];
    var radius := Radius(kernel);
    var yBorder := YBorder(kernel, includeBorder);
    var width := ig.width;
    var height := ig.height - yBorder;
    ghost var s, d0 := image[..], dest[..];
    HorizontalStart(kernel, s, ig, d0, dg, includeBorder);
    var i := yBorder;
    while i < height
      invariant yBorder <= i && (i <= height || i == yBorder)
      invariant dest[..] == HorizontalSoFar(kernel, s, ig, d0, dg, includeBorder, i, radius)
    {
      var indexDst := dg.start + i * dg.stride + radius;
      var j := ig.start + i * ig.stride;
      ghost var rowStart := j;
      var jEnd := j + width - radius;
      j := j + radius;
      while j < jEnd
        invariant radius <= j - rowStart && (j <= jEnd || j - rowStart == radius)
        invariant indexDst == Index(dg, j - rowStart, i)
        invariant dest[..] == HorizontalSoFar(kernel, s, ig, d0, dg, includeBorder, i, j - rowStart)
      {
        var total := RowTotal5(image, ig, j - radius, k1, k2, k3, k4, k5,
                                  kernel, j - rowStart - radius, i);
        HorizontalStep(kernel, s, ig, d0, dg, includeBorder, i, j - rowStart, total);
        dest[indexDst] := Wrap16(total);
        indexDst := indexDst + 1;
        j := j + 1;
      }
      HorizontalNextRow(kernel, s, ig, d0, dg, includeBorder, i, j - rowStart);
      i := i + 1;
    }
    HorizontalDone(kernel, s, ig, d0, dg, includeBorder, i);
  }

  /**
   * The unrolled inner step of a width-7 horizontal pass: the `int` sum of the coefficients
   * times the row window whose first pixel (x0, y) is element `index`.
   */
  method RowTotal7(image: array<Short>, ig: Geometry, index: int,
                    k1: Int32, k2: Int32, k3: Int32, k4: Int32, k5: Int32, k6: Int32,
                    k7: Int32,
                    ghost kernel: seq<Int32>, ghost x0: int, ghost y: int) returns (total: Int32)
    requires |kernel| == 7
    requires k1 == kernel[0] && k2 == kernel[1] && k3 == kernel[2] && k4 == kernel[3]
    requires k5 == kernel[4] && k6 == kernel[5] && k7 == kernel[6]
    requires ValidGeometry(ig, image.Length) && 0 <= x0 && x0 + 7 <= ig.width && 0 <= y < ig.height
    requires index == Index(ig, x0, y)
    ensures total == Wrap32(RowDot(kernel, image[..], ig, x0, y, |kernel|))
  {
    ghost var s := image[..];
    var indexSrc := index;
    IndexInBounds(ig, image.Length, x0, y);
    RowDotAt(kernel, s, ig, x0, y, 0, 0, indexSrc, image[indexSrc], k1);
    total := Mul32(image[indexSrc], k1);
    indexSrc := indexSrc + 1;
    RowDotAt(kernel, s, ig, x0, y, 1, total, indexSrc, image[indexSrc], k2);
    total := Add32(total, Mul32(image[indexSrc], k2));
    indexSrc := indexSrc + 1;
    RowDotAt(kernel, s, ig, x0, y, 2, total, indexSrc, image[indexSrc], k3);
    total := Add32(total, Mul32(image[indexSrc], k3));
    indexSrc := indexSrc + 1;
    RowDotAt(kernel, s, ig, x0, y, 3, total, indexSrc, image[indexSrc], k4);
    total := Add32(total, Mul32(image[indexSrc], k4));
    indexSrc := indexSrc + 1;
    RowDotAt(kernel, s, ig, x0, y, 4, total, indexSrc, image[indexSrc], k5);
    total := Add32(total, Mul32(image[indexSrc], k5));
    indexSrc := indexSrc + 1;
    RowDotAt(kernel, s, ig, x0, y, 5, total, indexSrc, image[indexSrc], k6);
    total := Add32(total, Mul32(image[indexSrc], k6));
    indexSrc := indexSrc + 1;
    RowDotAt(kernel, s, ig, x0, y, 6, total, indexSrc, image[indexSrc], k7);
    total := Add32(total, Mul32(image[indexSrc], k7));
  }

  /** The horizontal pass for a kernel of width 7. */
  method Horizontal7(kernel: seq<Int32>, image: array<Short>, ig: Geometry, dest: array<Short>,
                    dg: Geometry, includeBorder: bool)
    requires |kernel| == 7
    requires HorizontalShapes(image.Length, ig, dest.Length, dg) && image != dest
    modifies dest
    ensures dest[..] == HorizontalImage(kernel, image[..], ig, old(dest[..]), dg, includeBorder)
  {
    var k1, k2, k3, k4, k5, k6, k7 := kernel[0], kernel[1], kernel[2], kernel[3], kernel[4], kernel[5], kernel[6];
    var radius := Radius(kernel);
    var yBorder := YBorder(kernel, includeBorder);
    var width := ig.width;
    var height := ig.height - yBorder;
    ghost var s, d0 := image[..], dest[..];
    HorizontalStart(kernel, s, ig, d0, dg, includeBorder);
    var i := yBorder;
    while i < height
      invariant yBorder <= i && (i <= height || i == yBorder)
      invariant dest[..] == HorizontalSoFar(kernel, s, ig, d0, dg, includeBorder, i, radius)
    {
      var indexDst := dg.start + i * dg.stride + radius;
      var j := ig.start + i * ig.stride;
      ghost var rowStart := j;
      var jEnd := j + width - radius;
      j := j + radius;
      while j < jEnd
        invariant radius <= j - rowStart && (j <= jEnd || j - rowStart == radius)
        invariant indexDst == Index(dg, j - rowStart, i)
        invariant dest[..] == HorizontalSoFar(kernel, s, ig, d0, dg, includeBorder, i, j - rowStart)
      {
        var total := RowTotal7(image, ig, j - radius, k1, k2, k3, k4, k5, k6, k7,
                                  kernel, j - rowStart - radius, i);
        HorizontalStep(kernel, s, ig, d0, dg, includeBorder, i, j - rowStart, total);
        dest[indexDst] := Wrap16(total);
        indexDst := indexDst + 1;
        j := j + 1;
      }
      HorizontalNextRow(kernel, s, ig, d0, dg, includeBorder, i, j - rowStart);
      i := i + 1;
    }
    HorizontalDone(kernel, s, ig, d0, dg, includeBorder, i);
  }

  /**
   * The unrolled inner step of a width-9 horizontal pass: the `int` sum of the coefficients
   * times the row window whose first pixel (x0, y) is element `index`.
   */
  method RowTotal9(image: array<Short>, ig: Geometry, index: int,
                    k1: Int32, k2: Int32, k3: Int32, k4: Int32, k5: Int32, k6: Int32,
                    k7: Int32, k8: Int32, k9: Int32,
                    ghost kernel: seq<Int32>, ghost x0: int, ghost y: int) returns (total: Int32)
    requires |kernel| == 9
    requires k1 == kernel[0] && k2 == kernel[1] && k3 == kernel[2] && k4 == kernel[3]
    requires k5 == kernel[4] && k6 == kernel[5] && k7 == kernel[6] && k8 == kernel[7]
    requires k9 == kernel[8]
    requires ValidGeometry(ig, image.Length) && 0 <= x0 && x0 + 9 <= ig.width && 0 <= y < ig.height
    requires index == Index(ig, x0, y)
    ensures total == Wrap32(RowDot(kernel, image[..], ig, x0, y, |kernel|))
  {
    ghost var s := image[..];
    var indexSrc := index;
    IndexInBounds(ig, image.Length, x0, y);
    RowDotAt(kernel, s, ig, x0, y, 0, 0, indexSrc, image[indexSrc], k1);
    total := Mul32(image[indexSrc], k1);
    indexSrc := indexSrc + 1;
    RowDotAt(kernel, s, ig, x0, y, 1, total, indexSrc, image[indexSrc], k2);
    total := Add32(total, Mul32(image[indexSrc], k2));
    indexSrc := indexSrc + 1;
    RowDotAt(kernel, s, ig, x0, y, 2, total, indexSrc, image[indexSrc], k3);
    total := Add32(total, Mul32(image[indexSrc], k3));
    indexSrc := indexSrc + 1;
    RowDotAt(kernel, s, ig, x0, y, 3, total, indexSrc, image[indexSrc], k4);
    total := Add32(total, Mul32(image[indexSrc], k4));
    indexSrc := indexSrc + 1;
    RowDotAt(kernel, s, ig, x0, y, 4, total, indexSrc, image[indexSrc], k5);
    total := Add32(total, Mul32(image[indexSrc], k5));
    indexSrc := indexSrc + 1;
    RowDotAt(kernel, s, ig, x0, y, 5, total, indexSrc, image[indexSrc], k6);
    total := Add32(total, Mul32(image[indexSrc], k6));
    indexSrc := indexSrc + 1;
    RowDotAt(kernel, s, ig, x0, y, 6, total, indexSrc, image[indexSrc], k7);
    total := Add32(total, Mul32(image[indexSrc], k7));
    indexSrc := indexSrc + 1;
    RowDotAt(kernel, s, ig, x0, y, 7, total, indexSrc, image[indexSrc], k8);
    total := Add32(total, Mul32(image[indexSrc], k8));
    indexSrc := indexSrc + 1;
    RowDotAt(kernel, s, ig, x0, y, 8, total, indexSrc, image[indexSrc], k9);
    total := Add32(total, Mul32(image[indexSrc], k9));
  }

  /** The horizontal pass for a kernel of width 9. */
  method Horizontal9(kernel: seq<Int32>, image: array<Short>, ig: Geometry, dest: array<Short>,
                    dg: Geometry, includeBorder: bool)
    requires |kernel| == 9
    requires HorizontalShapes(image.Length, ig, dest.Length, dg) && image != dest
    modifies dest
    ensures dest[..] == HorizontalImage(kernel, image[..], ig, old(dest[..]), dg, includeBorder)
  {
    var k1, k2, k3, k4, k5, k6, k7, k8, k9 := kernel[0], kernel[1], kernel[2], kernel[3], kernel[4], kernel[5], kernel[6], kernel[7], kernel[8];
    var radius := Radius(kernel);
    var yBorder := YBorder(kernel, includeBorder);
    var width := ig.width;
    var height := ig.height - yBorder;
    ghost var s, d0 := image[..], dest[..];
    HorizontalStart(kernel, s, ig, d0, dg, includeBorder);
    var i := yBorder;
    while i < height
      invariant yBorder <= i && (i <= height || i == yBorder)
      invariant dest[..] == HorizontalSoFar(kernel, s, ig, d0, dg, includeBorder, i, radius)
    {
      var indexDst := dg.start + i * dg.stride + radius;
      var j := ig.start + i * ig.stride;
      ghost var rowStart := j;
      var jEnd := j + width - radius;
      j := j + radius;
      while j < jEnd
        invariant radius <= j - rowStart && (j <= jEnd || j - rowStart == radius)
        invariant indexDst == Index(dg, j - rowStart, i)
        invariant dest[..] == HorizontalSoFar(kernel, s, ig, d0, dg, includeBorder, i, j - rowStart)
      {
        var total := RowTotal9(image, ig, j - radius, k1, k2, k3, k4, k5, k6, k7, k8, k9,
                                  kernel, j - rowStart - radius, i);
        HorizontalStep(kernel, s, ig, d0, dg, includeBorder, i, j - rowStart, total);
        dest[indexDst] := Wrap16(total);
        indexDst := indexDst + 1;
        j := j + 1;
      }
      HorizontalNextRow(kernel, s, ig, d0, dg, includeBorder, i, j - rowStart);
      i := i + 1;
    }
    HorizontalDone(kernel, s, ig, d0, dg, includeBorder, i);
  }

  /**
   * The unrolled inner step of a width-11 horizontal pass: the `int` sum of the coefficients
   * times the row window whose first pixel (x0, y) is element `index`.
   */
  method RowTotal11(image: array<Short>, ig: Geometry, index: int,
                    k1: Int32, k2: Int32, k3: Int32, k4: Int32, k5: Int32, k6: Int32,
                    k7: Int32, k8: Int32, k9: Int32, k10: Int32, k11: Int32,
                    ghost kernel: seq<Int32>, ghost x0: int, ghost y: int) returns (total: Int32)
    requires |kernel| == 11
    requires k1 == kernel[0] && k2 == kernel[1] && k3 == kernel[2] && k4 == kernel[3]
    requires k5 == kernel[4] && k6 == kernel[5] && k7 == kernel[6] && k8 == kernel[7]
    requires k9 == kernel[8] && k10 == kernel[9] && k11 == kernel[10]
    requires ValidGeometry(ig, image.Length) && 0 <= x0 && x0 + 11 <= ig.width && 0 <= y < ig.height
    requires index == Index(ig, x0, y)
    ensures total == Wrap32(RowDot(kernel, image[..], ig, x0, y, |kernel|))
  {
    ghost var s := image[..];
    var indexSrc := index;
    IndexInBounds(ig, image.Length, x0, y);
    RowDotAt(kernel, s, ig, x0, y, 0, 0, indexSrc, image[indexSrc], k1);
    total := Mul32(image[indexSrc], k1);
    indexSrc := indexSrc + 1;
    RowDotAt(kernel, s, ig, x0, y, 1, total, indexSrc, image[indexSrc], k2);
    total := Add32(total, Mul32(image[indexSrc], k2));
    indexSrc := indexSrc + 1;
    RowDotAt(kernel, s, ig, x0, y, 2, total, indexSrc, image[indexSrc], k3);
    total := Add32(total, Mul32(image[indexSrc], k3));
    indexSrc := indexSrc + 1;
    RowDotAt(kernel, s, ig, x0, y, 3, total, indexSrc, image[indexSrc], k4);
    total := Add32(total, Mul32(image[indexSrc], k4));
    indexSrc := indexSrc + 1;
    RowDotAt(kernel, s, ig, x0, y, 4, total, indexSrc, image[indexSrc], k5);
    total := Add32(total, Mul32(image[indexSrc], k5));
    indexSrc := indexSrc + 1;
    RowDotAt(kernel, s, ig, x0, y, 5, total, indexSrc, image[indexSrc], k6);
    total := Add32(total, Mul32(image[indexSrc], k6));
    indexSrc := indexSrc + 1;
    RowDotAt(kernel, s, ig, x0, y, 6, total, indexSrc, image[indexSrc], k7);
    total := Add32(total, Mul32(image[indexSrc], k7));
    indexSrc := indexSrc + 1;
    RowDotAt(kernel, s, ig, x0, y, 7, total, indexSrc, image[indexSrc], k8);
    total := Add32(total, Mul32(image[indexSrc], k8));
    indexSrc := indexSrc + 1;
    RowDotAt(kernel, s, ig, x0, y, 8, total, indexSrc, image[indexSrc], k9);
    total := Add32(total, Mul32(image[indexSrc], k9));
    indexSrc := indexSrc + 1;
    RowDotAt(kernel, s, ig, x0, y, 9, total, indexSrc, image[indexSrc], k10);
    total := Add32(total, Mul32(image[indexSrc], k10));
    indexSrc := indexSrc + 1;
    RowDotAt(kernel, s, ig, x0, y, 10, total, indexSrc, image[indexSrc], k11);
    total := Add32(total, Mul32(image[indexSrc], k11));
  }

  /** The horizontal pass for a kernel of width 11. */
  method Horizontal11(kernel: seq<Int32>, image: array<Short>, ig: Geometry, dest: array<Short>,
                    dg: Geometry, includeBorder: bool)
    requires |kernel| == 11
    requires HorizontalShapes(image.Length, ig, dest.Length, dg) && image != dest
    modifies dest
    ensures dest[..] == HorizontalImage(kernel, image[..], ig, old(dest[..]), dg, includeBorder)
  {
    var k1, k2, k3, k4, k5, k6, k7, k8, k9, k10, k11 := kernel[0], kernel[1], kernel[2], kernel[3], kernel[4], kernel[5], kernel[6], kernel[7], kernel[8], kernel[9], kernel[10];
    var radius := Radius(kernel);
    var yBorder := YBorder(kernel, includeBorder);
    var width := ig.width;
    var height := ig.height - yBorder;
    ghost var s, d0 := image[..], dest[..];
    HorizontalStart(kernel, s, ig, d0, dg, includeBorder);
    var i := yBorder;
    while i < height
      invariant yBorder <= i && (i <= height || i == yBorder)
      invariant dest[..] == HorizontalSoFar(kernel, s, ig, d0, dg, includeBorder, i, radius)
    {
      var indexDst := dg.start + i * dg.stride + radius;
      var j := ig.start + i * ig.stride;
      ghost var rowStart := j;
      var jEnd := j + width - radius;
      j := j + radius;
      while j < jEnd
        invariant radius <= j - rowStart && (j <= jEnd || j - rowStart == radius)
        invariant indexDst == Index(dg, j - rowStart, i)
        invariant dest[..] == HorizontalSoFar(kernel, s, ig, d0, dg, includeBorder, i, j - rowStart)
      {
        var total := RowTotal11(image, ig, j - radius, k1, k2, k3, k4, k5, k6, k7, k8, k9, k10, k11,
                                  kernel, j - rowStart - radius, i);
        HorizontalStep(kernel, s, ig, d0, dg, includeBorder, i, j - rowStart, total);
        dest[indexDst] := Wrap16(total);
        indexDst := indexDst + 1;
        j := j + 1;
      }
      HorizontalNextRow(kernel, s, ig, d0, dg, includeBorder, i, j - rowStart);
      i := i + 1;
    }
    HorizontalDone(kernel, s, ig, d0, dg, includeBorder, i);
  }

  /**
   * The unrolled inner step of a width-3 vertical pass: the `int` sum of the coefficients
   * times the column window whose first pixel (x, y0) is element `index`.
   */
  method ColTotal3(image: array<Short>, ig: Geometry, index: int,
                    k1: Int32, k2: Int32, k3: Int32,
                    ghost kernel: seq<Int32>, ghost x: int, ghost y0: int) returns (total: Int32)
    requires |kernel| == 3
    requires k1 == kernel[0] && k2 == kernel[1] && k3 == kernel[2]
    requires ValidGeometry(ig, image.Length) && 0 <= x < ig.width && 0 <= y0 && y0 + 3 <= ig.height
    requires index == Index(ig, x, y0)
    ensures total == Wrap32(ColDot(kernel, image[..], ig, x, y0, |kernel|))
  {
    ghost var s := image[..];
    var indexSrc := index;
    IndexInBounds(ig, image.Length, x, y0);
    ColDotAt(kernel, s, ig, x, y0, 0, 0, indexSrc, image[indexSrc], k1);
    total := Mul32(image[indexSrc], k1);
    indexSrc := indexSrc + ig.stride;
    ColDotAt(kernel, s, ig, x, y0, 1, total, indexSrc, image[indexSrc], k2);
    total := Add32(total, Mul32(image[indexSrc], k2));
    indexSrc := indexSrc + ig.stride;
    ColDotAt(kernel, s, ig, x, y0, 2, total, indexSrc, image[indexSrc], k3);
    total := Add32(total, Mul32(image[indexSrc], k3));
  }

  /** The vertical pass for a kernel of width 3. */
  method Vertical3(kernel: seq<Int32>, image: array<Short>, ig: Geometry, dest: array<Short>,
                  dg: Geometry, includeBorder: bool)
    requires |kernel| == 3
    requires VerticalShapes(image.Length, ig, dest.Length, dg) && image != dest
    modifies dest
    ensures dest[..] == VerticalImage(kernel, image[..], ig, old(dest[..]), dg, includeBorder)
  {
    var k1, k2, k3 := kernel[0], kernel[1], kernel[2];
    var radius := Radius(kernel);
    var imgWidth := dg.width;
    var imgHeight := dg.height;
    var yEnd := imgHeight - radius;
    var xBorder := YBorder(kernel, includeBorder);
    ghost var s, d0 := image[..], dest[..];
    VerticalStart(kernel, s, ig, d0, dg, includeBorder);
    var y := radius;
    while y < yEnd
      invariant radius <= y && (y <= yEnd || y == radius)
      invariant dest[..] == VerticalSoFar(kernel, s, ig, d0, dg, includeBorder, y, xBorder)
    {
      var indexDst := dg.start + y * dg.stride + xBorder;
      var i := ig.start + y * ig.stride;
      ghost var rowStart := i;
      var iEnd := i + imgWidth - xBorder;
      i := i + xBorder;
      while i < iEnd
        invariant xBorder <= i - rowStart && (i <= iEnd || i - rowStart == xBorder)
        invariant indexDst == Index(dg, i - rowStart, y)
        invariant dest[..] == VerticalSoFar(kernel, s, ig, d0, dg, includeBorder, y, i - rowStart)
      {
        IndexRowsAbove(ig, i - rowStart, y, radius);
        var total := ColTotal3(image, ig, i - radius * ig.stride, k1, k2, k3,
                                  kernel, i - rowStart, y - radius);
        VerticalStep(kernel, s, ig, d0, dg, includeBorder, y, i - rowStart, total);
        dest[indexDst] := Wrap16(total);
        indexDst := indexDst + 1;
        i := i + 1;
      }
      VerticalNextRow(kernel, s, ig, d0, dg, includeBorder, y, i - rowStart);
      y := y + 1;
    }
    VerticalDone(kernel, s, ig, d0, dg, includeBorder, y);
  }

  /**
   * The unrolled inner step of a width-5 vertical pass: the `int` sum of the coefficients
   * times the column window whose first pixel (x, y0) is element `index`.
   */
  method ColTotal5(image: array<Short>, ig: Geometry, index: int,
                    k1: Int32, k2: Int32, k3: Int32, k4: Int32, k5: Int32,
                    ghost kernel: seq<Int32>, ghost x: int, ghost y0: int) returns (total: Int32)
    requires |kernel| == 5
    requires k1 == kernel[0] && k2 == kernel[1] && k3 == kernel[2] && k4 == kernel[3]
    requires k5 == kernel[4]
    requires ValidGeometry(ig, image.Length) && 0 <= x < ig.width && 0 <= y0 && y0 + 5 <= ig.height
    requires index == Index(ig, x, y0)
    ensures total == Wrap32(ColDot(kernel, image[..], ig, x, y0, |kernel|))
  {
    ghost var s := image[..];
    var indexSrc := index;
    IndexInBounds(ig, image.Length, x, y0);
    ColDotAt(kernel, s, ig, x, y0, 0, 0, indexSrc, image[indexSrc], k1);
    total := Mul32(image[indexSrc], k1);
    indexSrc := indexSrc + ig.stride;
    ColDotAt(kernel, s, ig, x, y0, 1, total, indexSrc, image[indexSrc], k2);
    total := Add32(total, Mul32(image[indexSrc], k2));
    indexSrc := indexSrc + ig.stride;
    ColDotAt(kernel, s, ig, x, y0, 2, total, indexSrc, image[indexSrc], k3);
    total := Add32(total, Mul32(image[indexSrc], k3));
    indexSrc := indexSrc + ig.stride;
    ColDotAt(kernel, s, ig, x, y0, 3, total, indexSrc, image[indexSrc], k4);
    total := Add32(total, Mul32(image[indexSrc], k4));
    indexSrc := indexSrc + ig.stride;
    ColDotAt(kernel, s, ig, x, y0, 4, total, indexSrc, image[indexSrc], k5);
    total := Add32(total, Mul32(image[indexSrc], k5));
  }

  /** The vertical pass for a kernel of width 5. */
  method Vertical5(kernel: seq<Int32>, image: array<Short>, ig: Geometry, dest: array<Short>,
                  dg: Geometry, includeBorder: bool)
    requires |kernel| == 5
    requires VerticalShapes(image.Length, ig, dest.Length, dg) && image != dest
    modifies dest
    ensures dest[..] == VerticalImage(kernel, image[..], ig, old(dest[..]), dg, includeBorder)
  {
    var k1, k2, k3, k4, k5 := kernel[0], kernel[1], kernel[2], kernel[3], kernel[4];
    var radius := Radius(kernel);
    var imgWidth := dg.width;
    var imgHeight := dg.height;
    var yEnd := imgHeight - radius;
    var xBorder := YBorder(kernel, includeBorder);
    ghost var s, d0 := image[..], dest[..];
    VerticalStart(kernel, s, ig, d0, dg, includeBorder);
    var y := radius;
    while y < yEnd
      invariant radius <= y && (y <= yEnd || y == radius)
      invariant dest[..] == VerticalSoFar(kernel, s, ig, d0, dg, includeBorder, y, xBorder)
    {
      var indexDst := dg.start + y * dg.stride + xBorder;
      var i := ig.start + y * ig.stride;
      ghost var rowStart := i;
      var iEnd := i + imgWidth - xBorder;
      i := i + xBorder;
      while i < iEnd
        invariant xBorder <= i - rowStart && (i <= iEnd || i - rowStart == xBorder)
        invariant indexDst == Index(dg, i - rowStart, y)
        invariant dest[..] == VerticalSoFar(kernel, s, ig, d0, dg, includeBorder, y, i - rowStart)
      {
        IndexRowsAbove(ig, i - rowStart, y, radius);
        var total := ColTotal5(image, ig, i - radius * ig.stride, k1, k2, k3, k4, k5,
                                  kernel, i - rowStart, y - radius);
        VerticalStep(kernel, s, ig, d0, dg, includeBorder, y, i - rowStart, total);
        dest[indexDst] := Wrap16(total);
        indexDst := indexDst + 1;
        i := i + 1;
      }
      VerticalNextRow(kernel, s, ig, d0, dg, includeBorder, y, i - rowStart);
      y := y + 1;
    }
    VerticalDone(kernel, s, ig, d0, dg, includeBorder, y);
  }

  /**
   * The unrolled inner step of a width-7 vertical pass: the `int` sum of the coefficients
   * times the column window whose first pixel (x, y0) is element `index`.
   */
  method ColTotal7(image: array<Short>, ig: Geometry, index: int,
                    k1: Int32, k2: Int32, k3: Int32, k4: Int32, k5: Int32, k6: Int32,
                    k7: Int32,
                    ghost kernel: seq<Int32>, ghost x: int, ghost y0: int) returns (total: Int32)
    requires |kernel| == 7
    requires k1 == kernel[0] && k2 == kernel[1] && k3 == kernel[2] && k4 == kernel[3]
    requires k5 == kernel[4] && k6 == kernel[5] && k7 == kernel[6]
    requires ValidGeometry(ig, image.Length) && 0 <= x < ig.width && 0 <= y0 && y0 + 7 <= ig.height
    requires index == Index(ig, x, y0)
    ensures total == Wrap32(ColDot(kernel, image[..], ig, x, y0, |kernel|))
  {
    ghost var s := image[..];
    var indexSrc := index;
    IndexInBounds(ig, image.Length, x, y0);
    ColDotAt(kernel, s, ig, x, y0, 0, 0, indexSrc, image[indexSrc], k1);
    total := Mul32(image[indexSrc], k1);
    indexSrc := indexSrc + ig.stride;
    ColDotAt(kernel, s, ig, x, y0, 1, total, indexSrc, image[indexSrc], k2);
    total := Add32(total, Mul32(image[indexSrc], k2));
    indexSrc := indexSrc + ig.stride;
    ColDotAt(kernel, s, ig, x, y0, 2, total, indexSrc, image[indexSrc], k3);
    total := Add32(total, Mul32(image[indexSrc], k3));
    indexSrc := indexSrc + ig.stride;
    ColDotAt(kernel, s, ig, x, y0, 3, total, indexSrc, image[indexSrc], k4);
    total := Add32(total, Mul32(image[indexSrc], k4));
    indexSrc := indexSrc + ig.stride;
    ColDotAt(kernel, s, ig, x, y0, 4, total, indexSrc, image[indexSrc], k5);
    total := Add32(total, Mul32(image[indexSrc], k5));
    indexSrc := indexSrc + ig.stride;
    ColDotAt(kernel, s, ig, x, y0, 5, total, indexSrc, image[indexSrc], k6);
    total := Add32(total, Mul32(image[indexSrc], k6));
    indexSrc := indexSrc + ig.stride;
    ColDotAt(kernel, s, ig, x, y0, 6, total, indexSrc, image[indexSrc], k7);
    total := Add32(total, Mul32(image[indexSrc], k7));
  }

  /** The vertical pass for a kernel of width 7. */
  method Vertical7(kernel: seq<Int32>, image: array<Short>, ig: Geometry, dest: array<Short>,
                  dg: Geometry, includeBorder: bool)
    requires |kernel| == 7
    requires VerticalShapes(image.Length, ig, dest.Length, dg) && image != dest
    modifies dest
    ensures dest[..] == VerticalImage(kernel, image[..], ig, old(dest[..]), dg, includeBorder)
  {
    var k1, k2, k3, k4, k5, k6, k7 := kernel[0], kernel[1], kernel[2], kernel[3], kernel[4], kernel[5], kernel[6];
    var radius := Radius(kernel);
    var imgWidth := dg.width;
    var imgHeight := dg.height;
    var yEnd := imgHeight - radius;
    var xBorder := YBorder(kernel, includeBorder);
    ghost var s, d0 := image[..], dest[..];
    VerticalStart(kernel, s, ig, d0, dg, includeBorder);
    var y := radius;
    while y < yEnd
      invariant radius <= y && (y <= yEnd || y == radius)
      invariant dest[..] == VerticalSoFar(kernel, s, ig, d0, dg, includeBorder, y, xBorder)
    {
      var indexDst := dg.start + y * dg.stride + xBorder;
      var i := ig.start + y * ig.stride;
      ghost var rowStart := i;
      var iEnd := i + imgWidth - xBorder;
      i := i + xBorder;
      while i < iEnd
        invariant xBorder <= i - rowStart && (i <= iEnd || i - rowStart == xBorder)
        invariant indexDst == Index(dg, i - rowStart, y)
        invariant dest[..] == VerticalSoFar(kernel, s, ig, d0, dg, includeBorder, y, i - rowStart)
      {
        IndexRowsAbove(ig, i - rowStart, y, radius);
        var total := ColTotal7(image, ig, i - radius * ig.stride, k1, k2, k3, k4, k5, k6, k7,
                                  kernel, i - rowStart, y - radius);
        VerticalStep(kernel, s, ig, d0, dg, includeBorder, y, i - rowStart, total);
        dest[indexDst] := Wrap16(total);
        indexDst := indexDst + 1;
        i := i + 1;
      }
      VerticalNextRow(kernel, s, ig, d0, dg, includeBorder, y, i - rowStart);
      y := y + 1;
    }
    VerticalDone(kernel, s, ig, d0, dg, includeBorder, y);
  }

  /**
   * The unrolled inner step of a width-9 vertical pass: the `int` sum of the coefficients
   * times the column window whose first pixel (x, y0) is element `index`.
   */
  method ColTotal9(image: array<Short>, ig: Geometry, index: int,
                    k1: Int32, k2: Int32, k3: Int32, k4: Int32, k5: Int32, k6: Int32,
                    k7: Int32, k8: Int32, k9: Int32,
                    ghost kernel: seq<Int32>, ghost x: int, ghost y0: int) returns (total: Int32)
    requires |kernel| == 9
    requires k1 == kernel[0] && k2 == kernel[1] && k3 == kernel[2] && k4 == kernel[3]
    requires k5 == kernel[4] && k6 == kernel[5] && k7 == kernel[6] && k8 == kernel[7]
    requires k9 == kernel[8]
    requires ValidGeometry(ig, image.Length) && 0 <= x < ig.width && 0 <= y0 && y0 + 9 <= ig.height
    requires index == Index(ig, x, y0)
    ensures total == Wrap32(ColDot(kernel, image[..], ig, x, y0, |kernel|))
  {
    ghost var s := image[..];
    var indexSrc := index;
    IndexInBounds(ig, image.Length, x, y0);
    ColDotAt(kernel, s, ig, x, y0, 0, 0, indexSrc, image[indexSrc], k1);
    total := Mul32(image[indexSrc], k1);
    indexSrc := indexSrc + ig.stride;
    ColDotAt(kernel, s, ig, x, y0, 1, total, indexSrc, image[indexSrc], k2);
    total := Add32(total, Mul32(image[indexSrc], k2));
    indexSrc := indexSrc + ig.stride;
    ColDotAt(kernel, s, ig, x, y0, 2, total, indexSrc, image[indexSrc], k3);
    total := Add32(total, Mul32(image[indexSrc], k3));
    indexSrc := indexSrc + ig.stride;
    ColDotAt(kernel, s, ig, x, y0, 3, total, indexSrc, image[indexSrc], k4);
    total := Add32(total, Mul32(image[indexSrc], k4));
    indexSrc := indexSrc + ig.stride;
    ColDotAt(kernel, s, ig, x, y0, 4, total, indexSrc, image[indexSrc], k5);
    total := Add32(total, Mul32(image[indexSrc], k5));
    indexSrc := indexSrc + ig.stride;
    ColDotAt(kernel, s, ig, x, y0, 5, total, indexSrc, image[indexSrc], k6);
    total := Add32(total, Mul32(image[indexSrc], k6));
    indexSrc := indexSrc + ig.stride;
    ColDotAt(kernel, s, ig, x, y0, 6, total, indexSrc, image[indexSrc], k7);
    total := Add32(total, Mul32(image[indexSrc], k7));
    indexSrc := indexSrc + ig.stride;
    ColDotAt(kernel, s, ig, x, y0, 7, total, indexSrc, image[indexSrc], k8);
    total := Add32(total, Mul32(image[indexSrc], k8));
    indexSrc := indexSrc + ig.stride;
    ColDotAt(kernel, s, ig, x, y0, 8, total, indexSrc, image[indexSrc], k9);
    total := Add32(total, Mul32(image[indexSrc], k9));
  }

  /** The vertical pass for a kernel of width 9. */
  method Vertical9(kernel: seq<Int32>, image: array<Short>, ig: Geometry, dest: array<Short>,
                  dg: Geometry, includeBorder: bool)
    requires |kernel| == 9
    requires VerticalShapes(image.Length, ig, dest.Length, dg) && image != dest
    modifies dest
    ensures dest[..] == VerticalImage(kernel, image[..], ig, old(dest[..]), dg, includeBorder)
  {
    var k1, k2, k3, k4, k5, k6, k7, k8, k9 := kernel[0], kernel[1], kernel[2], kernel[3], kernel[4], kernel[5], kernel[6], kernel[7], kernel[8];
    var radius := Radius(kernel);
    var imgWidth := dg.width;
    var imgHeight := dg.height;
    var yEnd := imgHeight - radius;
    var xBorder := YBorder(kernel, includeBorder);
    ghost var s, d0 := image[..], dest[..];
    VerticalStart(kernel, s, ig, d0, dg, includeBorder);
    var y := radius;
    while y < yEnd
      invariant radius <= y && (y <= yEnd || y == radius)
      invariant dest[..] == VerticalSoFar(kernel, s, ig, d0, dg, includeBorder, y, xBorder)
    {
      var indexDst := dg.start + y * dg.stride + xBorder;
      var i := ig.start + y * ig.stride;
      ghost var rowStart := i;
      var iEnd := i + imgWidth - xBorder;
      i := i + xBorder;
      while i < iEnd
        invariant xBorder <= i - rowStart && (i <= iEnd || i - rowStart == xBorder)
        invariant indexDst == Index(dg, i - rowStart, y)
        invariant dest[..] == VerticalSoFar(kernel, s, ig, d0, dg, includeBorder, y, i - rowStart)
      {
        IndexRowsAbove(ig, i - rowStart, y, radius);
        var total := ColTotal9(image, ig, i - radius * ig.stride, k1, k2, k3, k4, k5, k6, k7, k8, k9,
                                  kernel, i - rowStart, y - radius);
        VerticalStep(kernel, s, ig, d0, dg, includeBorder, y, i - rowStart, total);
        dest[indexDst] := Wrap16(total);
        indexDst := indexDst + 1;
        i := i + 1;
      }
      VerticalNextRow(kernel, s, ig, d0, dg, includeBorder, y, i - rowStart);
      y := y + 1;
    }
    VerticalDone(kernel, s, ig, d0, dg, includeBorder, y);
  }

  /**
   * The unrolled inner step of a width-11 vertical pass: the `int` sum of the coefficients
   * times the column window whose first pixel (x, y0) is element `index`.
   */
  method ColTotal11(image: array<Short>, ig: Geometry, index: int,
                    k1: Int32, k2: Int32, k3: Int32, k4: Int32, k5: Int32, k6: Int32,
                    k7: Int32, k8: Int32, k9: Int32, k10: Int32, k11: Int32,
                    ghost kernel: seq<Int32>, ghost x: int, ghost y0: int) returns (total: Int32)
    requires |kernel| == 11
    requires k1 == kernel[0] && k2 == kernel[1] && k3 == kernel[2] && k4 == kernel[3]
    requires k5 == kernel[4] && k6 == kernel[5] && k7 == kernel[6] && k8 == kernel[7]
    requires k9 == kernel[8] && k10 == kernel[9] && k11 == kernel[10]
    requires ValidGeometry(ig, image.Length) && 0 <= x < ig.width && 0 <= y0 && y0 + 11 <= ig.height
    requires index == Index(ig, x, y0)
    ensures total == Wrap32(ColDot(kernel, image[..], ig, x, y0, |kernel|))
  {
    ghost var s := image[..];
    var indexSrc := index;
    IndexInBounds(ig, image.Length, x, y0);
    ColDotAt(kernel, s, ig, x, y0, 0, 0, indexSrc, image[indexSrc], k1);
    total := Mul32(image[indexSrc], k1);
    indexSrc := indexSrc + ig.stride;
    ColDotAt(kernel, s, ig, x, y0, 1, total, indexSrc, image[indexSrc], k2);
    total := Add32(total, Mul32(image[indexSrc], k2));
    indexSrc := indexSrc + ig.stride;
    ColDotAt(kernel, s, ig, x, y0, 2, total, indexSrc, image[indexSrc], k3);
    total := Add32(total, Mul32(image[indexSrc], k3));
    indexSrc := indexSrc + ig.stride;
    ColDotAt(kernel, s, ig, x, y0, 3, total, indexSrc, image[indexSrc], k4);
    total := Add32(total, Mul32(image[indexSrc], k4));
    indexSrc := indexSrc + ig.stride;
    ColDotAt(kernel, s, ig, x, y0, 4, total, indexSrc, image[indexSrc], k5);
    total := Add32(total, Mul32(image[indexSrc], k5));
    indexSrc := indexSrc + ig.stride;
    ColDotAt(kernel, s, ig, x, y0, 5, total, indexSrc, image[indexSrc], k6);
    total := Add32(total, Mul32(image[indexSrc], k6));
    indexSrc := indexSrc + ig.stride;
    ColDotAt(kernel, s, ig, x, y0, 6, total, indexSrc, image[indexSrc], k7);
    total := Add32(total, Mul32(image[indexSrc], k7));
    indexSrc := indexSrc + ig.stride;
    ColDotAt(kernel, s, ig, x, y0, 7, total, indexSrc, image[indexSrc], k8);
    total := Add32(total, Mul32(image[indexSrc], k8));
    indexSrc := indexSrc + ig.stride;
    ColDotAt(kernel, s, ig, x, y0, 8, total, indexSrc, image[indexSrc], k9);
    total := Add32(total, Mul32(image[indexSrc], k9));
    indexSrc := indexSrc + ig.stride;
    ColDotAt(kernel, s, ig, x, y0, 9, total, indexSrc, image[indexSrc], k10);
    total := Add32(total, Mul32(image[indexSrc], k10));
    indexSrc := indexSrc + ig.stride;
    ColDotAt(kernel, s, ig, x, y0, 10, total, indexSrc, image[indexSrc], k11);
    total := Add32(total, Mul32(image[indexSrc], k11));
  }

  /** The vertical pass for a kernel of width 11. */
  method Vertical11(kernel: seq<Int32>, image: array<Short>, ig: Geometry, dest: array<Short>,
                  dg: Geometry, includeBorder: bool)
    requires |kernel| == 11
    requires VerticalShapes(image.Length, ig, dest.Length, dg) && image != dest
    modifies dest
    ensures dest[..] == VerticalImage(kernel, image[..], ig, old(dest[..]), dg, includeBorder)
  {
    var k1, k2, k3, k4, k5, k6, k7, k8, k9, k10, k11 := kernel[0], kernel[1], kernel[2], kernel[3], kernel[4], kernel[5], kernel[6], kernel[7], kernel[8], kernel[9], kernel[10];
    var radius := Radius(kernel);
    var imgWidth := dg.width;
    var imgHeight := dg.height;
    var yEnd := imgHeight - radius;
    var xBorder := YBorder(kernel, includeBorder);
    ghost var s, d0 := image[..], dest[..];
    VerticalStart(kernel, s, ig, d0, dg, includeBorder);
    var y := radius;
    while y < yEnd
      invariant radius <= y && (y <= yEnd || y == radius)
      invariant dest[..] == VerticalSoFar(kernel, s, ig, d0, dg, includeBorder, y, xBorder)
    {
      var indexDst := dg.start + y * dg.stride + xBorder;
      var i := ig.start + y * ig.stride;
      ghost var rowStart := i;
      var iEnd := i + imgWidth - xBorder;
      i := i + xBorder;
      while i < iEnd
        invariant xBorder <= i - rowStart && (i <= iEnd || i - rowStart == xBorder)
        invariant indexDst == Index(dg, i - rowStart, y)
        invariant dest[..] == VerticalSoFar(kernel, s, ig, d0, dg, includeBorder, y, i - rowStart)
      {
        IndexRowsAbove(ig, i - rowStart, y, radius);
        var total := ColTotal11(image, ig, i - radius * ig.stride, k1, k2, k3, k4, k5, k6, k7, k8, k9, k10, k11,
                                  kernel, i - rowStart, y - radius);
        VerticalStep(kernel, s, ig, d0, dg, includeBorder, y, i - rowStart, total);
        dest[indexDst] := Wrap16(total);
        indexDst := indexDst + 1;
        i := i + 1;
      }
      VerticalNextRow(kernel, s, ig, d0, dg, includeBorder, y, i - rowStart);
      y := y + 1;
    }
    VerticalDone(kernel, s, ig, d0, dg, includeBorder, y);
  }
}
