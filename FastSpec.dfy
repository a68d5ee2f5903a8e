/**
 * What the FAST-12 detector for 8-bit images decides about one pixel, and what it leaves
 * behind for a whole image.
 *
 * The detector looks at 16 samples on a circle of radius 3 around a center pixel. All values
 * are unsigned bytes (`data[i] & 0xFF`). A sample is "dark" when its difference from the
 * center is below `-pixelTol`, and "bright" when it is above `pixelTol`.
 *
 * - A quick test (`Classify`) on samples 0, 4, 8 and 12 picks a polarity or rejects the pixel.
 * - A scan then measures the run of samples of that polarity. It takes one of two shapes:
 *   - a run through sample 0, scanned forward from 1 and backward from 15;
 *   - otherwise the first run found.
 * - The run's length, `minCont` or more, makes the pixel a corner. Its summed differences give
 *   the score.
 */
module FastSpec {
  import opened Ints
  import opened Images
  import opened QueueCorners

  /** The number of samples on the circle. */
  const CircleSize := 16

  /** Pixels closer than this to a border are not evaluated. */
  const Border := 3

  /** The outcome of the quick test: `action` 0, -1 or +1 in the detector. */
  datatype Action = Reject | Dark | Bright

  /** The state the detector has for a pixel after its scans. */
  datatype Verdict = Verdict(action: Action, isCorner: bool, totalDiff: int)

  /** The tolerance is far enough from the `int` limits that `center ± pixelTol` and `-pixelTol`
   *  do not wrap. */
  predicate Moderate(tol: Int32) {
    -0x7FFF_FF00 <= tol <= 0x7FFF_FF00
  }

  /** The quick test on the samples a, b, c, d at circle indices 0, 4, 8 and 12.
   *  A dark pair (a, c) or (b, d) is tested first. The two bright pair tests run only when
   *  neither dark pair holds, and they are independent `if`s. */
  function Classify(center: U8, a: U8, b: U8, c: U8, d: U8, tol: Int32): Action {
    var thresh := Sub32(center, tol);
    if a < thresh && c < thresh then
      (if b < thresh || d < thresh then Dark else Reject)
    else if b < thresh && d < thresh then
      (if a < thresh || c < thresh then Dark else Reject)
    else
      var up := Add32(center, tol);
      var first := if a > up && c > up && (d > up || b > up) then Bright else Reject;
      if b > up && d > up && (a > up || c > up) then Bright else first
  }

  /** How many of four tests hold. */
  function CountOf(p: bool, q: bool, r: bool, s: bool): nat {
    (if p then 1 else 0) + (if q then 1 else 0) + (if r then 1 else 0) + (if s then 1 else 0)
  }

  /** The difference `val` of a sample from the center has the candidate's polarity. */
  predicate Qualifies(action: Action, val: int, tol: Int32) {
    if action == Dark then val < Neg32(tol) else val > tol
  }

  /** The test that sends the scan into the wrap-around branch. Java's `&&` binds tighter than
   *  `||`, so a bright first sample passes it for a dark candidate too. */
  predicate EntersWrap(action: Action, val: int, tol: Int32) {
    (action == Dark && val < Neg32(tol)) || val > tol
  }

  /** The first index j >= i whose sample does not qualify, or i itself once past the circle. */
  function ForwardStop(v: seq<U8>, center: U8, action: Action, tol: Int32, i: int): (r: int)
    requires |v| == CircleSize && 0 <= i
    ensures i <= r && (r <= CircleSize || r == i)
    ensures CircleSize <= i ==> r == i
    ensures forall j | i <= j < r :: Qualifies(action, v[j] - center, tol)
    ensures r < CircleSize ==> !Qualifies(action, v[r] - center, tol)
    decreases CircleSize - i
  {
    if i >= CircleSize then i
    else if !Qualifies(action, v[i] - center, tol) then i
    else ForwardStop(v, center, action, tol, i + 1)
  }

  /** The first index j <= i, scanning down, whose sample does not qualify, or -1. */
  function BackwardStop(v: seq<U8>, center: U8, action: Action, tol: Int32, i: int): (r: int)
    requires |v| == CircleSize && -1 <= i < CircleSize
    ensures -1 <= r <= i
    ensures forall j | r < j <= i :: Qualifies(action, v[j] - center, tol)
    ensures 0 <= r ==> !Qualifies(action, v[r] - center, tol)
    decreases i + 1
  {
    if i < 0 then -1
    else if !Qualifies(action, v[i] - center, tol) then i
    else BackwardStop(v, center, action, tol, i - 1)
  }

  /** The first index j >= i whose sample qualifies, or 16 when there is none. */
  function FirstQualifying(v: seq<U8>, center: U8, action: Action, tol: Int32, i: int): (r: int)
    requires |v| == CircleSize && 0 <= i <= CircleSize
    ensures i <= r <= CircleSize
    ensures forall j | i <= j < r :: !Qualifies(action, v[j] - center, tol)
    ensures r < CircleSize ==> Qualifies(action, v[r] - center, tol)
    decreases CircleSize - i
  {
    if i == CircleSize then CircleSize
    else if Qualifies(action, v[i] - center, tol) then i
    else FirstQualifying(v, center, action, tol, i + 1)
  }

  /** The sum of the differences of samples lo .. hi-1 from the center (0 when lo >= hi). */
  function RunSum(v: seq<U8>, center: U8, lo: int, hi: int): int
    requires 0 <= lo && (hi <= lo || hi <= |v|)
    decreases hi - lo
  {
    if lo >= hi then 0 else (v[lo] - center) + RunSum(v, center, lo + 1, hi)
  }

  /** Adding sample hi's difference extends the sum by one sample. */
  lemma {:induction false} RunSumSnoc(v: seq<U8>, center: U8, lo: int, hi: int)
    requires 0 <= lo <= hi < |v|
    ensures RunSum(v, center, lo, hi + 1) == RunSum(v, center, lo, hi) + (v[hi] - center)
    decreases hi - lo
  {
    if lo < hi {
      RunSumSnoc(v, center, lo + 1, hi);
    }
  }

  /** The wrap-around scan: the run through sample 0 is measured forward from sample 1 and,
   *  when that is too short, backward from sample 15. */
  function WrapScan(v: seq<U8>, center: U8, action: Action, tol: Int32, minCont: int): Verdict
    requires |v| == CircleSize
  {
    var front := ForwardStop(v, center, action, tol, 1);
    var frontDiff := (v[0] - center) + RunSum(v, center, 1, front);
    if front < minCont then
      var back := BackwardStop(v, center, action, tol, CircleSize - 1);
      Verdict(action, CircleSize - 1 - back + front >= minCont,
              frontDiff + RunSum(v, center, back + 1, CircleSize))
    else
      Verdict(action, true, frontDiff)
  }

  /** The wrap-around verdict from its two runs, when the forward run alone is long enough. */
  lemma WrapScanLong(v: seq<U8>, center: U8, action: Action, tol: Int32, minCont: int,
                     front: int, frontSum: int)
    requires |v| == CircleSize
    requires front == ForwardStop(v, center, action, tol, 1) && frontSum == RunSum(v, center, 1, front)
    requires minCont <= front
    ensures WrapScan(v, center, action, tol, minCont) == Verdict(action, true, (v[0] - center) + frontSum)
  {
  }

  /** The wrap-around verdict from its two runs, when the backward run is needed as well. */
  lemma WrapScanShort(v: seq<U8>, center: U8, action: Action, tol: Int32, minCont: int,
                      front: int, frontSum: int, back: int, backSum: int)
    requires |v| == CircleSize
    requires front == ForwardStop(v, center, action, tol, 1) && frontSum == RunSum(v, center, 1, front)
    requires back == BackwardStop(v, center, action, tol, CircleSize - 1)
    requires backSum == RunSum(v, center, back + 1, CircleSize)
    requires front < minCont
    ensures WrapScan(v, center, action, tol, minCont)
         == Verdict(action, CircleSize - 1 - back + front >= minCont, (v[0] - center) + frontSum + backSum)
  {
    var r := WrapScan(v, center, action, tol, minCont);
    assert r.totalDiff == (v[0] - center) + frontSum + backSum;
  }

  /** The first-run scan: from the first qualifying sample to the next one that fails. */
  function FirstRunScan(v: seq<U8>, center: U8, action: Action, tol: Int32, minCont: int): Verdict
    requires |v| == CircleSize
  {
    var start := FirstQualifying(v, center, action, tol, 0);
    var stop := ForwardStop(v, center, action, tol, start + 1);
    Verdict(action, stop - start >= minCont, RunSum(v, center, start + 1, stop))
  }

  /** The detector's verdict on the samples v of a center pixel. */
  function Evaluate(v: seq<U8>, center: U8, tol: Int32, minCont: int): Verdict
    requires |v| == CircleSize
  {
    var action := Classify(center, v[0], v[4], v[8], v[12], tol);
    if action == Reject then Verdict(Reject, false, 0)
    else if EntersWrap(action, v[0] - center, tol) then WrapScan(v, center, action, tol, minCont)
    else FirstRunScan(v, center, action, tol, minCont)
  }

  /** The intensity written for a verdict: the run's summed differences, negated for a dark
   *  corner, and 0 when the pixel is not a corner. */
  function Intensity(r: Verdict): int {
    if !r.isCorner then 0 else if r.action == Dark then -r.totalDiff else r.totalDiff
  }

  /** Every sample of the center `index` is an element of a buffer of `len` elements. */
  predicate SamplesInBounds(len: int, index: int, offsets: seq<int>) {
    |offsets| == CircleSize && forall i | 0 <= i < CircleSize :: 0 <= index + offsets[i] < len
  }

  /** The unsigned values of the 16 samples around `index`. */
  function Samples(s: seq<Byte>, index: int, offsets: seq<int>): seq<U8>
    requires SamplesInBounds(|s|, index, offsets)
  {
    seq(CircleSize, i requires 0 <= i < CircleSize => Unsigned(s[index + offsets[i]]))
  }

  // ---------------------------------------------------------------------------------------
  // The image level

  /** A circle of 16 pixel offsets (dx, dy), none farther than the border from the center. */
  predicate ValidCircle(circle: seq<(int, int)>) {
    |circle| == CircleSize &&
    forall i | 0 <= i < |circle| :: -Border <= circle[i].0 <= Border && -Border <= circle[i].1 <= Border
  }

  /** The element offsets of the circle in a buffer with the given row stride. */
  function ImageOffsets(circle: seq<(int, int)>, stride: int): seq<int> {
    seq(|circle|, i requires 0 <= i < |circle| => circle[i].1 * stride + circle[i].0)
  }

  /** Pixel (x, y) is at least the border away from every edge of the image. */
  predicate Interior(g: Geometry, x: int, y: int) {
    Border <= x < g.width - Border && Border <= y < g.height - Border
  }

  /** Sample i of an interior pixel is the circle pixel (x + dx, y + dy), inside the buffer. */
  lemma CircleSampleAt(len: int, g: Geometry, circle: seq<(int, int)>, x: int, y: int, i: int)
    requires ValidGeometry(g, len) && ValidCircle(circle) && Interior(g, x, y) && 0 <= i < CircleSize
    ensures 0 <= x + circle[i].0 < g.width && 0 <= y + circle[i].1 < g.height
    ensures Index(g, x, y) + ImageOffsets(circle, g.stride)[i] == Index(g, x + circle[i].0, y + circle[i].1)
    ensures 0 <= Index(g, x + circle[i].0, y + circle[i].1) < len
  {
    var dx, dy := circle[i].0, circle[i].1;
    IndexRowsBelow(g, x + dx, y, dy);
    IndexInBounds(g, len, x + dx, y + dy);
  }

  /** All samples of an interior pixel lie in the buffer. */
  lemma InteriorSamplesInBounds(len: int, g: Geometry, circle: seq<(int, int)>, x: int, y: int)
    requires ValidGeometry(g, len) && ValidCircle(circle) && Interior(g, x, y)
    ensures SamplesInBounds(len, Index(g, x, y), ImageOffsets(circle, g.stride))
  {
    forall i | 0 <= i < CircleSize
      ensures 0 <= Index(g, x, y) + ImageOffsets(circle, g.stride)[i] < len
    {
      CircleSampleAt(len, g, circle, x, y, i);
    }
  }

  /** The verdict on pixel (x, y); pixels near the border are not evaluated at all. */
  function PixelVerdict(s: seq<Byte>, g: Geometry, circle: seq<(int, int)>, tol: Int32,
                        minCont: int, x: int, y: int): Verdict
  {
    if ValidGeometry(g, |s|) && ValidCircle(circle) && Interior(g, x, y) then
      InteriorSamplesInBounds(|s|, g, circle, x, y);
      IndexInBounds(g, |s|, x, y);
      var index := Index(g, x, y);
      Evaluate(Samples(s, index, ImageOffsets(circle, g.stride)), Unsigned(s[index]), tol, minCont)
    else
      Verdict(Reject, false, 0)
  }

  /** The intensity of pixel (x, y). */
  function ScoreAt(s: seq<Byte>, g: Geometry, circle: seq<(int, int)>, tol: Int32,
                   minCont: int, x: int, y: int): int
  {
    Intensity(PixelVerdict(s, g, circle, tol, minCont, x, y))
  }

  /** Pixel (x, y) is declared a corner. */
  predicate IsCornerAt(s: seq<Byte>, g: Geometry, circle: seq<(int, int)>, tol: Int32,
                       minCont: int, x: int, y: int)
  {
    PixelVerdict(s, g, circle, tol, minCont, x, y).isCorner
  }

  /** The intensity buffer d0 with the interior of the image, addressed through the intensity
   *  header ig, set to the pixel scores; everything else is kept. */
  function IntensityImage(s: seq<Byte>, g: Geometry, circle: seq<(int, int)>, tol: Int32,
                          minCont: int, d0: seq<int>, ig: Geometry): seq<int>
  {
    Paint(d0, ig, Border, g.width - Border, Border, g.height - Border,
          ScoreMap(s, g, circle, tol, minCont))
  }

  /** The scores of an image as a function of the pixel. */
  function ScoreMap(s: seq<Byte>, g: Geometry, circle: seq<(int, int)>, tol: Int32,
                    minCont: int): (int, int) -> int
  {
    (x, y) => ScoreAt(s, g, circle, tol, minCont, x, y)
  }

  /** The corner test of an image as a function of the pixel. */
  function CornerMap(s: seq<Byte>, g: Geometry, circle: seq<(int, int)>, tol: Int32,
                     minCont: int): (int, int) -> bool
  {
    (x, y) => IsCornerAt(s, g, circle, tol, minCont, x, y)
  }

  /** `score` and `corner` are the score and the corner test of the image s. */
  ghost predicate ScoresOf(s: seq<Byte>, g: Geometry, circle: seq<(int, int)>, tol: Int32, minCont: int,
                           score: (int, int) -> int, corner: (int, int) -> bool)
  {
    (forall x, y {:trigger ScoreAt(s, g, circle, tol, minCont, x, y)} ::
       score(x, y) == ScoreAt(s, g, circle, tol, minCont, x, y)) &&
    (forall x, y {:trigger IsCornerAt(s, g, circle, tol, minCont, x, y)} ::
       corner(x, y) == IsCornerAt(s, g, circle, tol, minCont, x, y))
  }

  /** The pixels of row y that `corner` selects, at columns from the border up to x, left to
   *  right. */
  function RowSelected(corner: (int, int) -> bool, y: int, x: int): seq<Point>
    decreases x
  {
    if x <= Border then []
    else RowSelected(corner, y, x - 1) + (if corner(x - 1, y) then [Point(x - 1, y)] else [])
  }

  /** The pixels `corner` selects in the rows from the border up to y, of an image `width`
   *  wide, in scan order. */
  function RowsSelected(corner: (int, int) -> bool, width: int, y: int): seq<Point>
    decreases y
  {
    if y <= Border then []
    else RowsSelected(corner, width, y - 1) + RowSelected(corner, y - 1, width - Border)
  }

  /** Queueing pixel (x, y) when it is selected extends the row's selection by one column. */
  lemma QueueRowStep(corner: (int, int) -> bool, y: int, x: int, c: bool, queued0: seq<Point>)
    requires Border <= x && c == corner(x, y)
    ensures (queued0 + RowSelected(corner, y, x)) + (if c then [Point(x, y)] else [])
         == queued0 + RowSelected(corner, y, x + 1)
  {
  }

  /** A row walk that never started has selected what the whole row selects. */
  lemma RowSelectedEmpty(corner: (int, int) -> bool, y: int, x: int, width: int)
    requires x == Border && width - Border <= Border
    ensures RowSelected(corner, y, x) == RowSelected(corner, y, width - Border) == []
  {
  }

  /** Finishing row y adds that row's selection to the rows before it. */
  lemma QueueRowsStep(corner: (int, int) -> bool, width: int, y: int)
    requires Border <= y
    ensures RowsSelected(corner, width, y + 1) == RowsSelected(corner, width, y) + RowSelected(corner, y, width - Border)
  {
  }

  /** All corners of the image in row-major scan order. */
  function Corners(s: seq<Byte>, g: Geometry, circle: seq<(int, int)>, tol: Int32,
                   minCont: int): seq<Point>
  {
    RowsSelected(CornerMap(s, g, circle, tol, minCont), g.width, g.height - Border)
  }

  /** p comes before q in a row-major scan. */
  predicate ScanOrder(p: Point, q: Point) {
    p.y < q.y || (p.y == q.y && p.x < q.x)
  }

  /** At an interior pixel the verdict is the detector's on the pixel's own samples, all of
   *  which lie in the buffer. */
  lemma PixelVerdictAt(s: seq<Byte>, g: Geometry, circle: seq<(int, int)>, tol: Int32,
                       minCont: int, x: int, y: int, index: int)
    requires ValidGeometry(g, |s|) && ValidCircle(circle) && Interior(g, x, y)
    requires index == Index(g, x, y)
    ensures 0 <= index < |s| && SamplesInBounds(|s|, index, ImageOffsets(circle, g.stride))
    ensures PixelVerdict(s, g, circle, tol, minCont, x, y)
         == Evaluate(Samples(s, index, ImageOffsets(circle, g.stride)), Unsigned(s[index]), tol, minCont)
  {
    InteriorSamplesInBounds(|s|, g, circle, x, y);
    IndexInBounds(g, |s|, x, y);
  }

  /** The verdict on an interior pixel's samples gives the pixel's score and corner test;
   *  a rejected pixel is never a corner. */
  lemma PixelScore(s: seq<Byte>, g: Geometry, circle: seq<(int, int)>, tol: Int32,
                   minCont: int, x: int, y: int, index: int, r: Verdict)
    requires ValidGeometry(g, |s|) && ValidCircle(circle) && Interior(g, x, y)
    requires index == Index(g, x, y)
    requires 0 <= index < |s| && SamplesInBounds(|s|, index, ImageOffsets(circle, g.stride))
    requires r == Evaluate(Samples(s, index, ImageOffsets(circle, g.stride)), Unsigned(s[index]), tol, minCont)
    ensures ScoreAt(s, g, circle, tol, minCont, x, y) == Intensity(r)
    ensures IsCornerAt(s, g, circle, tol, minCont, x, y) == r.isCorner
    ensures r.action == Reject ==> !r.isCorner
  {
    PixelVerdictAt(s, g, circle, tol, minCont, x, y, index);
  }

  /** Each interior pixel's element of the intensity image holds its score. */
  lemma IntensityImageAt(s: seq<Byte>, g: Geometry, circle: seq<(int, int)>, tol: Int32,
                         minCont: int, d0: seq<int>, ig: Geometry, x: int, y: int)
    requires ValidGeometry(ig, |d0|) && g.width <= ig.width && g.height <= ig.height
    requires Interior(g, x, y)
    ensures 0 <= Index(ig, x, y) < |d0|
    ensures IntensityImage(s, g, circle, tol, minCont, d0, ig)[Index(ig, x, y)]
         == ScoreAt(s, g, circle, tol, minCont, x, y)
  {
    IndexInBounds(ig, |d0|, x, y);
    PaintAt(d0, ig, Border, g.width - Border, Border, g.height - Border,
            ScoreMap(s, g, circle, tol, minCont), x, y);
  }

  /** Elements outside the interior window keep their value, and the buffer keeps its size. */
  lemma IntensityImageElsewhere(s: seq<Byte>, g: Geometry, circle: seq<(int, int)>, tol: Int32,
                                minCont: int, d0: seq<int>, ig: Geometry, p: int)
    requires 0 <= p < |d0|
    requires !InWindow(ig, p, Border, g.width - Border, Border, g.height - Border)
    ensures |IntensityImage(s, g, circle, tol, minCont, d0, ig)| == |d0|
    ensures IntensityImage(s, g, circle, tol, minCont, d0, ig)[p] == d0[p]
  {
    PaintOutside(d0, ig, Border, g.width - Border, Border, g.height - Border,
                 ScoreMap(s, g, circle, tol, minCont), p);
  }

  /** Row y's list holds exactly the selected pixels of that row at columns from the border up
   *  to x. */
  lemma {:induction false} RowSelectedMembers(corner: (int, int) -> bool, y: int, x: int, p: Point)
    ensures p in RowSelected(corner, y, x) <==> p.y == y && Border <= p.x < x && corner(p.x, y)
    decreases x
  {
    if x > Border {
      RowSelectedMembers(corner, y, x - 1, p);
    }
  }

  /** The list of the rows before y holds exactly their selected pixels. */
  lemma {:induction false} RowsSelectedMembers(corner: (int, int) -> bool, width: int, y: int, p: Point)
    ensures p in RowsSelected(corner, width, y) <==>
            Border <= p.y < y && Border <= p.x < width - Border && corner(p.x, p.y)
    decreases y
  {
    if y > Border {
      var prev := RowsSelected(corner, width, y - 1);
      var row := RowSelected(corner, y - 1, width - Border);
      RowsSelectedMembers(corner, width, y - 1, p);
      RowSelectedMembers(corner, y - 1, width - Border, p);
      assert RowsSelected(corner, width, y) == prev + row;
      assert p in prev + row <==> p in prev || p in row;
      if p.y == y - 1 {
        assert p !in prev;
      } else {
        assert p !in row;
      }
    }
  }

  /** The corner list holds exactly the declared corners, all of them interior pixels. */
  lemma CornersExactly(s: seq<Byte>, g: Geometry, circle: seq<(int, int)>, tol: Int32,
                       minCont: int, p: Point)
    ensures p in Corners(s, g, circle, tol, minCont) <==> IsCornerAt(s, g, circle, tol, minCont, p.x, p.y)
  {
    RowsSelectedMembers(CornerMap(s, g, circle, tol, minCont), g.width, g.height - Border, p);
    assert CornerMap(s, g, circle, tol, minCont)(p.x, p.y) == IsCornerAt(s, g, circle, tol, minCont, p.x, p.y);
    if Border <= p.y < g.height - Border && Border <= p.x < g.width - Border {
    } else {
      NotInteriorNoCorner(s, g, circle, tol, minCont, p.x, p.y);
    }
  }

  /** Pixels near the border are never corners. */
  lemma NotInteriorNoCorner(s: seq<Byte>, g: Geometry, circle: seq<(int, int)>, tol: Int32,
                            minCont: int, x: int, y: int)
    requires !Interior(g, x, y)
    ensures !IsCornerAt(s, g, circle, tol, minCont, x, y) && ScoreAt(s, g, circle, tol, minCont, x, y) == 0
  {
  }

  /** The points of a list come in strict row-major scan order. */
  predicate InScanOrder(ps: seq<Point>) {
    forall i, j | 0 <= i < j < |ps| :: ScanOrder(ps[i], ps[j])
  }

  /** Row y's list runs left to right. */
  lemma {:induction false} RowSelectedOrdered(corner: (int, int) -> bool, y: int, x: int)
    ensures InScanOrder(RowSelected(corner, y, x))
    decreases x
  {
    if x > Border {
      var prev := RowSelected(corner, y, x - 1);
      RowSelectedOrdered(corner, y, x - 1);
      forall i | 0 <= i < |prev|
        ensures prev[i].y == y && prev[i].x < x - 1
      {
        RowSelectedMembers(corner, y, x - 1, prev[i]);
      }
    }
  }

  /** The list of the rows before y runs in scan order. */
  lemma {:induction false} RowsSelectedOrdered(corner: (int, int) -> bool, width: int, y: int)
    ensures InScanOrder(RowsSelected(corner, width, y))
    decreases y
  {
    if y > Border {
      var prev := RowsSelected(corner, width, y - 1);
      var row := RowSelected(corner, y - 1, width - Border);
      RowsSelectedOrdered(corner, width, y - 1);
      RowSelectedOrdered(corner, y - 1, width - Border);
      forall i | 0 <= i < |prev|
        ensures prev[i].y < y - 1
      {
        RowsSelectedMembers(corner, width, y - 1, prev[i]);
      }
      forall i | 0 <= i < |row|
        ensures row[i].y == y - 1
      {
        RowSelectedMembers(corner, y - 1, width - Border, row[i]);
      }
      var all := prev + row;
      forall i, j | 0 <= i < j < |all|
        ensures ScanOrder(all[i], all[j])
      {
        if j < |prev| {
          assert all[i] == prev[i] && all[j] == prev[j];
        } else if i >= |prev| {
          assert all[i] == row[i - |prev|] && all[j] == row[j - |prev|];
        } else {
          assert all[i] == prev[i] && all[j] == row[j - |prev|];
        }
      }
    }
  }

  /** The corner list comes in row-major scan order, so it has no duplicates. */
  lemma CornersInScanOrder(s: seq<Byte>, g: Geometry, circle: seq<(int, int)>, tol: Int32,
                           minCont: int)
    ensures InScanOrder(Corners(s, g, circle, tol, minCont))
  {
    RowsSelectedOrdered(CornerMap(s, g, circle, tol, minCont), g.width, g.height - Border);
  }

  // ---------------------------------------------------------------------------------------
  // The intensity buffer as the generated code writes it

  /** The intensity buffer after row y's walk has reached column x, as generated: the element
   *  index is set to pixel (3, y) at the start of the row and never advanced, so every pixel
   *  of the row writes its score into that one element. */
  function RowAsWritten(score: (int, int) -> int, d: seq<int>, ig: Geometry, y: int, x: int): (r: seq<int>)
    requires x > Border ==> 0 <= Index(ig, Border, y) < |d|
    ensures |r| == |d|
    ensures x > Border ==> r[Index(ig, Border, y)] == score(x - 1, y)
    decreases x
  {
    if x <= Border then d
    else RowAsWritten(score, d, ig, y, x - 1)[Index(ig, Border, y) := score(x - 1, y)]
  }

  /** The intensity buffer after the generated walk of the rows before y of an image `width`
   *  wide. */
  function RowsAsWritten(score: (int, int) -> int, d0: seq<int>, ig: Geometry, width: int, y: int): (r: seq<int>)
    requires ValidGeometry(ig, |d0|) && width <= ig.width && y <= ig.height
    ensures |r| == |d0|
    decreases y
  {
    if y <= Border then d0
    else
      var d := RowsAsWritten(score, d0, ig, width, y - 1);
      assert width - Border > Border ==> 0 <= Index(ig, Border, y - 1) < |d| by {
        if width - Border > Border {
          IndexInBounds(ig, |d0|, Border, y - 1);
        }
      }
      RowAsWritten(score, d, ig, y - 1, width - Border)
  }

  /** The intensity buffer after the generated code's whole walk. */
  function IntensityAsWritten(s: seq<Byte>, g: Geometry, circle: seq<(int, int)>, tol: Int32,
                              minCont: int, d0: seq<int>, ig: Geometry): (r: seq<int>)
    requires ValidGeometry(ig, |d0|) && g.width <= ig.width && g.height <= ig.height
    ensures |r| == |d0|
  {
    RowsAsWritten(ScoreMap(s, g, circle, tol, minCont), d0, ig, g.width, g.height - Border)
  }

  /** After the generated walk of the rows before y, the element of pixel (3, i) of each walked
   *  row i holds the score of that row's last interior pixel, the last one written there. */
  lemma {:induction false} RowsAsWrittenLast(score: (int, int) -> int, d0: seq<int>, ig: Geometry,
                                             width: int, y: int, i: int)
    requires ValidGeometry(ig, |d0|) && width <= ig.width && y <= ig.height
    requires 2 * Border < width && Border <= i < y && 0 <= Index(ig, Border, i) < |d0|
    ensures RowsAsWritten(score, d0, ig, width, y)[Index(ig, Border, i)] == score(width - Border - 1, i)
    decreases y
  {
    var d := RowsAsWritten(score, d0, ig, width, y - 1);
    IndexInBounds(ig, |d0|, Border, y - 1);
    if i < y - 1 {
      RowsAsWrittenLast(score, d0, ig, width, y - 1, i);
      RowColOfIndex(ig, Border, i);
      RowColOfIndex(ig, Border, y - 1);
      RowAsWrittenKeeps(score, d, ig, y - 1, width - Border, Index(ig, Border, i));
    }
  }

  /** As generated, each interior row's element (3, y) ends up holding the score of the row's
   *  last interior pixel (width - 4, y), whatever the scores of the pixels before it. */
  lemma IntensityAsWrittenRows(s: seq<Byte>, g: Geometry, circle: seq<(int, int)>, tol: Int32,
                               minCont: int, d0: seq<int>, ig: Geometry, y: int)
    requires ValidGeometry(ig, |d0|) && g.width <= ig.width && g.height <= ig.height
    requires 2 * Border < g.width && Border <= y < g.height - Border && 0 <= Index(ig, Border, y) < |d0|
    ensures IntensityAsWritten(s, g, circle, tol, minCont, d0, ig)[Index(ig, Border, y)]
         == ScoreAt(s, g, circle, tol, minCont, g.width - Border - 1, y)
  {
    var score := ScoreMap(s, g, circle, tol, minCont);
    RowsAsWrittenLast(score, d0, ig, g.width, g.height - Border, y);
    assert score(g.width - Border - 1, y) == ScoreAt(s, g, circle, tol, minCont, g.width - Border - 1, y);
  }

  /** A row's generated walk touches only the element of pixel (3, y). */
  lemma {:induction false} RowAsWrittenKeeps(score: (int, int) -> int, d: seq<int>, ig: Geometry,
                                             y: int, x: int, p: int)
    requires x > Border ==> 0 <= Index(ig, Border, y) < |d|
    requires 0 <= p < |d| && p != Index(ig, Border, y)
    ensures RowAsWritten(score, d, ig, y, x)[p] == d[p]
    decreases x
  {
    if x > Border {
      RowAsWrittenKeeps(score, d, ig, y, x - 1, p);
    }
  }

  /** The generated walk never writes an element outside column 3 of the intensity image. */
  lemma {:induction false} RowsAsWrittenKeep(score: (int, int) -> int, d0: seq<int>, ig: Geometry,
                                             width: int, y: int, p: int)
    requires ValidGeometry(ig, |d0|) && width <= ig.width && y <= ig.height
    requires 0 <= p < |d0| && ig.stride > Border && ig.start <= p && Col(ig, p) != Border
    ensures RowsAsWritten(score, d0, ig, width, y)[p] == d0[p]
    decreases y
  {
    if y > Border {
      RowsAsWrittenKeep(score, d0, ig, width, y - 1, p);
      RowColOfIndex(ig, Border, y - 1);
      if width - Border > Border {
        IndexInBounds(ig, |d0|, Border, y - 1);
      }
      RowAsWrittenKeeps(score, RowsAsWritten(score, d0, ig, width, y - 1), ig, y - 1, width - Border, p);
    }
  }

  /** On an image at least 8 wide and 7 high, the generated walk leaves pixel (4, 3)'s element
   *  alone, while the intended walk stores that pixel's score there: whenever the score differs
   *  from the old value, the two buffers differ. */
  lemma AsWrittenDiffers(s: seq<Byte>, g: Geometry, circle: seq<(int, int)>, tol: Int32,
                         minCont: int, d0: seq<int>, ig: Geometry)
    requires ValidGeometry(ig, |d0|) && g.width <= ig.width && g.height <= ig.height
    requires 8 <= g.width && 7 <= g.height
    requires 0 <= Index(ig, 4, 3) < |d0| && ScoreAt(s, g, circle, tol, minCont, 4, 3) != d0[Index(ig, 4, 3)]
    ensures IntensityAsWritten(s, g, circle, tol, minCont, d0, ig) != IntensityImage(s, g, circle, tol, minCont, d0, ig)
  {
    var p := Index(ig, 4, 3);
    RowColOfIndex(ig, 4, 3);
    RowsAsWrittenKeep(ScoreMap(s, g, circle, tol, minCont), d0, ig, g.width, g.height - Border, p);
    IntensityImageAt(s, g, circle, tol, minCont, d0, ig, 4, 3);
  }

  // ---------------------------------------------------------------------------------------
  // The quick test

  /** With a moderate tolerance the quick test's threshold is center - pixelTol exactly: a
   *  candidate is dark exactly when at least three of the four compass samples are dark. It is
   *  bright exactly when neither dark pair holds and at least three compass samples are
   *  bright; with a non-negative tolerance the dark-pair condition drops out. */
  lemma ClassifyThreeOfFour(center: U8, a: U8, b: U8, c: U8, d: U8, tol: Int32)
    requires Moderate(tol)
    ensures Classify(center, a, b, c, d, tol) == Dark <==>
            CountOf(a < center - tol, b < center - tol, c < center - tol, d < center - tol) >= 3
    ensures Classify(center, a, b, c, d, tol) == Bright <==>
            !(a < center - tol && c < center - tol) && !(b < center - tol && d < center - tol) &&
            CountOf(a > center + tol, b > center + tol, c > center + tol, d > center + tol) >= 3
    ensures 0 <= tol ==>
            (Classify(center, a, b, c, d, tol) == Bright <==>
             CountOf(a > center + tol, b > center + tol, c > center + tol, d > center + tol) >= 3)
  {
    Wrap32InRange(center - tol);
    Wrap32InRange(center + tol);
  }

  /** How many steps forward around the circle sample j is from sample `start`. */
  function CyclicDistance(start: int, j: int): int {
    if start <= j then j - start else j - start + CircleSize
  }

  /** Sample j lies on the cyclic arc of `len` samples that starts at sample `start`. */
  predicate InArc(start: int, len: int, j: int) {
    CyclicDistance(start, j) < len
  }

  /** Every sample on the cyclic arc of `len` samples from `start` has the given polarity. */
  predicate Arc(v: seq<U8>, center: U8, action: Action, tol: Int32, start: int, len: int)
    requires |v| == CircleSize
  {
    forall j | 0 <= j < CircleSize && InArc(start, len, j) :: Qualifies(action, v[j] - center, tol)
  }

  /** The quick test never rejects a candidate with a 12-sample arc of one polarity, and gives
   *  it that polarity (for a moderate, non-negative tolerance). */
  lemma QuickTestComplete(v: seq<U8>, center: U8, tol: Int32, action: Action, start: int)
    requires |v| == CircleSize && Moderate(tol) && 0 <= tol
    requires action != Reject && 0 <= start < CircleSize
    requires Arc(v, center, action, tol, start, 12)
    ensures Classify(center, v[0], v[4], v[8], v[12], tol) == action
  {
    var inA, inB, inC, inD := InArc(start, 12, 0), InArc(start, 12, 4), InArc(start, 12, 8), InArc(start, 12, 12);
    assert CountOf(inA, inB, inC, inD) >= 3;
    assert (inA || inC) && (inB || inD);
    ClassifyThreeOfFour(center, v[0], v[4], v[8], v[12], tol);
    if action == Dark {
      assert inA ==> v[0] < center - tol;
      assert inB ==> v[4] < center - tol;
      assert inC ==> v[8] < center - tol;
      assert inD ==> v[12] < center - tol;
    } else {
      assert inA ==> v[0] > center + tol;
      assert inB ==> v[4] > center + tol;
      assert inC ==> v[8] > center + tol;
      assert inD ==> v[12] > center + tol;
    }
  }

  // ---------------------------------------------------------------------------------------
  // The scans

  /** A dark candidate whose first sample is bright: it enters the wrap-around branch although
   *  sample 0 is not part of any dark run. */
  predicate WrapQuirk(v: seq<U8>, center: U8, tol: Int32)
    requires |v| == CircleSize
  {
    var action := Classify(center, v[0], v[4], v[8], v[12], tol);
    action != Reject && EntersWrap(action, v[0] - center, tol) &&
    !Qualifies(action, v[0] - center, tol)
  }

  /** With a moderate tolerance a candidate has a qualifying compass sample. */
  lemma CandidateHasQualifyingSample(v: seq<U8>, center: U8, tol: Int32)
    requires |v| == CircleSize && Moderate(tol)
    requires Classify(center, v[0], v[4], v[8], v[12], tol) != Reject
    ensures FirstQualifying(v, center, Classify(center, v[0], v[4], v[8], v[12], tol), tol, 0) < CircleSize
  {
    var action := Classify(center, v[0], v[4], v[8], v[12], tol);
    ClassifyThreeOfFour(center, v[0], v[4], v[8], v[12], tol);
  }

  /** The backward run from sample 15 and the front run through sample 0 form one arc, as long
   *  as the front run stops before the circle ends. */
  lemma JoinedRunArc(v: seq<U8>, center: U8, action: Action, tol: Int32, minCont: int)
    requires |v| == CircleSize && Qualifies(action, v[0] - center, tol) && minCont <= CircleSize
    requires ForwardStop(v, center, action, tol, 1) < minCont
    requires CircleSize - 1 - BackwardStop(v, center, action, tol, CircleSize - 1)
             + ForwardStop(v, center, action, tol, 1) >= minCont
    ensures BackwardStop(v, center, action, tol, CircleSize - 1) + 1 < CircleSize
    ensures Arc(v, center, action, tol, BackwardStop(v, center, action, tol, CircleSize - 1) + 1, minCont)
  {
    var front := ForwardStop(v, center, action, tol, 1);
    var back := BackwardStop(v, center, action, tol, CircleSize - 1);
    assert front <= back;
  }

  /** A first run from `start` to `stop` of at least `minCont` samples is an arc from `start`. */
  lemma FirstRunArc(v: seq<U8>, center: U8, action: Action, tol: Int32, minCont: int)
    requires |v| == CircleSize
    requires FirstQualifying(v, center, action, tol, 0) < CircleSize
    requires ForwardStop(v, center, action, tol, FirstQualifying(v, center, action, tol, 0) + 1)
             - FirstQualifying(v, center, action, tol, 0) >= minCont
    ensures Arc(v, center, action, tol, FirstQualifying(v, center, action, tol, 0), minCont)
  {
    var start := FirstQualifying(v, center, action, tol, 0);
    var stop := ForwardStop(v, center, action, tol, start + 1);
    forall j | 0 <= j < CircleSize && InArc(start, minCont, j)
      ensures Qualifies(action, v[j] - center, tol)
    {
      if j != start {
        assert start + 1 <= j < stop;
      }
    }
  }

  /** A declared corner (outside the wrap quirk, with at most 16 samples required) has a cyclic
   *  arc of `minCont` samples of its polarity. */
  lemma CornerHasArc(v: seq<U8>, center: U8, tol: Int32, minCont: int)
    requires |v| == CircleSize && Moderate(tol) && minCont <= CircleSize
    requires Evaluate(v, center, tol, minCont).isCorner && !WrapQuirk(v, center, tol)
    ensures exists start | 0 <= start < CircleSize ::
              Arc(v, center, Evaluate(v, center, tol, minCont).action, tol, start, minCont)
  {
    var action := Classify(center, v[0], v[4], v[8], v[12], tol);
    if EntersWrap(action, v[0] - center, tol) {
      if ForwardStop(v, center, action, tol, 1) >= minCont {
        assert Arc(v, center, action, tol, 0, minCont);
      } else {
        JoinedRunArc(v, center, action, tol, minCont);
        var start := BackwardStop(v, center, action, tol, CircleSize - 1) + 1;
        assert Arc(v, center, action, tol, start, minCont);
      }
    } else {
      CandidateHasQualifyingSample(v, center, tol);
      FirstRunArc(v, center, action, tol, minCont);
      assert Arc(v, center, action, tol, FirstQualifying(v, center, action, tol, 0), minCont);
    }
  }

  /** Summing differences of one polarity keeps the polarity's sign (strictly, when non-empty). */
  lemma {:induction false} RunSumSigned(v: seq<U8>, center: U8, action: Action, tol: Int32, lo: int, hi: int)
    requires |v| == CircleSize && Moderate(tol) && 0 <= tol && 0 <= lo <= hi <= CircleSize
    requires forall j | lo <= j < hi :: Qualifies(action, v[j] - center, tol)
    ensures action == Dark ==> RunSum(v, center, lo, hi) <= 0 && (lo < hi ==> RunSum(v, center, lo, hi) < 0)
    ensures action != Dark ==> RunSum(v, center, lo, hi) >= 0 && (lo < hi ==> RunSum(v, center, lo, hi) > 0)
    decreases hi - lo
  {
    if lo < hi {
        RunSumSigned(v, center, action, tol, lo + 1, hi);
    }
  }

  /** A declared corner (outside the wrap quirk, with a non-negative tolerance and a run of at
   *  least two samples required) gets a positive intensity. */
  lemma CornerIntensityPositive(v: seq<U8>, center: U8, tol: Int32, minCont: int)
    requires |v| == CircleSize && Moderate(tol) && 0 <= tol && 2 <= minCont
    requires Evaluate(v, center, tol, minCont).isCorner && !WrapQuirk(v, center, tol)
    ensures Intensity(Evaluate(v, center, tol, minCont)) > 0
  {
    var action := Classify(center, v[0], v[4], v[8], v[12], tol);
    var r := Evaluate(v, center, tol, minCont);
    if EntersWrap(action, v[0] - center, tol) {
      var val0 := v[0] - center;
      assert Qualifies(action, val0, tol);
      var front := ForwardStop(v, center, action, tol, 1);
      RunSumSigned(v, center, action, tol, 1, front);
      var total := val0 + RunSum(v, center, 1, front);
      if front < minCont {
        var back := BackwardStop(v, center, action, tol, CircleSize - 1);
        RunSumSigned(v, center, action, tol, back + 1, CircleSize);
        total := total + RunSum(v, center, back + 1, CircleSize);
      }
      assert r.totalDiff == total;
    } else {
      var start := FirstQualifying(v, center, action, tol, 0);
      var stop := ForwardStop(v, center, action, tol, start + 1);
      assert r.isCorner == (stop - start >= minCont);
      assert start + 1 < stop <= CircleSize;
      RunSumSigned(v, center, action, tol, start + 1, stop);
      assert r.totalDiff == RunSum(v, center, start + 1, stop);
    }
  }

  /** In the first-run branch the start sample's own difference is left out of the score. */
  lemma StartDifferenceNotSummed(v: seq<U8>, center: U8, tol: Int32, minCont: int)
    requires |v| == CircleSize
    requires Classify(center, v[0], v[4], v[8], v[12], tol) != Reject
    requires !EntersWrap(Classify(center, v[0], v[4], v[8], v[12], tol), v[0] - center, tol)
    ensures var action := Classify(center, v[0], v[4], v[8], v[12], tol);
            var start := FirstQualifying(v, center, action, tol, 0);
            var stop := ForwardStop(v, center, action, tol, start + 1);
            start < CircleSize ==>
              Evaluate(v, center, tol, minCont).totalDiff == RunSum(v, center, start, stop) - (v[start] - center)
  {
  }

  /** When no sample qualifies in the first-run branch, start is 16 and stop is 17: the pixel is
   *  a corner exactly when minCont <= 1, with a zero difference sum. */
  lemma NoQualifyingSample(v: seq<U8>, center: U8, action: Action, tol: Int32, minCont: int)
    requires |v| == CircleSize
    requires forall j | 0 <= j < CircleSize :: !Qualifies(action, v[j] - center, tol)
    ensures FirstQualifying(v, center, action, tol, 0) == CircleSize
    ensures ForwardStop(v, center, action, tol, CircleSize + 1) == CircleSize + 1
    ensures FirstRunScan(v, center, action, tol, minCont) == Verdict(action, minCont <= 1, 0)
  {
  }

  /** Each difference is at most 255 in magnitude, so a run of n samples sums to at most 255 n. */
  lemma {:induction false} RunSumBound(v: seq<U8>, center: U8, lo: int, hi: int)
    requires 0 <= lo <= hi <= |v|
    ensures -255 * (hi - lo) <= RunSum(v, center, lo, hi) <= 255 * (hi - lo)
    decreases hi - lo
  {
    if lo < hi {
      RunSumBound(v, center, lo + 1, hi);
    }
  }

  /** The wrap-around scan sums at most 32 differences, whatever the polarity. */
  lemma WrapScanBounded(v: seq<U8>, center: U8, action: Action, tol: Int32, minCont: int)
    requires |v| == CircleSize
    ensures -8160 <= WrapScan(v, center, action, tol, minCont).totalDiff <= 8160
  {
    var front := ForwardStop(v, center, action, tol, 1);
    var back := BackwardStop(v, center, action, tol, CircleSize - 1);
    RunSumBound(v, center, 1, front);
    RunSumBound(v, center, back + 1, CircleSize);
    var frontDiff := (v[0] - center) + RunSum(v, center, 1, front);
    var backSum := RunSum(v, center, back + 1, CircleSize);
    assert -255 * 16 <= frontDiff <= 255 * 16;
    assert -255 * 16 <= backSum <= 255 * 16;
    var r := WrapScan(v, center, action, tol, minCont);
    assert r.totalDiff == frontDiff || r.totalDiff == frontDiff + backSum;
  }

  /** The first-run scan sums at most 15 differences, whatever the polarity. */
  lemma FirstRunScanBounded(v: seq<U8>, center: U8, action: Action, tol: Int32, minCont: int)
    requires |v| == CircleSize
    ensures -3825 <= FirstRunScan(v, center, action, tol, minCont).totalDiff <= 3825
  {
    var start := FirstQualifying(v, center, action, tol, 0);
    var stop := ForwardStop(v, center, action, tol, start + 1);
    if start < CircleSize {
      RunSumBound(v, center, start + 1, stop);
    }
  }

  /** The score sums at most 32 differences, so Java's `int` (and the `float` it is stored in)
   *  holds it exactly. */
  lemma TotalDiffBounded(v: seq<U8>, center: U8, tol: Int32, minCont: int)
    requires |v| == CircleSize
    ensures -8160 <= Evaluate(v, center, tol, minCont).totalDiff <= 8160
  {
    var action := Classify(center, v[0], v[4], v[8], v[12], tol);
    WrapScanBounded(v, center, action, tol, minCont);
    FirstRunScanBounded(v, center, action, tol, minCont);
  }

  /** Samples around a center of 100 with tolerance 10: sample 0 is bright, samples 1-5 and
   *  8-15 are dark, samples 6 and 7 match the center. */
  const BrightFirstSamples: seq<U8> := [200, 50, 50, 50, 50, 50, 100, 100, 50, 50, 50, 50, 50, 50, 50, 50]

  /** The wrap-around test's precedence lets a dark candidate with a bright sample 0 through.
   *  Here it joins a 5-sample and an 8-sample dark run into a declared 12-corner with
   *  intensity 550. */
  lemma WrapQuirkFalseCorner()
    ensures WrapQuirk(BrightFirstSamples, 100, 10)
    ensures Evaluate(BrightFirstSamples, 100, 10, 12) == Verdict(Dark, true, -550)
    ensures Intensity(Evaluate(BrightFirstSamples, 100, 10, 12)) == 550
  {
    var v := BrightFirstSamples;
    Wrap32InRange(-10);
    assert Classify(100, v[0], v[4], v[8], v[12], 10) == Dark;
    assert ForwardStop(v, 100, Dark, 10, 1) == 6;
    assert RunSum(v, 100, 1, 6) == -250;
    assert BackwardStop(v, 100, Dark, 10, 15) == 7;
    assert RunSum(v, 100, 12, 16) == -200;
    assert RunSum(v, 100, 8, 16) == -400;
  }

  /** ... although no 12 consecutive samples of that example are dark. */
  lemma BrightFirstSamplesHaveNoArc(start: int)
    requires 0 <= start < CircleSize
    ensures !Arc(BrightFirstSamples, 100, Dark, 10, start, 12)
  {
    var j := if 1 <= start <= 4 then 6 else 0;
    assert InArc(start, 12, j) && !Qualifies(Dark, BrightFirstSamples[j] - 100, 10);
  }

  /** Samples around a center of 100 with tolerance 10: sample 1 and samples 3-14 are dark, the
   *  others match the center. */
  const LateRunSamples: seq<U8> := [100, 50, 100, 50, 50, 50, 50, 50, 50, 50, 50, 50, 50, 50, 50, 100]

  /** The first-run branch measures only the first run: the 12-sample dark arc from sample 3,
   *  after a 1-sample run, is not declared a corner. */
  lemma OnlyFirstRunMeasured()
    ensures Classify(100, LateRunSamples[0], LateRunSamples[4], LateRunSamples[8], LateRunSamples[12], 10) == Dark
    ensures Arc(LateRunSamples, 100, Dark, 10, 3, 12)
    ensures !Evaluate(LateRunSamples, 100, 10, 12).isCorner
  {
    var v := LateRunSamples;
    Wrap32InRange(-10);
    assert Classify(100, v[0], v[4], v[8], v[12], 10) == Dark;
    assert FirstQualifying(v, 100, Dark, 10, 0) == 1;
    assert ForwardStop(v, 100, Dark, 10, 2) == 2;
  }
}
