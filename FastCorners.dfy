/**
 * The FAST-12 corner detector for 8-bit images: the class the generator emits for `ImageInt8`,
 * with its intensity image, its candidate queue and the `process` walk over an image.
 */
module FastCorners {
  import opened Ints
  import opened Images
  import opened QueueCorners
  import opened FastSpec

  class FastCorner12 {
    /** The minimum number of consecutive circle samples a corner needs. */
    const minCont: int
    /** How much a circle sample must differ from the center pixel to count. */
    const pixelTol: Int32
    /** The corner intensity image: one element per pixel. */
    const featureIntensity: array<int>
    /** The header of the intensity image. */
    const intensityGeometry: Geometry
    /** The pixels that might be corners. */
    const candidates: QueueCorner

    /** The intensity header describes its buffer, and the queue can hold a full image row. */
    predicate Valid()
      reads candidates
    {
      ValidGeometry(intensityGeometry, featureIntensity.Length) &&
      candidates.Valid() && candidates.maxSize >= intensityGeometry.width
    }

    /** A detector for images of the given size: a zeroed intensity image of that size and an
     *  empty queue with room for one row. */
    constructor(imgWidth: nat, imgHeight: nat, pixelTol: Int32, minCont: int)
      ensures Valid()
      ensures this.pixelTol == pixelTol && this.minCont == minCont
      ensures intensityGeometry == Geometry(imgWidth, imgHeight, imgWidth, 0)
      ensures fresh(featureIntensity) && featureIntensity[..] == seq(imgWidth * imgHeight, _ => 0)
      ensures fresh(candidates) && candidates.points == [] && candidates.maxSize == imgWidth
    {
      this.pixelTol := pixelTol;
      this.minCont := minCont;
      featureIntensity := new int[imgWidth * imgHeight](_ => 0);
      intensityGeometry := Geometry(imgWidth, imgHeight, imgWidth, 0);
      candidates := new QueueCorner(imgWidth);
      assert (imgHeight - 1) * imgWidth + imgWidth == imgWidth * imgHeight;
    }

    /** The quick test on the center pixel and its four compass samples: which kind of corner
     *  the pixel can still be, if any. */
    method QuickTest(center: U8, a: U8, b: U8, c: U8, d: U8) returns (action: Action)
      ensures action == Classify(center, a, b, c, d, pixelTol)
    {
      var thresh := Sub32(center, pixelTol);
      action := Reject;
      if a < thresh && c < thresh {
        if b < thresh {
          action := Dark;
        } else if d < thresh {
          action := Dark;
        }
      } else if b < thresh && d < thresh {
        if a < thresh {
          action := Dark;
        } else if c < thresh {
          action := Dark;
        }
      } else {
        thresh := Add32(center, pixelTol);
        if a > thresh && c > thresh {
          if d > thresh {
            action := Bright;
          } else if b > thresh {
            action := Bright;
          }
        }
        if b > thresh && d > thresh {
          if a > thresh {
            action := Bright;
          } else if c > thresh {
            action := Bright;
          }
        }
      }
    }

    /** The samples from `from` on that the loop of the generated code steps over: where the
     *  run of qualifying samples starting there ends, and the sum of their differences. */
    method ForwardRun(data: array<Byte>, index: int, offsets: seq<int>, center: U8, action: Action,
                      from: int, ghost v: seq<U8>)
        returns (stop: int, sum: int)
      requires SamplesInBounds(data.Length, index, offsets) && |v| == CircleSize && 0 <= from
      requires forall i {:trigger offsets[i]} | 0 <= i < CircleSize :: Unsigned(data[index + offsets[i]]) == v[i]
      ensures stop == ForwardStop(v, center, action, pixelTol, from)
      ensures sum == RunSum(v, center, from, stop)
    {
      sum := 0;
      stop := from;
      while stop < CircleSize
        invariant from <= stop && (stop <= CircleSize || stop == from)
        invariant ForwardStop(v, center, action, pixelTol, from) == ForwardStop(v, center, action, pixelTol, stop)
        invariant sum == RunSum(v, center, from, stop)
      {
        var val := Unsigned(data[index + offsets[stop]]) - center;
        assert val == v[stop] - center;
        if action == Dark {
          if val >= Neg32(pixelTol) {
            break;
          }
        } else if val <= pixelTol {
          break;
        }
        RunSumSnoc(v, center, from, stop);
        sum := sum + val;
        stop := stop + 1;
      }
    }

    /** The backward loop from sample 15: where the run of qualifying samples that ends there
     *  begins (one before its first sample), and the sum of their differences. */
    method BackwardRun(data: array<Byte>, index: int, offsets: seq<int>, center: U8, action: Action,
                       ghost v: seq<U8>)
        returns (stop: int, sum: int)
      requires SamplesInBounds(data.Length, index, offsets) && |v| == CircleSize
      requires forall i {:trigger offsets[i]} | 0 <= i < CircleSize :: Unsigned(data[index + offsets[i]]) == v[i]
      ensures stop == BackwardStop(v, center, action, pixelTol, CircleSize - 1)
      ensures sum == RunSum(v, center, stop + 1, CircleSize)
    {
      sum := 0;
      stop := CircleSize - 1;
      while stop >= 0
        invariant -1 <= stop < CircleSize
        invariant BackwardStop(v, center, action, pixelTol, CircleSize - 1)
               == BackwardStop(v, center, action, pixelTol, stop)
        invariant sum == RunSum(v, center, stop + 1, CircleSize)
      {
        var val := Unsigned(data[index + offsets[stop]]) - center;
        assert val == v[stop] - center;
        if action == Dark {
          if val >= Neg32(pixelTol) {
            break;
          }
        } else if val <= pixelTol {
          break;
        }
        sum := sum + val;
        stop := stop - 1;
      }
    }

    /** The loop that looks for the first qualifying sample; 16 when there is none. */
    method FindStart(data: array<Byte>, index: int, offsets: seq<int>, center: U8, action: Action,
                     ghost v: seq<U8>)
        returns (start: int)
      requires SamplesInBounds(data.Length, index, offsets) && |v| == CircleSize
      requires forall i {:trigger offsets[i]} | 0 <= i < CircleSize :: Unsigned(data[index + offsets[i]]) == v[i]
      ensures start == FirstQualifying(v, center, action, pixelTol, 0)
    {
      start := 0;
      while start < CircleSize
        invariant 0 <= start <= CircleSize
        invariant FirstQualifying(v, center, action, pixelTol, 0)
               == FirstQualifying(v, center, action, pixelTol, start)
      {
        var val := Unsigned(data[index + offsets[start]]) - center;
        assert val == v[start] - center;
        if action == Dark {
          if val < Neg32(pixelTol) {
            break;
          }
        } else if val > pixelTol {
          break;
        }
        start := start + 1;
      }
    }

    /** The scan for a pixel whose first sample qualifies: the run through sample 0, extended
     *  backwards from sample 15 when it is too short. */
    method ScanWrap(data: array<Byte>, index: int, offsets: seq<int>, center: U8, action: Action,
                    ghost v: seq<U8>)
        returns (isCorner: bool, totalDiff: int)
      requires SamplesInBounds(data.Length, index, offsets) && |v| == CircleSize
      requires forall i {:trigger offsets[i]} | 0 <= i < CircleSize :: Unsigned(data[index + offsets[i]]) == v[i]
      ensures Verdict(action, isCorner, totalDiff) == WrapScan(v, center, action, pixelTol, minCont)
    {
      var first := Unsigned(data[index + offsets[0]]);
      assert first == v[0];
      var frontLength, frontSum := ForwardRun(data, index, offsets, center, action, 1, v);
      totalDiff := (first - center) + frontSum;
      if frontLength < minCont {
        var back, backSum := BackwardRun(data, index, offsets, center, action, v);
        totalDiff := totalDiff + backSum;
        isCorner := CircleSize - 1 - back + frontLength >= minCont;
        WrapScanShort(v, center, action, pixelTol, minCont, frontLength, frontSum, back, backSum);
      } else {
        isCorner := true;
        WrapScanLong(v, center, action, pixelTol, minCont, frontLength, frontSum);
      }
    }

    /** The scan for a pixel whose first sample does not qualify: the first run of qualifying
     *  samples, with the difference of its first sample left out of the total. */
    method ScanFirstRun(data: array<Byte>, index: int, offsets: seq<int>, center: U8, action: Action,
                        ghost v: seq<U8>)
        returns (isCorner: bool, totalDiff: int)
      requires SamplesInBounds(data.Length, index, offsets) && |v| == CircleSize
      requires forall i {:trigger offsets[i]} | 0 <= i < CircleSize :: Unsigned(data[index + offsets[i]]) == v[i]
      ensures Verdict(action, isCorner, totalDiff) == FirstRunScan(v, center, action, pixelTol, minCont)
    {
      var start := FindStart(data, index, offsets, center, action, v);
      var stop;
      stop, totalDiff := ForwardRun(data, index, offsets, center, action, start + 1, v);
      isCorner := stop - start >= minCont;
    }

    /** The detector's verdict on the center pixel at `index`: the quick test, then the scan the
     *  first sample selects. */
    method ScorePixel(data: array<Byte>, index: int, offsets: seq<int>)
        returns (action: Action, isCorner: bool, totalDiff: int)
      requires 0 <= index < data.Length && SamplesInBounds(data.Length, index, offsets)
      ensures Verdict(action, isCorner, totalDiff)
           == Evaluate(Samples(data[..], index, offsets), Unsigned(data[index]), pixelTol, minCont)
    {
      ghost var v := Samples(data[..], index, offsets);
      assert forall i | 0 <= i < CircleSize :: Unsigned(data[index + offsets[i]]) == v[i];
      var center := Unsigned(data[index]);
      var a := Unsigned(data[index + offsets[0]]);
      var b := Unsigned(data[index + offsets[4]]);
      var c := Unsigned(data[index + offsets[8]]);
      var d := Unsigned(data[index + offsets[12]]);
      assert a == v[0] && b == v[4] && c == v[8] && d == v[12];
      action := QuickTest(center, a, b, c, d);
      if action == Reject {
        isCorner, totalDiff := false, 0;
        return;
      }
      var val := a as int - center;
      if (action == Dark && val < Neg32(pixelTol)) || val > pixelTol {
        isCorner, totalDiff := ScanWrap(data, index, offsets, center, action, v);
      } else {
        isCorner, totalDiff := ScanFirstRun(data, index, offsets, center, action, v);
      }
    }

    /** Scores the interior pixel (x, y) at `index` of an image whose scores and corner test are
     *  `score` and `corner`; a rejected pixel is never a corner. */
    method ScorePixelAt(img: array<Byte>, g: Geometry, circle: seq<(int, int)>, offsets: seq<int>,
                        x: int, y: int, index: int, ghost score: (int, int) -> int,
                        ghost corner: (int, int) -> bool)
        returns (action: Action, isCorner: bool, totalDiff: int)
      requires ValidGeometry(g, img.Length) && ValidCircle(circle) && Interior(g, x, y)
      requires offsets == ImageOffsets(circle, g.stride) && index == Index(g, x, y)
      requires ScoresOf(img[..], g, circle, pixelTol, minCont, score, corner)
      ensures Intensity(Verdict(action, isCorner, totalDiff)) == score(x, y)
      ensures isCorner == corner(x, y)
      ensures action == Reject ==> !isCorner
    {
      PixelVerdictAt(img[..], g, circle, pixelTol, minCont, x, y, index);
      action, isCorner, totalDiff := ScorePixel(img, index, offsets);
      PixelScore(img[..], g, circle, pixelTol, minCont, x, y, index, Verdict(action, isCorner, totalDiff));
    }

    /** Stores the score of the pixel (x, y) at `intenIndex` of the intensity image and, when the
     *  pixel is a corner, queues it, first doubling the queue if it is full. */
    method StoreScore(intenIndex: int, action: Action, isCorner: bool, totalDiff: int, x: int, y: int)
      requires Valid() && 0 <= intenIndex < featureIntensity.Length
      requires action == Reject ==> !isCorner
      requires isCorner ==> candidates.maxSize > 0
      modifies featureIntensity, candidates
      ensures Valid() && candidates.maxSize >= old(candidates.maxSize)
      ensures candidates.maxSize
           == if isCorner && |old(candidates.points)| == old(candidates.maxSize) then 2 * old(candidates.maxSize)
              else old(candidates.maxSize)
      ensures featureIntensity[..]
           == old(featureIntensity[..])[intenIndex := Intensity(Verdict(action, isCorner, totalDiff))]
      ensures candidates.points == old(candidates.points) + (if isCorner then [Point(x, y)] else [])
    {
      if action == Reject {
        featureIntensity[intenIndex] := 0;
      } else if isCorner {
        featureIntensity[intenIndex] := if action == Dark then -totalDiff else totalDiff;
        if candidates.IsFull() {
          candidates.Resize(candidates.GetMaxSize() * 2);
        }
        candidates.Add(x, y);
      } else {
        featureIntensity[intenIndex] := 0;
      }
    }

    /**
     * Scores every pixel at least 3 from each border of the image, row by row, and queues the
     * corners; the queue is emptied first and doubled whenever it is full.
     *
     * Each pixel's score goes to that pixel's own element of the intensity image (the generated
     * code keeps writing to the row's first element instead; see `IntensityAsWritten`).
     */
    method Process(img: array<Byte>, g: Geometry, circle: seq<(int, int)>)
      requires Valid() && ValidGeometry(g, img.Length) && ValidCircle(circle)
      requires g.width <= intensityGeometry.width && g.height <= intensityGeometry.height
      modifies featureIntensity, candidates
      ensures Valid()
      ensures featureIntensity[..]
           == IntensityImage(img[..], g, circle, pixelTol, minCont, old(featureIntensity[..]), intensityGeometry)
      ensures candidates.points == Corners(img[..], g, circle, pixelTol, minCont)
      ensures candidates.maxSize >= old(candidates.maxSize)
    {
      candidates.Reset();
      var offsets := ImageOffsets(circle, g.stride);
      ProcessRows(img, g, circle, offsets, featureIntensity[..],
                  ScoreMap(img[..], g, circle, pixelTol, minCont), CornerMap(img[..], g, circle, pixelTol, minCont));
    }

    /** The row loop of `Process`, for the image's scores `score` and corner test `corner`:
     *  paints the interior of the intensity image and queues the corners in scan order. */
    method ProcessRows(img: array<Byte>, g: Geometry, circle: seq<(int, int)>, offsets: seq<int>,
                       ghost d0: seq<int>, ghost score: (int, int) -> int, ghost corner: (int, int) -> bool)
      requires Valid() && ValidGeometry(g, img.Length) && ValidCircle(circle)
      requires g.width <= intensityGeometry.width && g.height <= intensityGeometry.height
      requires offsets == ImageOffsets(circle, g.stride)
      requires ScoresOf(img[..], g, circle, pixelTol, minCont, score, corner)
      requires featureIntensity[..] == d0 && candidates.points == []
      modifies featureIntensity, candidates
      ensures Valid() && candidates.maxSize >= old(candidates.maxSize)
      ensures featureIntensity[..] == Paint(d0, intensityGeometry, Border, g.width - Border, Border, g.height - Border, score)
      ensures candidates.points == RowsSelected(corner, g.width, g.height - Border)
    {
      var yEnd := g.height - Border;
      PaintStart(d0, intensityGeometry, Border, g.width - Border, Border, score);
      var y := Border;
      while y < yEnd
        invariant Border <= y && (y <= yEnd || y == Border)
        invariant Valid() && candidates.maxSize >= old(candidates.maxSize)
        invariant featureIntensity[..]
               == PaintedSoFar(d0, intensityGeometry, Border, g.width - Border, Border, y, Border, score)
        invariant candidates.points == RowsSelected(corner, g.width, y)
      {
        ProcessRow(img, g, circle, offsets, y, d0, score, corner);
        y := y + 1;
      }
      PaintDone(d0, intensityGeometry, Border, g.width - Border, Border, yEnd, y, score);
    }

    /** One row of the row loop: scores the pixels of row y from column 3 to width - 3, left to
     *  right, and queues the corners among them. */
    method ProcessRow(img: array<Byte>, g: Geometry, circle: seq<(int, int)>, offsets: seq<int>, y: int,
                      ghost d0: seq<int>, ghost score: (int, int) -> int, ghost corner: (int, int) -> bool)
      requires Valid() && ValidGeometry(g, img.Length) && ValidCircle(circle)
      requires g.width <= intensityGeometry.width && g.height <= intensityGeometry.height
      requires offsets == ImageOffsets(circle, g.stride) && Border <= y < g.height - Border
      requires ScoresOf(img[..], g, circle, pixelTol, minCont, score, corner)
      requires featureIntensity[..] == PaintedSoFar(d0, intensityGeometry, Border, g.width - Border, Border, y,
                                                    Border, score)
      requires candidates.points == RowsSelected(corner, g.width, y)
      modifies featureIntensity, candidates
      ensures Valid() && candidates.maxSize >= old(candidates.maxSize)
      ensures featureIntensity[..] == PaintedSoFar(d0, intensityGeometry, Border, g.width - Border, Border, y + 1,
                                                   Border, score)
      ensures candidates.points == RowsSelected(corner, g.width, y + 1)
    {
      ghost var queued0 := candidates.points;
      var ig := intensityGeometry;
      var rowStart := g.start + g.stride * y;
      var endX := rowStart + g.width - Border;
      var intenIndex := ig.start + y * ig.stride + Border;
      var index := rowStart + Border;
      while index < endX
        invariant Border <= index - rowStart && (index <= endX || index - rowStart == Border)
        invariant intenIndex == Index(ig, index - rowStart, y) && index == Index(g, index - rowStart, y)
        invariant Valid() && candidates.maxSize >= old(candidates.maxSize)
        invariant featureIntensity[..] == PaintedSoFar(d0, ig, Border, g.width - Border, Border, y, index - rowStart, score)
        invariant candidates.points == queued0 + RowSelected(corner, y, index - rowStart)
      {
        ProcessPixel(img, g, circle, offsets, index - rowStart, y, index, intenIndex, d0, score, corner, queued0);
        intenIndex := intenIndex + 1;
        index := index + 1;
      }
      PaintNextRow(d0, ig, Border, g.width - Border, Border, y, index - rowStart, score);
      if index - rowStart != g.width - Border {
        RowSelectedEmpty(corner, y, index - rowStart, g.width);
      }
      QueueRowsStep(corner, g.width, y);
    }

    /** The body of the pixel loop for pixel (x, y) at `index`, whose intensity element is
     *  `intenIndex`: scores it, stores the score and queues the pixel if it is a corner. */
    method ProcessPixel(img: array<Byte>, g: Geometry, circle: seq<(int, int)>, offsets: seq<int>,
                        x: int, y: int, index: int, intenIndex: int,
                        ghost d0: seq<int>, ghost score: (int, int) -> int, ghost corner: (int, int) -> bool,
                        ghost queued0: seq<Point>)
      requires Valid() && ValidGeometry(g, img.Length) && ValidCircle(circle)
      requires g.width <= intensityGeometry.width && g.height <= intensityGeometry.height
      requires offsets == ImageOffsets(circle, g.stride) && Interior(g, x, y)
      requires index == Index(g, x, y) && intenIndex == Index(intensityGeometry, x, y)
      requires ScoresOf(img[..], g, circle, pixelTol, minCont, score, corner)
      requires featureIntensity[..] == PaintedSoFar(d0, intensityGeometry, Border, g.width - Border, Border, y, x, score)
      requires candidates.points == queued0 + RowSelected(corner, y, x)
      modifies featureIntensity, candidates
      ensures Valid() && candidates.maxSize >= old(candidates.maxSize)
      ensures featureIntensity[..] == PaintedSoFar(d0, intensityGeometry, Border, g.width - Border, Border, y, x + 1, score)
      ensures candidates.points == queued0 + RowSelected(corner, y, x + 1)
      ensures candidates.maxSize
           == if corner(x, y) && |old(candidates.points)| == old(candidates.maxSize) then 2 * old(candidates.maxSize)
              else old(candidates.maxSize)
    {
      IndexInBounds(intensityGeometry, featureIntensity.Length, x, y);
      var action, isCorner, totalDiff := ScorePixelAt(img, g, circle, offsets, x, y, index, score, corner);
      StoreScore(intenIndex, action, isCorner, totalDiff, x, y);
      PaintStep(d0, intensityGeometry, Border, g.width - Border, Border, y, x, score);
      QueueRowStep(corner, y, x, isCorner, queued0);
    }
  }
}
