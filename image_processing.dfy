/** The chroma-key background filter: a pixel whose colour lies closer than the
    threshold to a chosen background colour is background, and each public
    operation overwrites the background pixels of the held bitmap in place. */
module ImageProcessor {
  import opened Drawing

  /** The largest accepted threshold: just above the largest possible colour
      distance, floor(sqrt(3 * 255 * 255)) == 441. */
  const MaxThreshold: int := 442

  /** A sensitivity threshold the constructor accepts. */
  type Threshold = t: int | 0 <= t <= MaxThreshold

  /** The exception the constructor throws (ArgumentOutOfRangeException on "threshold"). */
  datatype Error = ThresholdOutOfRange(threshold: int)

  datatype Result<T> = Ok(value: T) | Err(error: Error)

  /** A snapshot of one pixel: where it is and which colour it had when it was read. */
  datatype Pixel = Pixel(point: Point, color: Color)

  // ---------------------------------------------------------------------------
  // Threshold check

  /** The range check the constructor performs before it stores anything. */
  function CheckThreshold(threshold: int): (r: Result<Threshold>)
    ensures r.Ok? <==> 0 <= threshold <= MaxThreshold
    ensures r.Ok? ==> r.value == threshold
    ensures r.Err? ==> r.error == ThresholdOutOfRange(threshold)
  {
    if threshold < 0 || threshold > MaxThreshold then Err(ThresholdOutOfRange(threshold))
    else Ok(threshold)
  }

  // ---------------------------------------------------------------------------
  // Colour distance

  /** n * n, written as the sum of the first n odd numbers (SquareIsProduct proves the
      two agree). The recursive form keeps multiplication out of every proof that does
      not ask for it. */
  function Square(n: nat): nat
  {
    if n == 0 then 0 else Square(n - 1) + 2 * n - 1
  }

  lemma {:induction false} SquareIsProduct(n: nat)
    ensures Square(n) == n * n
  {
    if n > 0 {
      SquareIsProduct(n - 1);
    }
  }

  lemma {:induction false} SquareMonotone(a: nat, b: nat)
    requires a <= b
    ensures Square(a) <= Square(b)
    decreases b - a
  {
    if a < b {
      SquareMonotone(a, b - 1);
    }
  }

  /** Integer square root, standing for (int)Math.Sqrt(n): the largest s with s * s <= n.
      Each step doubles the root of n / 4 and adjusts it by one, so the recursion is logarithmic. */
  function FloorSqrt(n: nat): (s: nat)
    ensures Square(s) <= n < Square(s + 1)
    decreases n
  {
    if n < 4 then
      (if n == 0 then 0 else 1)
    else
      var half := FloorSqrt(n / 4);
      RefineRootCorrect(n, half);
      RefineRoot(n, half)
  }

  /** 2h + 1 if its square still fits under n, 2h otherwise. */
  function RefineRoot(n: nat, h: nat): nat
  {
    if Square(2 * h + 1) <= n then 2 * h + 1 else 2 * h
  }

  /** If h is the root of n / 4, then the root of n is 2h or 2h + 1. */
  lemma RefineRootCorrect(n: nat, h: nat)
    requires Square(h) <= n / 4 < Square(h + 1)
    ensures Square(RefineRoot(n, h)) <= n < Square(RefineRoot(n, h) + 1)
  {
    SquareIsProduct(h);
    SquareIsProduct(h + 1);
    SquareIsProduct(2 * h);
    SquareIsProduct(2 * h + 2);
    assert (2 * h) * (2 * h) == 4 * (h * h);
    assert (2 * h + 2) * (2 * h + 2) == 4 * ((h + 1) * (h + 1));
  }

  /** The floor square root is the only number whose square brackets n. */
  lemma {:induction false} FloorSqrtUnique(n: nat, s: nat)
    requires Square(s) <= n < Square(s + 1)
    ensures FloorSqrt(n) == s
  {
    var t := FloorSqrt(n);
    if t < s {
      SquareMonotone(t + 1, s);
    } else if s < t {
      SquareMonotone(s + 1, t);
    }
  }

  function Abs(d: int): nat
  {
    if d < 0 then -d else d
  }

  /** The squared Euclidean distance over red, green and blue; alpha plays no part. */
  function SquaredDistance(c1: Color, c2: Color): (s: nat)
    ensures s == 0 <==> (c1.r == c2.r && c1.g == c2.g && c1.b == c2.b)
  {
    Square(Abs(c1.r - c2.r)) + Square(Abs(c1.g - c2.g)) + Square(Abs(c1.b - c2.b))
  }

  /** The Euclidean distance between the RGB parts of two colours, truncated to an integer. */
  function ColorDistance(c1: Color, c2: Color): (d: nat)
    ensures Square(d) <= SquaredDistance(c1, c2) < Square(d + 1)
  {
    FloorSqrt(SquaredDistance(c1, c2))
  }

  lemma DistanceSymmetric(c1: Color, c2: Color)
    ensures ColorDistance(c1, c2) == ColorDistance(c2, c1)
  {
    assert SquaredDistance(c1, c2) == SquaredDistance(c2, c1);
  }

  /** Alpha is ignored: changing either colour's alpha leaves the distance as it was. */
  lemma DistanceIgnoresAlpha(c1: Color, c2: Color, a1: Byte, a2: Byte)
    ensures ColorDistance(c1.(a := a1), c2.(a := a2)) == ColorDistance(c1, c2)
  {
    assert SquaredDistance(c1.(a := a1), c2.(a := a2)) == SquaredDistance(c1, c2);
  }

  /** The distance is zero exactly when the red, green and blue channels agree. */
  lemma DistanceZeroIffSameRgb(c1: Color, c2: Color)
    ensures ColorDistance(c1, c2) == 0 <==> (c1.r == c2.r && c1.g == c2.g && c1.b == c2.b)
  {
    assert Square(1) == 1;
  }

  /** No two 8-bit colours are 442 or more apart, so the largest distance is 441. */
  lemma DistanceAtMost441(c1: Color, c2: Color)
    ensures ColorDistance(c1, c2) <= MaxThreshold - 1
  {
    SquareMonotone(Abs(c1.r - c2.r), 255);
    SquareMonotone(Abs(c1.g - c2.g), 255);
    SquareMonotone(Abs(c1.b - c2.b), 255);
    SquareIsProduct(255);
    SquareIsProduct(MaxThreshold);
    var d := ColorDistance(c1, c2);
    if d >= MaxThreshold {
      SquareMonotone(MaxThreshold, d);
    }
  }

  /** The largest distance is reached: black and white are 441 apart. */
  lemma BlackWhiteDistance(black: Color, white: Color)
    requires black.r == black.g == black.b == 0
    requires white.r == white.g == white.b == 255
    ensures ColorDistance(black, white) == MaxThreshold - 1
  {
    SquareIsProduct(255);
    SquareIsProduct(MaxThreshold - 1);
    SquareIsProduct(MaxThreshold);
    FloorSqrtUnique(SquaredDistance(black, white), MaxThreshold - 1);
  }

  /** Pure red and pure green are 360 apart (the true distance is about 360.6), so at
      threshold 10 a red pixel is background for a red background colour and a green one is not. */
  lemma RedGreenDistance(red: Color, green: Color, threshold: int)
    requires red.r == 255 && red.g == 0 && red.b == 0
    requires green.r == 0 && green.g == 255 && green.b == 0
    requires 0 < threshold <= 360
    ensures ColorDistance(red, green) == 360
    ensures IsBackground(red, red, threshold) && !IsBackground(green, red, threshold)
  {
    SquareIsProduct(255);
    SquareIsProduct(360);
    SquareIsProduct(361);
    FloorSqrtUnique(SquaredDistance(red, green), 360);
    DistanceSymmetric(red, green);
    DistanceZeroIffSameRgb(red, red);
  }

  // ---------------------------------------------------------------------------
  // Classification

  /** The background test: strictly closer than the threshold. Comparing the truncated
      distance with the integer threshold decides the same as comparing the exact distance:
      the squared distance is below the squared threshold. */
  predicate IsBackground(c: Color, backgroundColor: Color, threshold: int): (b: bool)
    ensures b <==> threshold > 0 && SquaredDistance(c, backgroundColor) < Square(threshold)
  {
    var d := ColorDistance(c, backgroundColor);
    if d < threshold then
      SquareMonotone(d + 1, threshold);
      true
    else
      if threshold > 0 then SquareMonotone(threshold, d); false else false
  }

  /** Keeps, in order, the pixels whose colour is background (the Where filter). */
  function GetBackground(allPixels: seq<Pixel>, backgroundColor: Color, threshold: int): (background: seq<Pixel>)
    ensures |background| <= |allPixels|
    ensures forall p :: p in background <==> p in allPixels && IsBackground(p.color, backgroundColor, threshold)
  {
    if allPixels == [] then []
    else
      var rest := GetBackground(allPixels[1..], backgroundColor, threshold);
      assert allPixels == [allPixels[0]] + allPixels[1..];
      if IsBackground(allPixels[0].color, backgroundColor, threshold) then [allPixels[0]] + rest else rest
  }

  /** A pixel exactly at the threshold distance is foreground. */
  lemma AtThresholdIsForeground(c: Color, backgroundColor: Color)
    ensures !IsBackground(c, backgroundColor, ColorDistance(c, backgroundColor))
  {
  }

  /** A colour equal in RGB to the background colour is background for every positive threshold. */
  lemma SameRgbIsBackground(c: Color, backgroundColor: Color, threshold: int)
    requires c.r == backgroundColor.r && c.g == backgroundColor.g && c.b == backgroundColor.b
    ensures IsBackground(c, backgroundColor, threshold) <==> threshold > 0
  {
    DistanceZeroIffSameRgb(c, backgroundColor);
  }

  /** Threshold 0 selects no pixel. */
  lemma {:induction false} ZeroThresholdSelectsNothing(allPixels: seq<Pixel>, backgroundColor: Color)
    ensures GetBackground(allPixels, backgroundColor, 0) == []
  {
    if allPixels != [] {
      ZeroThresholdSelectsNothing(allPixels[1..], backgroundColor);
    }
  }

  /** Threshold 442 selects every pixel, in the order given. */
  lemma {:induction false} MaxThresholdSelectsAll(allPixels: seq<Pixel>, backgroundColor: Color)
    ensures GetBackground(allPixels, backgroundColor, MaxThreshold) == allPixels
  {
    if allPixels != [] {
      DistanceAtMost441(allPixels[0].color, backgroundColor);
      MaxThresholdSelectsAll(allPixels[1..], backgroundColor);
      assert allPixels == [allPixels[0]] + allPixels[1..];
    }
  }

  /** Monotonicity in the threshold: the background under a smaller threshold is
      exactly what the smaller threshold keeps of the background under a larger one,
      so it is a subset of it and comes in the same order. */
  lemma {:induction false} BackgroundMonotone(allPixels: seq<Pixel>, backgroundColor: Color, t1: int, t2: int)
    requires t1 <= t2
    ensures GetBackground(GetBackground(allPixels, backgroundColor, t2), backgroundColor, t1)
            == GetBackground(allPixels, backgroundColor, t1)
  {
    if allPixels != [] {
      BackgroundMonotone(allPixels[1..], backgroundColor, t1, t2);
      var p := allPixels[0];
      var rest2 := GetBackground(allPixels[1..], backgroundColor, t2);
      if IsBackground(p.color, backgroundColor, t2) {
        assert ([p] + rest2)[1..] == rest2;
      }
    }
  }

  // ---------------------------------------------------------------------------
  // Row-major enumeration

  /** Where row-major order puts coordinate (x, y) of a grid of the given width. */
  function RowMajorIndex(x: int, y: int, width: int): int
  {
    y * width + x
  }

  /** p comes before q in row-major order: an earlier row, or the same row and an earlier column. */
  predicate RowMajorBefore(p: Point, q: Point)
  {
    p.y < q.y || (p.y == q.y && p.x < q.x)
  }

  /** The pixels come in strictly increasing row-major order. */
  predicate IsRowMajor(pixels: seq<Pixel>)
  {
    forall i, j :: 0 <= i < j < |pixels| ==> RowMajorBefore(pixels[i].point, pixels[j].point)
  }

  /** Coordinate (x, y) sits at its row-major index. */
  predicate PlacedAt(pixels: seq<Pixel>, width: int, x: int, y: int)
  {
    0 <= RowMajorIndex(x, y, width) < |pixels| && pixels[RowMajorIndex(x, y, width)].point == Point(x, y)
  }

  /** There are width * height pixels and every coordinate of the grid sits at its row-major index. */
  predicate EnumeratesGrid(pixels: seq<Pixel>, width: nat, height: nat)
  {
    && |pixels| == width * height
    && forall x, y :: 0 <= x < width && 0 <= y < height ==> PlacedAt(pixels, width, x, y)
  }

  /** Every index of a width * height grid is the row-major index of one in-range coordinate. */
  lemma IndexCoordinates(i: int, width: nat, height: nat)
    requires 0 <= i < width * height
    ensures width > 0 && 0 <= i % width < width && 0 <= i / width < height
    ensures RowMajorIndex(i % width, i / width, width) == i
  {
    if i / width >= height {
      assert (i / width) * width >= height * width by { MulMonotone(height, i / width, width); }
    }
  }

  lemma MulMonotone(a: nat, b: nat, w: nat)
    requires a <= b
    ensures a * w <= b * w
  {
  }

  /** Row-major indices are ordered as their coordinates are. */
  lemma RowMajorIndexOrder(p: Point, q: Point, width: nat)
    requires 0 <= p.x < width && 0 <= q.x < width && 0 <= p.y && 0 <= q.y
    requires RowMajorIndex(p.x, p.y, width) < RowMajorIndex(q.x, q.y, width)
    ensures RowMajorBefore(p, q)
  {
    if q.y < p.y {
      MulMonotone(q.y + 1, p.y, width);
      assert false;
    }
  }

  /** An enumeration of the grid visits each coordinate exactly once: every entry lies
      inside the grid at the row-major index of its own coordinate. */
  lemma EnumerationVisitsEachOnce(pixels: seq<Pixel>, width: nat, height: nat)
    requires EnumeratesGrid(pixels, width, height)
    ensures forall i :: 0 <= i < |pixels| ==>
      && 0 <= pixels[i].point.x < width && 0 <= pixels[i].point.y < height
      && RowMajorIndex(pixels[i].point.x, pixels[i].point.y, width) == i
    ensures forall i, j :: 0 <= i < |pixels| && 0 <= j < |pixels| && pixels[i].point == pixels[j].point ==> i == j
  {
    forall i | 0 <= i < |pixels|
      ensures 0 <= pixels[i].point.x < width && 0 <= pixels[i].point.y < height
      ensures RowMajorIndex(pixels[i].point.x, pixels[i].point.y, width) == i
    {
      IndexCoordinates(i, width, height);
      assert PlacedAt(pixels, width, i % width, i / width);
    }
  }

  /** An enumeration of the grid is in row-major order (y outer, x inner). */
  lemma EnumerationIsRowMajor(pixels: seq<Pixel>, width: nat, height: nat)
    requires EnumeratesGrid(pixels, width, height)
    ensures IsRowMajor(pixels)
  {
    EnumerationVisitsEachOnce(pixels, width, height);
    forall i, j | 0 <= i < j < |pixels|
      ensures RowMajorBefore(pixels[i].point, pixels[j].point)
    {
      RowMajorIndexOrder(pixels[i].point, pixels[j].point, width);
    }
  }

  /** A pixel placed before every pixel of a row-major list can go in front of it. */
  lemma ConsRowMajor(p: Pixel, rest: seq<Pixel>)
    requires IsRowMajor(rest)
    requires forall q :: q in rest ==> RowMajorBefore(p.point, q.point)
    ensures IsRowMajor([p] + rest)
  {
    var r := [p] + rest;
    forall i, j | 0 <= i < j < |r|
      ensures RowMajorBefore(r[i].point, r[j].point)
    {
      assert r[j] == rest[j - 1];
      if i > 0 {
        assert r[i] == rest[i - 1];
      }
    }
  }

  /** The filter keeps its input's row-major order. */
  lemma {:induction false} BackgroundIsRowMajor(allPixels: seq<Pixel>, backgroundColor: Color, threshold: int)
    requires IsRowMajor(allPixels)
    ensures IsRowMajor(GetBackground(allPixels, backgroundColor, threshold))
  {
    if allPixels != [] {
      var head, tail := allPixels[0], allPixels[1..];
      assert IsRowMajor(tail) by {
        forall i, j | 0 <= i < j < |tail|
          ensures RowMajorBefore(tail[i].point, tail[j].point)
        {
          assert tail[i] == allPixels[i + 1] && tail[j] == allPixels[j + 1];
        }
      }
      BackgroundIsRowMajor(tail, backgroundColor, threshold);
      if IsBackground(head.color, backgroundColor, threshold) {
        var rest := GetBackground(tail, backgroundColor, threshold);
        forall q | q in rest
          ensures RowMajorBefore(head.point, q.point)
        {
          var k :| 0 <= k < |tail| && tail[k] == q;
          assert allPixels[k + 1] == q;
        }
        ConsRowMajor(head, rest);
      }
    }
  }

  // ---------------------------------------------------------------------------
  // Lightening

  /** One channel blended 25% toward white and truncated: (int)(c + 0.25 * (255 - c)).
      A quarter is exact in binary, so the double expression is c + (255 - c) / 4. */
  function LightenChannel(c: Byte): (l: Byte)
    ensures c <= l
    ensures l == (3 * c + 255) / 4
  {
    c + (255 - c) / 4
  }

  /** Color.FromArgb of the three lightened channels: the alpha becomes 255. */
  function Lighten(c: Color): (l: Color)
    ensures l.a == 255
    ensures c.r <= l.r && c.g <= l.g && c.b <= l.b
    ensures l.r == (3 * c.r + 255) / 4 && l.g == (3 * c.g + 255) / 4 && l.b == (3 * c.b + 255) / 4
  {
    FromRgb(LightenChannel(c.r), LightenChannel(c.g), LightenChannel(c.b))
  }

  /** Black goes to 63 and white stays white. */
  lemma LightenEnds()
    ensures LightenChannel(0) == 63 && LightenChannel(255) == 255
  {
  }

  /** A channel stays where it is exactly when it is within 3 of white. */
  lemma LightenFixedPoints(c: Byte)
    ensures LightenChannel(c) == c <==> c >= 252
  {
  }

  /** Lightening twice changes nothing more exactly when every RGB channel
      starts at 251 or above; every other colour gets lighter again. */
  lemma LightenTwice(c: Color)
    ensures Lighten(Lighten(c)) == Lighten(c) <==> (c.r >= 251 && c.g >= 251 && c.b >= 251)
  {
    LightenFixedPoints(LightenChannel(c.r));
    LightenFixedPoints(LightenChannel(c.g));
    LightenFixedPoints(LightenChannel(c.b));
  }

  /** The operation is not idempotent: black lightens to 63 and then to 111. */
  lemma LightenNotIdempotent()
    ensures Lighten(Color(255, 0, 0, 0)) == Color(255, 63, 63, 63)
    ensures Lighten(Lighten(Color(255, 0, 0, 0))) == Color(255, 111, 111, 111)
  {
  }

  // ---------------------------------------------------------------------------
  // The filter

  /** Every entry lies inside the image and carries the colour the image holds there. */
  ghost predicate IsSnapshot(pixels: seq<Pixel>, image: array2<Color>)
    reads image
  {
    forall i :: 0 <= i < |pixels| ==>
      && 0 <= pixels[i].point.x < image.Length0 && 0 <= pixels[i].point.y < image.Length1
      && pixels[i].color == image[pixels[i].point.x, pixels[i].point.y]
  }

  /** Appending the snapshot of an in-range pixel keeps a snapshot a snapshot. */
  lemma SnapshotAppend(pixels: seq<Pixel>, image: array2<Color>, x: int, y: int)
    requires IsSnapshot(pixels, image)
    requires 0 <= x < image.Length0 && 0 <= y < image.Length1
    ensures IsSnapshot(pixels + [Pixel(Point(x, y), image[x, y])], image)
  {
  }

  /** Rows 0 .. y - 1, and the first x columns of row y, sit at their row-major indices. */
  ghost predicate ListsRows(pixels: seq<Pixel>, width: int, y: int, x: int)
  {
    && (forall xx, yy :: 0 <= xx < width && 0 <= yy < y ==> PlacedAt(pixels, width, xx, yy))
    && (forall xx :: 0 <= xx < x ==> PlacedAt(pixels, width, xx, y))
  }

  lemma ListsRowsAppend(pixels: seq<Pixel>, width: int, y: int, x: int, c: Color)
    requires 0 <= x < width && ListsRows(pixels, width, y, x)
    requires |pixels| == RowMajorIndex(x, y, width)
    ensures ListsRows(pixels + [Pixel(Point(x, y), c)], width, y, x + 1)
  {
    var next := pixels + [Pixel(Point(x, y), c)];
    forall xx, yy | 0 <= xx < width && 0 <= yy < y
      ensures PlacedAt(next, width, xx, yy)
    {
      assert PlacedAt(pixels, width, xx, yy);
    }
    forall xx | 0 <= xx < x + 1
      ensures PlacedAt(next, width, xx, y)
    {
      if xx < x {
        assert PlacedAt(pixels, width, xx, y);
      }
    }
  }

  lemma ListsRowsNextRow(pixels: seq<Pixel>, width: int, y: int)
    requires ListsRows(pixels, width, y, width)
    ensures ListsRows(pixels, width, y + 1, 0)
  {
  }

  /** All rows of a grid in place, and nothing more, is an enumeration of it. */
  lemma ListsRowsEnumerates(pixels: seq<Pixel>, width: nat, height: nat)
    requires ListsRows(pixels, width, height, 0)
    requires |pixels| == RowMajorIndex(0, height, width)
    ensures EnumeratesGrid(pixels, width, height)
  {
  }

  /** Some entry among the first n sits at coordinate pt. */
  ghost predicate ListsPoint(pixels: seq<Pixel>, n: int, pt: Point)
    requires n <= |pixels|
  {
    exists j :: 0 <= j < n && pixels[j].point == pt
  }

  /** What classification yields on a snapshot of the whole image: a coordinate is
      listed as background exactly when the colour there is background, and every
      listed entry carries the colour at its coordinate. */
  lemma ClassifiedCoordinates(image: array2<Color>, pixels: seq<Pixel>, backgroundColor: Color, threshold: int)
    requires EnumeratesGrid(pixels, image.Length0, image.Length1) && IsSnapshot(pixels, image)
    ensures IsSnapshot(GetBackground(pixels, backgroundColor, threshold), image)
    ensures forall x, y :: 0 <= x < image.Length0 && 0 <= y < image.Length1 ==>
      (ListsPoint(GetBackground(pixels, backgroundColor, threshold), |GetBackground(pixels, backgroundColor, threshold)|, Point(x, y))
       <==> IsBackground(image[x, y], backgroundColor, threshold))
  {
    var background := GetBackground(pixels, backgroundColor, threshold);
    forall i | 0 <= i < |background|
      ensures 0 <= background[i].point.x < image.Length0 && 0 <= background[i].point.y < image.Length1
      ensures background[i].color == image[background[i].point.x, background[i].point.y]
    {
      assert background[i] in pixels;
    }
    forall x, y | 0 <= x < image.Length0 && 0 <= y < image.Length1
      ensures ListsPoint(background, |background|, Point(x, y)) <==> IsBackground(image[x, y], backgroundColor, threshold)
    {
      assert PlacedAt(pixels, image.Length0, x, y);
      var p := pixels[RowMajorIndex(x, y, image.Length0)];
      if IsBackground(image[x, y], backgroundColor, threshold) {
        assert p in background;
        var j :| 0 <= j < |background| && background[j] == p;
        assert background[j].point == Point(x, y);
      }
      if ListsPoint(background, |background|, Point(x, y)) {
        var j :| 0 <= j < |background| && background[j].point == Point(x, y);
        assert background[j] in pixels;
      }
    }
  }

  /** The filter object: the bitmap it edits and the threshold it classifies with. */
  class ImageProcessing {
    const image: array2<Color>
    const threshold: Threshold

    /** Stores the bitmap (not a copy of it) and the threshold. */
    constructor (image: array2<Color>, threshold: Threshold)
      ensures this.image == image && this.threshold == threshold
    {
      this.image := image;
      this.threshold := threshold;
    }

    /** The public constructor: rejects a threshold outside [0, 442] before storing anything. */
    static method Create(image: array2<Color>, threshold: int) returns (r: Result<ImageProcessing>)
      ensures r.Err? <==> threshold < 0 || threshold > MaxThreshold
      ensures r.Err? ==> r.error == ThresholdOutOfRange(threshold)
      ensures r.Ok? ==> fresh(r.value) && r.value.image == image && r.value.threshold == threshold
    {
      match CheckThreshold(threshold)
      case Err(e) =>
        r := Err(e);
      case Ok(t) =>
        var processor := new ImageProcessing(image, t);
        r := Ok(processor);
    }

    /** Snapshots every pixel of the image in row-major order (y outer, x inner). */
    method GetPixels() returns (pixels: seq<Pixel>)
      ensures EnumeratesGrid(pixels, image.Length0, image.Length1)
      ensures IsSnapshot(pixels, image)
    {
      var width, height := image.Length0, image.Length1;
      pixels := [];
      for y := 0 to height
        invariant |pixels| == RowMajorIndex(0, y, width)
        invariant ListsRows(pixels, width, y, 0)
        invariant IsSnapshot(pixels, image)
      {
        for x := 0 to width
          invariant |pixels| == RowMajorIndex(x, y, width)
          invariant ListsRows(pixels, width, y, x)
          invariant IsSnapshot(pixels, image)
        {
          ListsRowsAppend(pixels, width, y, x, image[x, y]);
          SnapshotAppend(pixels, image, x, y);
          pixels := pixels + [Pixel(Point(x, y), image[x, y])];
        }
        assert RowMajorIndex(0, y + 1, width) == RowMajorIndex(width, y, width);
        ListsRowsNextRow(pixels, width, y);
      }
      ListsRowsEnumerates(pixels, width, height);
    }

    /** The loop the three operations share: writes paint(colour) at each listed coordinate. */
    method Repaint(background: seq<Pixel>, paint: Color -> Color)
      requires IsSnapshot(background, image)
      modifies image
      ensures forall x, y :: 0 <= x < image.Length0 && 0 <= y < image.Length1 ==>
        image[x, y] == if ListsPoint(background, |background|, Point(x, y)) then paint(old(image[x, y])) else old(image[x, y])
    {
      for i := 0 to |background|
        invariant forall j :: 0 <= j < |background| ==>
          background[j].color == old(image[background[j].point.x, background[j].point.y])
        invariant forall x, y :: 0 <= x < image.Length0 && 0 <= y < image.Length1 ==>
          image[x, y] == if ListsPoint(background, i, Point(x, y)) then paint(old(image[x, y])) else old(image[x, y])
      {
        var p := background[i];
        image[p.point.x, p.point.y] := paint(p.color);
      }
    }

    /** Classifies on a snapshot taken before any write, then repaints. */
    method RepaintBackground(backgroundColor: Color, paint: Color -> Color)
      modifies image
      ensures forall x, y :: 0 <= x < image.Length0 && 0 <= y < image.Length1 ==>
        image[x, y] == if IsBackground(old(image[x, y]), backgroundColor, threshold) then paint(old(image[x, y])) else old(image[x, y])
    {
      var pixels := GetPixels();
      var background := GetBackground(pixels, backgroundColor, threshold);
      ClassifiedCoordinates(image, pixels, backgroundColor, threshold);
      Repaint(background, paint);
    }

    /** Makes every background pixel Color.Transparent and returns the held bitmap. */
    method DeleteBackground(backgroundColor: Color) returns (result: array2<Color>)
      modifies image
      ensures result == image
      ensures forall x, y :: 0 <= x < image.Length0 && 0 <= y < image.Length1 ==>
        image[x, y] == if IsBackground(old(image[x, y]), backgroundColor, threshold) then Transparent else old(image[x, y])
    {
      RepaintBackground(backgroundColor, _ => Transparent);
      result := image;
    }

    /** Overwrites every background pixel with colorChangeTo and returns the held bitmap. */
    method MakeSolidBackground(backgroundColor: Color, colorChangeTo: Color) returns (result: array2<Color>)
      modifies image
      ensures result == image
      ensures forall x, y :: 0 <= x < image.Length0 && 0 <= y < image.Length1 ==>
        image[x, y] == if IsBackground(old(image[x, y]), backgroundColor, threshold) then colorChangeTo else old(image[x, y])
    {
      RepaintBackground(backgroundColor, _ => colorChangeTo);
      result := image;
    }

    /** Lightens every background pixel 25% toward white (opaque) and returns the held bitmap. */
    method LightenBackground(backgroundColor: Color) returns (result: array2<Color>)
      modifies image
      ensures result == image
      ensures forall x, y :: 0 <= x < image.Length0 && 0 <= y < image.Length1 ==>
        image[x, y] == if IsBackground(old(image[x, y]), backgroundColor, threshold) then Lighten(old(image[x, y])) else old(image[x, y])
    {
      RepaintBackground(backgroundColor, Lighten);
      result := image;
    }
  }
}
