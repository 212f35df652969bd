# ImageProcessor: chroma-key background filter

This project models the `ImageProcessing` class of ImageProcessor in Dafny.
The class holds a bitmap and a sensitivity threshold. Given a background colour,
it classifies each pixel as background when the pixel's colour is strictly closer
to that colour than the threshold. Distance is the integer-truncated Euclidean
distance over red, green and blue. One of three transforms then overwrites the
background pixels in place:
- `DeleteBackground` makes them transparent.
- `MakeSolidBackground` paints them a given colour.
- `LightenBackground` blends them 25% toward white.

Each transform returns the bitmap the object holds.

Files:
- `drawing.dfy` (module `Drawing`) holds the System.Drawing value types the filter uses:
  - an ARGB `Color` with 8-bit channels;
  - `Color.Transparent`, which is ARGB (0, 255, 255, 255);
  - the three-argument `Color.FromArgb`, which makes an opaque colour;
  - `Point`.
- `image_processing.dfy` (module `ImageProcessor`) holds everything else:
  - the threshold check;
  - the integer square root and the colour distance;
  - the classifier and the `Where` filter over pixel snapshots;
  - row-major enumeration;
  - the lightening blend;
  - the class `ImageProcessing`.

The class keeps the bitmap as a `const image: array2<Color>`, indexed `image[x, y]`.
`image.Length0` is the width and `image.Length1` is the height. The threshold is a
`const` of subset type `Threshold`, which holds [0, 442]. Both mirror the source's
`readonly` fields.

The source's constructor throws `ArgumentOutOfRangeException` for a threshold outside
[0, 442]. The static method `Create` models that check: it calls `CheckThreshold`,
returns the error for a rejected threshold, and builds an object only for an accepted
one. The constructor itself is public. An out-of-range value cannot reach it because
its `threshold` parameter has the subset type `Threshold`.

`GetPixels` is a method with the source's two nested loops. The three transforms
share one loop, `Repaint`. That loop writes a colour computed from each listed
snapshot at that snapshot's coordinate. `RepaintBackground` takes the snapshot,
filters it, and repaints. Each transform's contract says two things about every
coordinate in the image:
- If the colour there before the call was background, it now holds the transform's colour.
- Otherwise it holds its old colour.

Classification therefore always uses the colours from before any write.

Floating point is replaced by exact integer arithmetic:
- The square of a channel difference is `Square(|d|)`, which is defined as a sum of
  odd numbers. `SquareIsProduct` proves that it equals `d * d`.
- `(int)Math.Sqrt(n)` is `FloorSqrt(n)`, the largest `s` with `s * s <= n`. Here
  `n` is at most 3 * 255 * 255 = 195075. Consecutive square roots in that range
  are much further apart than one unit in the last place of a double.
- `(int)(c + 0.25 * (255 - c))` is `c + (255 - c) / 4`. A quarter is exact in
  binary and the value is never negative, so truncation is floor. `LightenChannel`
  proves that this equals `(3 * c + 255) / 4`.

Behaviour of the code that is easy to misread:
- The transforms mutate the held bitmap in place and return that same object. They
  do not work on a copy. With the `Bitmap` constructor, the held bitmap is the
  caller's own.
- `DeleteBackground` writes `Color.Transparent`, which is alpha 0 over white. It
  does not just clear the alpha.
- `LightenBackground` builds its result with the three-argument `Color.FromArgb`, so
  the alpha becomes 255. It is not left unchanged.
- `MakeSolidBackground` writes `colorChangeTo` exactly as given, alpha included.
- No clamping is needed in `LightenBackground`: every result already lies in
  [c, 255]. A channel from 252 to 255 does not change at all.

## Model

| member | source | states |
|---|---|---|
| `ImageProcessor.CheckThreshold` | ImageProcessing.cs:23-24 | a threshold is accepted iff it lies in [0, 442]; an accepted one is kept unchanged, a rejected one yields the out-of-range error naming it |
| `ImageProcessor.ImageProcessing.Create` | ImageProcessing.cs:21-28 | construction fails with the out-of-range error iff the threshold is outside [0, 442]; otherwise a new object holding exactly the given bitmap (not a copy) and threshold |
| `ImageProcessor.ImageProcessing.constructor` | ImageProcessing.cs:26-27 | stores the given bitmap and threshold |
| `ImageProcessor.SquareIsProduct` | ImageProcessing.cs:113-117 | the recursively defined square of a channel difference equals the product the source computes |
| `ImageProcessor.FloorSqrt` | ImageProcessing.cs:117 | the truncated square root: its square is at most n and the square of its successor exceeds n |
| `ImageProcessor.FloorSqrtUnique` | ImageProcessing.cs:117 | the truncated square root is the only number with that property |
| `ImageProcessor.SquaredDistance` | ImageProcessing.cs:113-117 | the sum of the squared channel differences is 0 iff red, green and blue agree |
| `ImageProcessor.ColorDistance` | ImageProcessing.cs:111-118 | the floor of the Euclidean distance over R, G and B: d^2 <= dr^2 + dg^2 + db^2 < (d + 1)^2 |
| `ImageProcessor.DistanceSymmetric` | ImageProcessing.cs:111-118 | the distance is symmetric |
| `ImageProcessor.DistanceIgnoresAlpha` | ImageProcessing.cs:113-115 | changing either colour's alpha does not change the distance |
| `ImageProcessor.DistanceZeroIffSameRgb` | ImageProcessing.cs:111-118 | the distance is 0 iff red, green and blue agree |
| `ImageProcessor.DistanceAtMost441` | ImageProcessing.cs:111-118 | no two 8-bit colours are more than 441 apart |
| `ImageProcessor.BlackWhiteDistance` | ImageProcessing.cs:111-118 | black and white are exactly 441 apart, so the bound is tight |
| `ImageProcessor.RedGreenDistance` | ImageProcessing.cs:106-118 | pure red and pure green are 360 apart, so for a red background colour and any threshold in (0, 360], red is background and green is not |
| `ImageProcessor.IsBackground` | ImageProcessing.cs:108 | a colour is background iff the threshold is positive and its squared distance is below the squared threshold; comparing the truncated distance with the integer threshold thus decides the same as comparing the exact distance |
| `ImageProcessor.GetBackground` | ImageProcessing.cs:106-109 | a pixel is in the result iff it is in the input and its distance to the background colour is strictly below the threshold; the result is no longer than the input |
| `ImageProcessor.AtThresholdIsForeground` | ImageProcessing.cs:108 | a colour exactly at the threshold distance is not background |
| `ImageProcessor.SameRgbIsBackground` | ImageProcessing.cs:108 | a colour equal in RGB to the background colour is background iff the threshold is positive |
| `ImageProcessor.ZeroThresholdSelectsNothing` | ImageProcessing.cs:108 | threshold 0 selects no pixel |
| `ImageProcessor.MaxThresholdSelectsAll` | ImageProcessing.cs:108 | threshold 442 selects every pixel, in the input's order |
| `ImageProcessor.BackgroundMonotone` | ImageProcessing.cs:108 | for t1 <= t2, the background under t1 equals the t1-filter applied to the background under t2, so it is a subset of it and comes in the same order |
| `ImageProcessor.BackgroundIsRowMajor` | ImageProcessing.cs:108 | filtering a strictly row-major list keeps it strictly row-major |
| `ImageProcessor.ImageProcessing.GetPixels` | ImageProcessing.cs:92-104 | returns width * height snapshots; coordinate (x, y) is at row-major index y * width + x; every entry is inside the image and carries the colour the image holds there |
| `ImageProcessor.EnumerationVisitsEachOnce` | ImageProcessing.cs:96-102 | every entry of the enumeration lies inside the grid at the row-major index of its own coordinate, so no coordinate appears twice |
| `ImageProcessor.EnumerationIsRowMajor` | ImageProcessing.cs:96-102 | the enumeration is strictly increasing in row-major order (y outer, x inner) |
| `ImageProcessor.ClassifiedCoordinates` | ImageProcessing.cs:41-42 | on a full snapshot, a coordinate is listed as background iff the colour the image holds there is background, and each listed entry carries that colour |
| `ImageProcessor.ImageProcessing.Repaint` | ImageProcessing.cs:44-47 | a listed coordinate ends up holding the paint of its pre-call colour; every other pixel is unchanged |
| `ImageProcessor.ImageProcessing.RepaintBackground` | ImageProcessing.cs:41-47 | each pixel that was background before the call is repainted from its pre-call colour; every other pixel is unchanged |
| `ImageProcessor.ImageProcessing.DeleteBackground` | ImageProcessing.cs:39-50 | background pixels become Color.Transparent (ARGB 0, 255, 255, 255); all others are unchanged; returns the held bitmap |
| `ImageProcessor.ImageProcessing.MakeSolidBackground` | ImageProcessing.cs:59-70 | background pixels become exactly colorChangeTo; all others are unchanged; returns the held bitmap |
| `ImageProcessor.ImageProcessing.LightenBackground` | ImageProcessing.cs:77-91 | background pixels become the opaque 25%-toward-white blend of their pre-call colour; all others are unchanged; returns the held bitmap |
| `ImageProcessor.LightenChannel` | ImageProcessing.cs:84-86 | the truncated blend equals (3c + 255) / 4 and never darkens a channel |
| `ImageProcessor.Lighten` | ImageProcessing.cs:84-87 | the lightened colour is opaque (alpha 255), no RGB channel gets darker, and each RGB channel is (3c + 255) / 4 of the old one |
| `ImageProcessor.LightenEnds` | ImageProcessing.cs:84-86 | channel 0 becomes 63, and 255 stays 255 |
| `ImageProcessor.LightenFixedPoints` | ImageProcessing.cs:84-86 | a channel is unchanged iff it is at least 252 |
| `ImageProcessor.LightenTwice` | ImageProcessing.cs:84-87 | lightening twice equals lightening once iff every RGB channel starts at 251 or above |
| `ImageProcessor.LightenNotIdempotent` | ImageProcessing.cs:84-87 | black lightens to (63, 63, 63), then further to (111, 111, 111) |

## Left out

- The `Image` overload of the constructor (ImageProcessing.cs:31) is not modelled. It copies the image into a new `Bitmap`, and decoding and copying images are library calls outside this model.
- Allocating, decoding and encoding a `Bitmap` are not modelled. The bitmap is an `array2<Color>`; `GetPixel` and `SetPixel` are reads and writes of that array.
- The model does not prove that `(int)Math.Sqrt(n)` and the `double` blend agree with their integer replacements; that rests on IEEE double arithmetic, which is not modelled. The model uses the integer forms directly.
- A .NET `Color` can carry a name, and that name takes part in its equality. Here a colour is its four channels.
- `GetBackground` reads the object's `threshold` field in the source. In the model it takes the threshold as a parameter, which is what lets the monotonicity lemmas compare two thresholds.
- `DeleteBackground`, like the other transforms, is proved with `SetPixel` as a plain array write. That is what `SetPixel` does on a 32-bit ARGB bitmap only. On an indexed pixel format `SetPixel` throws `InvalidOperationException`. On a format without alpha the written alpha 0 of `Color.Transparent` is lost. The contracts therefore describe ARGB bitmaps only.
- A null bitmap is not modelled. The source's constructor stores `image` without checking it (ImageProcessing.cs:21, ImageProcessing.cs:26), so it accepts null, and every transform then throws `NullReferenceException`. The model's `array2<Color>` is never null.
- `Pixel.cs` is a plain holder of a `Point` and a `Color`. It is folded into the datatype `Pixel`.
- The `List<Pixel>` capacity hint in `GetPixels` has no observable effect and is not modelled.
