/**
 * The integer filters of the photo editor: grayscale, extreme contrast,
 * posterize, blur and the two edge detectors.
 *
 * Every filter copies its input with Cimpl's `copy` and then overwrites
 * pixels of the copy, reading only from the input.  Each method below does
 * the same and is proved against a relation between the input and the
 * result (`MapsEachPixel`, `IsBlurOf`, `IsDetectEdgesOf`,
 * `IsDetectEdgesBetterOf`).  Because no method has a `modifies` clause, the
 * input image is left unchanged, and `fresh(result)` says that the result
 * shares no storage with it.
 */
module Filters {
  import opened Cimpl

  // ---------------------------------------------------------------------
  // Brightness, shared by grayscale and both edge detectors
  // ---------------------------------------------------------------------

  /** The brightness of a colour: the floor of the average of its channels. */
  function Brightness(c: Color): (v: Channel)
    ensures 3 * v <= c.r + c.g + c.b < 3 * v + 3
    ensures c.r == c.g == c.b ==> v == c.r
  {
    (c.r + c.g + c.b) / 3
  }

  // ---------------------------------------------------------------------
  // Per-pixel filters
  // ---------------------------------------------------------------------

  /** `result` has the size of `image`, and each of its pixels is `f` of the same pixel of `image`. */
  ghost predicate MapsEachPixel(image: array2<Color>, result: array2<Color>, f: Color -> Color)
    reads image, result
  {
    SameSize(image, result) &&
    forall x, y {:trigger result[x, y]} :: InBounds(image, x, y) ==> result[x, y] == f(image[x, y])
  }

  /** The grey that grayscale gives a pixel: all three channels set to its brightness. */
  function GrayscalePixel(c: Color): (gray: Color)
    ensures gray.r == gray.g == gray.b
    ensures 3 * gray.r <= c.r + c.g + c.b < 3 * gray.r + 3
    ensures c.r == c.g == c.b ==> gray == c
  {
    var brightness := Brightness(c);
    Color(brightness, brightness, brightness)
  }

  /** grayscale: a copy of `image` in which every pixel is replaced by its grey. */
  method Grayscale(image: array2<Color>) returns (result: array2<Color>)
    ensures fresh(result)
    ensures MapsEachPixel(image, result, GrayscalePixel)
  {
    result := Copy(image);
    var y := 0;
    while y < image.Length1
      invariant 0 <= y <= image.Length1
      invariant forall i, j :: InBounds(image, i, j) ==>
        result[i, j] == if j < y then GrayscalePixel(image[i, j]) else image[i, j]
    {
      var x := 0;
      while x < image.Length0
        invariant 0 <= x <= image.Length0
        invariant forall i, j :: InBounds(image, i, j) ==>
          result[i, j] == if j < y || (j == y && i < x) then GrayscalePixel(image[i, j]) else image[i, j]
      {
        result[x, y] := GrayscalePixel(image[x, y]);
        x := x + 1;
      }
      y := y + 1;
    }
  }

  /** A grey image is left as it is, so grayscale applied twice equals grayscale applied once. */
  lemma GrayscaleIdempotent(image: array2<Color>, once: array2<Color>, twice: array2<Color>)
    requires MapsEachPixel(image, once, GrayscalePixel)
    requires MapsEachPixel(once, twice, GrayscalePixel)
    ensures SamePixels(once, twice)
  {
  }

  /** One channel thresholded at 127: 0 for at most 127, 255 above. */
  function ContrastComponent(v: Channel): (w: Channel)
    ensures w == 0 || w == 255
    ensures w == 0 <==> v <= 127
  {
    if v <= 127 then 0 else 255
  }

  /** The colour extreme contrast gives a pixel: each channel thresholded on its own. */
  function ExtremeContrastPixel(c: Color): (e: Color)
    ensures forall k :: e.At(k) == ContrastComponent(c.At(k))
    ensures forall k :: e.At(k) == 0 || e.At(k) == 255
  {
    Color(ContrastComponent(c.r), ContrastComponent(c.g), ContrastComponent(c.b))
  }

  /** extreme_contrast: a copy of `image` with every channel of every pixel thresholded. */
  method ExtremeContrast(image: array2<Color>) returns (result: array2<Color>)
    ensures fresh(result)
    ensures MapsEachPixel(image, result, ExtremeContrastPixel)
  {
    result := Copy(image);
    var y := 0;
    while y < image.Length1
      invariant 0 <= y <= image.Length1
      invariant forall i, j :: InBounds(image, i, j) ==>
        result[i, j] == if j < y then ExtremeContrastPixel(image[i, j]) else image[i, j]
    {
      var x := 0;
      while x < image.Length0
        invariant 0 <= x <= image.Length0
        invariant forall i, j :: InBounds(image, i, j) ==>
          result[i, j] == if j < y || (j == y && i < x) then ExtremeContrastPixel(image[i, j]) else image[i, j]
      {
        result[x, y] := ExtremeContrastPixel(image[x, y]);
        x := x + 1;
      }
      y := y + 1;
    }
  }

  /** Extreme contrast applied to its own output changes nothing. */
  lemma ExtremeContrastIdempotent(image: array2<Color>, once: array2<Color>, twice: array2<Color>)
    requires MapsEachPixel(image, once, ExtremeContrastPixel)
    requires MapsEachPixel(once, twice, ExtremeContrastPixel)
    ensures SamePixels(once, twice)
  {
  }

  /**
   * `_adjust_component`: the midpoint of the quarter of 0..255 in which
   * `amount` lies (amounts below 0 count as the first quarter, above 255 as
   * the last).
   */
  function AdjustComponent(amount: int): (mid: Channel)
    ensures mid == 31 || mid == 95 || mid == 159 || mid == 223
    ensures 0 <= amount <= 255 ==> mid == amount / 64 * 64 + 31
    ensures 0 <= amount <= 255 ==> mid - 31 <= amount <= mid + 32
  {
    if amount <= 63 then 31
    else if amount <= 127 then 95
    else if amount <= 191 then 159
    else 223
  }

  /** The documented examples of `_adjust_component` and both sides of each quarter boundary. */
  lemma AdjustComponentExamples()
    ensures AdjustComponent(10) == 31 && AdjustComponent(85) == 95
    ensures AdjustComponent(142) == 159 && AdjustComponent(230) == 223
    ensures AdjustComponent(63) == 31 && AdjustComponent(64) == 95
    ensures AdjustComponent(127) == 95 && AdjustComponent(128) == 159
    ensures AdjustComponent(191) == 159 && AdjustComponent(192) == 223
  {
  }

  /** Each of the four midpoints lies in its own quarter, so adjusting it again keeps it. */
  lemma AdjustComponentIdempotent(amount: int)
    ensures AdjustComponent(AdjustComponent(amount)) == AdjustComponent(amount)
  {
  }

  /** The colour posterize gives a pixel: each channel adjusted on its own. */
  function PosterizePixel(c: Color): (p: Color)
    ensures forall k :: p.At(k) == AdjustComponent(c.At(k))
    ensures forall k :: p.At(k) in {31, 95, 159, 223}
  {
    Color(AdjustComponent(c.r), AdjustComponent(c.g), AdjustComponent(c.b))
  }

  /** posterize: a copy of `image` with every channel of every pixel adjusted. */
  method Posterize(image: array2<Color>) returns (result: array2<Color>)
    ensures fresh(result)
    ensures MapsEachPixel(image, result, PosterizePixel)
  {
    result := Copy(image);
    var y := 0;
    while y < image.Length1
      invariant 0 <= y <= image.Length1
      invariant forall i, j :: InBounds(image, i, j) ==>
        result[i, j] == if j < y then PosterizePixel(image[i, j]) else image[i, j]
    {
      var x := 0;
      while x < image.Length0
        invariant 0 <= x <= image.Length0
        invariant forall i, j :: InBounds(image, i, j) ==>
          result[i, j] == if j < y || (j == y && i < x) then PosterizePixel(image[i, j]) else image[i, j]
      {
        result[x, y] := PosterizePixel(image[x, y]);
        x := x + 1;
      }
      y := y + 1;
    }
  }

  /** Posterize applied to its own output changes nothing. */
  lemma PosterizeIdempotent(image: array2<Color>, once: array2<Color>, twice: array2<Color>)
    requires MapsEachPixel(image, once, PosterizePixel)
    requires MapsEachPixel(once, twice, PosterizePixel)
    ensures SamePixels(once, twice)
  {
  }

  // ---------------------------------------------------------------------
  // Blur
  // ---------------------------------------------------------------------

  /**
   * The sum of component `k` over the offsets `n`..8 of the 3x3 window
   * centred on the interior pixel (x, y); offset `n` is the pixel
   * (x - 1 + n % 3, y - 1 + n / 3), so the offsets run row by row.
   */
  function WindowSum(image: array2<Color>, x: int, y: int, k: Component, n: nat): (s: int)
    reads image
    requires Interior(image, x, y) && n <= 9
    ensures 0 <= s <= 255 * (9 - n)
    decreases 9 - n
  {
    if n == 9 then 0
    else image[x - 1 + n % 3, y - 1 + n / 3].At(k) + WindowSum(image, x, y, k, n + 1)
  }

  /** The floor of the average of component `k` over the 3x3 window centred on (x, y). */
  function WindowMean(image: array2<Color>, x: int, y: int, k: Component): (m: Channel)
    reads image
    requires Interior(image, x, y)
    ensures 9 * m <= WindowSum(image, x, y, k, 0) < 9 * m + 9
  {
    WindowSum(image, x, y, k, 0) / 9
  }

  /** The colour blur gives the interior pixel (x, y): each component averaged over its window. */
  function BlurredPixel(image: array2<Color>, x: int, y: int): (blurred: Color)
    reads image
    requires Interior(image, x, y)
    ensures forall k :: blurred.At(k) == WindowMean(image, x, y, k)
  {
    Color(WindowMean(image, x, y, Red), WindowMean(image, x, y, Green), WindowMean(image, x, y, Blue))
  }

  /**
   * The window sum is the nine-term sum blur writes out, in its order:
   * top, left, bottom, right, centre, top right, top left, bottom right,
   * bottom left.
   */
  lemma NineTermSum(image: array2<Color>, x: int, y: int, k: Component)
    requires Interior(image, x, y)
    ensures WindowSum(image, x, y, k, 0) ==
      image[x, y - 1].At(k) + image[x - 1, y].At(k) + image[x, y + 1].At(k) +
      image[x + 1, y].At(k) + image[x, y].At(k) + image[x + 1, y - 1].At(k) +
      image[x - 1, y - 1].At(k) + image[x + 1, y + 1].At(k) + image[x - 1, y + 1].At(k)
  {
    assert WindowSum(image, x, y, k, 8) == image[x + 1, y + 1].At(k);
    assert WindowSum(image, x, y, k, 7) == image[x, y + 1].At(k) + WindowSum(image, x, y, k, 8);
    assert WindowSum(image, x, y, k, 6) == image[x - 1, y + 1].At(k) + WindowSum(image, x, y, k, 7);
    assert WindowSum(image, x, y, k, 5) == image[x + 1, y].At(k) + WindowSum(image, x, y, k, 6);
    assert WindowSum(image, x, y, k, 4) == image[x, y].At(k) + WindowSum(image, x, y, k, 5);
    assert WindowSum(image, x, y, k, 3) == image[x - 1, y].At(k) + WindowSum(image, x, y, k, 4);
    assert WindowSum(image, x, y, k, 2) == image[x + 1, y - 1].At(k) + WindowSum(image, x, y, k, 3);
    assert WindowSum(image, x, y, k, 1) == image[x, y - 1].At(k) + WindowSum(image, x, y, k, 2);
  }

  /** Over a window of one colour, each remaining term of the sum is that colour's component. */
  lemma {:induction false} UniformWindowSum(image: array2<Color>, x: int, y: int, k: Component, n: nat, c: Color)
    requires Interior(image, x, y) && n <= 9
    requires Uniform(image, c)
    ensures WindowSum(image, x, y, k, n) == (9 - n) * c.At(k)
    decreases 9 - n
  {
    if n < 9 {
      assert image[x - 1 + n % 3, y - 1 + n / 3] == c;
      UniformWindowSum(image, x, y, k, n + 1, c);
      OneMoreTerm(9 - n, c.At(k));
    }
  }

  /** Adding one more copy of `v` to `m - 1` copies gives `m` copies. */
  lemma OneMoreTerm(m: int, v: int)
    ensures m * v == v + (m - 1) * v
  {
  }

  /** `target` is the blur of `image`: interior pixels averaged, border pixels copied. */
  ghost predicate IsBlurOf(image: array2<Color>, target: array2<Color>)
    reads image, target
  {
    SameSize(image, target) &&
    forall x, y {:trigger target[x, y]} :: InBounds(image, x, y) ==>
      target[x, y] == if Interior(image, x, y) then BlurredPixel(image, x, y) else image[x, y]
  }

  /**
   * The colour blur computes for the interior pixel (x, y): the nine
   * neighbourhood colours read from `image` and each component summed in
   * blur's order and divided by 9.
   */
  method BlurAt(image: array2<Color>, x: int, y: int) returns (newColor: Color)
    requires Interior(image, x, y)
    ensures newColor == BlurredPixel(image, x, y)
  {
    var top, left, bottom, right := image[x, y - 1], image[x - 1, y], image[x, y + 1], image[x + 1, y];
    var topRight, topLeft := image[x + 1, y - 1], image[x - 1, y - 1];
    var bottomRight, bottomLeft := image[x + 1, y + 1], image[x - 1, y + 1];
    var center := image[x, y];
    NineTermSum(image, x, y, Red);
    NineTermSum(image, x, y, Green);
    NineTermSum(image, x, y, Blue);
    var newRed := (top.r + left.r + bottom.r + right.r + center.r + topRight.r
                   + topLeft.r + bottomRight.r + bottomLeft.r) / 9;
    var newGreen := (top.g + left.g + bottom.g + right.g + center.g + topRight.g
                     + topLeft.g + bottomRight.g + bottomLeft.g) / 9;
    var newBlue := (top.b + left.b + bottom.b + right.b + center.b + topRight.b
                    + topLeft.b + bottomRight.b + bottomLeft.b) / 9;
    newColor := Color(newRed, newGreen, newBlue);
  }

  /** blur: a copy of `image` in which every interior pixel is replaced by its 3x3 average. */
  method Blur(image: array2<Color>) returns (target: array2<Color>)
    ensures fresh(target)
    ensures IsBlurOf(image, target)
  {
    target := Copy(image);
    var width, height := image.Length0, image.Length1;
    var y := 1;
    while y < height - 1
      invariant 1 <= y && (height >= 2 ==> y <= height - 1)
      invariant forall i, j {:trigger target[i, j]} :: InBounds(image, i, j) ==>
        target[i, j] == if Interior(image, i, j) && j < y then BlurredPixel(image, i, j) else image[i, j]
    {
      var x := 1;
      while x < width - 1
        invariant 1 <= x && (width >= 2 ==> x <= width - 1)
        invariant forall i, j {:trigger target[i, j]} :: InBounds(image, i, j) ==>
          target[i, j] ==
            if Interior(image, i, j) && (j < y || (j == y && i < x)) then BlurredPixel(image, i, j)
            else image[i, j]
      {
        var newColor := BlurAt(image, x, y);
        target[x, y] := newColor;
        x := x + 1;
      }
      y := y + 1;
    }
  }

  /** Blurring an image of one colour gives it back. */
  lemma BlurUniform(image: array2<Color>, target: array2<Color>, c: Color)
    requires Uniform(image, c)
    requires IsBlurOf(image, target)
    ensures Uniform(target, c)
  {
    forall x, y | Interior(image, x, y)
      ensures BlurredPixel(image, x, y) == c
    {
      UniformBlurredPixel(image, x, y, c);
    }
  }

  /** The 3x3 average of an interior pixel of an image of one colour is that colour. */
  lemma UniformBlurredPixel(image: array2<Color>, x: int, y: int, c: Color)
    requires Interior(image, x, y)
    requires Uniform(image, c)
    ensures BlurredPixel(image, x, y) == c
  {
    UniformWindowSum(image, x, y, Red, 0, c);
    UniformWindowSum(image, x, y, Green, 0, c);
    UniformWindowSum(image, x, y, Blue, 0, c);
    assert WindowMean(image, x, y, Red) == c.r && WindowMean(image, x, y, Green) == c.g;
  }

  /** An image narrower or shorter than three pixels has no interior, so blur copies it. */
  lemma BlurSmallIsCopy(image: array2<Color>, target: array2<Color>)
    requires image.Length0 < 3 || image.Length1 < 3
    requires IsBlurOf(image, target)
    ensures SamePixels(image, target)
  {
  }

  // ---------------------------------------------------------------------
  // Edge detection
  // ---------------------------------------------------------------------

  /** The absolute difference of the brightness of two colours. */
  function BrightnessGap(a: Color, b: Color): (d: Channel)
    ensures d == Brightness(a) - Brightness(b) || d == Brightness(b) - Brightness(a)
  {
    if Brightness(a) >= Brightness(b) then Brightness(a) - Brightness(b)
    else Brightness(b) - Brightness(a)
  }

  /** Black when the brightness of `above` and `below` differ by more than `threshold`, white otherwise. */
  function EdgeMark(above: Color, below: Color, threshold: real): (m: Color)
    ensures m == Black || m == White
    ensures m == Black <==> BrightnessGap(above, below) as real > threshold
  {
    if BrightnessGap(above, below) as real > threshold then Black else White
  }

  /**
   * The pixels detect_edges writes: it visits each interior (x, y) and
   * writes (x, y - 1), so columns 1..W-2 of rows 0..H-3.
   */
  predicate EdgeWritten(image: array2<Color>, x: int, y: int)
  {
    1 <= x < image.Length0 - 1 && 0 <= y < image.Length1 - 2
  }

  /**
   * The mark detect_edges writes at (x, y) when it visits the interior
   * pixel (x, y + 1): from the pixels above and below that one.
   */
  function EdgesPixel(image: array2<Color>, x: int, y: int, threshold: real): (m: Color)
    reads image
    requires EdgeWritten(image, x, y)
    ensures m == Black || m == White
    ensures m == Black <==> BrightnessGap(image[x, y], image[x, y + 2]) as real > threshold
  {
    EdgeMark(image[x, y], image[x, y + 2], threshold)
  }

  /** `result` is detect_edges of `image`: the written pixels marked, every other pixel copied. */
  ghost predicate IsDetectEdgesOf(image: array2<Color>, result: array2<Color>, threshold: real)
    reads image, result
  {
    SameSize(image, result) &&
    forall x, y {:trigger result[x, y]} :: InBounds(image, x, y) ==>
      result[x, y] == if EdgeWritten(image, x, y) then EdgesPixel(image, x, y, threshold) else image[x, y]
  }

  /** detect_edges: for each interior (x, y), pixel (x, y - 1) of the copy is marked from (x, y - 1) and (x, y + 1). */
  method DetectEdges(image: array2<Color>, threshold: real) returns (result: array2<Color>)
    ensures fresh(result)
    ensures IsDetectEdgesOf(image, result, threshold)
  {
    result := Copy(image);
    var width, height := image.Length0, image.Length1;
    var y := 1;
    while y < height - 1
      invariant 1 <= y && (height >= 2 ==> y <= height - 1)
      invariant forall i, j {:trigger result[i, j]} :: InBounds(image, i, j) ==>
        result[i, j] ==
          if EdgeWritten(image, i, j) && j < y - 1 then EdgesPixel(image, i, j, threshold) else image[i, j]
    {
      var x := 1;
      while x < width - 1
        invariant 1 <= x && (width >= 2 ==> x <= width - 1)
        invariant forall i, j {:trigger result[i, j]} :: InBounds(image, i, j) ==>
          result[i, j] ==
            if EdgeWritten(image, i, j) && (j < y - 1 || (j == y - 1 && i < x))
            then EdgesPixel(image, i, j, threshold)
            else image[i, j]
      {
        var top, bottom := image[x, y - 1], image[x, y + 1];
        result[x, y - 1] := EdgeMark(top, bottom, threshold);
        x := x + 1;
      }
      y := y + 1;
    }
  }

  /** On an image of one colour, with a threshold of at least 0, every pixel detect_edges writes is white. */
  lemma DetectEdgesUniform(image: array2<Color>, result: array2<Color>, threshold: real, c: Color)
    requires Uniform(image, c) && 0.0 <= threshold
    requires IsDetectEdgesOf(image, result, threshold)
    ensures forall x, y :: EdgeWritten(image, x, y) ==> result[x, y] == White
  {
  }

  /**
   * The mark detect_edges_better gives an interior pixel: black when top
   * and bottom differ by more than `threshold`, or when left and bottom do.
   * The right neighbour plays no part.
   */
  function EdgeMarkBetter(top: Color, bottom: Color, left: Color, threshold: real): (m: Color)
    ensures m == Black || m == White
    ensures m == Black <==>
      BrightnessGap(top, bottom) as real > threshold || BrightnessGap(left, bottom) as real > threshold
  {
    if BrightnessGap(top, bottom) as real > threshold || BrightnessGap(left, bottom) as real > threshold
    then Black else White
  }

  /** The mark detect_edges_better writes at the interior pixel (x, y), from its top, bottom and left neighbours. */
  function EdgesBetterPixel(image: array2<Color>, x: int, y: int, threshold: real): (m: Color)
    reads image
    requires Interior(image, x, y)
    ensures m == Black || m == White
    ensures m == Black <==>
      BrightnessGap(image[x, y - 1], image[x, y + 1]) as real > threshold ||
      BrightnessGap(image[x - 1, y], image[x, y + 1]) as real > threshold
  {
    EdgeMarkBetter(image[x, y - 1], image[x, y + 1], image[x - 1, y], threshold)
  }

  /** `result` is detect_edges_better of `image`: interior pixels marked in place, border pixels copied. */
  ghost predicate IsDetectEdgesBetterOf(image: array2<Color>, result: array2<Color>, threshold: real)
    reads image, result
  {
    SameSize(image, result) &&
    forall x, y {:trigger result[x, y]} :: InBounds(image, x, y) ==>
      result[x, y] == if Interior(image, x, y) then EdgesBetterPixel(image, x, y, threshold) else image[x, y]
  }

  /** The mark detect_edges_better computes for the interior pixel (x, y), read from `image`. */
  method EdgesBetterAt(image: array2<Color>, x: int, y: int, threshold: real) returns (mark: Color)
    requires Interior(image, x, y)
    ensures mark == EdgesBetterPixel(image, x, y, threshold)
  {
    var top, bottom := image[x, y - 1], image[x, y + 1];
    var brightnessTop := (top.r + top.g + top.b) / 3;
    var brightnessBottom := (bottom.r + bottom.g + bottom.b) / 3;
    var contrastTopBottom := if brightnessTop >= brightnessBottom then brightnessTop - brightnessBottom
                             else brightnessBottom - brightnessTop;
    var left, right := image[x - 1, y], image[x + 1, y];
    var brightnessLeft := (left.r + left.g + left.b) / 3;
    // The right neighbour's brightness is computed but takes no part in the mark.
    var brightnessRight := (right.r + right.g + right.b) / 3;
    var contrastLeftRight := if brightnessLeft >= brightnessBottom then brightnessLeft - brightnessBottom
                             else brightnessBottom - brightnessLeft;
    assert brightnessTop == Brightness(top) && brightnessBottom == Brightness(bottom) && brightnessLeft == Brightness(left);
    assert contrastTopBottom == BrightnessGap(top, bottom) && contrastLeftRight == BrightnessGap(left, bottom);
    if contrastTopBottom as real > threshold || contrastLeftRight as real > threshold {
      mark := Black;
    } else {
      mark := White;
    }
  }

  /** detect_edges_better: every interior pixel of the copy is marked from its neighbours. */
  method DetectEdgesBetter(image: array2<Color>, threshold: real) returns (result: array2<Color>)
    ensures fresh(result)
    ensures IsDetectEdgesBetterOf(image, result, threshold)
  {
    result := Copy(image);
    var width, height := image.Length0, image.Length1;
    var y := 1;
    while y < height - 1
      invariant 1 <= y && (height >= 2 ==> y <= height - 1)
      invariant forall i, j {:trigger result[i, j]} :: InBounds(image, i, j) ==>
        result[i, j] ==
          if Interior(image, i, j) && j < y then EdgesBetterPixel(image, i, j, threshold) else image[i, j]
    {
      var x := 1;
      while x < width - 1
        invariant 1 <= x && (width >= 2 ==> x <= width - 1)
        invariant forall i, j {:trigger result[i, j]} :: InBounds(image, i, j) ==>
          result[i, j] ==
            if Interior(image, i, j) && (j < y || (j == y && i < x))
            then EdgesBetterPixel(image, i, j, threshold)
            else image[i, j]
      {
        var mark := EdgesBetterAt(image, x, y, threshold);
        result[x, y] := mark;
        x := x + 1;
      }
      y := y + 1;
    }
  }

  /** On an image of one colour, with a threshold of at least 0, every interior pixel comes out white. */
  lemma DetectEdgesBetterUniform(image: array2<Color>, result: array2<Color>, threshold: real, c: Color)
    requires Uniform(image, c) && 0.0 <= threshold
    requires IsDetectEdgesBetterOf(image, result, threshold)
    ensures forall x, y :: Interior(image, x, y) ==> result[x, y] == White
  {
  }
}
