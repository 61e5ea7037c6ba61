/**
  The luminosity grayscale stage (LuminosityGrayscale): every pixel becomes the weighted
  sum 0.21 R + 0.72 G + 0.07 B, rounded half up, clamped to 255 and written to R, G and B
  of an opaque pixel in a new TYPE_INT_RGB raster.

  The weights are kept as the exact hundredths 21, 72 and 7, so `Math.round` of the
  weighted sum is `(21 R + 72 G + 7 B + 50) / 100` over the integers.
 */
module Grayscale {
  import opened Outcomes
  import opened Raster

  const RedWeight := 21    // 0.21, in hundredths
  const GreenWeight := 72  // 0.72, in hundredths
  const BlueWeight := 7    // 0.07, in hundredths
  const MaxValue := 255

  const ImageNullMessage := "Image cannot be null"

  /**
    `Math.min(Math.round(0.21 r + 0.72 g + 0.07 b), 255)`. The result is the weighted sum
    rounded to the nearest integer (halves upward); the clamp never changes it, because
    the weights add up to exactly one.
   */
  function Luminosity(r: Channel, g: Channel, b: Channel): (v: Channel)
    ensures 100 * v - 50 <= RedWeight * r + GreenWeight * g + BlueWeight * b < 100 * v + 50
  {
    var rounded := (RedWeight * r + GreenWeight * g + BlueWeight * b + 50) / 100;
    if rounded < MaxValue then rounded else MaxValue
  }

  /** The pixel the stage writes for an input pixel: opaque, with R = G = B = its luminosity. */
  function GrayPixel(p: Argb): (q: Argb)
    ensures Alpha(q) == 0xFF
    ensures Red(q) == Green(q) == Blue(q) == Luminosity(Red(p), Green(p), Blue(p))
  {
    var grayVal := Luminosity(Red(p), Green(p), Blue(p));
    PackThenUnpack(0xFF, grayVal, grayVal, grayVal);
    PackArgb(0xFF, grayVal, grayVal, grayVal)
  }

  /** A pixel whose three channels are equal is its own luminosity: the weights sum to one. */
  lemma {:induction false} LuminosityOfGray(v: Channel)
    ensures Luminosity(v, v, v) == v
  {
    assert RedWeight * v + GreenWeight * v + BlueWeight * v == 100 * v;
  }

  /** Graying a pixel that is already gray gives the same pixel back: the stage is idempotent. */
  lemma GrayPixelIdempotent(p: Argb)
    ensures GrayPixel(GrayPixel(p)) == GrayPixel(p)
  {
    var q := GrayPixel(p);
    LuminosityOfGray(Blue(q));
    UnpackRepack(q);
  }

  /**
    The grayscale test's image: a TYPE_INT_RGB pixel written as the bare value v = x + y
    (at most 18) has R = G = 0 and B = v, and its gray value is 1 when v >= 8 and 0 otherwise.
   */
  lemma BlueOnlyTestPixel(v: int)
    requires 0 <= v <= 18
    ensures GrayPixel(Opaque(v)) == PackArgb(0xFF, if v >= 8 then 1 else 0, if v >= 8 then 1 else 0, if v >= 8 then 1 else 0)
  {
    assert Red(v) == 0 && Green(v) == 0 && Blue(v) == v;
    if v >= 8 {
      assert Luminosity(0, 0, v) == 1;
    } else {
      assert Luminosity(0, 0, v) == 0;
    }
  }

  /**
    Running the stage on its own output gives the same pixels again: `twice` is the stage's
    output for `once`, and `once` its output for `image`.
   */
  lemma {:induction false} ProcessIdempotent(image: Image, once: Image, twice: Image)
    requires once.Width() == image.Width() && once.Height() == image.Height()
    requires forall x, y :: image.InBounds(x, y) ==> once.GetRGB(x, y) == GrayPixel(image.GetRGB(x, y))
    requires twice.Width() == once.Width() && twice.Height() == once.Height()
    requires forall x, y :: once.InBounds(x, y) ==> twice.GetRGB(x, y) == GrayPixel(once.GetRGB(x, y))
    ensures forall x, y :: image.InBounds(x, y) ==> twice.GetRGB(x, y) == once.GetRGB(x, y)
  {
    forall x, y | image.InBounds(x, y)
      ensures twice.GetRGB(x, y) == once.GetRGB(x, y)
    {
      var p := image.GetRGB(x, y);
      GrayPixelIdempotent(p);
    }
  }

  /** LuminosityGrayscale: stateless; its weights are the constants above. */
  class LuminosityGrayscale {

    constructor () {}

    /**
      `process(image)`: a null image is refused before anything is allocated; otherwise a new
      TYPE_INT_RGB raster of the same size holds the gray pixel of every input pixel, and the
      input is left as it was.
     */
    method Process(image: Image?) returns (r: Result<Image>)
      ensures image == null ==> r == Failure(IllegalArgument(ImageNullMessage))
      ensures image != null ==> r.Success? && fresh(r.value) && fresh(r.value.pixels)
      ensures image != null ==> unchanged(image.pixels)
      ensures r.Success? ==>
        && image != null
        && r.value.imageType == TypeIntRgb
        && r.value.Width() == image.Width() && r.value.Height() == image.Height()
        && forall x, y :: image.InBounds(x, y) ==> r.value.GetRGB(x, y) == GrayPixel(image.GetRGB(x, y))
    {
      if image == null {
        return Failure(IllegalArgument(ImageNullMessage));
      }
      var height := image.Height();
      var width := image.Width();
      var result := new Image(width, height, TypeIntRgb);

      for x := 0 to width
        invariant forall i, j :: 0 <= i < x && 0 <= j < height ==> result.pixels[i, j] == GrayPixel(image.GetRGB(i, j))
      {
        for y := 0 to height
          invariant forall i, j :: 0 <= i < x && 0 <= j < height ==> result.pixels[i, j] == GrayPixel(image.GetRGB(i, j))
          invariant forall j :: 0 <= j < y ==> result.pixels[x, j] == GrayPixel(image.GetRGB(x, j))
        {
          var pixel := image.GetRGB(x, y);
          var red, green, blue := Red(pixel), Green(pixel), Blue(pixel);
          var grayVal := Luminosity(red, green, blue);
          var newPixel := PackArgb(0xFF, grayVal, grayVal, grayVal);
          result.SetRGB(x, y, newPixel);
        }
      }

      forall x, y | image.InBounds(x, y)
        ensures result.GetRGB(x, y) == GrayPixel(image.GetRGB(x, y))
      {
        OpaqueKeepsOpaque(result.pixels[x, y]);
      }
      return Success(result);
    }
  }
}
