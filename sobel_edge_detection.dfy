/**
  The Sobel edge-detection stage (SobelEdgeDetection). It first runs its grayscale
  collaborator, then estimates the horizontal and vertical intensity gradients Gx and Gy
  at every pixel with the 3x3 Sobel kernels over the low (blue) byte of the gray raster,
  counting every neighbour outside the raster as 0, and writes
  `min(255, round(sqrt(Gx^2 + Gy^2)))` to R, G and B of a new TYPE_INT_RGB raster.
 */
module Detection {
  import opened Outcomes
  import opened Raster
  import opened Grayscale
  import opened RoundedSqrt

  const EdgeMaxValue := 255

  const NullAlgorithmMessage := "grayscale algorithm cannot be null"
  const NotGrayscaleMessage := "grayscale algorithm must be an instance of GrayscaleAlgorithm"
  const ImageMustNotBeNullMessage := "Image must not be null"

  /**
    `getSafePixel(image, x, y)`: the low byte of the pixel when (x, y) lies in the raster,
    and 0 for any coordinate outside it (zero padding).
   */
  function GetSafePixel(image: Image, x: int, y: int): (v: Channel)
    reads image.pixels
    ensures image.InBounds(x, y) ==> v == Blue(image.pixels[x, y])
    ensures !image.InBounds(x, y) ==> v == 0
  {
    if image.InBounds(x, y) then Blue(image.GetRGB(x, y)) else 0
  }

  /** `calculateGx`: right column minus left column, the middle row weighted twice. */
  function CalculateGx(image: Image, x: int, y: int): (gx: int)
    reads image.pixels
    ensures -1020 <= gx <= 1020
  {
    - 2 * GetSafePixel(image, x - 1, y)
    - GetSafePixel(image, x - 1, y + 1)
    - GetSafePixel(image, x - 1, y - 1)
    + 2 * GetSafePixel(image, x + 1, y)
    + GetSafePixel(image, x + 1, y + 1)
    + GetSafePixel(image, x + 1, y - 1)
  }

  /** `calculateGy`: bottom row (y + 1) minus top row (y - 1), the middle column weighted twice. */
  function CalculateGy(image: Image, x: int, y: int): (gy: int)
    reads image.pixels
    ensures -1020 <= gy <= 1020
  {
    2 * GetSafePixel(image, x, y + 1)
    + GetSafePixel(image, x + 1, y + 1)
    + GetSafePixel(image, x - 1, y + 1)
    - 2 * GetSafePixel(image, x, y - 1)
    - GetSafePixel(image, x + 1, y - 1)
    - GetSafePixel(image, x - 1, y - 1)
  }

  /**
    `Math.min(255, (int) Math.round(Math.sqrt(gx^2 + gy^2)))`: the gradient magnitude
    rounded to the nearest integer, unless that is 255 or more, when it is 255.
   */
  function EdgeValue(gx: int, gy: int): (v: Channel)
    ensures v == EdgeMaxValue || IsRoundSqrt(gx * gx + gy * gy, v)
    ensures v == EdgeMaxValue ==> (2 * EdgeMaxValue - 1) * (2 * EdgeMaxValue - 1) <= 4 * (gx * gx + gy * gy)
  {
    var rounded := RoundSqrt(gx * gx + gy * gy);
    if EdgeMaxValue < rounded then
      SquareMonotone(2 * EdgeMaxValue - 1, 2 * rounded - 1);
      EdgeMaxValue
    else
      (if rounded == EdgeMaxValue then SquareMonotone(2 * EdgeMaxValue - 1, 2 * rounded - 1); rounded else rounded)
  }

  /**
    `computeNewPixel(image, x, y)`: the edge value at (x, y) in R, G and B. The Java code
    packs no alpha; the TYPE_INT_RGB raster it is written to reads back with alpha 0xFF.
   */
  function ComputeNewPixel(image: Image, x: int, y: int): (p: Argb)
    reads image.pixels
    ensures p < 0x100_0000  // no alpha bits are set
  {
    var gx := CalculateGx(image, x, y);
    var gy := CalculateGy(image, x, y);
    var pixelValue := EdgeValue(gx, gy);
    PackArgb(0, pixelValue, pixelValue, pixelValue)
  }

  /** A stronger gradient never gives a darker edge value. */
  lemma {:induction false} EdgeValueMonotone(gx: int, gy: int, hx: int, hy: int)
    requires gx * gx + gy * gy <= hx * hx + hy * hy
    ensures EdgeValue(gx, gy) <= EdgeValue(hx, hy)
  {
    RoundSqrtMonotone(gx * gx + gy * gy, hx * hx + hy * hy);
  }

  /** The new pixel carries the edge value in all three colour channels and no alpha. */
  lemma NewPixelChannels(image: Image, x: int, y: int)
    ensures var p := ComputeNewPixel(image, x, y);
      && Alpha(p) == 0
      && Red(p) == Green(p) == Blue(p) == EdgeValue(CalculateGx(image, x, y), CalculateGy(image, x, y))
  {
    var v := EdgeValue(CalculateGx(image, x, y), CalculateGy(image, x, y));
    PackThenUnpack(0, v, v, v);
  }

  /** The Sobel kernels, row by row from y - 1 to y + 1, each row from x - 1 to x + 1. */
  const SobelKernelX: seq<seq<int>> := [[-1, 0, 1], [-2, 0, 2], [-1, 0, 1]]
  const SobelKernelY: seq<seq<int>> := [[-1, -2, -1], [0, 0, 0], [1, 2, 1]]

  predicate IsKernel(kernel: seq<seq<int>>) {
    |kernel| == 3 && forall row :: 0 <= row < 3 ==> |kernel[row]| == 3
  }

  /**
    The textbook definition the two sums are checked against: the first k cells of the 3x3
    kernel (row-major) times the zero-padded low bytes under them.
   */
  function KernelSum(image: Image, x: int, y: int, kernel: seq<seq<int>>, k: nat): int
    requires IsKernel(kernel) && k <= 9
    reads image.pixels
  {
    if k == 0 then 0
    else
      var row, col := (k - 1) / 3, (k - 1) % 3;
      KernelSum(image, x, y, kernel, k - 1) + kernel[row][col] * GetSafePixel(image, x + col - 1, y + row - 1)
  }

  /** `calculateGx` is the correlation with the horizontal Sobel kernel. */
  lemma {:induction false} GxIsKernelSum(image: Image, x: int, y: int)
    ensures CalculateGx(image, x, y) == KernelSum(image, x, y, SobelKernelX, 9)
  {
    assert IsKernel(SobelKernelX);
    assert KernelSum(image, x, y, SobelKernelX, 1) == KernelSum(image, x, y, SobelKernelX, 0) + (-1) * GetSafePixel(image, x - 1, y - 1);
    assert KernelSum(image, x, y, SobelKernelX, 2) == KernelSum(image, x, y, SobelKernelX, 1) + (0) * GetSafePixel(image, x, y - 1);
    assert KernelSum(image, x, y, SobelKernelX, 3) == KernelSum(image, x, y, SobelKernelX, 2) + (1) * GetSafePixel(image, x + 1, y - 1);
    assert KernelSum(image, x, y, SobelKernelX, 4) == KernelSum(image, x, y, SobelKernelX, 3) + (-2) * GetSafePixel(image, x - 1, y);
    assert KernelSum(image, x, y, SobelKernelX, 5) == KernelSum(image, x, y, SobelKernelX, 4) + (0) * GetSafePixel(image, x, y);
    assert KernelSum(image, x, y, SobelKernelX, 6) == KernelSum(image, x, y, SobelKernelX, 5) + (2) * GetSafePixel(image, x + 1, y);
    assert KernelSum(image, x, y, SobelKernelX, 7) == KernelSum(image, x, y, SobelKernelX, 6) + (-1) * GetSafePixel(image, x - 1, y + 1);
    assert KernelSum(image, x, y, SobelKernelX, 8) == KernelSum(image, x, y, SobelKernelX, 7) + (0) * GetSafePixel(image, x, y + 1);
    assert KernelSum(image, x, y, SobelKernelX, 9) == KernelSum(image, x, y, SobelKernelX, 8) + (1) * GetSafePixel(image, x + 1, y + 1);
  }

  /** `calculateGy` is the correlation with the vertical Sobel kernel. */
  lemma {:induction false} GyIsKernelSum(image: Image, x: int, y: int)
    ensures CalculateGy(image, x, y) == KernelSum(image, x, y, SobelKernelY, 9)
  {
    assert IsKernel(SobelKernelY);
    assert KernelSum(image, x, y, SobelKernelY, 1) == KernelSum(image, x, y, SobelKernelY, 0) + (-1) * GetSafePixel(image, x - 1, y - 1);
    assert KernelSum(image, x, y, SobelKernelY, 2) == KernelSum(image, x, y, SobelKernelY, 1) + (-2) * GetSafePixel(image, x, y - 1);
    assert KernelSum(image, x, y, SobelKernelY, 3) == KernelSum(image, x, y, SobelKernelY, 2) + (-1) * GetSafePixel(image, x + 1, y - 1);
    assert KernelSum(image, x, y, SobelKernelY, 4) == KernelSum(image, x, y, SobelKernelY, 3) + (0) * GetSafePixel(image, x - 1, y);
    assert KernelSum(image, x, y, SobelKernelY, 5) == KernelSum(image, x, y, SobelKernelY, 4) + (0) * GetSafePixel(image, x, y);
    assert KernelSum(image, x, y, SobelKernelY, 6) == KernelSum(image, x, y, SobelKernelY, 5) + (0) * GetSafePixel(image, x + 1, y);
    assert KernelSum(image, x, y, SobelKernelY, 7) == KernelSum(image, x, y, SobelKernelY, 6) + (1) * GetSafePixel(image, x - 1, y + 1);
    assert KernelSum(image, x, y, SobelKernelY, 8) == KernelSum(image, x, y, SobelKernelY, 7) + (2) * GetSafePixel(image, x, y + 1);
    assert KernelSum(image, x, y, SobelKernelY, 9) == KernelSum(image, x, y, SobelKernelY, 8) + (1) * GetSafePixel(image, x + 1, y + 1);
  }

  /** The eight neighbours of (x, y) carry the same low byte in both rasters. */
  predicate SameNeighbourLowBytes(a: Image, b: Image, x: int, y: int)
    reads a.pixels, b.pixels
  {
    forall i, j :: x - 1 <= i <= x + 1 && y - 1 <= j <= y + 1 && (i != x || j != y) ==>
      GetSafePixel(a, i, j) == GetSafePixel(b, i, j)
  }

  /**
    The gradients at (x, y) depend on nothing but the low bytes of the eight neighbours: the
    centre pixel and the alpha, red and green bytes are never read.
   */
  lemma {:induction false} GradientsReadOnlyNeighbours(a: Image, b: Image, x: int, y: int)
    requires SameNeighbourLowBytes(a, b, x, y)
    ensures CalculateGx(a, x, y) == CalculateGx(b, x, y)
    ensures CalculateGy(a, x, y) == CalculateGy(b, x, y)
    ensures ComputeNewPixel(a, x, y) == ComputeNewPixel(b, x, y)
  {
    assert GetSafePixel(a, x - 1, y - 1) == GetSafePixel(b, x - 1, y - 1);
    assert GetSafePixel(a, x, y - 1) == GetSafePixel(b, x, y - 1);
    assert GetSafePixel(a, x + 1, y - 1) == GetSafePixel(b, x + 1, y - 1);
    assert GetSafePixel(a, x - 1, y) == GetSafePixel(b, x - 1, y);
    assert GetSafePixel(a, x + 1, y) == GetSafePixel(b, x + 1, y);
    assert GetSafePixel(a, x - 1, y + 1) == GetSafePixel(b, x - 1, y + 1);
    assert GetSafePixel(a, x, y + 1) == GetSafePixel(b, x, y + 1);
    assert GetSafePixel(a, x + 1, y + 1) == GetSafePixel(b, x + 1, y + 1);
  }

  /** In a 1x1 raster every neighbour is padding, so the only edge value is 0 whatever the pixel. */
  lemma {:induction false} SinglePixelHasNoEdge(image: Image)
    requires image.Width() == 1 && image.Height() == 1
    ensures CalculateGx(image, 0, 0) == 0 && CalculateGy(image, 0, 0) == 0
    ensures ComputeNewPixel(image, 0, 0) == 0
  {
    RoundSqrtUnique(0, RoundSqrt(0), 0);
  }

  /** Every pixel's low byte is the sum of its coordinates, as in the edge-detection test's image. */
  ghost predicate IsDiagonalRamp(image: Image)
    reads image.pixels
  {
    forall i, j :: image.InBounds(i, j) ==> Blue(image.pixels[i, j]) == i + j
  }

  /**
    Away from the border of a ramp, both gradients are 8 and the edge value is
    round(sqrt(8^2 + 8^2)) = round(11.31...) = 11.
   */
  lemma {:induction false} RampInteriorEdge(image: Image, x: int, y: int)
    requires IsDiagonalRamp(image)
    requires 1 <= x < image.Width() - 1 && 1 <= y < image.Height() - 1
    ensures CalculateGx(image, x, y) == 8 && CalculateGy(image, x, y) == 8
    ensures ComputeNewPixel(image, x, y) == PackArgb(0, 11, 11, 11)
  {
    assert GetSafePixel(image, x - 1, y - 1) == x + y - 2;
    assert GetSafePixel(image, x, y - 1) == x + y - 1;
    assert GetSafePixel(image, x + 1, y - 1) == x + y;
    assert GetSafePixel(image, x - 1, y) == x + y - 1;
    assert GetSafePixel(image, x + 1, y) == x + y + 1;
    assert GetSafePixel(image, x - 1, y + 1) == x + y;
    assert GetSafePixel(image, x, y + 1) == x + y + 1;
    assert GetSafePixel(image, x + 1, y + 1) == x + y + 2;
    assert IsRoundSqrt(128, 11);
    RoundSqrtUnique(128, RoundSqrt(128), 11);
  }

  /** The test's `getBlue`: the low byte of an in-range pixel. */
  function TestBlue(image: Image, x: int, y: int): Channel
    requires image.InBounds(x, y)
    reads image.pixels
  {
    Blue(image.GetRGB(x, y))
  }

  /**
    The edge-detection test's own Gx, which adds a neighbour only after checking that it
    lies in the raster instead of padding with zeros.
   */
  function ReferenceGx(image: Image, x: int, y: int): int
    requires image.InBounds(x, y)
    reads image.pixels
  {
    var width, height := image.Width(), image.Height();
    (if x - 1 >= 0 then
       -2 * TestBlue(image, x - 1, y)
       + (if y + 1 < height then -1 * TestBlue(image, x - 1, y + 1) else 0)
       + (if y - 1 >= 0 then -1 * TestBlue(image, x - 1, y - 1) else 0)
     else 0)
    + (if x + 1 < width then
         2 * TestBlue(image, x + 1, y)
         + (if y + 1 < height then TestBlue(image, x + 1, y + 1) else 0)
         + (if y - 1 >= 0 then TestBlue(image, x + 1, y - 1) else 0)
       else 0)
  }

  /** The edge-detection test's own Gy, in the same style. */
  function ReferenceGy(image: Image, x: int, y: int): int
    requires image.InBounds(x, y)
    reads image.pixels
  {
    var width, height := image.Width(), image.Height();
    (if y + 1 < height then
       2 * TestBlue(image, x, y + 1)
       + (if x + 1 < width then TestBlue(image, x + 1, y + 1) else 0)
       + (if x - 1 >= 0 then TestBlue(image, x - 1, y + 1) else 0)
     else 0)
    + (if y - 1 >= 0 then
         -2 * TestBlue(image, x, y - 1)
         + (if x + 1 < width then -1 * TestBlue(image, x + 1, y - 1) else 0)
         + (if x - 1 >= 0 then -1 * TestBlue(image, x - 1, y - 1) else 0)
       else 0)
  }

  /** Zero padding and skipping the neighbours outside the raster give the same sums. */
  lemma {:induction false} ReferenceAgreesWithPadding(image: Image, x: int, y: int)
    requires image.InBounds(x, y)
    ensures ReferenceGx(image, x, y) == CalculateGx(image, x, y)
    ensures ReferenceGy(image, x, y) == CalculateGy(image, x, y)
  {
  }

  /** A pixel whose red, green and blue bytes are equal. */
  predicate IsGrayPixel(p: Argb) {
    Red(p) == Green(p) == Blue(p)
  }

  /**
    The test's oracle: when every input pixel is gray, the grayscale stage keeps every low
    byte, so the pixel `process` writes at (x, y) is the test's expected opaque pixel,
    computed from the input's own low bytes.
   */
  lemma {:induction false} GrayInputMatchesTestOracle(image: Image, gray: Image, x: int, y: int)
    requires image.InBounds(x, y)
    requires gray.Width() == image.Width() && gray.Height() == image.Height()
    requires forall i, j :: image.InBounds(i, j) ==> gray.GetRGB(i, j) == GrayPixel(image.GetRGB(i, j))
    requires forall i, j :: image.InBounds(i, j) ==> IsGrayPixel(image.GetRGB(i, j))
    ensures var v := EdgeValue(ReferenceGx(image, x, y), ReferenceGy(image, x, y));
      Opaque(ComputeNewPixel(gray, x, y)) == PackArgb(0xFF, v, v, v)
  {
    forall i, j | x - 1 <= i <= x + 1 && y - 1 <= j <= y + 1 && (i != x || j != y)
      ensures GetSafePixel(gray, i, j) == GetSafePixel(image, i, j)
    {
      if image.InBounds(i, j) {
        LuminosityOfGray(Blue(image.GetRGB(i, j)));
      }
    }
    GradientsReadOnlyNeighbours(gray, image, x, y);
    ReferenceAgreesWithPadding(image, x, y);
    var v := EdgeValue(ReferenceGx(image, x, y), ReferenceGy(image, x, y));
    PackThenUnpack(0, v, v, v);
  }

  /**
    A Java `ImageAlgorithm` reference as the constructor receives it: null, or an instance of
    one of the repository's two ImageAlgorithm classes. Only the first is a GrayscaleAlgorithm.
   */
  datatype AlgorithmRef =
    | NullAlgorithm
    | GrayscaleAlgorithm(luminosity: LuminosityGrayscale)
    | EdgeDetectionAlgorithm(detector: SobelEdgeDetection)

  class SobelEdgeDetection {
    /** The injected grayscale stage; the constructor guards ensure it is a grayscale algorithm. */
    const grayscaleAlgorithm: LuminosityGrayscale

    constructor (grayscaleAlgorithm: LuminosityGrayscale)
      ensures this.grayscaleAlgorithm == grayscaleAlgorithm
    {
      this.grayscaleAlgorithm := grayscaleAlgorithm;
    }

    /**
      `new SobelEdgeDetection(algorithm)`: a null collaborator and one that is not a
      grayscale algorithm are both refused with IllegalArgumentException, in that order.
     */
    static method Create(algorithm: AlgorithmRef) returns (r: Result<SobelEdgeDetection>)
      ensures algorithm.NullAlgorithm? ==> r == Failure(IllegalArgument(NullAlgorithmMessage))
      ensures algorithm.EdgeDetectionAlgorithm? ==> r == Failure(IllegalArgument(NotGrayscaleMessage))
      ensures algorithm.GrayscaleAlgorithm? ==>
        r.Success? && fresh(r.value) && r.value.grayscaleAlgorithm == algorithm.luminosity
    {
      if algorithm.NullAlgorithm? {
        return Failure(IllegalArgument(NullAlgorithmMessage));
      }
      if !algorithm.GrayscaleAlgorithm? {
        return Failure(IllegalArgument(NotGrayscaleMessage));
      }
      var detector := new SobelEdgeDetection(algorithm.luminosity);
      return Success(detector);
    }

    /**
      `process(image)`: a null image is refused before the grayscale stage runs. Otherwise
      `gray` is the grayscale stage's raster, and the result is a new TYPE_INT_RGB raster of
      the same size whose pixel at (x, y) is the edge pixel computed on `gray` at (x, y).
      The input is left as it was.
     */
    method Process(image: Image?) returns (r: Result<Image>, ghost gray: Image?)
      ensures image == null ==> r == Failure(IllegalArgument(ImageMustNotBeNullMessage)) && gray == null
      ensures image != null ==> r.Success? && fresh(r.value) && fresh(r.value.pixels)
      ensures image != null ==> unchanged(image.pixels)
      ensures r.Success? ==>
        && image != null && gray != null
        && gray.Width() == image.Width() && gray.Height() == image.Height()
        && (forall x, y :: image.InBounds(x, y) ==> gray.GetRGB(x, y) == GrayPixel(image.GetRGB(x, y)))
        && r.value.imageType == TypeIntRgb
        && r.value.Width() == image.Width() && r.value.Height() == image.Height()
        && forall x, y :: image.InBounds(x, y) ==> r.value.GetRGB(x, y) == Opaque(ComputeNewPixel(gray, x, y))
    {
      if image == null {
        r, gray := Failure(IllegalArgument(ImageMustNotBeNullMessage)), null;
        return;
      }

      var grayResult := grayscaleAlgorithm.Process(image);
      var grayImage := grayResult.value;
      gray := grayImage;
      var width := grayImage.Width();
      var height := grayImage.Height();
      var result := new Image(width, height, TypeIntRgb);
      FillEdges(grayImage, result);
      r := Success(result);
    }
  }

  /** The two loops of `process`: every pixel of `result` becomes the edge pixel of `gray` there. */
  method FillEdges(gray: Image, result: Image)
    requires result.pixels != gray.pixels
    requires result.imageType == TypeIntRgb
    requires result.Width() == gray.Width() && result.Height() == gray.Height()
    modifies result.pixels
    ensures forall x, y :: gray.InBounds(x, y) ==> result.GetRGB(x, y) == Opaque(ComputeNewPixel(gray, x, y))
  {
    for x := 0 to gray.Width()
      invariant forall i, j :: 0 <= i < x && 0 <= j < gray.Height() ==> result.pixels[i, j] == ComputeNewPixel(gray, i, j)
    {
      FillColumn(gray, result, x);
    }
  }

  /** The inner loop of `process`: column x of `result` becomes the edge pixels of `gray` there. */
  method FillColumn(gray: Image, result: Image, x: nat)
    requires result.pixels != gray.pixels
    requires x < result.Width() == gray.Width() && result.Height() == gray.Height()
    modifies result.pixels
    ensures forall j :: 0 <= j < gray.Height() ==> result.pixels[x, j] == ComputeNewPixel(gray, x, j)
    ensures forall i, j :: result.InBounds(i, j) && i != x ==> result.pixels[i, j] == old(result.pixels[i, j])
  {
    for y := 0 to gray.Height()
      invariant forall j :: 0 <= j < y ==> result.pixels[x, j] == ComputeNewPixel(gray, x, j)
      invariant forall i, j :: result.InBounds(i, j) && i != x ==> result.pixels[i, j] == old(result.pixels[i, j])
    {
      var newPixel := ComputeNewPixel(gray, x, y);
      result.SetRGB(x, y, newPixel);
    }
  }
}
