# Image kit: grayscale, Sobel edge detection and the local image manager, in Dafny

This project models the core of a small Java image kit and proves properties of the model.

- **Grayscale stage** (`LuminosityGrayscale.process`): turns every packed 0xAARRGGBB pixel into an opaque gray pixel. The gray value is `min(255, round(0.21 R + 0.72 G + 0.07 B))`. The result is a new TYPE_INT_RGB raster.
- **Edge-detection stage** (`SobelEdgeDetection`): runs the grayscale stage first. It then correlates the low byte of the gray raster with the two 3x3 Sobel kernels, padding with zeros outside the raster. It writes `min(255, round(sqrt(Gx^2 + Gy^2)))` to R, G and B of a new raster. Its constructor refuses a missing collaborator and one that is not a grayscale algorithm.
- **Local file-system image manager** (`LocalFileSystemImageManager`): covers the suffix test on file names, the extension it passes to the image writer, and the checks in front of `loadImage`, `loadImagesFromDirectory` and `saveImage`, in their order. It also covers the copy loop of `loadImage` and the collecting loop of `loadImagesFromDirectory`.

## Modules

| file | module | what it holds |
|---|---|---|
| `outcomes.dfy` | `Outcomes` | `Option` (a nullable reference), `Error` (the two exception classes with their messages), `Result` (return or throw) |
| `raster.dfy` | `Raster` | packed pixels as unsigned 32-bit values; `Image`, the mutable BufferedImage with `GetRGB`/`SetRGB` |
| `luminosity_grayscale.dfy` | `Grayscale` | the luma of a pixel and the grayscale stage |
| `rounded_sqrt.dfy` | `RoundedSqrt` | `Math.round(Math.sqrt(n))` over the integers |
| `sobel_edge_detection.dfy` | `Detection` | the Sobel sums, the edge pixel, the constructor guards and the edge stage |
| `file_system_image_manager.dfy` | `FileSystem` | file snapshots, name tests and the manager's three operations |

How the Java behaviour is represented:

- **Pixels.** A Java `int` pixel is its 32-bit pattern read as an unsigned number. `(p >> s) & 0xff` is `p / 2^s % 256`, and `|` over disjoint bit fields is `+`.
- **Exact arithmetic.** The floating-point steps are stated over the integers:
  - The luma weights are taken as the exact hundredths 21, 72 and 7, so the rounded luma is `(21 R + 72 G + 7 B + 50) / 100`.
  - `Math.round(Math.sqrt(n))` is the k with `k = 0 or (2k - 1)^2 <= 4n`, and `4n < (2k + 1)^2`.
- **Images.** A `BufferedImage` is the class `Raster.Image`: a fixed-size `array2` of pixels indexed `[x, y]`, plus its image type. Reading a TYPE_INT_RGB raster reports alpha 0xFF.
- **Files.** A `java.io.File` is a `FileNode` snapshot that records:
  - what `exists()`, `isFile()`, `isDirectory()`, `getParentFile()` and `listFiles()` report;
  - what `ImageIO.read` returns for the file;
  - whether `ImageIO.write` succeeds on it.
- **Nulls and exceptions.** A null argument is `None` (or `null` for an `Image?`). A thrown `IllegalArgumentException` or `IOException` is a `Failure` carrying the Java message.

## Model

| member | source | states |
|---|---|---|
| `Raster.PackThenUnpack` | src/kg/projects/image/editor/imagekit/algorithm/grayscale/LuminosityGrayscale.java:30-38 | unpacking `(a << 24) \| (r << 16) \| (g << 8) \| b` with shifts and masks gives back a, r, g and b |
| `Raster.UnpackRepack` | src/kg/projects/image/editor/imagekit/algorithm/grayscale/LuminosityGrayscale.java:28-32 | repacking the four extracted channels gives the original pixel, so extraction loses nothing |
| `Raster.Opaque` | src/kg/projects/image/editor/imagekit/algorithm/detection/SobelEdgeDetection.java:35-40 | what a TYPE_INT_RGB raster reads back for a written pixel: the same R, G and B with alpha 0xFF |
| `Raster.OpaqueKeepsOpaque` | src/kg/projects/image/editor/imagekit/filesystem/LocalFileSystemImageManager.java:55-62 | an opaque pixel reads back unchanged, and reading back twice is reading back once |
| `Raster.Image.constructor` | src/kg/projects/image/editor/imagekit/algorithm/grayscale/LuminosityGrayscale.java:24 | a new raster has the requested width, height and type, fresh storage, and every pixel 0 |
| `Raster.Image.GetRGB` | src/kg/projects/image/editor/imagekit/algorithm/grayscale/LuminosityGrayscale.java:28 | the stored R, G and B; alpha 0xFF in a TYPE_INT_RGB raster, the stored value otherwise |
| `Raster.Image.SetRGB` | src/kg/projects/image/editor/imagekit/algorithm/grayscale/LuminosityGrayscale.java:39 | exactly one pixel changes, to the written value |
| `Grayscale.Luminosity` | src/kg/projects/image/editor/imagekit/algorithm/grayscale/LuminosityGrayscale.java:34-36 | the result lies in [0, 255] and is the weighted sum rounded half up (within 1/2 of it), so the clamp to 255 never changes it |
| `Grayscale.GrayPixel` | src/kg/projects/image/editor/imagekit/algorithm/grayscale/LuminosityGrayscale.java:28-38 | the written pixel has alpha 0xFF and R = G = B = the luma of the input's R, G and B |
| `Grayscale.LuminosityOfGray` | src/kg/projects/image/editor/imagekit/algorithm/grayscale/LuminosityGrayscale.java:11-13 | when R = G = B = v the luma is v, because the weights sum to one |
| `Grayscale.GrayPixelIdempotent` | src/kg/projects/image/editor/imagekit/algorithm/grayscale/LuminosityGrayscale.java:34-38 | graying a gray pixel gives it back |
| `Grayscale.ProcessIdempotent` | src/kg/projects/image/editor/imagekit/algorithm/grayscale/LuminosityGrayscale.java:17-43 | running the stage on its own output gives the same pixels as running it once |
| `Grayscale.BlueOnlyTestPixel` | test/kg/projects/image/editor/imagekit/algorithm/grayscale/LuminosityGrayscaleTest.java:19-41 | a TYPE_INT_RGB pixel written as v = x + y <= 18 grays to 1 when v >= 8 and to 0 otherwise, as the grayscale test expects |
| `Grayscale.LuminosityGrayscale.Process` | src/kg/projects/image/editor/imagekit/algorithm/grayscale/LuminosityGrayscale.java:17-43 | null is refused with IllegalArgumentException; otherwise a fresh TYPE_INT_RGB raster of the input's size holds the gray pixel of every input pixel, and the input is unchanged |
| `RoundedSqrt.RoundSqrtFrom` | src/kg/projects/image/editor/imagekit/algorithm/detection/SobelEdgeDetection.java:50-51 | the upward search from a lower bound ends at the rounded square root |
| `RoundedSqrt.RoundSqrt` | src/kg/projects/image/editor/imagekit/algorithm/detection/SobelEdgeDetection.java:50-51 | the result is sqrt(n) rounded to the nearest integer |
| `RoundedSqrt.RoundSqrtUnique` | src/kg/projects/image/editor/imagekit/algorithm/detection/SobelEdgeDetection.java:50-51 | only one integer is sqrt(n) rounded, so the rounded root is fully determined |
| `RoundedSqrt.NoHalfwayRoot` | src/kg/projects/image/editor/imagekit/algorithm/detection/SobelEdgeDetection.java:50-51 | sqrt(n) is never halfway between two integers, so the rounding direction of halves never matters |
| `RoundedSqrt.RoundSqrtMonotone` | src/kg/projects/image/editor/imagekit/algorithm/detection/SobelEdgeDetection.java:50-51 | a larger argument never has a smaller rounded root |
| `Detection.GetSafePixel` | src/kg/projects/image/editor/imagekit/algorithm/detection/SobelEdgeDetection.java:84-89 | the low byte of the stored pixel inside the raster, and 0 anywhere outside it |
| `Detection.CalculateGx` | src/kg/projects/image/editor/imagekit/algorithm/detection/SobelEdgeDetection.java:56-68 | the horizontal sum lies in [-1020, 1020] |
| `Detection.CalculateGy` | src/kg/projects/image/editor/imagekit/algorithm/detection/SobelEdgeDetection.java:70-82 | the vertical sum lies in [-1020, 1020] |
| `Detection.GxIsKernelSum` | src/kg/projects/image/editor/imagekit/algorithm/detection/SobelEdgeDetection.java:56-68 | Gx equals the correlation with the kernel [[-1,0,1],[-2,0,2],[-1,0,1]] over the zero-padded low bytes |
| `Detection.GyIsKernelSum` | src/kg/projects/image/editor/imagekit/algorithm/detection/SobelEdgeDetection.java:70-82 | Gy equals the correlation with the kernel [[-1,-2,-1],[0,0,0],[1,2,1]] over the zero-padded low bytes |
| `Detection.GradientsReadOnlyNeighbours` | src/kg/projects/image/editor/imagekit/algorithm/detection/SobelEdgeDetection.java:56-89 | two rasters whose eight neighbours of (x, y) share their low bytes give the same Gx, Gy and edge pixel there: the centre and the upper three bytes are never read |
| `Detection.EdgeValue` | src/kg/projects/image/editor/imagekit/algorithm/detection/SobelEdgeDetection.java:50-51 | the value is 255, or round(sqrt(Gx^2 + Gy^2)); it is 255 only when that magnitude rounds to 255 or more |
| `Detection.EdgeValueMonotone` | src/kg/projects/image/editor/imagekit/algorithm/detection/SobelEdgeDetection.java:50-51 | a gradient of larger magnitude never gives a smaller edge value |
| `Detection.ComputeNewPixel` | src/kg/projects/image/editor/imagekit/algorithm/detection/SobelEdgeDetection.java:46-54 | the pixel is `PackArgb(0, v, v, v)` with v = EdgeValue(Gx, Gy): no alpha bits are set, and `NewPixelChannels` proves that R, G and B each read back as v |
| `Detection.NewPixelChannels` | src/kg/projects/image/editor/imagekit/algorithm/detection/SobelEdgeDetection.java:46-54 | the new pixel carries the edge value in R, G and B and no alpha |
| `Detection.SinglePixelHasNoEdge` | src/kg/projects/image/editor/imagekit/algorithm/detection/SobelEdgeDetection.java:59-89 | in a 1x1 raster Gx = Gy = 0 and the new pixel is 0, whatever the pixel |
| `Detection.RampInteriorEdge` | test/kg/projects/image/editor/imagekit/algorithm/detection/SobelEdgeDetectionTest.java:31-37 | on a raster whose low byte at (i, j) is i + j, every interior pixel has Gx = Gy = 8 and edge value 11 |
| `Detection.ReferenceAgreesWithPadding` | test/kg/projects/image/editor/imagekit/algorithm/detection/SobelEdgeDetectionTest.java:45-76 | the test's sums, which skip neighbours outside the raster, equal the zero-padded sums of the stage |
| `Detection.GrayInputMatchesTestOracle` | test/kg/projects/image/editor/imagekit/algorithm/detection/SobelEdgeDetectionTest.java:26-86 | for an input whose pixels all have R = G = B, the pixel the stage writes is the test's expected opaque pixel, computed from the input's own low bytes |
| `Detection.SobelEdgeDetection.constructor` | src/kg/projects/image/editor/imagekit/algorithm/detection/SobelEdgeDetection.java:23 | the detector keeps the grayscale stage it is given |
| `Detection.SobelEdgeDetection.Create` | src/kg/projects/image/editor/imagekit/algorithm/detection/SobelEdgeDetection.java:16-24 | null is refused, then a collaborator that is not a grayscale algorithm, each with IllegalArgumentException and its message; a grayscale algorithm gives a detector holding it |
| `Detection.SobelEdgeDetection.Process` | src/kg/projects/image/editor/imagekit/algorithm/detection/SobelEdgeDetection.java:27-44 | null is refused before the grayscale stage runs; otherwise the gray intermediate is the grayscale stage's output, the result is a fresh TYPE_INT_RGB raster of the same size holding the edge pixel of the intermediate at every (x, y), and the input is unchanged |
| `Detection.FillEdges` | src/kg/projects/image/editor/imagekit/algorithm/detection/SobelEdgeDetection.java:37-42 | after the two loops every pixel of the result is the edge pixel of the gray raster there |
| `Detection.FillColumn` | src/kg/projects/image/editor/imagekit/algorithm/detection/SobelEdgeDetection.java:38-41 | the inner loop fills column x and leaves every other column as it was |
| `FileSystem.LastIndexOf` | src/kg/projects/image/editor/imagekit/filesystem/LocalFileSystemImageManager.java:30 | the position of the last occurrence of the character, or -1 exactly when there is none |
| `FileSystem.GetExtension` | src/kg/projects/image/editor/imagekit/filesystem/LocalFileSystemImageManager.java:29-31 | the extension has no '.', ends the name, follows a '.' when the name has one, and is the whole name otherwise |
| `FileSystem.ExtensionOfJoinedName` | src/kg/projects/image/editor/imagekit/filesystem/LocalFileSystemImageManager.java:29-31 | the extension of base + "." + ext is ext, for any base and any ext without '.' |
| `FileSystem.SupportedExtensionIsSupportedName` | src/kg/projects/image/editor/imagekit/filesystem/LocalFileSystemImageManager.java:15-31 | a name whose extension is a supported format passes the suffix test |
| `FileSystem.DotlessNameCanPass` | src/kg/projects/image/editor/imagekit/filesystem/LocalFileSystemImageManager.java:17-31 | "xpng" passes the suffix test although its extension, "xpng", is no supported format |
| `FileSystem.UnsupportedNames` | src/kg/projects/image/editor/imagekit/filesystem/LocalFileSystemImageManager.java:15-27 | "test.fake", "test.text" and "photo.PNG" fail the suffix test, which is case-sensitive |
| `FileSystem.CollectImages` | src/kg/projects/image/editor/imagekit/filesystem/LocalFileSystemImageManager.java:84-94 | the loop over the listing: it returns at most one image per entry and fails only with the loop's two IOException messages; `CollectImagesSucceeds` and `CollectImagesFailsAtFirstBadFile` characterise it completely |
| `FileSystem.FailureIsFinal` | src/kg/projects/image/editor/imagekit/filesystem/LocalFileSystemImageManager.java:84-94 | once the directory loop has failed on a prefix of the listing, the rest of the listing does not change the outcome |
| `FileSystem.CollectImagesSucceeds` | src/kg/projects/image/editor/imagekit/filesystem/LocalFileSystemImageManager.java:82-95 | the directory loop succeeds exactly when every regular file is supported and decodes, and then returns the decoded images of the regular files in listing order, skipping everything else |
| `FileSystem.CollectImagesFailsAtFirstBadFile` | src/kg/projects/image/editor/imagekit/filesystem/LocalFileSystemImageManager.java:84-94 | a failing directory loop fails at the first regular file that is unsupported or decodes to null, with that file's error |
| `FileSystem.LocalFileSystemImageManager.IsSupportedFormat` | src/kg/projects/image/editor/imagekit/filesystem/LocalFileSystemImageManager.java:17-27 | true exactly when the file is not null and its name ends with "jpg", "jpeg", "png" or "bmp" |
| `FileSystem.LocalFileSystemImageManager.LoadImage` | src/kg/projects/image/editor/imagekit/filesystem/LocalFileSystemImageManager.java:37-65 | null file, then missing or non-regular file, then unsupported name, then null decode, each with its exception and message; otherwise a fresh TYPE_INT_RGB raster of the decoded image's size with its colours at alpha 0xFF |
| `FileSystem.LocalFileSystemImageManager.LoadImagesFromDirectory` | src/kg/projects/image/editor/imagekit/filesystem/LocalFileSystemImageManager.java:68-96 | null directory, then missing or non-directory, then null listing, each with its exception and message; otherwise the outcome of the directory loop over the listing |
| `FileSystem.LocalFileSystemImageManager.SaveImage` | src/kg/projects/image/editor/imagekit/filesystem/LocalFileSystemImageManager.java:99-124 | null image, then null file, then existing file, then missing named parent, then unsupported name, each with its exception and message and no write; otherwise the image is written with the name's extension as format, and the save fails exactly when the write does |
| `FileSystem.LoadedCopyOfOpaqueImage` | test/kg/projects/image/editor/imagekit/filesystem/LocalFileSystemImageManagerTest.java:62-83 | an image decoded as TYPE_INT_RGB comes out of the copy in `loadImage` with every pixel unchanged |

## Left out

- Floating point: the luma is computed on exact hundredths, not IEEE-754 doubles. `0.21 R + 0.72 G + 0.07 B` in doubles could round differently from the exact value where that value is exactly halfway between two integers; the model does not claim agreement at those points.
- `Math.sqrt` and `Math.pow`: the magnitude is the exact integer rounded square root. For integers up to 2 * 1020^2 a correctly rounded double square root rounds to the same integer, since no root is halfway between two integers (`NoHalfwayRoot`); this argument is not itself proved.
- Java `int` width: every intermediate value here (sums within ±1020, their squares, packed pixels) fits, so no wrap-around is modelled.
- The disk and the codecs: `File.exists`, `isFile`, `isDirectory`, `getParentFile`, `listFiles`, `ImageIO.read` and `ImageIO.write` are not executed. Their answers are fields of the `FileNode` snapshot, fixed for the duration of a call, and `writeSucceeds` does not depend on the format passed to the writer.
- `ImageIO.read` and `ImageIO.write` can also throw an IOException of their own, which leaves `loadImage` (LocalFileSystemImageManager.java:50), `loadImagesFromDirectory` (line 86) and `saveImage` (line 120) with ImageIO's message. The snapshot has no such outcome, so every failure the model produces carries one of the manager's own messages. The messages named for `LoadImage`, `LoadImagesFromDirectory`, `SaveImage` and `CollectImagesFailsAtFirstBadFile` are exact only for a decode that returns a value or null, and for a write that returns true or false.
- FileSystem.LocalFileSystemImageManager.LoadImage: decoding has no observable effect in the model, so the promise that `ImageIO.read` is not reached when an earlier check fails is stated only as the order of the outcomes.
- BufferedImage internals: only TYPE_INT_RGB and an image type that keeps its alpha are modelled. A TYPE_INT_RGB raster keeps the whole written value and reports alpha 0xFF when read, which is what `getRGB` observes. Java refuses rasters of width or height 0; the model allows them, and its loops then do nothing.
- Detection.SobelEdgeDetection: the Java field `grayscaleAlgorithm` is package-private and mutable; the model makes it constant, as no code in the repository writes it after construction.
- The interfaces `ImageAlgorithm`, `GrayscaleAlgorithm`, `EdgeDetectionAlgorithm` and `FileSystemImageManager` are not part of this model. The constructor's `instanceof` test is modelled with `AlgorithmRef`, whose cases are null and the repository's two algorithm classes.
- The commented-out earlier `process` in SobelEdgeDetection.java (lines 91-152) and the commented-out `main` in LocalFileSystemImageManager.java (lines 126-147) are dead code.
- `Set.of` iterates in an unspecified order; `IsSupportedFormat` tries the formats in any order, which does not change its answer.
