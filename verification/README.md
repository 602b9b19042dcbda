# Image processing engine: a Dafny model

This project models the pixel engine of a small Java image editor, together with the proofs about it. The engine is the `ImageModel` class.

The editor offers these operations on RGB images:

- mirror the image horizontally or vertically;
- brighten it;
- reduce it to grey by value or by intensity;
- blur or sharpen it with a convolution kernel;
- recombine three images into one;
- show a split view of an image and its processed version;
- correct its colours by aligning histogram peaks;
- compute the scaled histograms for the histogram plot;
- adjust black, mid and white levels;
- compress it lossily with a 2D Haar wavelet transform.

Three utilities are modelled as well:

- `HaarTransform` (the wavelet transform). `ImageModel` carries a private copy of it with the same text, so one Dafny definition serves both.
- `ImageTransformer`, which moves images to and from packed-RGB rasters.
- `StandardImageHandler.getFileExtension`.

The modules follow the program's structure:

| module | models |
|---|---|
| `Outcomes` | `Option`, `Result` and the error kinds that stand for the source's exceptions |
| `JavaInt` | Java `int` wrap-around, truncating `/`, and the `(int)` cast |
| `PixelGrid` | pixels, images as rectangular grids, and the `[0,255]` clamp |
| `Pointwise` | flips, brighten, value, intensity, combine |
| `Convolution` | `filterImageByKernel`, blur, sharpen |
| `Compositor` | `splitView` |
| `Histogram` | `storeHistogram`, `scaleHistogram`, `findPeak`, `correctColor` |
| `Levels` | `adjustLevels`, `adjustValue` |
| `RootTwo` | exact numbers p + q·√2, used for the Haar values |
| `Haar` | the 1D and 2D forward and inverse transforms |
| `Compression` | `compressImage`, `nextPowerOfTwo`, `getChannelData`, `applyThreshold`, `decompressImage` |
| `ImageTransformer` | pack and unpack, and the image↔raster conversions |
| `FileNames` | `getFileExtension` |
| `ImageModel` | the public operations, with null images as `None` and the order of argument checks |

## How values are represented

- **Images.** An image is a `seq<seq<Pixel>>`: rows, then columns. Every channel is an unbounded `int`. `WellFormed` says the grid is rectangular and every channel lies in [0,255].
- **Java `int` arithmetic.** The places where Java's 32-bit arithmetic matters are written out with `JavaInt.Wrap`:
  - `pixel + increment` in `brighten`;
  - `width * percentage` in `splitView`;
  - `count * height` in `scaleHistogram`.
- **Doubles in the Haar transform.** The transform starts from integers and only adds, subtracts and divides by √2. Its values are therefore always of the form p + q·√2 with rational p and q. `RootTwo.Surd` stores exactly that pair, and dividing by √2 is the exact map (p, q) ↦ (q, p/2). As a result:
  - The model is exact: forward and inverse transforms invert each other exactly.
  - The threshold comparison `Math.abs(c) < t` and the clamp-and-truncate of `decompressImage` are decided from p and q.
  - `RootTwo.SignOfValue` shows these decisions agree with the real number for any positive square root of 2.
  - IEEE rounding of doubles is not modelled.
- **Doubles elsewhere.** Kernel weights and level slopes are exact `real`s, and `(int)` is truncation toward zero (`JavaInt.Trunc`).
- **Exceptions and nulls.** A thrown exception becomes an `Err`. Null image arguments exist only in module `ImageModel`, where an image is an `Option<Grid>`. Some operations dereference a null image without checking it (`splitView`, `correctColor`, `adjustLevels`). For those, the `NullPointerException` is reported as `MissingImage` at the point where the source would dereference.
- **Rasters without pixels.** `new BufferedImage(width, height, TYPE_INT_RGB)` throws IllegalArgumentException unless both sides are positive. `correctColor` (`ImageModel.java:325-326`) and `transformImageToBufferImage` (`ImageTransformer.java:45-46`) create one of the input's size, so an image of zero width or height is refused there with `EmptyImage`.

## Where the code and its description differ

The model follows the code in each case below.

- **Kernel filtering.** The code truncates each product `(int)(sample * weight)` before summing (`ImageModel.java:136`), not the weighted sum. A uniform white image is darkened by blur (see Findings).
- **Levels with `mid == white`.** The value `white` falls in the lower segment and maps to 128, not 255 (`ImageModel.java:502-503`). With `black == mid`, the value `black` yields `0 * Infinity`, and the cast turns the NaN into 0.
- **Split view.** `splitView` never compares the dimensions of its two images. It reads the processed image only in columns left of the split point, so a smaller or missing processed image fails only if such a column exists.
- **Wavelet padding.** The 2D transform uses the row count for both loops (`HaarTransform.java:61`). The padded grid is only square when the padded width and height agree (see Findings).

## Model

| member | source | states |
|---|---|---|
| ImageModel.Apply | src/model/ImageModel.java:45-89 | flipHorizontal, flipVertical and brighten (like value, intensity, blur and sharpen) refuse exactly a null image, with MissingImage; otherwise they return a well-formed image of the input's size |
| ImageModel.ApplyFlipTwice | src/model/ImageModel.java:45-70 | applying the same flip to a flip's result gives back the original image |
| ImageModel.CombineImage | src/model/ImageModel.java:27-42 | any null channel image is refused before a pixel is read; otherwise the result is the pixelwise combination |
| ImageModel.SplitViewImage | src/model/ImageModel.java:282-287 | the percentage range is checked before the image is dereferenced |
| ImageModel.CorrectColorImage | src/model/ImageModel.java:302-338 | fails with MissingImage on a null image and with EmptyImage on an image of zero width or height (the result raster cannot be created); otherwise it returns the colour-corrected image of the same size |
| ImageModel.HistogramImage | src/model/ImageModel.java:355-378 | null gives MissingImage; a non-null image fails (division by zero) exactly when it has no pixels |
| ImageModel.AdjustLevelsImage | src/model/ImageModel.java:455-480 | level errors are reported before a null image is dereferenced |
| ImageModel.CompressImage | src/model/ImageModel.java:510-518 | the null check precedes the percentage check |
| ImageModel.NullAndRangeOrder | src/model/ImageModel.java:282-285 | with a bad percentage and no image, compressImage reports the null image and splitView reports the range |
| PixelGrid.Clamp | src/model/ImageModel.java:350-352 | the result lies in [0,255], keeps in-range values, and maps values below 0 to 0 and above 255 to 255 |
| JavaInt.Wrap | src/model/ImageModel.java:405 | the result is a 32-bit int congruent to the exact value modulo 2^32, and equal to it when it fits |
| JavaInt.Div | src/model/ImageModel.java:405 | integer division truncates toward zero, for either sign of the dividend |
| JavaInt.Trunc | src/model/ImageModel.java:503-505 | the `(int)` cast of a double lands within 1 of it, toward zero |
| Pointwise.FlipHorizontal | src/model/ImageModel.java:45-56 | same size; the pixel at column j moves to column width-1-j of the same row |
| Pointwise.FlipHorizontalInvolution | src/model/ImageModel.java:45-56 | flipping horizontally twice is the identity |
| Pointwise.FlipVertical | src/model/ImageModel.java:59-70 | same size; the pixel at row i moves to row height-1-i of the same column |
| Pointwise.FlipVerticalInvolution | src/model/ImageModel.java:59-70 | flipping vertically twice is the identity |
| Pointwise.FlipsCommute | src/model/ImageModel.java:45-70 | the two flips commute |
| Pointwise.BrightenChannel | src/model/ImageModel.java:83 | the result is a channel value, and when the sum does not overflow it is the sum clamped to [0,255] |
| Pointwise.Brighten | src/model/ImageModel.java:73-89 | same size and well-formed; each channel of each pixel is brightened independently |
| Pointwise.BrightenZero | src/model/ImageModel.java:73-89 | brightening by 0 leaves a well-formed image unchanged |
| Pointwise.BrightenCompose | src/model/ImageModel.java:73-89 | two non-negative brightenings equal one by their sum, while no overflow occurs |
| Pointwise.BrightenOverflowDarkens | src/model/ImageModel.java:83 | brightening a dark pixel by Integer.MAX_VALUE wraps around and yields black |
| Pointwise.BrightenSaturating | src/model/ImageModel.java:83 | the overflow-free brighten gives a well-formed image of the same size |
| Pointwise.BrightenAgreesWithoutOverflow | src/model/ImageModel.java:73-89 | whenever no channel sum can overflow, brighten as written equals the overflow-free brighten |
| Pointwise.BrightenSaturatingMonotone | src/model/ImageModel.java:83 | with the overflow-free brighten, a non-negative increment never darkens a channel and a non-positive one never brightens it |
| Pointwise.ValuePixel | src/model/ImageModel.java:223-226 | the grey level is one of the three channels and is at least each of them |
| Pointwise.Value | src/model/ImageModel.java:215-232 | same size and well-formed, each pixel replaced by its value grey |
| Pointwise.IntensityPixel | src/model/ImageModel.java:243-246 | the grey level is the floor of the channel mean: 3·q ≤ r+g+b < 3·q+3 |
| Pointwise.Intensity | src/model/ImageModel.java:235-252 | same size and well-formed, each pixel replaced by its intensity grey |
| Pointwise.GreyscalesAgreeOnGrey | src/model/ImageModel.java:215-252 | value and intensity fix grey pixels, and intensity never exceeds value |
| Pointwise.Combine | src/model/ImageModel.java:31-41 | succeeds exactly when green and blue cover red's size; each pixel takes red from red, green from green and blue from blue |
| Pointwise.CombineSelf | src/model/ImageModel.java:27-42 | combining an image with itself three times gives the image back |
| Convolution.ClampIndex | src/model/ImageModel.java:133-134 | a sample coordinate is moved into [0, n): kept inside, 0 below, n-1 above (edge replication) |
| Convolution.FilterByKernel | src/model/ImageModel.java:117-147 | same size and well-formed; each pixel is the kernel filter of its clamped neighbourhood |
| Convolution.Blur | src/model/ImageModel.java:150-153 | a well-formed image of the same size whose every pixel is the 3x3 blur kernel applied around it |
| Convolution.Sharpen | src/model/ImageModel.java:156-161 | a well-formed image of the same size whose every pixel is the 5x5 sharpen kernel applied around it |
| Convolution.FilterBlack | src/model/ImageModel.java:117-147 | any kernel maps an all-black image to an all-black image |
| Convolution.BlurDarkensWhite | src/model/ImageModel.java:136 | blurring a single white pixel yields grey 247, because each product is truncated |
| Convolution.FilterByKernelExact | src/model/ImageModel.java:117-147 | the filter that truncates the weighted sum once gives a same-size well-formed image |
| Convolution.ExactFilterKeepsUniform | src/model/ImageModel.java:117-147 | with sum-then-truncate, any kernel whose weights sum to 1 leaves a uniform image unchanged |
| Convolution.BlurWeightsSumToOne | src/model/ImageModel.java:151 | the blur kernel is 3x3 and its weights sum to 1 |
| Convolution.SharpenWeightsSumToOne | src/model/ImageModel.java:157-159 | the sharpen kernel is 5x5 and its weights sum to 1 |
| Convolution.ExactBlurAndSharpenKeepUniform | src/model/ImageModel.java:150-161 | blur and sharpen with exact summation leave uniform images unchanged |
| Histogram.StoreHistogram | src/model/ImageModel.java:388-397 | bin v of channel c counts exactly the pixels whose channel c equals v |
| Histogram.AccumulateCounts | src/model/ImageModel.java:391-394 | accumulating pixels adds to each bin exactly the number of those pixels with that value |
| Histogram.HistogramTotal | src/model/ImageModel.java:388-397 | each channel's bins sum to the number of pixels |
| Histogram.MaxCount | src/model/ImageModel.java:400-403 | the first loop's max is an upper bound of every bin and is 0 or attained by some bin |
| Histogram.MaxCountZeroIffEmpty | src/model/ImageModel.java:399-409 | the largest bin is 0 exactly when the image has no pixels |
| Histogram.ScaleHistogram | src/model/ImageModel.java:399-409 | fails with division by zero exactly when every bin is 0 |
| Histogram.ScaleHistogramExact | src/model/ImageModel.java:399-409 | fails exactly when every bin is 0; otherwise bin i of every channel is count·height/max rounded down, so it lies in [0, height], and every channel's tallest bin reaches height |
| Histogram.ScaleHistogramAgreesWithoutOverflow | src/model/ImageModel.java:405-407 | while max·height fits in an int, the code's scaling equals the exact one |
| Histogram.ScaleHistogramOverflows | src/model/ImageModel.java:405 | with 2^23 black pixels and height 256 the code scales the tallest bin to -256, the exact scaling to 256 |
| Histogram.FindPeak | src/model/ImageModel.java:340-348 | the result is the first index of [lo, hi] holding the range's maximum count, or lo for an empty range |
| Histogram.Peak | src/model/ImageModel.java:318-320 | a channel's peak lies in [10, 245] |
| Histogram.AveragePeak | src/model/ImageModel.java:322 | the average is the floor of the mean of the three peaks |
| Histogram.ShiftPixel | src/model/ImageModel.java:331-333 | shifted channels are clamped to [0,255]; zero offsets keep a valid pixel |
| Histogram.ShiftedImage | src/model/ImageModel.java:328-333 | every pixel has each channel shifted by its offset and clamped to [0,255] |
| ImageTransformer.ColorBuffer | src/model/ImageModel.java:325-336 | refused (EmptyImage) exactly when the width or height is 0; otherwise the raster has the image's size and its (x, y) entry unpacks to pixel (y, x) |
| Histogram.AlignPeaks | src/model/ImageModel.java:322-337 | fails exactly on an image of zero width or height; otherwise each channel is shifted by avgPeak - peak and clamped, through the raster round trip |
| Histogram.ShiftsNearlyCancel | src/model/ImageModel.java:322 | the three offsets sum to a value in [-2, 0] |
| Histogram.AlignEqualPeaksIsIdentity | src/model/ImageModel.java:322-337 | when the three peaks coincide an image with pixels is returned unchanged |
| Histogram.CorrectColor | src/model/ImageModel.java:302-338 | fails (EmptyImage) exactly on zero width or height; otherwise same size and well-formed, each channel moved by the average peak minus that channel's peak and clamped |
| Histogram.CorrectColorAlignedIsIdentity | src/model/ImageModel.java:302-338 | an image with pixels whose channel peaks coincide is left unchanged; one without pixels is refused |
| Levels.CheckLevels | src/model/ImageModel.java:458-475 | no error exactly for valid levels; an out-of-range level is reported before a misordered one |
| Levels.Rescale | src/model/ImageModel.java:477-478 | a distance within the segment is mapped into [0, top], with the ends mapped to the ends |
| Levels.RescaleMonotone | src/model/ImageModel.java:477-478 | the rescaling is monotone in the distance |
| Levels.AdjustValue | src/model/ImageModel.java:494-506 | the result is a channel value: below black gives 0, above white gives 255, black gives 0, mid gives 128 and white gives 255 (when mid < white), in exact arithmetic |
| Levels.AdjustValueMonotone | src/model/ImageModel.java:494-506 | under valid levels the curve never maps a brighter input to a darker output |
| Levels.DefaultLevelsKeepValue | src/model/ImageModel.java:494-506 | levels (0, 128, 255) map every channel value to itself |
| Levels.AdjustLevels | src/model/ImageModel.java:455-492 | succeeds exactly for valid levels, with the first failing check's error; the result applies the curve to every channel |
| Levels.DefaultLevelsAreIdentity | src/model/ImageModel.java:455-492 | levels (0, 128, 255) leave a well-formed image unchanged |
| Levels.MidEqualsWhiteCapsAtMid | src/model/ImageModel.java:502-503 | with mid == white, the value white maps to 128 and only brighter values reach 255 |
| Compositor.SplitPoint | src/model/ImageModel.java:286 | for a valid percentage without overflow, the split point is the floor of width·percentage/100 |
| Compositor.SplitView | src/model/ImageModel.java:282-299 | a bad percentage is refused; otherwise the call fails only if a pixel left of the split is needed from a missing or too-small processed image; each pixel comes from processed left of the split and from the image elsewhere |
| Compositor.SplitViewOfSameImage | src/model/ImageModel.java:282-299 | splitting an image against itself gives it back |
| Compositor.SplitViewZeroIsOriginal | src/model/ImageModel.java:282-299 | at 0% the original is returned, even without a processed image |
| Compositor.SplitViewFullIsProcessed | src/model/ImageModel.java:282-299 | at 100% a processed image of the same size is returned |
| ImageTransformer.Unpack | src/utils/ImageTransformer.java:29 | unpacking any int yields a pixel with channels in [0,255] |
| ImageTransformer.UnpackPack | src/utils/ImageTransformer.java:63 | packing a valid pixel gives a 24-bit value from which unpacking recovers the pixel |
| ImageTransformer.PackUnpack | src/utils/ImageTransformer.java:29 | repacking an unpacked int gives its low 24 bits |
| ImageTransformer.UnpackColor | src/model/ImageModel.java:334 | the opaque colour value of a valid pixel unpacks to the pixel |
| ImageTransformer.ReadStoredColor | src/model/ImageModel.java:334 | a colour stored in an RGB raster and read back (alpha set) unpacks to the pixel |
| ImageTransformer.ImageToBuffer | src/utils/ImageTransformer.java:44-67 | refused (EmptyImage) exactly when the width or height is 0; otherwise the raster has the image's size and (x, y) unpacks to pixel (y, x) |
| ImageTransformer.BufferToImage | src/utils/ImageTransformer.java:22-34 | the image has the raster's size and pixel (i, j) is the unpacked (j, i) |
| ImageTransformer.ImageBufferRoundTrip | src/utils/ImageTransformer.java:22-67 | image → raster is refused exactly for an image without pixels, and otherwise image → raster → image is the identity |
| RootTwo.DivRootTwoValue | src/utils/compression/HaarTransform.java:22-23 | the exact division by √2 multiplied by √2 gives back the number |
| RootTwo.SignOfValue | src/model/ImageModel.java:605 | the sign decided from (p, q) is the sign of p + q·√2 |
| RootTwo.AbsBelowMonotone | src/model/ImageModel.java:605 | a value below threshold t1 is below every larger threshold |
| RootTwo.NotAbsBelowNonPositive | src/model/ImageModel.java:605 | no value lies strictly below a threshold of 0 or less |
| RootTwo.FloorTo | src/model/ImageModel.java:578-580 | the result r ≤ k satisfies r ≤ v < r+1 within [0, k] |
| RootTwo.ToChannel | src/model/ImageModel.java:578-580 | clamp to [0,255], then truncate: negatives give 0, values above 255 give 255, otherwise the floor |
| RootTwo.ToChannelOfInt | src/model/ImageModel.java:578-580 | an exact integer channel value is read back unchanged |
| Haar.PairRoundTrip | src/utils/compression/HaarTransform.java:22-47 | the inverse pair step undoes the forward average/difference step |
| Haar.Level | src/utils/compression/HaarTransform.java:19-27 | one level keeps the length and leaves every entry from n on untouched |
| Haar.LevelAtPair | src/utils/compression/HaarTransform.java:21-25 | for even n, one level puts the average of pair i at i and its difference at n/2+i |
| Haar.Forward | src/utils/compression/HaarTransform.java:15-29 | fails (index out of range) exactly on odd lengths above 1, keeps the length, and fixes lengths 0 and 1 |
| Haar.Unlevel | src/utils/compression/HaarTransform.java:41-51 | one inverse level keeps the length and leaves every entry from m on untouched |
| Haar.UnlevelAtPair | src/utils/compression/HaarTransform.java:42-50 | one inverse level rebuilds pair 2i, 2i+1 as the average and the difference of positions i and m/2+i |
| Haar.InverseFrom | src/utils/compression/HaarTransform.java:41-51 | keeps the length and changes nothing once m exceeds it |
| Haar.Inverse | src/utils/compression/HaarTransform.java:36-53 | keeps the length and fixes lengths 0 and 1 |
| Haar.UnlevelLevel | src/utils/compression/HaarTransform.java:19-51 | an inverse level undoes a forward level |
| Haar.LevelUnlevel | src/utils/compression/HaarTransform.java:19-51 | a forward level undoes an inverse level |
| Haar.InverseAfterForward | src/utils/compression/HaarTransform.java:15-53 | the inverse loop undoes the remaining forward levels |
| Haar.ForwardAfterInverse | src/utils/compression/HaarTransform.java:15-53 | the forward loop undoes the remaining inverse levels |
| Haar.InverseForward | src/utils/compression/HaarTransform.java:15-53 | on power-of-two lengths the inverse of the forward transform is the identity |
| Haar.ForwardInverse | src/utils/compression/HaarTransform.java:15-53 | on power-of-two lengths the forward of the inverse transform is the identity |
| Haar.ForwardOddLengthFails | src/utils/compression/HaarTransform.java:21-22 | a length-3 sequence reads past its end |
| Haar.ForwardRows | src/utils/compression/HaarTransform.java:63-65 | every row is replaced by its forward transform |
| Haar.InverseRows | src/utils/compression/HaarTransform.java:100-102 | every row is replaced by its inverse transform |
| Haar.ForwardColumns | src/utils/compression/HaarTransform.java:67-76 | the first count columns are replaced by their forward transforms and the rest are untouched |
| Haar.InverseColumns | src/utils/compression/HaarTransform.java:89-98 | the first count columns are replaced by their inverse transforms and the rest are untouched |
| Haar.InverseColumnsForward | src/utils/compression/HaarTransform.java:67-98 | the column inverse undoes the column forward on power-of-two heights |
| Haar.ForwardColumnsInverse | src/utils/compression/HaarTransform.java:67-98 | the column forward undoes the column inverse on power-of-two heights |
| Haar.InverseRowsForward | src/utils/compression/HaarTransform.java:63-102 | the row inverse undoes the row forward on power-of-two widths |
| Haar.ForwardRowsInverse | src/utils/compression/HaarTransform.java:63-102 | the row forward undoes the row inverse on power-of-two widths |
| Haar.Forward2D | src/utils/compression/HaarTransform.java:60-79 | with size = row count: fails exactly on an odd width above 1, a height above the width, or an odd height above 1 |
| Haar.Inverse2D | src/utils/compression/HaarTransform.java:86-105 | with size = row count: fails exactly when the height exceeds the width; otherwise columns, then rows |
| Haar.Inverse2DForward2D | src/utils/compression/HaarTransform.java:60-105 | for power-of-two sides with height ≤ width, the 2D inverse undoes the 2D forward |
| Haar.Forward2DInverse2D | src/utils/compression/HaarTransform.java:60-105 | for power-of-two sides with height ≤ width, the 2D forward undoes the 2D inverse |
| Haar.Forward2DTallFails | src/utils/compression/HaarTransform.java:61-70 | a 2x1 matrix makes the as-written 2D transform read a missing column |
| Haar.Forward2DFull | src/utils/compression/HaarTransform.java:60-79 | the corrected 2D transform runs over every column and fails only on odd sides above 1 |
| Haar.Inverse2DFull | src/utils/compression/HaarTransform.java:86-105 | the corrected 2D inverse inverts every column, then every row |
| Haar.Inverse2DFullForward2DFull | src/utils/compression/HaarTransform.java:60-105 | for any power-of-two sides, the corrected inverse undoes the corrected forward |
| Haar.Forward2DFullInverse2DFull | src/utils/compression/HaarTransform.java:60-105 | for any power-of-two sides, the corrected forward undoes the corrected inverse |
| Compression.NextPow2 | src/model/ImageModel.java:555-560 | a power of two at least n whose half is below n (1 for n ≤ 1) |
| Compression.NextPow2Least | src/model/ImageModel.java:555-560 | no power of two at least n is smaller than the result |
| Compression.NextPow2OfPow2 | src/model/ImageModel.java:555-560 | a power of two is its own padded size |
| Compression.PaddedChannel | src/model/ImageModel.java:526-540 | the channel's values, with the padding beyond the image zero |
| Compression.Threshold | src/model/ImageModel.java:602-610 | coefficients of magnitude strictly below t become 0 and all others are kept |
| Compression.ThresholdNonPositive | src/model/ImageModel.java:602-610 | a threshold of 0 or less changes nothing |
| Compression.ThresholdCompose | src/model/ImageModel.java:602-610 | thresholding at t1 and then at a larger t2 is thresholding at t2 |
| Compression.ThresholdIdempotent | src/model/ImageModel.java:602-610 | thresholding twice at the same level is thresholding once |
| Compression.ReconstructPadded | src/model/ImageModel.java:576-583 | cropping, clamping and truncating the exact padded channels gives back the image |
| Compression.Decompress | src/model/ImageModel.java:562-586 | fails exactly when the channels are taller than wide; otherwise it inverts each channel and reconstructs |
| Compression.TransformChannel | src/model/ImageModel.java:538-550 | fails exactly when the padded height exceeds the padded width; otherwise the padded, transformed and thresholded channel |
| Compression.Compress | src/model/ImageModel.java:510-553 | a bad percentage gives InvalidRange; a padded height above the padded width gives IndexOutOfRange; otherwise an image of the input's size |
| Compression.CompressZeroIsLossless | src/model/ImageModel.java:510-553 | at 0%, when the padded grid is not tall, compression returns the image unchanged |
| Compression.CompressTallFails | src/model/ImageModel.java:543 | a 1-wide, 2-high image makes compression fail at every valid percentage |
| Compression.TransformChannelFull | src/model/ImageModel.java:538-550 | with the corrected 2D transform every padded channel transforms |
| Compression.CompressFull | src/model/ImageModel.java:510-553 | the corrected compression fails only on a bad percentage |
| Compression.CompressFullZeroIsLossless | src/model/ImageModel.java:510-553 | the corrected compression at 0% returns every well-formed image unchanged |
| Compression.CompressAgreesWhenWide | src/model/ImageModel.java:510-553 | when the padded sides are equal the code and the corrected compression agree |
| FileNames.LastIndexOf | src/utils/StandardImageHandler.java:40 | the last position holding the character, or -1 when there is none |
| FileNames.FileExtension | src/utils/StandardImageHandler.java:39-42 | the extension is a dot-free suffix of the path, preceded by a dot unless it is the whole path |
| FileNames.FileExtensionUnique | src/utils/StandardImageHandler.java:39-42 | the extension is the only suffix with those properties: the longest dot-free suffix |
| FileNames.FileExtensionOfName | src/utils/StandardImageHandler.java:39-42 | the path name + "." + ext with a dot-free ext has extension ext |
| FileNames.FileExtensionTrailingDot | src/utils/StandardImageHandler.java:39-42 | a path ending in a dot has the empty extension |

## Left out

- `toGreyscale`, `luma`, `sepia` and `downscale` are left out. They are outside the modelled core, and their results hinge on how decimal weights such as 0.299 and bilinear factors round in double precision.
- `redComponent`, `greenComponent`, `blueComponent` and `splitImage` are left out. They build `RGBImage` values, and `RGBImage` is not part of this model.
- The drawing in `drawHistogram` (grid lines, polylines, colours) is left out. It is rendering through `Graphics2D`. `ImageModel.HistogramImage` stops at the scaled bins.
- Controllers, views, the script parser, `Main`, and the file I/O of `StandardImageHandler` (`loadImage`, `saveImage`, `ImageIO`) are left out. They are I/O and user interaction; only `getFileExtension` is modelled.
- `SimpleImage` is not part of this model. The model assumes fresh images are zero-filled, that `getPixel` and `setPixel` take (row, column), and that `getPixel` fails outside the image.
- IEEE double arithmetic is not modelled. Kernel weights, level slopes and Haar values are exact. A truncation whose exact result is an integer can differ by 1 from the double computation.
- Compression.NextPow2: models the exact next power of two. The source computes it with `Math.log`, `Math.ceil` and `Math.pow`, which can overshoot by a factor of 2 when the logarithm rounds up.
- Compression.Decompress: omits the `compressedData == null || length != 3` check. The model always passes three channels.
- Compression.Threshold: omits `channel[0].length` on an empty matrix. Padded channels always have at least one row.
- Haar.Forward2D: the source transforms the array in place and returns it. The model returns a new matrix, which is equivalent because no caller keeps the old one.
- The exception message texts are left out. Each exception is an `Error` kind.
- Histogram.StoreHistogram: does not model overflow of a bin beyond 2^31 - 1 pixels.
- `getFileExtension` on a null path is left out. `saveImage` never passes one.

## Findings

| source | as written | input that shows it | evidently intended | confidence | as-written member | corrected member |
|---|---|---|---|---|---|---|
| src/utils/compression/HaarTransform.java:61 | the 2D transform uses the row count for both loops, so its column loop reads columns that do not exist when there are more rows than columns | a 1-pixel-wide, 2-pixel-high image passed to compressImage | transform all columns of the padded grid, each of the padded height, as the description of compression says | not executed | Haar.Forward2D, Haar.Forward2DTallFails, Compression.Compress, Compression.CompressTallFails | Haar.Forward2DFull, Compression.CompressFull, Compression.CompressFullZeroIsLossless |
| src/model/ImageModel.java:405 | `rHist[i] * height` is an int product and overflows once a bin reaches 2^23 with height 256 | an image of 2^23 black pixels (4096 x 2048) | scale each bin to count·height/max without overflow, so bins stay in [0, height] | not executed | Histogram.ScaleHistogram, Histogram.ScaleHistogramOverflows | Histogram.ScaleHistogramExact, Histogram.ScaleHistogramAgreesWithoutOverflow |
| src/model/ImageModel.java:136 | each product `(int)(sample * weight)` is truncated before summing, so a normalised kernel loses up to one unit per product | blur of a single white pixel gives 247 instead of 255 | truncate the weighted sum once, so a uniform image is a fixed point of a normalised kernel | not executed | Convolution.FilterByKernel, Convolution.BlurDarkensWhite | Convolution.FilterByKernelExact, Convolution.ExactBlurAndSharpenKeepUniform |
| src/model/ImageModel.java:83 | `pixel[i] + increment` is an int sum and wraps before the clamp | brighten of pixel (1, 1, 1) by 2147483647 gives black | saturate the exact sum to [0,255], so a positive increment never darkens | not executed | Pointwise.Brighten, Pointwise.BrightenOverflowDarkens | Pointwise.BrightenSaturating, Pointwise.BrightenSaturatingMonotone, Pointwise.BrightenAgreesWithoutOverflow |
