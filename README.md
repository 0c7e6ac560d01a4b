# Image processing engine, in Dafny

This project models the pixel engine of a browser image editor, together with
its operation dispatch.

The engine is `src/utils/imageProcessing.ts`. It works on an ImageData buffer:
a flat row-major RGBA array of `width * height * 4` bytes, one pixel at
offsets `i .. i + 3`, with `i` a multiple of 4. The engine has these parts:

- **Point filters.** contrast offset, threshold, invert and grayscale rewrite
  the R, G and B bytes of every pixel in place. They never write the alpha
  byte.
- **Neighbourhood filters.** box blur, 3x3 sharpen and Sobel edge detection
  copy the buffer into a snapshot first. They read only the snapshot and write
  the result in place. Blur clips its window at the image edge. Sharpen and
  edges skip the outer one-pixel ring.
- **Statistics.** the per-channel averages, the pixel count and the memory
  figure, plus the 256-bucket luma histogram.

The dispatch is `processImage` in `src/hooks/useImageProcessor.ts`. It does
four things:

- It chooses one of the ten operations of `OperationType`.
- It resolves the parameters with `||` defaults: factor 1.5, threshold 128,
  radius 2, angle 90.
- It writes the buffer back for the seven pixel operations only.
- It swaps width and height on rotate, then recomputes stats and histogram
  from the canvas.

Each filter is a `method` over an `array<int>`, with `modifies data`. Each
method's `ensures` ties `data[..]` to a specification function of
`old(data[..])`: `Contrasted`, `Thresholded`, `Blurred`, and so on. The
properties of the filters are lemmas about those functions.

The numbers are modelled like this:

- **Stores.** Every store into the buffer goes through the Uint8ClampedArray
  conversion, ToUint8Clamp in section 7.1.12 of ECMA-262. It clamps to
  [0, 255] and rounds to nearest with ties to even. In the model this is
  `Numeric.ToUint8Clamp`.
- **Rounding in statistics.** `Math.round` rounds to nearest with ties upward.
  In the model this is `Numeric.JsRound`.
- **Luma.** The luma `0.299 R + 0.587 G + 0.114 B` is the exact rational
  `(299 R + 587 G + 114 B) / 1000`.
- **Sobel sums.** These are kept as integer numerators over 1000.
- **Square root.** `Math.sqrt` is a parameter `sqrt: real -> real`.

The modules and their files:

| module | file | what it holds |
|---|---|---|
| `Numeric` | Numeric.dfy | ToUint8Clamp, `Math.round`, clamps, luma |
| `Raster` | Raster.dfy | the buffer layout, plus the loop-progress predicates used by the 2-D loops |
| `PointFilters` | PointFilters.dfy | adjustContrast, applyThreshold, invertColors, convertToGrayscale |
| `Blur` | Blur.dfy | applyBlur |
| `Kernels` | Kernels.dfy | applySharpen, detectEdges |
| `Statistics` | Statistics.dfy | getImageStats, generateHistogram |
| `Processor` | Processor.dfy | the `OperationType` datatype, the defaults, the write-back rule, and the `ImageProcessor` class |

The `ImageProcessor` class in `Processor` holds width, height, pixels, stats
and histogram.

Three behaviours of the code are worth noting:

- Grayscale stores the luma through ToUint8Clamp, which rounds ties to even.
  It does not use `Math.round`.
- Rotate always swaps width and height, whatever the angle.
- No operation rejects a parameter. A negative blur radius yields black colour
  channels, because `0 / 0` is NaN and NaN is stored as 0 (`Blur.BlurValue`).

## Model

| member | source | states |
|---|---|---|
| Numeric.ToUint8Clamp | src/utils/imageProcessing.ts:85-87 | the Uint8ClampedArray store always yields a byte |
| Numeric.ToUint8ClampRounds | src/utils/imageProcessing.ts:85-87 | the store clamps to 0 and 255, stays within 0.5 of its argument, and on an exact half picks the even neighbour |
| Numeric.ClampReal | src/utils/imageProcessing.ts:39-41 | `Math.max(lo, Math.min(hi, x))` lies in [lo, hi], is x when x is in range, and is otherwise lo or hi |
| Numeric.ClampByte | src/utils/imageProcessing.ts:121-123 | the integer clamp of sharpen is a byte, the identity on bytes, 0 below and 255 above |
| Numeric.JsRound | src/utils/imageProcessing.ts:28-30 | `Math.round` returns the integer r with r - 0.5 <= x < r + 0.5, so exact halves go up |
| Numeric.LumaRange | src/utils/imageProcessing.ts:51 | the luma of three bytes lies in [0, 255] |
| Numeric.LumaOfGray | src/utils/imageProcessing.ts:187 | the luma of a grey pixel (v, v, v) is v |
| PointFilters.AdjustContrast | src/utils/imageProcessing.ts:34-45 | the loop leaves `Contrasted(old buffer, factor)`: each colour byte gets `(factor - 1) * 255` added, clamped and stored; alpha is kept |
| PointFilters.ContrastBounds | src/utils/imageProcessing.ts:38-42 | on a byte buffer every byte of the result is a byte, and every alpha byte keeps its value |
| PointFilters.ContrastKeepsBytes | src/utils/imageProcessing.ts:38-42 | adjustContrast turns a byte buffer into a byte buffer |
| PointFilters.ContrastIdentity | src/utils/imageProcessing.ts:36-41 | with factor 1 the offset is 0, so a byte buffer is unchanged |
| PointFilters.ContrastDirection | src/utils/imageProcessing.ts:36-41 | a factor of at least 1 never lowers a byte; a factor of at most 1 never raises one |
| PointFilters.ThresholdLevel | src/utils/imageProcessing.ts:52 | the level is a byte; it is 255 exactly when gray >= threshold and 0 exactly when gray < threshold |
| PointFilters.ApplyThreshold | src/utils/imageProcessing.ts:47-57 | the loop leaves `Thresholded(old buffer, threshold)` |
| PointFilters.ThresholdBinary | src/utils/imageProcessing.ts:50-54 | after thresholding R = G = B is 0 or 255; it is 255 exactly when the exact luma of the original pixel reaches the threshold, so with the exact luma ties go to white; alpha is kept |
| PointFilters.ThresholdKeepsBytes | src/utils/imageProcessing.ts:50-54 | applyThreshold turns a byte buffer into a byte buffer |
| PointFilters.ThresholdIdempotent | src/utils/imageProcessing.ts:47-57 | for any threshold, thresholding a thresholded byte buffer again changes nothing |
| PointFilters.InvertColors | src/utils/imageProcessing.ts:130-140 | the loop leaves `Inverted(old buffer)`: each colour byte v becomes 255 - v, and alpha is kept |
| PointFilters.InvertBounds | src/utils/imageProcessing.ts:133-137 | inverting a byte buffer gives a byte buffer with the same alpha bytes |
| PointFilters.InvertInvolution | src/utils/imageProcessing.ts:133-137 | inverting twice restores every byte |
| PointFilters.ConvertToGrayscale | src/utils/imageProcessing.ts:183-192 | the loop leaves `Grayscaled(old buffer)` |
| PointFilters.GrayscaleGray | src/utils/imageProcessing.ts:186-189 | after grayscale R = G = B = ToUint8Clamp(luma), which is a byte; alpha is kept |
| PointFilters.GrayscaleKeepsBytes | src/utils/imageProcessing.ts:186-189 | convertToGrayscale turns a byte buffer into a byte buffer |
| PointFilters.GrayscaleIdempotent | src/utils/imageProcessing.ts:183-192 | a second grayscale changes nothing |
| Blur.WindowTotals | src/utils/imageProcessing.ts:67-82 | the dy/dx loops sum each colour channel of the snapshot over the in-image cells of the window, and count those cells |
| Blur.ApplyBlur | src/utils/imageProcessing.ts:59-92 | the loop leaves `Blurred(old buffer, width, height, radius)`, computed from the snapshot taken before the first write |
| Blur.BlurValue | src/utils/imageProcessing.ts:85-87 | `sum / count` as stored is always a byte, even for an empty window |
| Blur.WindowCountClosed | src/utils/imageProcessing.ts:69-80 | the divisor is the number of in-image rows times the number of in-image columns of the window |
| Blur.WindowCountPositive | src/utils/imageProcessing.ts:69-80 | for radius >= 0 the window of an image pixel holds at least one cell |
| Blur.BlurWithinWindow | src/utils/imageProcessing.ts:65-89 | for radius >= 0, each blurred colour byte of pixel (x, y) lies between the smallest and largest value of that channel over the in-image cells of its own clipped window; a pixel whose whole window is black stays black |
| Blur.BlurWithin | src/utils/imageProcessing.ts:65-89 | the global corollary: when channel c of every pixel lies in [vmin, vmax], so does channel c of the blur |
| Blur.BlurKeepsAlpha | src/utils/imageProcessing.ts:84-87 | applyBlur never writes an alpha byte |
| Blur.BlurKeepsBytes | src/utils/imageProcessing.ts:84-87 | applyBlur turns a byte buffer into a byte buffer, whatever the radius |
| Blur.BlurUniform | src/utils/imageProcessing.ts:65-89 | a single-colour image is unchanged by any radius >= 0 |
| Blur.BlurSinglePixel | src/utils/imageProcessing.ts:65-89 | a 1x1 image is unchanged by any radius >= 0 |
| Blur.BlurRadiusZero | src/utils/imageProcessing.ts:65-89 | radius 0 leaves a byte buffer unchanged |
| Blur.BlurNegativeRadius | src/utils/imageProcessing.ts:69-87 | a negative radius counts no cells, and NaN stores 0 into every colour byte |
| Kernels.KernelWeights | src/utils/imageProcessing.ts:100-104 | the sharpen weights sum to 1, and each Sobel kernel's weights sum to 0 |
| Kernels.KernelTotals | src/utils/imageProcessing.ts:108-118 | the ky/kx loops give the weighted sum of each colour channel of the snapshot over the 3x3 neighbourhood |
| Kernels.ApplySharpen | src/utils/imageProcessing.ts:94-128 | the loop leaves `Sharpened(old buffer, width, height)` |
| Kernels.SharpenKeepsBorder | src/utils/imageProcessing.ts:106-107 | every byte of the outer ring and every alpha byte is unchanged |
| Kernels.SharpenBounds | src/utils/imageProcessing.ts:121-123 | sharpening a byte buffer gives a byte buffer |
| Kernels.SharpenSmallImage | src/utils/imageProcessing.ts:106-107 | an image with width <= 2 or height <= 2 is unchanged |
| Kernels.SharpenUniform | src/utils/imageProcessing.ts:100-124 | because the weights sum to 1, a single-colour image is unchanged |
| Kernels.GradientTotals | src/utils/imageProcessing.ts:162-172 | the ky/kx loops give the Sobel x and y sums of the neighbours' luma |
| Kernels.DetectEdges | src/utils/imageProcessing.ts:142-181 | the loop leaves `EdgeDetected(old buffer, width, height, sqrt)` |
| Kernels.EdgeValue | src/utils/imageProcessing.ts:174-176 | the stored edge level, min(255, magnitude) converted by the store, is a byte |
| Kernels.EdgesKeepBorder | src/utils/imageProcessing.ts:160-161 | every byte of the outer ring and every alpha byte is unchanged |
| Kernels.EdgesKeepBytes | src/utils/imageProcessing.ts:176 | detectEdges turns a byte buffer into a byte buffer |
| Kernels.EdgeSaturates | src/utils/imageProcessing.ts:174-176 | when sqrt is a square root and gx² + gy² >= 255², the stored value is 255 |
| Kernels.EdgesUniform | src/utils/imageProcessing.ts:160-177 | on a single-colour image the interior colour bytes become 0, and the rest is kept |
| Statistics.GetImageStats | src/utils/imageProcessing.ts:3-32 | the loop builds `StatsOf(buffer, width, height)`: the totals of R, G and B, the pixel count, the rounded means and the memory figure |
| Statistics.ChannelTotalBounds | src/utils/imageProcessing.ts:13-17 | over n pixels whose channel lies in [lo, hi], the total lies in [n * lo, n * hi] |
| Statistics.AverageBetween | src/utils/imageProcessing.ts:28-30 | `Math.round(total / pixelCount)` of values in [lo, hi] lies in [lo, hi] |
| Statistics.StatsFacts | src/utils/imageProcessing.ts:11-31 | the stats report the canvas size, `totalPixels = width * height`, and byte averages for a byte buffer |
| Statistics.StatsUniform | src/utils/imageProcessing.ts:13-30 | a single-colour image averages to exactly its own R, G and B |
| Statistics.MemoryHundredths | src/utils/imageProcessing.ts:19-21 | `toFixed(2)` of the size in mebibytes, counted in hundredths, is never negative |
| Statistics.MemoryUsageValue | src/utils/imageProcessing.ts:19-26 | the printed figure is within half a hundredth of the exact size in mebibytes; the string is the whole-MB digits, a point, two decimals and " MB", and its digits read back as the figure in hundredths |
| Statistics.NatToStringRoundTrip | src/utils/imageProcessing.ts:26 | the decimal digits printed for n read back as n |
| Statistics.BucketRange | src/utils/imageProcessing.ts:203-205 | the rounded luma of a byte pixel is a bucket index in 0..255 |
| Statistics.HistogramOf | src/utils/imageProcessing.ts:200-205 | the histogram has 256 buckets |
| Statistics.HistogramCounts | src/utils/imageProcessing.ts:200-205 | bucket b counts exactly the pixels whose rounded luma is b |
| Statistics.HistogramTotal | src/utils/imageProcessing.ts:200-207 | the buckets add up to the pixel count |
| Statistics.GenerateHistogram | src/utils/imageProcessing.ts:194-208 | the loop over the 256-slot array returns `HistogramOf(buffer, length / 4)` |
| Processor.NumberOr | src/hooks/useImageProcessor.ts:79-85 | the `or` default of a parameter is d exactly when the key is missing, zero or d itself; any other value is used as given |
| Processor.ResolvedDefaults | src/hooks/useImageProcessor.ts:79-100 | a missing or zero factor, threshold, radius or angle resolves to 1.5, 128, 2 or 90; any non-zero value is used as given |
| Processor.ResolvedNeverZero | src/hooks/useImageProcessor.ts:79-100 | no resolved parameter is 0, so a threshold of 0 never reaches applyThreshold |
| Processor.WritesBackExactly | src/hooks/useImageProcessor.ts:128-130 | the buffer is written back exactly for the seven pixel operations |
| Processor.NextDimensionsFacts | src/hooks/useImageProcessor.ts:100-125 | rotate swaps width and height whatever the angle and keeps the pixel count; two rotations restore the size; the flips keep it |
| Processor.ProcessedKeepsBuffer | src/hooks/useImageProcessor.ts:77-98 | every pixel operation turns a width x height byte buffer into one of the same size |
| Processor.ProcessedKeepsAlpha | src/hooks/useImageProcessor.ts:77-98 | every pixel operation keeps every alpha byte |
| Processor.ApplyOperation | src/hooks/useImageProcessor.ts:77-98 | the switch runs the chosen filter on imageData with the resolved parameter, and leaves `Processed(op, params, old buffer)` |
| Processor.ImageProcessor.constructor | src/hooks/useImageProcessor.ts:46-56 | loading an image sets the canvas size and pixels, and computes stats and histogram from them |
| Processor.ImageProcessor.ProcessImage | src/hooks/useImageProcessor.ts:75-135 | the new size is `NextDimensions`. The pixels are the processed buffer for a pixel operation, or the drawn canvas for rotate and flips. Stats and histogram are recomputed from the new pixels |

## Left out

- Canvas plumbing is not modelled: `getContext`, `getImageData`, `putImageData`, `drawImage` and `toDataURL`. A canvas is its width, height and pixels, and `getImageData` is a copy of the pixels.
- getImageStats reads the canvas, not its `imageData` argument. In the model it is given the canvas pixels directly.
- The branches where `getContext` returns null are left out. These are the early return of processImage, the exception of getImageStats, the empty histogram, and the rotate branch without `tempCtx`. The model assumes a context is always available.
- The pixel content of rotate and both flips is left out. Only canvas transforms produce it, so it is a parameter `rendered` of ProcessImage, already at the new size.
- The flip round trips are not stated, because the flip content is not modelled.
- Floating-point rounding is left out. Luma is computed exactly in thousandths, the Sobel sums are exact, and contrast, blur and statistics use exact reals. A value that lands just beside a rounding boundary in IEEE doubles may differ by one in a stored byte. For contrast this is common at the slider's factors: at factor 1.1 the offset `(factor - 1) * 255` is 25.50000000000002 in doubles but exactly 25.5 in the model, so where the source stores v + 26 for every odd colour byte v from 1 to 229, the model's ties-to-even stores v + 25. Factors 0.7, 0.9, 1.3 and 1.9 give such one-off bytes as well. For threshold the difference is larger: when the exact luma equals the threshold, the double luma can fall just below it, and the output flips between 255 and 0. Grey (1, 1, 1) at threshold 1 shows it: the double luma is 0.9999999999999999, so the source stores 0 where the model stores 255.
- PointFilters.ThresholdBinary: its "ties go to white" holds for the exact luma only; with double arithmetic a tie can go to black, as the line above shows.
- `Math.sqrt` is the parameter `sqrt`. Two lemmas assume something about it: `Kernels.EdgeSaturates` requires it to be a square root of gx² + gy², and `Kernels.EdgesUniform` requires `sqrt(0.0) == 0.0`. Everything else holds for any `sqrt`.
- Blur.ApplyBlur: takes an integer radius. A fractional radius makes the source index off the pixel grid, so ProcessImage requires the resolved radius to be whole.
- Processor.NumberOr: parameters are modelled as numbers. A non-number value, and NaN, which `||` also treats as missing, are left out.
- toFixed for values of 1e21 or more prints an exponent. Such sizes cannot occur and are not modelled.
- Logging to the database, timing with `performance.now`, `setProcessing`, the data URL state, `resetImage` and `downloadImage` are I/O or UI and are left out.
- The React components, including the histogram bar scaling, are UI and are left out.
- Width and height are assumed positive, as ImageData requires.
- The inner loops of blur, sharpen and edges are separate methods: `Blur.WindowTotals`, `Kernels.KernelTotals` and `Kernels.GradientTotals`. Their callers use them where the source has the nested loops inline.
