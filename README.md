# Image metrics of JimpCRA, verified in Dafny

JimpCRA is a small React app. It loads an image with Jimp and reports three
numbers about it: average brightness, average saturation and contrast. These
are computed by `scanBrightness`, `scanSaturation` and `getContrast` in
`src/App.js`. This project models those three functions and the Jimp
conventions they depend on. Jimp's `scan` visits the pixels of its RGBA
bitmap. `getPixelColor` packs a pixel into one 32-bit integer, and
`intToRGBA` unpacks it. The project then proves what the three functions
compute.

The model has four modules:

- `Numbers` (numbers.dfy): JavaScript numbers as `Finite(real) | NaN |
  Infinity`, and JavaScript division on them. Arithmetic is exact. Every
  degenerate case of the source divides 0 by 0, and the model returns NaN
  there, as the code does.
- `Colors` (colors.dfy): a pixel `Rgba` of four bytes and Jimp's packing
  (`RgbaToInt`, `IntToRgba`), proved to be inverse bijections. Also the
  transparency test "packed colour is 0" and the per-pixel formulas for
  brightness `(r + g + b) / 3` and saturation `(max - min) / max` (0 when
  `max` is 0), with their ranges and the scale invariance of saturation.
- `Metrics` (metrics.dfy): the three metrics as functions of the image's
  pixels in scan order. Average brightness and average saturation are taken
  over the non-transparent pixels. The contrast's mean and variance are
  taken over all pixels. This module also holds the properties relating
  them: when they are NaN, uniform images, variance zero exactly for equal
  brightness, how a transparent pixel affects each metric, and
  monotonicity.
- `Scans` (scans.dfy): the image as a `Bitmap` (width, height and a byte
  `array` of four bytes per pixel, row after row). The scans are methods
  that walk it the way `scan` does: rows top to bottom, each row left to
  right. Their callbacks are methods that update the accumulators. Each
  scan is proved to return exactly the metric `Metrics` defines on the
  image's pixels. The scans declare no `modifies` clause, so none of them
  can write to the bitmap.

`Math.sqrt` is a parameter of `GetContrast`. The only thing assumed about it
is that it returns the non-negative square root of a non-negative number. The
contrast is then related to the variance by `IsContrastOf`: `c >= 0` and
`(100 c)^2` is the variance.

Three facts about the code that the model makes explicit:

- An empty or all-transparent image raises no error: the code computes 0 / 0
  and returns NaN, and so does the model (`DegenerateIffAllTransparent`).
- Raising every channel of every pixel can lower average brightness, because
  a (0, 0, 0, 0) pixel stops being skipped once it becomes (1, 1, 1, 1), and
  it then pulls the average down (`BrighteningCanDarken`). Brightness is
  monotone when the set of skipped pixels stays the same
  (`BrightnessMonotone`).
- "Transparent" in the code means packed colour 0, which is exactly
  r = g = b = a = 0 (`PackedZeroIff`). A fully transparent pixel with some
  colour (alpha 0, other channels not all 0) is counted, and so is opaque
  black.

## Model

| member | source | states |
|---|---|---|
| Numbers.Div | src/App.js:36 | JavaScript division of a non-negative number by a count: finite exactly when the dividend is finite and the divisor positive, NaN exactly for NaN or 0 / 0, never negative |
| Numbers.DivUndone | src/App.js:36 | a finite quotient times the divisor gives back the dividend |
| Colors.RgbaToInt | src/App.js:25 | the packed colour `getPixelColor` returns for a pixel: its four bytes as one big-endian unsigned 32-bit number; no `ensures` beyond the Uint32 result type, it is characterised by PackThenUnpack, UnpackThenPack and PackedZeroIff |
| Colors.IntToRgba | src/App.js:31 | `Jimp.intToRGBA`: each channel is the floor of the remaining colour over that channel's weight; no `ensures`, it is characterised as the inverse of RgbaToInt by PackThenUnpack and UnpackThenPack |
| Colors.PackThenUnpack | src/App.js:25-31 | `intToRGBA(getPixelColor(x, y))` gives back the four channels that were packed |
| Colors.UnpackThenPack | src/App.js:31 | every 32-bit colour is the packing of its unpacking (with PackThenUnpack: inverse bijections) |
| Colors.IsTransparent | src/App.js:26-30 | the pixels the brightness and saturation scans skip, all four channels 0; a predicate without `ensures`, tied to the source's `pixelColor === 0` test by PackedZeroIff |
| Colors.PackedZeroIff | src/App.js:26-30 | the packed colour is 0 exactly when all four channels are 0, so opaque black is not skipped |
| Colors.Max3 | src/App.js:51 | `Math.max(r, g, b)` is at least each channel and equal to one of them |
| Colors.Min3 | src/App.js:52 | `Math.min(r, g, b)` is at most each channel and equal to one of them |
| Colors.Brightness | src/App.js:33 | per-pixel brightness `(r + g + b) / 3` lies in [0, 255] |
| Colors.BrightnessBetweenChannels | src/App.js:33 | brightness lies between the smallest and the largest channel, and is 0 exactly for r = g = b = 0 |
| Colors.Saturation | src/App.js:51-56 | per-pixel saturation lies in [0, 1] |
| Colors.SaturationOfExtremes | src/App.js:53-56 | `(max - min) / max`, or 0 when `max` is 0, lies in [0, 1] |
| Colors.SaturationZeroOrOne | src/App.js:51-56 | saturation is 0 exactly for grey pixels and 1 exactly when the smallest channel is 0 and the largest is not |
| Colors.SaturationScaleInvariant | src/App.js:51-55 | multiplying all three channels by the same positive factor leaves saturation unchanged |
| Metrics.Opaque | src/App.js:26-30 | the pixels summed by brightness and saturation are at most all of them |
| Metrics.TransparentCount | src/App.js:28 | the transparent count is at most the pixel count, and the pixel count less it is the number of pixels summed |
| Metrics.OpaqueHasNoTransparent | src/App.js:26-30 | no skipped pixel is summed |
| Metrics.NoneOpaqueIff | src/App.js:26-30 | nothing is summed exactly when every pixel is transparent |
| Metrics.TotalBrightness | src/App.js:33-34 | the brightness sum of n pixels lies in [0, 255 n] |
| Metrics.TotalSaturation | src/App.js:55-57 | the saturation sum of n pixels lies in [0, n] |
| Metrics.PackedZeroChoice | src/App.js:26 | choosing on "packed colour is 0" is the same choice as on "pixel is transparent" |
| Metrics.BrightnessColorTerms | src/App.js:25-34 | a pixel adds 1 to the count and nothing to the sum when its packed colour is 0, otherwise its brightness to the sum |
| Metrics.SaturationColorTerms | src/App.js:44-57 | a pixel adds 1 to the count and nothing to the sum when its packed colour is 0, otherwise its saturation to the sum |
| Metrics.PrefixOpaqueStep | src/App.js:26-30 | extending the scanned prefix by one pixel adds it to the summed pixels unless it is transparent, in which case the count goes up by one |
| Metrics.PrefixBrightnessStep | src/App.js:33-34 | extending the scanned prefix adds the pixel's brightness term to the sum of the summed pixels |
| Metrics.PrefixSaturationStep | src/App.js:55-57 | extending the scanned prefix adds the pixel's saturation term |
| Metrics.PrefixDeviationStep | src/App.js:86-87 | extending the prefix adds the pixel's squared deviation |
| Metrics.MeanBrightness | src/App.js:79 | the contrast's mean is NaN exactly for an empty image, never Infinity, otherwise in [0, 255] |
| Metrics.MeanOfNonEmpty | src/App.js:79 | the mean of a non-empty image is its brightness sum over its pixel count |
| Metrics.MeanIs | src/App.js:79 | the mean is `q` when `q` times the pixel count is the brightness sum |
| Metrics.AverageBrightness | src/App.js:36 | average brightness is NaN exactly when no pixel is summed, never Infinity, otherwise in [0, 1] |
| Metrics.AverageSaturation | src/App.js:59-60 | average saturation is NaN exactly when no pixel is summed, never Infinity, otherwise in [0, 1] |
| Metrics.DegenerateIffAllTransparent | src/App.js:36 | average brightness and average saturation are NaN exactly when every pixel is transparent (an empty image included) |
| Metrics.AveragesOfOpaque | src/App.js:36 | with at least one pixel summed, the denominator is the number of pixels summed and both averages are finite quotients |
| Metrics.Deviation | src/App.js:87 | `Math.pow(brightness - avgBrightness, 2)`: never negative, and 0 exactly when the pixel's brightness is the mean |
| Metrics.SquaredDeviations | src/App.js:87 | the sum of squared deviations is non-negative |
| Metrics.Variance | src/App.js:91 | the variance is NaN exactly for an empty image, never Infinity, otherwise non-negative |
| Metrics.MeanBounds | src/App.js:36 | a sum of n terms in [0, c] over n is NaN exactly when n is 0 and otherwise at most c |
| Metrics.IsContrastOf | src/App.js:91-92 | `Math.sqrt(v) / 100` as a relation: NaN for NaN, Infinity for Infinity, otherwise the non-negative `c` with `(100 c)^2 = v`; a predicate without `ensures`, shown to determine `c` by ContrastUnique and to be met by GetContrast's result |
| Metrics.ContrastUnique | src/App.js:91-92 | at most one contrast belongs to a variance |
| Metrics.ContrastZeroIff | src/App.js:91-92 | the contrast is 0 exactly when the variance is 0 |
| Metrics.EqualBrightnessSum | src/App.js:33-34 | n pixels of equal brightness b sum to n times b |
| Metrics.EqualSaturationSum | src/App.js:55-57 | n pixels of equal saturation v sum to n times v |
| Metrics.NoDeviations | src/App.js:87 | pixels all of brightness b have no deviation from b |
| Metrics.OpaqueOfUniform | src/App.js:26-30 | an image of one colour has every pixel summed, or none when that colour is transparent |
| Metrics.UniformBrightness | src/App.js:21-38 | the average brightness of an image of one colour is that colour's brightness over 255, or NaN when the colour is transparent |
| Metrics.UniformSaturation | src/App.js:40-62 | the average saturation of an image of one colour is that colour's saturation, or NaN when the colour is transparent |
| Metrics.UniformVariance | src/App.js:64-93 | an image of one colour, transparent or not, has variance 0 |
| Metrics.EqualBrightnessVariance | src/App.js:79-91 | when every pixel has brightness b, the mean is b and the variance 0 |
| Metrics.MeanOfEqual | src/App.js:79 | when every pixel has brightness b, the mean is b |
| Metrics.VarianceAround | src/App.js:91 | the variance of a non-empty image is its squared deviations from its mean over its pixel count |
| Metrics.ZeroDeviations | src/App.js:87 | squared deviations sum to 0 only when every pixel is at the mean |
| Metrics.VarianceZeroIff | src/App.js:82-91 | the variance of a non-empty image is 0 exactly when all its pixels have the same brightness |
| Metrics.ZeroVarianceEqual | src/App.js:82-91 | variance 0 puts every pixel's brightness at the mean |
| Metrics.AppendTransparent | src/App.js:26-30 | adding a transparent pixel leaves average brightness and average saturation unchanged |
| Metrics.AppendTransparentMean | src/App.js:70-79 | the contrast's mean counts a transparent pixel, with brightness 0, among all pixels |
| Metrics.AppendDarkMean | src/App.js:70-79 | adding a pixel of brightness 0 keeps the brightness sum and adds one to the count |
| Metrics.AppendTotal | src/App.js:74-75 | adding a pixel adds its brightness to the contrast's sum |
| Metrics.PairDeviations | src/App.js:87 | the squared deviations of a two-pixel image |
| Metrics.MeanOfTwo | src/App.js:79 | the mean of a two-pixel image is half their brightness sum |
| Metrics.PairWithTransparent | src/App.js:26-36 | beside a transparent pixel, a pixel alone makes the average brightness, while the contrast's mean halves it |
| Metrics.PairWithDark | src/App.js:36 | a summed pixel beside a skipped dark one: average brightness of the first alone, mean half of it |
| Metrics.PairWithoutTransparent | src/App.js:36 | two summed pixels: average brightness is their mean brightness over 255 |
| Metrics.TransparentPixelExample | src/App.js:21-79 | white beside (0, 0, 0, 0): average brightness 1, contrast mean 127.5 |
| Metrics.TwoPixelContrastExample | src/App.js:64-93 | white and opaque black: mean 127.5, variance 16256.25, contrast 1.275 |
| Metrics.BrightnessMonotone | src/App.js:21-38 | raising pixel brightness without changing which pixels are transparent cannot lower average brightness |
| Metrics.MonotoneOpaque | src/App.js:26-30 | two images with the same transparent pixels have summed pixels in matching positions |
| Metrics.MonotoneSum | src/App.js:33-34 | pointwise brighter pixels have a larger brightness sum |
| Metrics.BrighteningCanDarken | src/App.js:21-38 | raising every channel by one can lower average brightness: (255,255,255,255) with (0,0,0,0) gives 1, with (1,1,1,1) gives 128/255 |
| Scans.ImagePixels | src/App.js:24 | the image has width times height pixels in scan order |
| Scans.PixelIndexInBounds | src/App.js:24 | pixel (x, y) of the scan is number `width * y + x`, inside the image |
| Scans.ImagePixelAt | src/App.js:24-25 | the four bytes at `idx = (width * y + x) * 4` are pixel number `width * y + x` of the scan order |
| Scans.PixelAt | src/App.js:71-73 | the bytes `bitmap.data[idx + k]` of pixel (x, y) at `idx = (width * y + x) * 4`; no `ensures`, tied to scan position `width * y + x` by ImagePixelAt |
| Scans.GetPixelColor | src/App.js:25 | `getPixelColor(x, y)`: the packed colour of pixel (x, y); no `ensures` beyond the Uint32 result type, PixelColorDecodes shows that `intToRGBA` of it is pixel (x, y) |
| Scans.PixelColorDecodes | src/App.js:25-31 | unpacking `getPixelColor(x, y)` gives pixel (x, y) |
| Scans.BrightnessUpToTotal | src/App.js:24-35 | the running brightness sum after p pixels is the brightness sum of the non-transparent pixels among the first p |
| Scans.TransparentUpToCount | src/App.js:26-28 | the running transparent count after p pixels is the number of transparent pixels among the first p |
| Scans.SaturationUpToTotal | src/App.js:43-58 | the running saturation sum after p pixels is the saturation sum of the non-transparent pixels among the first p |
| Scans.MeanSumUpToTotal | src/App.js:70-76 | the contrast's running brightness sum after p pixels is the brightness sum of the first p |
| Scans.DeviationsUpToTotal | src/App.js:82-88 | the running sum of squared deviations after p pixels is that of the first p |
| Scans.BrightnessCallback | src/App.js:24-35 | the callback counts a pixel whose packed colour is 0 and adds nothing; otherwise it adds its brightness |
| Scans.ScanBrightnessAt | src/App.js:24-35 | one pixel of the scan extends the running sums from the first p pixels to the first p + 1 |
| Scans.BrightnessRow | src/App.js:24 | one row of the scan extends the running sums by width pixels |
| Scans.BrightnessResult | src/App.js:36 | after the last row, `brightnessSum / (W * H - transparentPixel) / 255` is the average brightness |
| Scans.ScanBrightness | src/App.js:21-38 | `scanBrightness` returns exactly the average brightness of the image's pixels |
| Scans.SaturationCallback | src/App.js:43-58 | the callback counts a pixel whose packed colour is 0 and adds nothing; otherwise it adds `(max - min) / max`, or 0 when `max` is 0 |
| Scans.ScanSaturationAt | src/App.js:43-58 | one pixel of the scan extends the running sums by one pixel |
| Scans.SaturationRow | src/App.js:43 | one row of the scan extends the running sums by width pixels |
| Scans.SaturationResult | src/App.js:59-60 | after the last row, `saturationSum / (W * H - transparentPixel)` is the average saturation |
| Scans.ScanSaturation | src/App.js:40-62 | `scanSaturation` returns exactly the average saturation of the image's pixels |
| Scans.MeanCallback | src/App.js:70-76 | the first callback reads r, g and b at `idx` and adds the pixel's brightness, transparent or not |
| Scans.DeviationCallback | src/App.js:82-88 | the second callback adds the squared distance of the pixel's brightness from the mean |
| Scans.MeanAt | src/App.js:70-76 | one pixel of the first scan extends the running sum by one pixel |
| Scans.DeviationAt | src/App.js:82-88 | one pixel of the second scan extends the running sum by one pixel |
| Scans.MeanRow | src/App.js:70 | one row of the first scan extends the running sum by width pixels |
| Scans.DeviationRow | src/App.js:82 | one row of the second scan extends the running sum by width pixels, reading the mean only when there is a pixel |
| Scans.MeanScan | src/App.js:70-76 | the first scan sums the brightness of every pixel |
| Scans.DeviationScan | src/App.js:82-88 | the second scan sums the squared deviations of every pixel from the mean |
| Scans.MeanResult | src/App.js:79 | `brightnessSum / numPixels` is the mean brightness of the image |
| Scans.VarianceResult | src/App.js:91 | `contrastSum / numPixels` is the variance of the image |
| Scans.RootIsContrast | src/App.js:91-92 | `Math.sqrt(variance) / 100` satisfies the contrast relation |
| Scans.GetContrast | src/App.js:64-93 | `getContrast` returns the contrast of the variance of the image's brightness: NaN for an empty image, 0 exactly when all pixels are equally bright |

## Left out

- Jimp itself is not part of this model. Its `rgbaToInt`, `intToRGBA`,
  bitmap layout and `scan` order are modelled from their documented
  behaviour. `Jimp.read`, image decoding and `URL.createObjectURL`
  (src/App.js:106-136) are I/O and are left out.
- The React component `App` (src/App.js:95-244) is left out: state hooks,
  event handlers and JSX are user-interface plumbing.
- The `toFixed(3)` formatting of the results (src/App.js:119-133) is
  display only, so it is left out.
- Floating point: arithmetic is exact over `real`. IEEE-754 rounding, and
  accumulated rounding in long sums, are not modelled.
- Scans.GetContrast: `Math.sqrt` is the parameter `sqrt`, constrained only
  to give the non-negative square root of a non-negative number. So the
  contrast is stated through its square (`IsContrastOf`), not as a computed
  value.
- Scans.GetContrast: `Math.pow(d, 2)` is modelled as `d * d`.
- `getPixelColor` on coordinates outside the image is not modelled. The
  scans only ask for pixels inside the image.
