/** The three scans over a decoded image.  The image is Jimp's bitmap: a
    width, a height and a flat byte buffer holding four bytes (r, g, b, a)
    per pixel, row after row.  Each scan walks the pixels the way Jimp's
    `scan` does (rows top to bottom, each row left to right) and is proved to
    return the metric that module Metrics defines on the image's pixels.
    None of the scans has a `modifies` clause, so none can write to the
    buffer. */
module Scans {
  import opened Numbers
  import opened Colors
  import opened Metrics

  datatype Bitmap = Bitmap(width: nat, height: nat, data: array<Byte>)

  /** The buffer holds exactly four bytes per pixel. */
  predicate WellFormed(img: Bitmap)
  {
    img.data.Length == img.width * img.height * 4
  }

  /** The first `count` pixels of a byte buffer, four bytes each. */
  function PixelsOf(data: seq<Byte>, count: nat): seq<Rgba>
    requires count * 4 <= |data|
  {
    seq(count, i requires 0 <= i < count => Rgba(data[i * 4], data[i * 4 + 1], data[i * 4 + 2], data[i * 4 + 3]))
  }

  /** The image's pixels in scan order. */
  function ImagePixels(img: Bitmap): (s: seq<Rgba>)
    requires WellFormed(img)
    reads img.data
    ensures |s| == img.width * img.height
  {
    PixelsOf(img.data[..], img.width * img.height)
  }

  /** Pixel (x, y) is pixel number `width * y + x` in scan order, and there
      are `width * height` of them. */
  lemma PixelIndexInBounds(width: nat, height: nat, x: nat, y: nat)
    requires x < width && y < height
    ensures width * y + x < width * height
  {
    RowFits(width, height, y);
  }

  /** Row `y` of the image ends where row `y + 1` starts, at most at the
      last pixel. */
  lemma RowFits(width: nat, height: nat, y: nat)
    requires y < height
    ensures 0 <= width * y
    ensures width * y + width == width * (y + 1)
    ensures width * (y + 1) <= width * height
  {
  }

  /** Once every row is scanned, every pixel is. */
  lemma ImageScanned(width: nat, height: nat, y: nat)
    requires y == height
    ensures width * y == width * height
  {
  }

  /** Pixel (x, y): the four bytes at offset `idx = (width * y + x) * 4`,
      the offset Jimp's `scan` hands to its callback. */
  function PixelAt(img: Bitmap, x: nat, y: nat): Rgba
    requires WellFormed(img) && x < img.width && y < img.height
    reads img.data
  {
    PixelIndexInBounds(img.width, img.height, x, y);
    var idx := (img.width * y + x) * 4;
    Rgba(img.data[idx], img.data[idx + 1], img.data[idx + 2], img.data[idx + 3])
  }

  /** Pixel (x, y) is pixel number `width * y + x` of the scan order. */
  lemma ImagePixelAt(img: Bitmap, x: nat, y: nat)
    requires WellFormed(img) && x < img.width && y < img.height
    ensures img.width * y + x < |ImagePixels(img)|
    ensures ImagePixels(img)[img.width * y + x] == PixelAt(img, x, y)
  {
    PixelIndexInBounds(img.width, img.height, x, y);
  }

  /** `getPixelColor(x, y)`: the four bytes of pixel (x, y) read as one
      big-endian 32-bit number. */
  function GetPixelColor(img: Bitmap, x: nat, y: nat): Uint32
    requires WellFormed(img) && x < img.width && y < img.height
    reads img.data
  {
    RgbaToInt(PixelAt(img, x, y))
  }

  /** `intToRGBA(getPixelColor(x, y))` gives back pixel (x, y). */
  lemma PixelColorDecodes(img: Bitmap, x: nat, y: nat)
    requires WellFormed(img) && x < img.width && y < img.height
    ensures IntToRgba(GetPixelColor(img, x, y)) == PixelAt(img, x, y)
  {
    PackThenUnpack(PixelAt(img, x, y));
  }

  // ---------------------------------------------------------------------
  // Running sums: what a scan has accumulated after the first `p` pixels
  // of the scan order, one pixel at a time, and how that relates to the
  // metrics over the prefix `s[..p]`.

  /** `scanBrightness`'s brightness sum after the first `p` pixels, in the
      index form the loops use; equal to TotalBrightness(Opaque(s[..p])) by
      BrightnessUpToTotal. */
  function BrightnessUpTo(s: seq<Rgba>, p: nat): (sum: real)
    requires p <= |s|
    ensures sum >= 0.0
  {
    if p == 0 then 0.0 else BrightnessUpTo(s, p - 1) + BrightnessTerm(s[p - 1])
  }

  /** `scanSaturation`'s saturation sum after the first `p` pixels, in index
      form; equal to TotalSaturation(Opaque(s[..p])) by SaturationUpToTotal. */
  function SaturationUpTo(s: seq<Rgba>, p: nat): (sum: real)
    requires p <= |s|
    ensures sum >= 0.0
  {
    if p == 0 then 0.0 else SaturationUpTo(s, p - 1) + SaturationTerm(s[p - 1])
  }

  /** The transparent count of either scan after the first `p` pixels, in
      index form; equal to TransparentCount(s[..p]) by TransparentUpToCount. */
  function TransparentUpTo(s: seq<Rgba>, p: nat): (n: nat)
    requires p <= |s|
    ensures n <= p
  {
    if p == 0 then 0 else TransparentUpTo(s, p - 1) + TransparentTerm(s[p - 1])
  }

  /** `getContrast`'s brightness sum after the first `p` pixels, in index
      form; equal to TotalBrightness(s[..p]) by MeanSumUpToTotal. */
  function MeanSumUpTo(s: seq<Rgba>, p: nat): (sum: real)
    requires p <= |s|
    ensures sum >= 0.0
  {
    if p == 0 then 0.0 else MeanSumUpTo(s, p - 1) + PixelBrightness(s[p - 1])
  }

  /** `getContrast`'s sum of squared deviations from `mean` after the first
      `p` pixels, in index form; equal to SquaredDeviations(s[..p], mean) by
      DeviationsUpToTotal. */
  function DeviationsUpTo(s: seq<Rgba>, p: nat, mean: real): (sum: real)
    requires p <= |s|
    ensures sum >= 0.0
  {
    if p == 0 then 0.0 else DeviationsUpTo(s, p - 1, mean) + Deviation(s[p - 1], mean)
  }

  lemma {:induction false} TransparentUpToCount(s: seq<Rgba>, p: nat)
    requires p <= |s|
    ensures TransparentUpTo(s, p) == TransparentCount(s[..p])
  {
    if p > 0 {
      TransparentUpToCount(s, p - 1);
      PrefixOpaqueStep(s, p);
    }
  }

  lemma {:induction false} BrightnessUpToTotal(s: seq<Rgba>, p: nat)
    requires p <= |s|
    ensures BrightnessUpTo(s, p) == TotalBrightness(Opaque(s[..p]))
  {
    if p > 0 {
      BrightnessUpToTotal(s, p - 1);
      PrefixBrightnessStep(s, p);
    } else {
      assert s[..p] == [];
    }
  }

  lemma {:induction false} SaturationUpToTotal(s: seq<Rgba>, p: nat)
    requires p <= |s|
    ensures SaturationUpTo(s, p) == TotalSaturation(Opaque(s[..p]))
  {
    if p > 0 {
      SaturationUpToTotal(s, p - 1);
      PrefixSaturationStep(s, p);
    } else {
      assert s[..p] == [];
    }
  }

  lemma {:induction false} MeanSumUpToTotal(s: seq<Rgba>, p: nat)
    requires p <= |s|
    ensures MeanSumUpTo(s, p) == TotalBrightness(s[..p])
  {
    if p > 0 {
      MeanSumUpToTotal(s, p - 1);
      PrefixTotalStep(s, p);
    }
  }

  lemma {:induction false} DeviationsUpToTotal(s: seq<Rgba>, p: nat, mean: real)
    requires p <= |s|
    ensures DeviationsUpTo(s, p, mean) == SquaredDeviations(s[..p], mean)
  {
    if p > 0 {
      DeviationsUpToTotal(s, p - 1, mean);
      PrefixDeviationStep(s, p, mean);
    }
  }

  // ---------------------------------------------------------------------
  // scanBrightness

  /** The callback `scanBrightness` passes to `scan`, for pixel (x, y): a
      pixel whose packed colour is 0 is counted as transparent, any other
      adds its brightness `(r + g + b) / 3` to the sum. */
  method BrightnessCallback(img: Bitmap, x: nat, y: nat, brightnessSum: real, transparentPixel: nat)
    returns (brightnessSum': real, transparentPixel': nat)
    requires WellFormed(img) && x < img.width && y < img.height
    ensures brightnessSum' == brightnessSum + BrightnessTerm(PixelAt(img, x, y))
    ensures transparentPixel' == transparentPixel + TransparentTerm(PixelAt(img, x, y))
  {
    brightnessSum', transparentPixel' := brightnessSum, transparentPixel;
    var pixelColor := GetPixelColor(img, x, y);
    BrightnessColorTerms(PixelAt(img, x, y));
    if pixelColor == 0 {
      transparentPixel' := transparentPixel' + 1;
      return;
    }
    PixelColorDecodes(img, x, y);
    var px := IntToRgba(pixelColor);
    var brightness := Brightness(px.r, px.g, px.b);
    brightnessSum' := brightnessSum' + brightness;
  }

  /** The brightness sum and the transparent count of `scanBrightness` after
      the first `p` of the pixels `pixels`. */
  ghost predicate BrightnessScanned(pixels: seq<Rgba>, p: nat, brightnessSum: real, transparentPixel: nat)
  {
    p <= |pixels| && brightnessSum == BrightnessUpTo(pixels, p) && transparentPixel == TransparentUpTo(pixels, p)
  }

  /** Scanning pixel (x, y), number `p` of the scan order, extends the
      brightness sum and the transparent count from the first `p` pixels to
      the first `p + 1`. */
  method ScanBrightnessAt(img: Bitmap, ghost pixels: seq<Rgba>, x: nat, y: nat, ghost p: nat,
                          brightnessSum: real, transparentPixel: nat)
    returns (brightnessSum': real, transparentPixel': nat)
    requires WellFormed(img) && pixels == ImagePixels(img) && x < img.width && y < img.height
    requires p == img.width * y + x && BrightnessScanned(pixels, p, brightnessSum, transparentPixel)
    ensures BrightnessScanned(pixels, p + 1, brightnessSum', transparentPixel')
  {
    brightnessSum', transparentPixel' := BrightnessCallback(img, x, y, brightnessSum, transparentPixel);
    ImagePixelAt(img, x, y);
  }

  /** Row `y` of `scanBrightness`'s scan, left to right: pixels number
      `start` (which is `width * y`) to `start + width - 1`. */
  method BrightnessRow(img: Bitmap, ghost pixels: seq<Rgba>, y: nat, ghost start: nat,
                       brightnessSum: real, transparentPixel: nat)
    returns (brightnessSum': real, transparentPixel': nat)
    requires WellFormed(img) && pixels == ImagePixels(img) && y < img.height
    requires start == img.width * y && start + img.width <= |pixels|
    requires BrightnessScanned(pixels, start, brightnessSum, transparentPixel)
    ensures BrightnessScanned(pixels, start + img.width, brightnessSum', transparentPixel')
  {
    brightnessSum', transparentPixel' := brightnessSum, transparentPixel;
    var x := 0;
    ghost var p := start;
    while x < img.width
      invariant x <= img.width && p == start + x
      invariant BrightnessScanned(pixels, p, brightnessSum', transparentPixel')
    {
      brightnessSum', transparentPixel' := ScanBrightnessAt(img, pixels, x, y, p, brightnessSum', transparentPixel');
      x, p := x + 1, p + 1;
    }
  }

  /** What `scanBrightness` returns once every pixel is scanned: the sum
      over the pixel count less the transparent count, over 255, is the
      average brightness of the image. */
  lemma BrightnessResult(img: Bitmap, pixels: seq<Rgba>, p: nat, brightnessSum: real, transparentPixel: nat)
    requires WellFormed(img) && pixels == ImagePixels(img) && p == img.width * img.height
    requires BrightnessScanned(pixels, p, brightnessSum, transparentPixel)
    ensures Div(Div(Finite(brightnessSum), (img.width * img.height - transparentPixel) as real), 255.0)
         == AverageBrightness(pixels)
  {
    BrightnessUpToTotal(pixels, p);
    TransparentUpToCount(pixels, p);
    assert pixels[..p] == pixels;
  }

  /** `scanBrightness`: scans the image, then divides the brightness sum by
      the number of pixels summed (all pixels less the transparent ones) and
      by 255. */
  method ScanBrightness(img: Bitmap) returns (avgBrightness: Number)
    requires WellFormed(img)
    ensures avgBrightness == AverageBrightness(ImagePixels(img))
  {
    ghost var pixels := ImagePixels(img);
    var brightnessSum := 0.0;
    var transparentPixel: nat := 0;
    var y := 0;
    ghost var p := 0;
    while y < img.height
      invariant y <= img.height && p == img.width * y
      invariant BrightnessScanned(pixels, p, brightnessSum, transparentPixel)
    {
      RowFits(img.width, img.height, y);
      brightnessSum, transparentPixel := BrightnessRow(img, pixels, y, p, brightnessSum, transparentPixel);
      y, p := y + 1, p + img.width;
    }
    ImageScanned(img.width, img.height, y);
    BrightnessResult(img, pixels, p, brightnessSum, transparentPixel);
    avgBrightness := Div(Div(Finite(brightnessSum), (img.width * img.height - transparentPixel) as real), 255.0);
  }

  // ---------------------------------------------------------------------
  // scanSaturation

  /** The callback `scanSaturation` passes to `scan`, for pixel (x, y): a
      pixel whose packed colour is 0 is counted as transparent, any other
      adds its saturation to the sum: 0 when its largest channel is 0,
      otherwise (largest - smallest) / largest. */
  method SaturationCallback(img: Bitmap, x: nat, y: nat, saturationSum: real, transparentPixel: nat)
    returns (saturationSum': real, transparentPixel': nat)
    requires WellFormed(img) && x < img.width && y < img.height
    ensures saturationSum' == saturationSum + SaturationTerm(PixelAt(img, x, y))
    ensures transparentPixel' == transparentPixel + TransparentTerm(PixelAt(img, x, y))
  {
    saturationSum', transparentPixel' := saturationSum, transparentPixel;
    var pixelColor := GetPixelColor(img, x, y);
    SaturationColorTerms(PixelAt(img, x, y));
    if pixelColor == 0 {
      transparentPixel' := transparentPixel' + 1;
      return;
    }
    PixelColorDecodes(img, x, y);
    var px := IntToRgba(pixelColor);
    var max := Max3(px.r, px.g, px.b);
    var min := Min3(px.r, px.g, px.b);
    var saturation := 0.0;
    if max != 0 {
      saturation := (max - min) as real / max as real;
    }
    saturationSum' := saturationSum' + saturation;
  }

  /** The saturation sum and the transparent count of `scanSaturation`
      after the first `p` of the pixels `pixels`. */
  ghost predicate SaturationScanned(pixels: seq<Rgba>, p: nat, saturationSum: real, transparentPixel: nat)
  {
    p <= |pixels| && saturationSum == SaturationUpTo(pixels, p) && transparentPixel == TransparentUpTo(pixels, p)
  }

  /** Scanning pixel (x, y), number `p` of the scan order, for
      `scanSaturation`. */
  method ScanSaturationAt(img: Bitmap, ghost pixels: seq<Rgba>, x: nat, y: nat, ghost p: nat,
                          saturationSum: real, transparentPixel: nat)
    returns (saturationSum': real, transparentPixel': nat)
    requires WellFormed(img) && pixels == ImagePixels(img) && x < img.width && y < img.height
    requires p == img.width * y + x && SaturationScanned(pixels, p, saturationSum, transparentPixel)
    ensures SaturationScanned(pixels, p + 1, saturationSum', transparentPixel')
  {
    saturationSum', transparentPixel' := SaturationCallback(img, x, y, saturationSum, transparentPixel);
    ImagePixelAt(img, x, y);
  }

  /** Row `y` of `scanSaturation`'s scan, pixels number `start` (which is
      `width * y`) to `start + width - 1`. */
  method SaturationRow(img: Bitmap, ghost pixels: seq<Rgba>, y: nat, ghost start: nat,
                       saturationSum: real, transparentPixel: nat)
    returns (saturationSum': real, transparentPixel': nat)
    requires WellFormed(img) && pixels == ImagePixels(img) && y < img.height
    requires start == img.width * y && start + img.width <= |pixels|
    requires SaturationScanned(pixels, start, saturationSum, transparentPixel)
    ensures SaturationScanned(pixels, start + img.width, saturationSum', transparentPixel')
  {
    saturationSum', transparentPixel' := saturationSum, transparentPixel;
    var x := 0;
    ghost var p := start;
    while x < img.width
      invariant x <= img.width && p == start + x
      invariant SaturationScanned(pixels, p, saturationSum', transparentPixel')
    {
      saturationSum', transparentPixel' := ScanSaturationAt(img, pixels, x, y, p, saturationSum', transparentPixel');
      x, p := x + 1, p + 1;
    }
  }

  /** What `scanSaturation` returns once every pixel is scanned: the sum
      over the pixel count less the transparent count is the average
      saturation of the image. */
  lemma SaturationResult(img: Bitmap, pixels: seq<Rgba>, p: nat, saturationSum: real, transparentPixel: nat)
    requires WellFormed(img) && pixels == ImagePixels(img) && p == img.width * img.height
    requires SaturationScanned(pixels, p, saturationSum, transparentPixel)
    ensures Div(Finite(saturationSum), (img.width * img.height - transparentPixel) as real)
         == AverageSaturation(pixels)
  {
    SaturationUpToTotal(pixels, p);
    TransparentUpToCount(pixels, p);
    assert pixels[..p] == pixels;
  }

  /** `scanSaturation`: scans the image, then divides the saturation sum by
      the number of pixels summed (all pixels less the transparent ones). */
  method ScanSaturation(img: Bitmap) returns (avgSaturation: Number)
    requires WellFormed(img)
    ensures avgSaturation == AverageSaturation(ImagePixels(img))
  {
    ghost var pixels := ImagePixels(img);
    var saturationSum := 0.0;
    var transparentPixel: nat := 0;
    var y := 0;
    ghost var p := 0;
    while y < img.height
      invariant y <= img.height && p == img.width * y
      invariant SaturationScanned(pixels, p, saturationSum, transparentPixel)
    {
      RowFits(img.width, img.height, y);
      saturationSum, transparentPixel := SaturationRow(img, pixels, y, p, saturationSum, transparentPixel);
      y, p := y + 1, p + img.width;
    }
    ImageScanned(img.width, img.height, y);
    SaturationResult(img, pixels, p, saturationSum, transparentPixel);
    avgSaturation := Div(Finite(saturationSum), (img.width * img.height - transparentPixel) as real);
  }

  // ---------------------------------------------------------------------
  // getContrast

  /** The first callback of `getContrast`, for pixel (x, y) at byte offset
      `idx`: reads r, g and b from the buffer and adds `(r + g + b) / 3` to
      the sum, transparent or not. */
  method MeanCallback(img: Bitmap, x: nat, y: nat, idx: nat, brightnessSum: real)
    returns (brightnessSum': real)
    requires WellFormed(img) && x < img.width && y < img.height
    requires idx == (img.width * y + x) * 4
    ensures brightnessSum' == brightnessSum + PixelBrightness(PixelAt(img, x, y))
  {
    PixelIndexInBounds(img.width, img.height, x, y);
    var r := img.data[idx + 0];
    var g := img.data[idx + 1];
    var b := img.data[idx + 2];
    var brightness := Brightness(r, g, b);
    brightnessSum' := brightnessSum + brightness;
  }

  /** The second callback of `getContrast`, for pixel (x, y) at byte offset
      `idx`: adds the square of the pixel's distance in brightness from
      `avgBrightness` to the sum. */
  method DeviationCallback(img: Bitmap, x: nat, y: nat, idx: nat, avgBrightness: real, contrastSum: real)
    returns (contrastSum': real)
    requires WellFormed(img) && x < img.width && y < img.height
    requires idx == (img.width * y + x) * 4
    ensures contrastSum' == contrastSum + Deviation(PixelAt(img, x, y), avgBrightness)
  {
    PixelIndexInBounds(img.width, img.height, x, y);
    var r := img.data[idx + 0];
    var g := img.data[idx + 1];
    var b := img.data[idx + 2];
    var brightness := Brightness(r, g, b);
    contrastSum' := contrastSum + (brightness - avgBrightness) * (brightness - avgBrightness);
  }

  /** The brightness sum of `getContrast`'s first scan after the first `p`
      of the pixels `pixels`. */
  ghost predicate MeanScanned(pixels: seq<Rgba>, p: nat, brightnessSum: real)
  {
    p <= |pixels| && brightnessSum == MeanSumUpTo(pixels, p)
  }

  /** The sum of squared deviations from `mean` of `getContrast`'s second
      scan after the first `p` of the pixels `pixels`. */
  ghost predicate DeviationsScanned(pixels: seq<Rgba>, p: nat, mean: real, contrastSum: real)
  {
    p <= |pixels| && contrastSum == DeviationsUpTo(pixels, p, mean)
  }

  /** Pixel (x, y), number `p`, in the first scan of `getContrast`. */
  method MeanAt(img: Bitmap, ghost pixels: seq<Rgba>, x: nat, y: nat, ghost p: nat, brightnessSum: real)
    returns (brightnessSum': real)
    requires WellFormed(img) && pixels == ImagePixels(img) && x < img.width && y < img.height
    requires p == img.width * y + x && MeanScanned(pixels, p, brightnessSum)
    ensures MeanScanned(pixels, p + 1, brightnessSum')
  {
    var idx := (img.width * y + x) * 4;
    brightnessSum' := MeanCallback(img, x, y, idx, brightnessSum);
    ImagePixelAt(img, x, y);
  }

  /** Pixel (x, y), number `p`, in the second scan of `getContrast`. */
  method DeviationAt(img: Bitmap, ghost pixels: seq<Rgba>, x: nat, y: nat, ghost p: nat,
                     avgBrightness: real, contrastSum: real)
    returns (contrastSum': real)
    requires WellFormed(img) && pixels == ImagePixels(img) && x < img.width && y < img.height
    requires p == img.width * y + x && DeviationsScanned(pixels, p, avgBrightness, contrastSum)
    ensures DeviationsScanned(pixels, p + 1, avgBrightness, contrastSum')
  {
    var idx := (img.width * y + x) * 4;
    contrastSum' := DeviationCallback(img, x, y, idx, avgBrightness, contrastSum);
    ImagePixelAt(img, x, y);
  }

  /** Row `y` of `getContrast`'s first scan, pixels number `start` (which
      is `width * y`) to `start + width - 1`. */
  method MeanRow(img: Bitmap, ghost pixels: seq<Rgba>, y: nat, ghost start: nat, brightnessSum: real)
    returns (brightnessSum': real)
    requires WellFormed(img) && pixels == ImagePixels(img) && y < img.height
    requires start == img.width * y && start + img.width <= |pixels|
    requires MeanScanned(pixels, start, brightnessSum)
    ensures MeanScanned(pixels, start + img.width, brightnessSum')
  {
    brightnessSum' := brightnessSum;
    var x := 0;
    ghost var p := start;
    while x < img.width
      invariant x <= img.width && p == start + x
      invariant MeanScanned(pixels, p, brightnessSum')
    {
      brightnessSum' := MeanAt(img, pixels, x, y, p, brightnessSum');
      x, p := x + 1, p + 1;
    }
  }

  /** Row `y` of `getContrast`'s second scan, pixels number `start` (which
      is `width * y`) to `start + width - 1`.  The row visits a pixel only
      when the image has one, and then the mean is a number. */
  method DeviationRow(img: Bitmap, ghost pixels: seq<Rgba>, y: nat, ghost start: nat,
                      avgBrightness: Number, ghost mean: real, contrastSum: real)
    returns (contrastSum': real)
    requires WellFormed(img) && pixels == ImagePixels(img) && y < img.height
    requires start == img.width * y && start + img.width <= |pixels|
    requires avgBrightness == MeanBrightness(pixels)
    requires mean == if avgBrightness.Finite? then avgBrightness.value else 0.0
    requires DeviationsScanned(pixels, start, mean, contrastSum)
    ensures DeviationsScanned(pixels, start + img.width, mean, contrastSum')
  {
    contrastSum' := contrastSum;
    var x := 0;
    ghost var p := start;
    while x < img.width
      invariant x <= img.width && p == start + x
      invariant DeviationsScanned(pixels, p, mean, contrastSum')
    {
      contrastSum' := DeviationAt(img, pixels, x, y, p, avgBrightness.value, contrastSum');
      x, p := x + 1, p + 1;
    }
  }

  /** The mean `getContrast` computes after its first scan. */
  lemma MeanResult(img: Bitmap, pixels: seq<Rgba>, p: nat, brightnessSum: real)
    requires WellFormed(img) && pixels == ImagePixels(img) && p == img.width * img.height
    requires MeanScanned(pixels, p, brightnessSum)
    ensures Div(Finite(brightnessSum), (img.width * img.height) as real) == MeanBrightness(pixels)
  {
    MeanSumUpToTotal(pixels, p);
    assert pixels[..p] == pixels;
  }

  /** The variance `getContrast` computes after its second scan. */
  lemma VarianceResult(img: Bitmap, pixels: seq<Rgba>, p: nat, mean: real, contrastSum: real)
    requires WellFormed(img) && pixels == ImagePixels(img) && p == img.width * img.height
    requires mean == var m := MeanBrightness(pixels); if m.Finite? then m.value else 0.0
    requires DeviationsScanned(pixels, p, mean, contrastSum)
    ensures Div(Finite(contrastSum), (img.width * img.height) as real) == Variance(pixels)
  {
    DeviationsUpToTotal(pixels, p, mean);
    assert pixels[..p] == pixels;
  }

  /** `getContrast`'s first scan, row after row: the brightness sum over
      every pixel. */
  method MeanScan(img: Bitmap, ghost pixels: seq<Rgba>) returns (brightnessSum: real)
    requires WellFormed(img) && pixels == ImagePixels(img)
    ensures MeanScanned(pixels, img.width * img.height, brightnessSum)
  {
    brightnessSum := 0.0;
    var y := 0;
    ghost var p := 0;
    while y < img.height
      invariant y <= img.height && p == img.width * y
      invariant MeanScanned(pixels, p, brightnessSum)
    {
      RowFits(img.width, img.height, y);
      brightnessSum := MeanRow(img, pixels, y, p, brightnessSum);
      y, p := y + 1, p + img.width;
    }
    ImageScanned(img.width, img.height, y);
  }

  /** `getContrast`'s second scan, row after row: the sum of the squared
      deviations of every pixel from the mean `avgBrightness`. */
  method DeviationScan(img: Bitmap, ghost pixels: seq<Rgba>, avgBrightness: Number, ghost mean: real)
    returns (contrastSum: real)
    requires WellFormed(img) && pixels == ImagePixels(img)
    requires avgBrightness == MeanBrightness(pixels)
    requires mean == if avgBrightness.Finite? then avgBrightness.value else 0.0
    ensures DeviationsScanned(pixels, img.width * img.height, mean, contrastSum)
  {
    contrastSum := 0.0;
    var y := 0;
    ghost var p := 0;
    while y < img.height
      invariant y <= img.height && p == img.width * y
      invariant DeviationsScanned(pixels, p, mean, contrastSum)
    {
      RowFits(img.width, img.height, y);
      contrastSum := DeviationRow(img, pixels, y, p, avgBrightness, mean, contrastSum);
      y, p := y + 1, p + img.width;
    }
    ImageScanned(img.width, img.height, y);
  }

  /** `Math.sqrt(variance) / 100` is the contrast of the variance when
      `root` is the non-negative square root of `variance`. */
  lemma RootIsContrast(variance: real, root: real)
    requires root >= 0.0 && root * root == variance
    ensures IsContrastOf(Finite(root / 100.0), Finite(variance))
  {
    assert 100.0 * (root / 100.0) == root;
  }

  /** `getContrast`: the first scan sums the brightness of every pixel and
      divides by the pixel count; the second sums the squared deviations from
      that mean; the result is `Math.sqrt(contrastSum / numPixels) / 100`.
      `Math.sqrt` is the parameter `sqrt`, of which only one thing is
      assumed: on a non-negative number it gives the non-negative square
      root. */
  method GetContrast(img: Bitmap, sqrt: real -> real) returns (contrast: Number)
    requires WellFormed(img)
    requires forall v: real | v >= 0.0 :: sqrt(v) >= 0.0 && sqrt(v) * sqrt(v) == v
    ensures IsContrastOf(contrast, Variance(ImagePixels(img)))
  {
    ghost var pixels := ImagePixels(img);
    var numPixels := img.width * img.height;
    var brightnessSum := MeanScan(img, pixels);
    MeanResult(img, pixels, numPixels, brightnessSum);
    var avgBrightness := Div(Finite(brightnessSum), numPixels as real);

    ghost var mean := if avgBrightness.Finite? then avgBrightness.value else 0.0;
    var contrastSum := DeviationScan(img, pixels, avgBrightness, mean);
    VarianceResult(img, pixels, numPixels, mean, contrastSum);
    var variance := Div(Finite(contrastSum), numPixels as real);
    if variance.Finite? {
      RootIsContrast(variance.value, sqrt(variance.value));
      contrast := Finite(sqrt(variance.value) / 100.0);
    } else {
      contrast := variance;
    }
  }
}
