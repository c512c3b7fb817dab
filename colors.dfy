/** One pixel of a decoded RGBA bitmap, Jimp's packing of its four channels
    into one 32-bit colour integer, and the per-pixel brightness and
    saturation formulas of the metrics. */
module Colors {

  /** A channel value: the bitmap's data buffer holds unsigned bytes. */
  type Byte = b: int | 0 <= b < 256

  /** The range of a packed colour (an unsigned 32-bit integer). */
  type Uint32 = c: int | 0 <= c < 0x1_0000_0000

  datatype Rgba = Rgba(r: Byte, g: Byte, b: Byte, a: Byte)

  /** The packed colour of a pixel: its four bytes read as one big-endian
      unsigned 32-bit number, as `getPixelColor` reads them (red is the most
      significant byte, alpha the least). */
  function RgbaToInt(px: Rgba): Uint32
  {
    px.r * 0x100_0000 + px.g * 0x1_0000 + px.b * 0x100 + px.a
  }

  /** Jimp's `intToRGBA`: each channel is the floor of what is left of the
      colour after the more significant channels are taken off, divided by
      that channel's weight. */
  function IntToRgba(color: Uint32): Rgba
  {
    var r := color / 0x100_0000;
    var g := (color - r * 0x100_0000) / 0x1_0000;
    var b := (color - r * 0x100_0000 - g * 0x1_0000) / 0x100;
    var a := color - r * 0x100_0000 - g * 0x1_0000 - b * 0x100;
    Rgba(r, g, b, a)
  }

  /** Unpacking a packed colour gives back the pixel that was packed. */
  lemma PackThenUnpack(px: Rgba)
    ensures IntToRgba(RgbaToInt(px)) == px
  {
    var color := RgbaToInt(px);
    var belowR := px.g * 0x1_0000 + px.b * 0x100 + px.a;
    var belowG := px.b * 0x100 + px.a;
    assert color == px.r * 0x100_0000 + belowR;
    QuotientOfPlace(px.r, belowR, 0x100_0000);
    assert color - px.r * 0x100_0000 == px.g * 0x1_0000 + belowG;
    QuotientOfPlace(px.g, belowG, 0x1_0000);
    assert color - px.r * 0x100_0000 - px.g * 0x1_0000 == px.b * 0x100 + px.a;
    QuotientOfPlace(px.b, px.a, 0x100);
  }

  /** A digit `q` in place `d` above a remainder smaller than `d` is
      recovered by dividing by `d`. */
  lemma QuotientOfPlace(q: int, rem: int, d: int)
    requires d > 0 && 0 <= rem < d
    ensures (q * d + rem) / d == q
  {
    var k, m := (q * d + rem) / d, (q * d + rem) % d;
    assert q * d + rem == k * d + m;
    assert (q - k) * d == m - rem;
    SmallMultiple(q - k, d);
  }

  /** The only multiple of `d` strictly between `-d` and `d` is 0. */
  lemma SmallMultiple(n: int, d: int)
    requires d > 0 && -d < n * d < d
    ensures n == 0
  {
    if n > 0 {
      ProductNonNegative(n - 1, d);
    } else if n < 0 {
      ProductNonNegative(-n - 1, d);
    }
  }

  lemma ProductNonNegative(a: int, b: int)
    requires a >= 0 && b >= 0
    ensures a * b >= 0
  {
  }

  /** Packing is onto: every 32-bit colour is the packing of its unpacking,
      so with PackThenUnpack the two are inverse bijections. */
  lemma UnpackThenPack(color: Uint32)
    ensures RgbaToInt(IntToRgba(color)) == color
  {
  }

  /** A pixel the brightness and saturation scans skip: the scans test
      whether its packed colour is 0, and PackedZeroIff shows that this is
      exactly the pixel whose four channels are all 0. */
  predicate IsTransparent(px: Rgba)
  {
    px == Rgba(0, 0, 0, 0)
  }

  /** The packed colour is 0 exactly when all four channels are zero; so an
      opaque black pixel (alpha 255) is not skipped, and neither is a fully
      transparent pixel that has some colour (alpha 0). */
  lemma PackedZeroIff(px: Rgba)
    ensures RgbaToInt(px) == 0 <==> IsTransparent(px)
  {
    assert RgbaToInt(px) == px.r * 0x100_0000 + px.g * 0x1_0000 + px.b * 0x100 + px.a;
    assert px.r >= 0 && px.g >= 0 && px.b >= 0 && px.a >= 0;
  }

  /** `Math.max(r, g, b)` */
  function Max3(r: Byte, g: Byte, b: Byte): (m: Byte)
    ensures r <= m && g <= m && b <= m
    ensures m == r || m == g || m == b
  {
    if r >= g && r >= b then r else if g >= b then g else b
  }

  /** `Math.min(r, g, b)` */
  function Min3(r: Byte, g: Byte, b: Byte): (m: Byte)
    ensures m <= r && m <= g && m <= b
    ensures m == r || m == g || m == b
  {
    if r <= g && r <= b then r else if g <= b then g else b
  }

  /** Per-pixel brightness `(r + g + b) / 3`, in [0, 255]. */
  function Brightness(r: Byte, g: Byte, b: Byte): (v: real)
    ensures 0.0 <= v <= 255.0
  {
    (r + g + b) as real / 3.0
  }

  /** Brightness is the mean of the three colour channels: it lies between
      the darkest and the brightest channel, and is 0 only for black. */
  lemma BrightnessBetweenChannels(r: Byte, g: Byte, b: Byte)
    ensures Min3(r, g, b) as real <= Brightness(r, g, b) <= Max3(r, g, b) as real
    ensures Brightness(r, g, b) == 0.0 <==> r == g == b == 0
  {
  }

  /** Per-pixel saturation: `(max - min) / max` of the largest and smallest
      channel, or 0 when `max` is 0. It is a ratio in [0, 1]. */
  function Saturation(r: Byte, g: Byte, b: Byte): (s: real)
    ensures 0.0 <= s <= 1.0
  {
    SaturationOfExtremes(Max3(r, g, b), Min3(r, g, b))
  }

  function SaturationOfExtremes(max: Byte, min: Byte): (s: real)
    requires min <= max
    ensures 0.0 <= s <= 1.0
  {
    if max != 0 then RatioBounds((max - min) as real, max as real); (max - min) as real / max as real
    else 0.0
  }

  /** Saturation is 0 exactly for grey pixels (all three channels equal,
      black included) and 1 exactly when some channel is 0 and some is not. */
  lemma SaturationZeroOrOne(r: Byte, g: Byte, b: Byte)
    ensures Saturation(r, g, b) == 0.0 <==> r == g == b
    ensures Saturation(r, g, b) == 1.0 <==> Min3(r, g, b) == 0 < Max3(r, g, b)
  {
    var max, min := Max3(r, g, b), Min3(r, g, b);
    if max != 0 {
      RatioBounds((max - min) as real, max as real);
    }
  }

  lemma RatioBounds(x: real, y: real)
    requires 0.0 <= x <= y && y > 0.0
    ensures 0.0 <= x / y <= 1.0
    ensures x / y == 0.0 <==> x == 0.0
    ensures x / y == 1.0 <==> x == y
  {
    var q := x / y;
    assert q * y == x;
    assert (1.0 - q) * y == y - x;
  }

  /** `(r', g', b')` is `(r, g, b)` with every channel multiplied by `k > 0`. */
  predicate ScaledChannels(r: Byte, g: Byte, b: Byte, r': Byte, g': Byte, b': Byte, k: real)
  {
    k > 0.0 && r' as real == k * r as real && g' as real == k * g as real && b' as real == k * b as real
  }

  /** Multiplying the three channels of a pixel by the same positive factor
      does not change its saturation. */
  lemma SaturationScaleInvariant(r: Byte, g: Byte, b: Byte, r': Byte, g': Byte, b': Byte, k: real)
    requires ScaledChannels(r, g, b, r', g', b', k)
    ensures Saturation(r', g', b') == Saturation(r, g, b)
  {
    ScaledExtremes(r, g, b, r', g', b', k);
    SaturationOfScaledExtremes(r, g, b, r', g', b', k);
  }

  lemma SaturationOfScaledExtremes(r: Byte, g: Byte, b: Byte, r': Byte, g': Byte, b': Byte, k: real)
    requires k > 0.0
    requires Max3(r', g', b') as real == k * Max3(r, g, b) as real
    requires Min3(r', g', b') as real == k * Min3(r, g, b) as real
    ensures Saturation(r', g', b') == Saturation(r, g, b)
  {
    ScaledRatio(Max3(r, g, b), Min3(r, g, b), Max3(r', g', b'), Min3(r', g', b'), k);
  }

  /** The saturation of the extremes is unchanged when both are scaled by
      the same `k > 0`. */
  lemma ScaledRatio(max: Byte, min: Byte, max': Byte, min': Byte, k: real)
    requires k > 0.0
    requires min <= max && min' <= max'
    requires max' as real == k * max as real && min' as real == k * min as real
    ensures SaturationOfExtremes(max', min') == SaturationOfExtremes(max, min)
  {
    if max != 0 {
      ScaledDifference(max, min, max', min', k);
      CancelFactor((max - min) as real, max as real, k);
    }
  }

  lemma ScaledDifference(x: int, y: int, x': int, y': int, k: real)
    requires x' as real == k * x as real && y' as real == k * y as real
    ensures (x' - y') as real == k * (x - y) as real
  {
    assert (x' - y') as real == x' as real - y' as real;
    assert k * (x - y) as real == k * x as real - k * y as real;
  }

  lemma CancelFactor(x: real, y: real, k: real)
    requires y > 0.0 && k > 0.0
    ensures (k * x) / (k * y) == x / y
  {
    var q := x / y;
    assert q * y == x;
    assert q * (k * y) == k * x;
  }

  /** Scaling by a positive factor keeps the order of the channels, so the
      largest and smallest channels scale by the same factor. */
  lemma ScaledExtremes(r: Byte, g: Byte, b: Byte, r': Byte, g': Byte, b': Byte, k: real)
    requires ScaledChannels(r, g, b, r', g', b', k)
    ensures Max3(r', g', b') as real == k * Max3(r, g, b) as real
    ensures Min3(r', g', b') as real == k * Min3(r, g, b) as real
  {
    ScaledMax(r, g, b, r', g', b', k);
    ScaledMin(r, g, b, r', g', b', k);
  }

  lemma ScaledMax(r: Byte, g: Byte, b: Byte, r': Byte, g': Byte, b': Byte, k: real)
    requires ScaledChannels(r, g, b, r', g', b', k)
    ensures Max3(r', g', b') as real == k * Max3(r, g, b) as real
  {
    ScalePreservesOrder(r, g, r', g', k);
    ScalePreservesOrder(r, b, r', b', k);
    ScalePreservesOrder(g, b, g', b', k);
  }

  lemma ScaledMin(r: Byte, g: Byte, b: Byte, r': Byte, g': Byte, b': Byte, k: real)
    requires ScaledChannels(r, g, b, r', g', b', k)
    ensures Min3(r', g', b') as real == k * Min3(r, g, b) as real
  {
    ScalePreservesOrder(g, r, g', r', k);
    ScalePreservesOrder(b, r, b', r', k);
    ScalePreservesOrder(b, g, b', g', k);
  }

  lemma ScalePreservesOrder(x: Byte, y: Byte, x': Byte, y': Byte, k: real)
    requires k > 0.0
    requires x' as real == k * x as real && y' as real == k * y as real
    ensures x <= y <==> x' <= y'
  {
    assert y' as real - x' as real == k * (y - x) as real;
  }
}
