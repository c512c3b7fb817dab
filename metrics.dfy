/** What the three metrics are, as functions of the image's pixels in scan
    order (row by row, left to right).  The scans in module Scans are proved
    to compute exactly these values; the lemmas below state what the values
    mean. */
module Metrics {
  import opened Numbers
  import opened Colors

  function PixelBrightness(px: Rgba): real
  {
    Brightness(px.r, px.g, px.b)
  }

  function PixelSaturation(px: Rgba): real
  {
    Saturation(px.r, px.g, px.b)
  }

  // ---------------------------------------------------------------------
  // The transparency rule

  /** The pixels that brightness and saturation take into account: those
      whose packed colour is not 0, in scan order. */
  function Opaque(s: seq<Rgba>): (o: seq<Rgba>)
    ensures |o| <= |s|
  {
    if |s| == 0 then []
    else if IsTransparent(s[|s| - 1]) then Opaque(s[..|s| - 1])
    else Opaque(s[..|s| - 1]) + [s[|s| - 1]]
  }

  /** The number of pixels the scans count as transparent; the image's pixel
      count minus it is the number of pixels that are summed. */
  function TransparentCount(s: seq<Rgba>): (n: nat)
    ensures n <= |s|
    ensures |s| - n == |Opaque(s)|
  {
    if |s| == 0 then 0
    else TransparentCount(s[..|s| - 1]) + (if IsTransparent(s[|s| - 1]) then 1 else 0)
  }

  /** Only non-transparent pixels are summed. */
  lemma {:induction false} OpaqueHasNoTransparent(s: seq<Rgba>)
    ensures forall i | 0 <= i < |Opaque(s)| :: !IsTransparent(Opaque(s)[i])
  {
    if |s| > 0 {
      OpaqueHasNoTransparent(s[..|s| - 1]);
    }
  }

  /** Nothing is summed exactly when every pixel is transparent. */
  lemma {:induction false} NoneOpaqueIff(s: seq<Rgba>)
    ensures Opaque(s) == [] <==> forall i | 0 <= i < |s| :: IsTransparent(s[i])
  {
    if |s| > 0 {
      var k := |s| - 1;
      var init := s[..k];
      NoneOpaqueIff(init);
      if IsTransparent(s[k]) {
        if forall i | 0 <= i < k :: IsTransparent(init[i]) {
          forall i | 0 <= i < |s|
            ensures IsTransparent(s[i])
          {
            if i < k {
              assert s[i] == init[i];
            }
          }
        } else {
          var j :| 0 <= j < k && !IsTransparent(init[j]);
          assert s[j] == init[j];
        }
      } else {
        assert Opaque(s) == Opaque(init) + [s[k]];
      }
    }
  }

  // ---------------------------------------------------------------------
  // Sums and averages

  /** Sum of the brightness of the pixels; each term is in [0, 255]. */
  function TotalBrightness(s: seq<Rgba>): (sum: real)
    ensures 0.0 <= sum <= 255.0 * |s| as real
  {
    if |s| == 0 then 0.0
    else TotalBrightness(s[..|s| - 1]) + PixelBrightness(s[|s| - 1])
  }

  /** Sum of the saturation of the pixels; each term is in [0, 1]. */
  function TotalSaturation(s: seq<Rgba>): (sum: real)
    ensures 0.0 <= sum <= |s| as real
  {
    if |s| == 0 then 0.0
    else TotalSaturation(s[..|s| - 1]) + PixelSaturation(s[|s| - 1])
  }

  /** What one pixel adds to the brightness sum, the saturation sum and the
      transparent count of the brightness and saturation scans. */
  function BrightnessTerm(px: Rgba): real
  {
    if IsTransparent(px) then 0.0 else PixelBrightness(px)
  }

  function SaturationTerm(px: Rgba): real
  {
    if IsTransparent(px) then 0.0 else PixelSaturation(px)
  }

  function TransparentTerm(px: Rgba): nat
  {
    if IsTransparent(px) then 1 else 0
  }

  /** What one pixel adds to the contrast's sum of squared deviations:
      never negative, and nothing exactly when the pixel's brightness is the
      mean. */
  function Deviation(px: Rgba, mean: real): (d: real)
    ensures d >= 0.0
    ensures d == 0.0 <==> PixelBrightness(px) == mean
  {
    SquareNonNegative(PixelBrightness(px) - mean);
    (PixelBrightness(px) - mean) * (PixelBrightness(px) - mean)
  }

  /** The scans decide what a pixel adds by testing whether its packed
      colour is 0; by PackedZeroIff that is the same choice as testing
      whether the pixel is transparent. */
  lemma PackedZeroChoice<T>(px: Rgba, zero: T, other: T)
    ensures (if RgbaToInt(px) == 0 then zero else other) == (if IsTransparent(px) then zero else other)
  {
    PackedZeroIff(px);
  }

  /** What one pixel adds to the brightness scan, stated with its test on
      the packed colour. */
  lemma BrightnessColorTerms(px: Rgba)
    ensures BrightnessTerm(px) == if RgbaToInt(px) == 0 then 0.0 else PixelBrightness(px)
    ensures TransparentTerm(px) == if RgbaToInt(px) == 0 then 1 else 0
  {
    PackedZeroChoice(px, 0.0, PixelBrightness(px));
    PackedZeroChoice(px, 1, 0);
  }

  /** What one pixel adds to the saturation scan, stated with its test on
      the packed colour. */
  lemma SaturationColorTerms(px: Rgba)
    ensures SaturationTerm(px) == if RgbaToInt(px) == 0 then 0.0 else PixelSaturation(px)
    ensures TransparentTerm(px) == if RgbaToInt(px) == 0 then 1 else 0
  {
    PackedZeroChoice(px, 0.0, PixelSaturation(px));
    PackedZeroChoice(px, 1, 0);
  }

  // Extending the scanned prefix `s[..p - 1]` by pixel `p - 1`: a
  // transparent pixel adds one to the transparent count and nothing to the
  // sums, any other pixel adds its brightness and saturation to the sums;
  // the contrast's sums take in every pixel.

  lemma PrefixOpaqueStep(s: seq<Rgba>, p: nat)
    requires 0 < p <= |s|
    ensures Opaque(s[..p]) == if IsTransparent(s[p - 1]) then Opaque(s[..p - 1]) else Opaque(s[..p - 1]) + [s[p - 1]]
    ensures TransparentCount(s[..p]) == TransparentCount(s[..p - 1]) + TransparentTerm(s[p - 1])
  {
    assert s[..p][..p - 1] == s[..p - 1];
  }

  lemma PrefixBrightnessStep(s: seq<Rgba>, p: nat)
    requires 0 < p <= |s|
    ensures TotalBrightness(Opaque(s[..p])) == TotalBrightness(Opaque(s[..p - 1])) + BrightnessTerm(s[p - 1])
  {
    PrefixOpaqueStep(s, p);
    var o := Opaque(s[..p - 1]);
    assert (o + [s[p - 1]])[..|o|] == o;
  }

  lemma PrefixSaturationStep(s: seq<Rgba>, p: nat)
    requires 0 < p <= |s|
    ensures TotalSaturation(Opaque(s[..p])) == TotalSaturation(Opaque(s[..p - 1])) + SaturationTerm(s[p - 1])
  {
    PrefixOpaqueStep(s, p);
    var o := Opaque(s[..p - 1]);
    assert (o + [s[p - 1]])[..|o|] == o;
  }

  lemma PrefixTotalStep(s: seq<Rgba>, p: nat)
    requires 0 < p <= |s|
    ensures TotalBrightness(s[..p]) == TotalBrightness(s[..p - 1]) + PixelBrightness(s[p - 1])
  {
    assert s[..p][..p - 1] == s[..p - 1];
  }

  lemma PrefixDeviationStep(s: seq<Rgba>, p: nat, mean: real)
    requires 0 < p <= |s|
    ensures SquaredDeviations(s[..p], mean) == SquaredDeviations(s[..p - 1], mean) + Deviation(s[p - 1], mean)
  {
    assert s[..p][..p - 1] == s[..p - 1];
  }

  /** The contrast's mean brightness `brightnessSum / numPixels`, over all
      pixels: NaN (JavaScript's 0 / 0) for an empty image, otherwise a number
      in [0, 255]. */
  function MeanBrightness(s: seq<Rgba>): (mean: Number)
    ensures mean.NaN? <==> |s| == 0
    ensures mean != Infinity
    ensures mean.Finite? ==> 0.0 <= mean.value <= 255.0
  {
    MeanBounds(TotalBrightness(s), |s|, 255.0);
    Div(Finite(TotalBrightness(s)), |s| as real)
  }

  /** The mean of a non-empty image is a number: its brightness sum over
      its pixel count. */
  lemma MeanOfNonEmpty(s: seq<Rgba>)
    requires |s| > 0
    ensures MeanBrightness(s) == Finite(TotalBrightness(s) / |s| as real)
  {
  }

  /** The mean of an image of `n` pixels is `q` when `q` times `n` is the
      brightness sum. */
  lemma MeanIs(s: seq<Rgba>, n: real, q: real)
    requires n == |s| as real && n > 0.0 && q * n == TotalBrightness(s)
    ensures MeanBrightness(s) == Finite(q)
  {
    MeanOfNonEmpty(s);
    QuotientIs(TotalBrightness(s), n, q);
  }

  /** Average brightness: the brightness sum of the non-transparent pixels,
      divided by their number and by 255.  It is NaN exactly when no pixel
      is summed (DegenerateIffAllTransparent says when that is), otherwise
      it lies in [0, 1]. */
  function AverageBrightness(s: seq<Rgba>): (avg: Number)
    ensures avg.NaN? <==> Opaque(s) == []
    ensures avg != Infinity
    ensures avg.Finite? ==> 0.0 <= avg.value <= 1.0
  {
    var mean := MeanBrightness(Opaque(s));
    Div(mean, 255.0)
  }

  /** Average saturation: the saturation sum of the non-transparent pixels
      divided by their number.  NaN exactly when no pixel is summed,
      otherwise in [0, 1]. */
  function AverageSaturation(s: seq<Rgba>): (avg: Number)
    ensures avg.NaN? <==> Opaque(s) == []
    ensures avg != Infinity
    ensures avg.Finite? ==> 0.0 <= avg.value <= 1.0
  {
    var o := Opaque(s);
    MeanBounds(TotalSaturation(o), |o|, 1.0);
    Div(Finite(TotalSaturation(o)), |o| as real)
  }

  /** Average brightness and average saturation are NaN (JavaScript's 0 / 0)
      exactly when every pixel of the image is transparent, an empty image
      included; the source has no other error path. */
  lemma DegenerateIffAllTransparent(s: seq<Rgba>)
    ensures AverageBrightness(s).NaN? <==> forall i | 0 <= i < |s| :: IsTransparent(s[i])
    ensures AverageSaturation(s).NaN? <==> forall i | 0 <= i < |s| :: IsTransparent(s[i])
  {
    NoneOpaqueIff(s);
  }

  /** With at least one pixel summed, average brightness is the mean
      brightness of the summed pixels over 255, and average saturation their
      mean saturation. */
  lemma AveragesOfOpaque(s: seq<Rgba>)
    requires Opaque(s) != []
    ensures AverageBrightness(s) == Finite(TotalBrightness(Opaque(s)) / |Opaque(s)| as real / 255.0)
    ensures AverageSaturation(s) == Finite(TotalSaturation(Opaque(s)) / |Opaque(s)| as real)
  {
  }

  /** Sum over all pixels of the squared distance of their brightness from
      `mean`; never negative. */
  function SquaredDeviations(s: seq<Rgba>, mean: real): (sum: real)
    ensures sum >= 0.0
  {
    if |s| == 0 then 0.0 else SquaredDeviations(s[..|s| - 1], mean) + Deviation(s[|s| - 1], mean)
  }

  /** The variance `contrastSum / numPixels` of the pixel brightness: the
      squared deviations from the mean over the pixel count.  Its square root
      divided by 100 is the contrast.  NaN for an empty image, otherwise a
      non-negative number. */
  function Variance(s: seq<Rgba>): (v: Number)
    ensures v.NaN? <==> |s| == 0
    ensures v != Infinity
    ensures v.Finite? ==> v.value >= 0.0
  {
    var mean := MeanBrightness(s);
    var sum := SquaredDeviations(s, if mean.Finite? then mean.value else 0.0);
    Div(Finite(sum), |s| as real)
  }

  /** A sum of `n` terms each in [0, c], divided by `n` as JavaScript does:
      NaN when there are no terms, otherwise a number in [0, c]. */
  lemma MeanBounds(sum: real, n: nat, c: real)
    requires c >= 0.0 && 0.0 <= sum <= c * n as real
    ensures Div(Finite(sum), n as real).NaN? <==> n == 0
    ensures Div(Finite(sum), n as real) != Infinity
    ensures Div(Finite(sum), n as real).Finite? ==> Div(Finite(sum), n as real).value <= c
  {
    if n > 0 {
      QuotientBounds(sum, n as real, c);
    }
  }

  lemma QuotientBounds(x: real, n: real, c: real)
    requires n >= 1.0 && 0.0 <= x <= c * n
    ensures 0.0 <= x / n <= c
  {
    var q := x / n;
    assert q * n == x;
    assert (c - q) * n == c * n - x;
  }

  /** `q` is `x / n` when `q` times `n` is `x`. */
  lemma QuotientIs(x: real, n: real, q: real)
    requires n != 0.0 && q * n == x
    ensures x / n == q
  {
  }

  // ---------------------------------------------------------------------
  // Contrast

  /** `c` is `Math.sqrt(v) / 100`: NaN for NaN, otherwise the non-negative
      number whose hundredfold squares to `v`. */
  ghost predicate IsContrastOf(c: Number, v: Number)
  {
    match v
    case NaN => c.NaN?
    case Infinity => c == Infinity
    case Finite(x) => c.Finite? && c.value >= 0.0 && (100.0 * c.value) * (100.0 * c.value) == x
  }

  /** At most one contrast belongs to a variance. */
  lemma ContrastUnique(c1: Number, c2: Number, v: Number)
    requires IsContrastOf(c1, v) && IsContrastOf(c2, v)
    ensures c1 == c2
  {
    if v.Finite? {
      var x, y := 100.0 * c1.value, 100.0 * c2.value;
      assert (x - y) * (x + y) == 0.0;
      if x + y != 0.0 {
        ProductZero(x - y, x + y);
      }
    }
  }

  /** The contrast is 0 exactly when the variance is 0. */
  lemma ContrastZeroIff(c: Number, x: real)
    requires IsContrastOf(c, Finite(x))
    ensures c == Finite(0.0) <==> x == 0.0
  {
    var y := 100.0 * c.value;
    if x == 0.0 && y != 0.0 {
      ProductZero(y, y);
    }
  }

  lemma ProductZero(a: real, b: real)
    requires a * b == 0.0 && b != 0.0
    ensures a == 0.0
  {
    assert a == (a * b) / b;
  }

  // ---------------------------------------------------------------------
  // Uniform images

  /** `n` copies of `x` added up. */
  function Times(n: nat, x: real): (sum: real)
    ensures sum == n as real * x
  {
    if n == 0 then 0.0 else AddOneMore((n - 1) as real, x); Times(n - 1, x) + x
  }

  lemma AddOneMore(n: real, x: real)
    ensures n * x + x == (n + 1.0) * x
  {
  }

  /** Every pixel of `s` has brightness `b`: then the brightness sum is
      `|s|` times `b`. */
  lemma {:induction false} EqualBrightnessSum(s: seq<Rgba>, b: real)
    requires forall i | 0 <= i < |s| :: PixelBrightness(s[i]) == b
    ensures TotalBrightness(s) == Times(|s|, b)
  {
    if |s| > 0 {
      var k := |s| - 1;
      assert forall i | 0 <= i < k :: s[..k][i] == s[i];
      EqualBrightnessSum(s[..k], b);
    }
  }

  /** Every pixel of `s` has brightness `b`: then no pixel deviates from
      `b`. */
  lemma {:induction false} NoDeviations(s: seq<Rgba>, b: real)
    requires forall i | 0 <= i < |s| :: PixelBrightness(s[i]) == b
    ensures SquaredDeviations(s, b) == 0.0
  {
    if |s| > 0 {
      var k := |s| - 1;
      var init := s[..k];
      forall i | 0 <= i < k
        ensures PixelBrightness(init[i]) == b
      {
        assert init[i] == s[i];
      }
      NoDeviations(init, b);
    }
  }

  /** Every pixel of `s` has saturation `v`: then the saturation sum is
      `|s|` times `v`. */
  lemma {:induction false} EqualSaturationSum(s: seq<Rgba>, v: real)
    requires forall i | 0 <= i < |s| :: PixelSaturation(s[i]) == v
    ensures TotalSaturation(s) == Times(|s|, v)
  {
    if |s| > 0 {
      var k := |s| - 1;
      assert forall i | 0 <= i < k :: s[..k][i] == s[i];
      EqualSaturationSum(s[..k], v);
    }
  }

  /** The non-transparent pixels of an image of one colour `px`: none when
      `px` is transparent, all of them otherwise. */
  lemma {:induction false} OpaqueOfUniform(s: seq<Rgba>, px: Rgba)
    requires forall i | 0 <= i < |s| :: s[i] == px
    ensures Opaque(s) == if IsTransparent(px) then [] else s
  {
    if |s| > 0 {
      var k := |s| - 1;
      assert forall i | 0 <= i < k :: s[..k][i] == s[i];
      OpaqueOfUniform(s[..k], px);
      assert s[..k] + [s[k]] == s;
    }
  }

  /** An image of one colour `px`: its average brightness is that of `px`
      over 255, unless `px` is transparent, when it is NaN. */
  lemma UniformBrightness(s: seq<Rgba>, px: Rgba)
    requires |s| > 0
    requires forall i | 0 <= i < |s| :: s[i] == px
    ensures AverageBrightness(s) == if IsTransparent(px) then NaN else Finite(PixelBrightness(px) / 255.0)
  {
    OpaqueOfUniform(s, px);
    if !IsTransparent(px) {
      var b := PixelBrightness(px);
      EqualBrightnessSum(s, b);
      CancelCount(|s|, b);
    }
  }

  /** An image of one colour `px`: its average saturation is that of `px`,
      unless `px` is transparent, when it is NaN. */
  lemma UniformSaturation(s: seq<Rgba>, px: Rgba)
    requires |s| > 0
    requires forall i | 0 <= i < |s| :: s[i] == px
    ensures AverageSaturation(s) == if IsTransparent(px) then NaN else Finite(PixelSaturation(px))
  {
    OpaqueOfUniform(s, px);
    if !IsTransparent(px) {
      var v := PixelSaturation(px);
      EqualSaturationSum(s, v);
      CancelCount(|s|, v);
    }
  }

  /** An image of one colour, transparent or not, has variance 0. */
  lemma UniformVariance(s: seq<Rgba>, px: Rgba)
    requires |s| > 0
    requires forall i | 0 <= i < |s| :: s[i] == px
    ensures Variance(s) == Finite(0.0)
  {
    EqualBrightnessVariance(s, PixelBrightness(px));
  }

  /** Every pixel of a non-empty image has brightness `b`: then `b` is the
      mean and the variance is 0. */
  lemma EqualBrightnessVariance(s: seq<Rgba>, b: real)
    requires |s| > 0
    requires forall i | 0 <= i < |s| :: PixelBrightness(s[i]) == b
    ensures MeanBrightness(s) == Finite(b)
    ensures Variance(s) == Finite(0.0)
  {
    MeanOfEqual(s, b);
    NoDeviations(s, b);
    var n := |s| as real;
    VarianceAround(s, b, n);
    QuotientIs(0.0, n, 0.0);
  }

  lemma MeanOfEqual(s: seq<Rgba>, b: real)
    requires |s| > 0
    requires forall i | 0 <= i < |s| :: PixelBrightness(s[i]) == b
    ensures MeanBrightness(s) == Finite(b)
  {
    EqualBrightnessSum(s, b);
    CancelCount(|s|, b);
    MeanOfNonEmpty(s);
  }

  /** The variance of a non-empty image whose mean is `m`: the squared
      deviations from `m` over the pixel count `n`. */
  lemma VarianceAround(s: seq<Rgba>, m: real, n: real)
    requires |s| > 0 && MeanBrightness(s) == Finite(m) && n == |s| as real
    ensures Variance(s) == Finite(SquaredDeviations(s, m) / n)
  {
  }

  lemma CancelCount(n: nat, x: real)
    requires n > 0
    ensures Times(n, x) / n as real == x
  {
  }

  // ---------------------------------------------------------------------
  // Variance zero exactly when every pixel has the same brightness

  /** A sum of squared deviations is 0 only when every term is. */
  lemma {:induction false} ZeroDeviations(s: seq<Rgba>, m: real)
    requires SquaredDeviations(s, m) == 0.0
    ensures forall i | 0 <= i < |s| :: PixelBrightness(s[i]) == m
  {
    if |s| > 0 {
      var k := |s| - 1;
      ZeroDeviations(s[..k], m);
      assert forall i | 0 <= i < k :: s[..k][i] == s[i];
    }
  }

  lemma SquareNonNegative(d: real)
    ensures d * d >= 0.0
    ensures d * d == 0.0 <==> d == 0.0
  {
    if d * d == 0.0 && d != 0.0 {
      ProductZero(d, d);
    }
  }

  /** The variance (and so the contrast) of a non-empty image is 0 exactly
      when all its pixels have the same brightness `(r + g + b) / 3`. */
  lemma VarianceZeroIff(s: seq<Rgba>)
    requires |s| > 0
    ensures Variance(s) == Finite(0.0)
        <==> forall i, j | 0 <= i < |s| && 0 <= j < |s| :: PixelBrightness(s[i]) == PixelBrightness(s[j])
  {
    if Variance(s) == Finite(0.0) {
      ZeroVarianceEqual(s);
    }
    if forall i, j | 0 <= i < |s| && 0 <= j < |s| :: PixelBrightness(s[i]) == PixelBrightness(s[j]) {
      var b := PixelBrightness(s[0]);
      EqualBrightnessVariance(s, b);
    }
  }

  /** A non-empty image of variance 0 has every pixel at the mean
      brightness. */
  lemma ZeroVarianceEqual(s: seq<Rgba>)
    requires |s| > 0 && Variance(s) == Finite(0.0)
    ensures forall i | 0 <= i < |s| :: PixelBrightness(s[i]) == MeanBrightness(s).value
  {
    var m := MeanBrightness(s).value;
    VarianceAround(s, m, |s| as real);
    QuotientZero(SquaredDeviations(s, m), |s| as real);
    ZeroDeviations(s, m);
  }

  lemma QuotientZero(x: real, n: real)
    requires n > 0.0 && x / n == 0.0
    ensures x == 0.0
  {
    assert x == (x / n) * n;
  }

  // ---------------------------------------------------------------------
  // Transparent pixels in the three metrics

  /** Adding a transparent pixel leaves average brightness and average
      saturation unchanged ... */
  lemma AppendTransparent(s: seq<Rgba>, px: Rgba)
    requires IsTransparent(px)
    ensures AverageBrightness(s + [px]) == AverageBrightness(s)
    ensures AverageSaturation(s + [px]) == AverageSaturation(s)
  {
    assert (s + [px])[..|s|] == s;
    assert Opaque(s + [px]) == Opaque(s);
  }

  /** ... but the contrast's mean counts it, with brightness 0, among all
      pixels. */
  lemma AppendTransparentMean(s: seq<Rgba>, px: Rgba)
    requires IsTransparent(px)
    ensures MeanBrightness(s + [px]) == Finite(TotalBrightness(s) / (|s| + 1) as real)
  {
    TransparentIsDark(px);
    AppendDarkMean(s, px);
  }

  lemma AppendDarkMean(s: seq<Rgba>, px: Rgba)
    requires PixelBrightness(px) == 0.0
    ensures MeanBrightness(s + [px]) == Finite(TotalBrightness(s) / (|s| + 1) as real)
  {
    var t := s + [px];
    AppendTotal(s, px);
    assert TotalBrightness(t) == TotalBrightness(s);
    assert |t| == |s| + 1;
    MeanOfNonEmpty(t);
  }

  /** Appending a pixel adds its brightness to the sum. */
  lemma AppendTotal(s: seq<Rgba>, px: Rgba)
    ensures TotalBrightness(s + [px]) == TotalBrightness(s) + PixelBrightness(px)
  {
    assert (s + [px])[..|s|] == s;
  }

  /** The pixels summed from an image of two pixels `p` and `q`. */
  lemma PairOpaque(p: Rgba, q: Rgba)
    ensures Opaque([p]) == if IsTransparent(p) then [] else [p]
    ensures Opaque([p, q]) == Opaque([p]) + if IsTransparent(q) then [] else [q]
  {
    assert [p, q][..1] == [p];
    assert [p][..0] == [];
  }

  /** The brightness sum of an image of two pixels. */
  lemma PairBrightness(p: Rgba, q: Rgba)
    ensures TotalBrightness([p]) == PixelBrightness(p)
    ensures TotalBrightness([p, q]) == PixelBrightness(p) + PixelBrightness(q)
  {
    assert [p, q][..1] == [p];
    assert [p][..0] == [];
  }

  /** The squared deviations of an image of two pixels. */
  lemma PairDeviations(p: Rgba, q: Rgba, m: real, dp: real, dq: real)
    requires dp == PixelBrightness(p) - m && dq == PixelBrightness(q) - m
    ensures SquaredDeviations([p, q], m) == dp * dp + dq * dq
  {
    assert [p, q][..1] == [p];
    assert [p][..0] == [];
    assert SquaredDeviations([p], m) == SquaredDeviations([], m) + dp * dp;
  }

  /** The mean brightness of an image of one pixel is that pixel's. */
  lemma MeanOfOne(p: Rgba)
    ensures MeanBrightness([p]) == Finite(PixelBrightness(p))
  {
    PairBrightness(p, p);
    assert |[p]| == 1;
    MeanIs([p], 1.0, PixelBrightness(p));
  }

  /** The mean brightness of an image of two pixels is half their sum. */
  lemma MeanOfTwo(p: Rgba, q: Rgba)
    ensures MeanBrightness([p, q]) == Finite((PixelBrightness(p) + PixelBrightness(q)) / 2.0)
  {
    PairBrightness(p, q);
    var sum := PixelBrightness(p) + PixelBrightness(q);
    assert |[p, q]| == 2;
    MeanIs([p, q], 2.0, sum / 2.0);
  }

  /** An image of a pixel `p` that is summed and a transparent pixel `c`:
      average brightness is that of `p` alone, the contrast's mean is half
      of it. */
  lemma PairWithTransparent(p: Rgba, c: Rgba)
    requires !IsTransparent(p) && IsTransparent(c)
    ensures AverageBrightness([p, c]) == Finite(PixelBrightness(p) / 255.0)
    ensures MeanBrightness([p, c]) == Finite(PixelBrightness(p) / 2.0)
  {
    PairOpaque(p, c);
    TransparentIsDark(c);
    PairWithDark(p, c);
  }

  /** A transparent pixel has brightness 0. */
  lemma TransparentIsDark(c: Rgba)
    requires IsTransparent(c)
    ensures PixelBrightness(c) == 0.0
  {
  }

  lemma PairWithDark(p: Rgba, c: Rgba)
    requires Opaque([p, c]) == [p] && PixelBrightness(c) == 0.0
    ensures AverageBrightness([p, c]) == Finite(PixelBrightness(p) / 255.0)
    ensures MeanBrightness([p, c]) == Finite(PixelBrightness(p) / 2.0)
  {
    MeanOfOne(p);
    MeanOfTwo(p, c);
  }

  /** An image of two pixels that are both summed: average brightness is
      the mean of their brightness over 255. */
  lemma PairWithoutTransparent(p: Rgba, q: Rgba)
    requires !IsTransparent(p) && !IsTransparent(q)
    ensures AverageBrightness([p, q]) == Finite((PixelBrightness(p) + PixelBrightness(q)) / 2.0 / 255.0)
  {
    PairOpaque(p, q);
    assert Opaque([p, q]) == [p] + [q] == [p, q];
    MeanOfTwo(p, q);
  }

  /** A white pixel beside a fully transparent one: average brightness
      ignores the transparent pixel and is 1, the contrast's mean includes it
      and is 127.5. */
  lemma TransparentPixelExample(white: Rgba, clear: Rgba)
    requires white == Rgba(255, 255, 255, 255) && clear == Rgba(0, 0, 0, 0)
    ensures AverageBrightness([white, clear]) == Finite(1.0)
    ensures MeanBrightness([white, clear]) == Finite(127.5)
  {
    PairWithTransparent(white, clear);
  }

  /** A white and an opaque black pixel: mean brightness 127.5, variance
      127.5 squared, so the contrast is 1.275. */
  lemma TwoPixelContrastExample(white: Rgba, black: Rgba)
    requires white == Rgba(255, 255, 255, 255) && black == Rgba(0, 0, 0, 255)
    ensures MeanBrightness([white, black]) == Finite(127.5)
    ensures Variance([white, black]) == Finite(16256.25)
    ensures IsContrastOf(Finite(1.275), Variance([white, black]))
  {
    PairBrightness(white, black);
    PairDeviations(white, black, 127.5, 127.5, -127.5);
    assert PixelBrightness(white) == 255.0 && PixelBrightness(black) == 0.0;
    MeanOfNonEmpty([white, black]);
    QuotientIs(255.0, |[white, black]| as real, 127.5);
    QuotientIs(32512.5, |[white, black]| as real, 16256.25);
    assert SquaredDeviations([white, black], 127.5) == 32512.5;
  }

  // ---------------------------------------------------------------------
  // Monotonicity

  /** Brightening pixels without changing which of them are transparent
      cannot lower average brightness. */
  lemma BrightnessMonotone(s: seq<Rgba>, t: seq<Rgba>)
    requires |s| == |t|
    requires forall i | 0 <= i < |s| :: IsTransparent(s[i]) == IsTransparent(t[i])
    requires forall i | 0 <= i < |s| :: PixelBrightness(s[i]) <= PixelBrightness(t[i])
    ensures AverageBrightness(s).NaN? == AverageBrightness(t).NaN?
    ensures AverageBrightness(s).Finite? ==> AverageBrightness(s).value <= AverageBrightness(t).value
  {
    MonotoneOpaque(s, t);
    var o, p := Opaque(s), Opaque(t);
    MonotoneSum(o, p);
    if |o| > 0 {
      var n := |o| as real;
      DivMonotone(TotalBrightness(o), TotalBrightness(p), n);
      DivMonotone(TotalBrightness(o) / n, TotalBrightness(p) / n, 255.0);
    }
  }

  /** Filtering two images with the same transparent pixels keeps them
      aligned pixel for pixel. */
  lemma {:induction false} MonotoneOpaque(s: seq<Rgba>, t: seq<Rgba>)
    requires |s| == |t|
    requires forall i | 0 <= i < |s| :: IsTransparent(s[i]) == IsTransparent(t[i])
    requires forall i | 0 <= i < |s| :: PixelBrightness(s[i]) <= PixelBrightness(t[i])
    ensures |Opaque(s)| == |Opaque(t)|
    ensures forall i | 0 <= i < |Opaque(s)| :: PixelBrightness(Opaque(s)[i]) <= PixelBrightness(Opaque(t)[i])
  {
    if |s| > 0 {
      var k := |s| - 1;
      var s0, t0 := s[..k], t[..k];
      forall i | 0 <= i < k
        ensures IsTransparent(s0[i]) == IsTransparent(t0[i])
        ensures PixelBrightness(s0[i]) <= PixelBrightness(t0[i])
      {
        assert s0[i] == s[i] && t0[i] == t[i];
      }
      MonotoneOpaque(s0, t0);
      var a, b := Opaque(s0), Opaque(t0);
      assert IsTransparent(s[k]) == IsTransparent(t[k]);
      if IsTransparent(s[k]) {
        assert Opaque(s) == a && Opaque(t) == b;
      } else {
        assert Opaque(s) == a + [s[k]] && Opaque(t) == b + [t[k]];
        forall i | 0 <= i < |a| + 1
          ensures PixelBrightness(Opaque(s)[i]) <= PixelBrightness(Opaque(t)[i])
        {
          if i < |a| {
            assert Opaque(s)[i] == a[i] && Opaque(t)[i] == b[i];
          }
        }
      }
    }
  }

  lemma {:induction false} MonotoneSum(s: seq<Rgba>, t: seq<Rgba>)
    requires |s| == |t|
    requires forall i | 0 <= i < |s| :: PixelBrightness(s[i]) <= PixelBrightness(t[i])
    ensures TotalBrightness(s) <= TotalBrightness(t)
  {
    if |s| > 0 {
      var k := |s| - 1;
      assert forall i | 0 <= i < k :: s[..k][i] == s[i] && t[..k][i] == t[i];
      MonotoneSum(s[..k], t[..k]);
    }
  }

  lemma DivMonotone(x: real, y: real, n: real)
    requires n > 0.0 && x <= y
    ensures x / n <= y / n
  {
    assert (y / n - x / n) * n == y - x;
  }

  /** Raising every channel of every pixel by one can lower average
      brightness: a fully transparent pixel that gains any value stops being
      skipped. */
  lemma BrighteningCanDarken(white: Rgba, clear: Rgba, dim: Rgba)
    requires white == Rgba(255, 255, 255, 255) && clear == Rgba(0, 0, 0, 0) && dim == Rgba(1, 1, 1, 1)
    ensures AverageBrightness([white, clear]) == Finite(1.0)
    ensures AverageBrightness([white, dim]) == Finite(128.0 / 255.0)
  {
    PairWithoutTransparent(white, dim);
    PairWithTransparent(white, clear);
  }
}
