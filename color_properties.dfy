/** What the numeric transforms of `src/utils/colorUtils.ts` guarantee:
    the ranges of the components they compute from an in-gamut colour, the
    black and grey special cases, and the rounding corner cases of the hue. */
module ColorProperties {
  import opened JsMath
  import opened ColorUtils

  // ====================================================================
  // Quotients
  // ====================================================================

  /** A part of a positive whole is a fraction of it. */
  lemma QuotientUnit(a: real, d: real)
    requires 0.0 < d && 0.0 <= a <= d
    ensures 0.0 <= a / d <= 1.0
  {
    var q := a / d;
    assert q * d == a;
    if q < 0.0 {
      StrictScaleMono(q, 0.0, d);
    }
    if q > 1.0 {
      StrictScaleMono(1.0, q, d);
    }
  }

  /** A signed part of a positive whole lies in [-1, 1]. */
  lemma SignedQuotientUnit(a: real, d: real)
    requires 0.0 < d && -d <= a <= d
    ensures -1.0 <= a / d <= 1.0
  {
    var q := a / d;
    assert q * d == a;
    if q < -1.0 {
      StrictScaleMono(q, -1.0, d);
    }
    if q > 1.0 {
      StrictScaleMono(1.0, q, d);
    }
  }

  /** Each channel of an in-gamut colour, divided by 255, is a fraction. */
  lemma ChannelFractions(c: ColorValue)
    requires InGamut(c)
    ensures IsFraction(c.r as real / 255.0)
    ensures IsFraction(c.g as real / 255.0)
    ensures IsFraction(c.b as real / 255.0)
  {
  }

  // ====================================================================
  // RGB to CMYK and back
  // ====================================================================

  /** The `k === 1` guard: a colour whose largest channel is 0 is pure
      black, `cmyk(0%, 0%, 0%, 100%)`, and nothing is divided by zero. */
  lemma RgbToCmykBlack()
    ensures RgbToCmyk(0, 0, 0) == CmykColor(0, 0, 0, 100)
  {
  }
  /** Every CMYK component of an in-gamut colour is a percentage. */
  lemma RgbToCmykRange(c: ColorValue)
    requires InGamut(c)
    ensures var x := RgbToCmyk(c.r, c.g, c.b);
      0 <= x.c <= 100 && 0 <= x.m <= 100 && 0 <= x.y <= 100 && 0 <= x.k <= 100
  {
    var r, g, b := c.r as real / 255.0, c.g as real / 255.0, c.b as real / 255.0;
    ChannelFractions(c);
    var max := Max3(r, g, b);
    var k := 1.0 - max;
    if k != 1.0 {
      CmykPartRange(r, max);
      CmykPartRange(g, max);
      CmykPartRange(b, max);
    }
    RoundWithin(k * 100.0, 0, 100);
  }

  /** One of `rgbToCmyk`'s quotients, when the maximum is not 0. */
  lemma CmykPartRange(v: real, max: real)
    requires 0.0 <= v <= max <= 1.0 && max != 0.0
    ensures 0 <= Round((1.0 - v - (1.0 - max)) / (1.0 - (1.0 - max)) * 100.0) <= 100
  {
    assert 1.0 - (1.0 - max) == max;
    assert 1.0 - v - (1.0 - max) == max - v;
    QuotientUnit(max - v, max);
    RoundWithin((max - v) / max * 100.0, 0, 100);
  }

  /** Full black ink gives black whatever the other inks are. */
  lemma CmykToRgbFullBlack(c: real, m: real, y: real)
    ensures CmykToRgb(c, m, y, 1.0) == ColorValue(0, 0, 0)
  {
  }

  /** Inks that are fractions give an in-gamut colour. */
  lemma CmykToRgbInGamut(c: real, m: real, y: real, k: real)
    requires IsFraction(c) && IsFraction(m) && IsFraction(y) && IsFraction(k)
    ensures InGamut(CmykToRgb(c, m, y, k))
  {
    InkRange(c, k);
    InkRange(m, k);
    InkRange(y, k);
  }

  lemma InkRange(c: real, k: real)
    requires IsFraction(c) && IsFraction(k)
    ensures 0 <= Round(255.0 * (1.0 - c) * (1.0 - k)) <= 255
  {
    ScaleUnit(255.0 * (1.0 - c), 1.0 - k);
    RoundWithin(255.0 * (1.0 - c) * (1.0 - k), 0, 255);
  }
  // ====================================================================
  // RGB to HSL and back
  // ====================================================================

  /** A grey (all three channels equal, so the maximum equals the minimum)
      has hue 0 and saturation 0; its lightness is the channel as a
      percentage. */
  lemma RgbToHslGrey(v: int)
    ensures RgbToHsl(v, v, v) == HslColor(0, Finite(0), Round(v as real / 255.0 * 100.0))
  {
  }

  /** White and black are the two extreme greys: no saturation either way. */
  lemma RgbToHslWhiteBlack()
    ensures RgbToHsl(255, 255, 255) == HslColor(0, Finite(0), 100)
    ensures RgbToHsl(0, 0, 0) == HslColor(0, Finite(0), 0)
  {
  }

  /** With no saturation `hslToRgb` gives the grey of the lightness. */
  lemma HslToRgbGrey(h: real, l: real)
    ensures var c := HslToRgb(h, 0.0, l);
      c.r == c.g == c.b == Round(l * 255.0)
  {
  }

  /** The saturation quotient of `rgbToHsl` for a colour of the gamut that
      is not grey: its denominator is never zero, and the quotient is a
      fraction. */
  lemma HslSaturationRange(r: real, g: real, b: real)
    requires IsFraction(r) && IsFraction(g) && IsFraction(b)
    requires Max3(r, g, b) != Min3(r, g, b)
    ensures var max, min := Max3(r, g, b), Min3(r, g, b);
      var den := if (max + min) / 2.0 > 0.5 then 2.0 - max - min else max + min;
      0.0 < max - min <= den && 0.0 <= (max - min) / den <= 1.0
  {
    var max, min := Max3(r, g, b), Min3(r, g, b);
    var den := if (max + min) / 2.0 > 0.5 then 2.0 - max - min else max + min;
    QuotientUnit(max - min, den);
  }

  /** The hue of `rgbToHsl` in sixths lies in [0, 6]: a maximum in red
      gives [0, 1] or, when green is below blue, (5, 6]; green [1, 3];
      blue [3, 5]. */
  lemma HslHueSixthsRange(r: real, g: real, b: real)
    requires Max3(r, g, b) != Min3(r, g, b)
    ensures var max, min := Max3(r, g, b), Min3(r, g, b);
      0.0 <= HslHueSixths(r, g, b, max, max - min) <= 6.0
  {
    var max, min := Max3(r, g, b), Min3(r, g, b);
    var d := max - min;
    if max == r {
      SignedQuotientUnit(g - b, d);
      if g < b {
        NegativeQuotient(g - b, d);
      } else {
        QuotientUnit(g - b, d);
      }
    } else if max == g {
      SignedQuotientUnit(b - r, d);
    } else {
      SignedQuotientUnit(r - g, d);
    }
  }

  lemma NegativeQuotient(a: real, d: real)
    requires a < 0.0 < d
    ensures a / d < 0.0
  {
    var q := a / d;
    assert q * d == a;
    if q >= 0.0 {
      MulNonneg(q, d);
    }
  }

  /** The components of `rgbToHsl` on a colour of the gamut: the saturation
      is a finite percentage (no division by zero happens), the lightness a
      percentage, and the hue in degrees lies in [0, 360]. The upper end
      is reached: see `RgbToHslHue360`. */
  lemma RgbToHslRange(c: ColorValue)
    requires InGamut(c)
    ensures var x := RgbToHsl(c.r, c.g, c.b);
      0 <= x.h <= 360 && x.s.Finite? && 0 <= x.s.n <= 100 && 0 <= x.l <= 100
  {
    var r, g, b := c.r as real / 255.0, c.g as real / 255.0, c.b as real / 255.0;
    ChannelFractions(c);
    var max, min := Max3(r, g, b), Min3(r, g, b);
    RoundWithin((max + min) / 2.0 * 100.0, 0, 100);
    if max != min {
      var d := max - min;
      var den := if (max + min) / 2.0 > 0.5 then 2.0 - max - min else max + min;
      HslSaturationRange(r, g, b);
      RoundWithin(d / den * 100.0, 0, 100);
      HslHueSixthsRange(r, g, b);
      RoundWithin(HslHueSixths(r, g, b, max, d) / 6.0 * 360.0, 0, 360);
    }
  }

  /** `rgbToHsl` can round a hue just below a full turn up to 360: the hue
      of `rgb(255, 0, 1)` is 359.76 degrees before rounding. */
  lemma RgbToHslHue360()
    ensures RgbToHsl(255, 0, 1) == HslColor(360, Finite(100), 50)
  {
    var r, g, b := 1.0, 0.0, 1.0 / 255.0;
    assert Max3(r, g, b) == 1.0 && Min3(r, g, b) == 0.0;
    assert HslHueSixths(r, g, b, 1.0, 1.0) == 6.0 - 1.0 / 255.0;
  }

  /** `#FF5733` in HSL: lightness 60%, full saturation, and a hue of
      10.59 degrees, which rounds to 11. */
  lemma RgbToHslOfFF5733()
    ensures RgbToHsl(255, 87, 51) == HslColor(11, Finite(100), 60)
  {
    var r, g, b := 1.0, 87.0 / 255.0, 51.0 / 255.0;
    assert Max3(r, g, b) == 1.0 && Min3(r, g, b) == 51.0 / 255.0;
    var d := 1.0 - 51.0 / 255.0;
    assert (1.0 + 51.0 / 255.0) / 2.0 == 0.6;
    assert d / (2.0 - 1.0 - 51.0 / 255.0) == 1.0;
    assert HslHueSixths(r, g, b, 1.0, d) == 36.0 / 204.0;
  }

  /** Any non-negative hue, with saturation and lightness that are
      fractions, gives a colour of the gamut. */
  lemma HslToRgbInGamut(h: real, s: real, l: real)
    requires 0.0 <= h && IsFraction(s) && IsFraction(l)
    ensures InGamut(HslToRgb(h, s, l))
  {
    if s == 0.0 {
      RoundWithin(l * 255.0, 0, 255);
    } else {
      HslBounds(s, l);
      HslMixInGamut(h, 2.0 * l - HslQ(s, l), HslQ(s, l));
      HslToRgbIsMix(h, s, l);
    }
  }

  /** The bounds `0 <= p <= q <= 1` of the helper's arguments. */
  lemma HslBounds(s: real, l: real)
    requires IsFraction(s) && IsFraction(l)
    ensures 0.0 <= 2.0 * l - HslQ(s, l) <= HslQ(s, l) <= 1.0
  {
    if l < 0.5 {
      ScaleUnit(l, s);
      assert HslQ(s, l) == l + l * s;
    } else {
      HslUpperHalf(s, l, (1.0 - l) * s);
    }
  }

  lemma HslUpperHalf(s: real, l: real, t: real)
    requires IsFraction(s) && 0.5 <= l <= 1.0 && t == (1.0 - l) * s
    ensures HslQ(s, l) == l + t
    ensures 0.0 <= t <= 1.0 - l
  {
    ScaleUnit(1.0 - l, s);
    assert t == s - l * s by {
      assert (1.0 - l) * s == 1.0 * s - l * s;
    }
  }

  lemma HslMixInGamut(h: real, p: real, q: real)
    requires 0.0 <= h && 0.0 <= p <= q <= 1.0
    ensures InGamut(HslMix(h, p, q))
  {
    HslChannel(p, q, h + 1.0 / 3.0);
    HslChannel(p, q, h);
    HslChannel(p, q, h - 1.0 / 3.0);
  }

  lemma HslChannel(p: real, q: real, t: real)
    requires -1.0 <= t && 0.0 <= p <= q <= 1.0
    ensures 0 <= Round(Hue2Rgb(p, q, t) * 255.0) <= 255
  {
    Hue2RgbBetween(p, q, t);
    RoundWithin(Hue2Rgb(p, q, t) * 255.0, 0, 255);
  }

  lemma HslToRgbIsMix(h: real, s: real, l: real)
    requires s != 0.0 && InGamut(HslMix(h, 2.0 * l - HslQ(s, l), HslQ(s, l)))
    ensures InGamut(HslToRgb(h, s, l))
  {
  }

  // ====================================================================
  // RGB to HSB and back
  // ====================================================================

  /** The hue of `rgbToHsb` in sixths lies in [-1, 5]: a maximum in red
      gives [-1, 1] (the `% 6` leaves it alone), green [1, 3], blue [3, 5]. */
  lemma HsbHueSixthsRange(r: real, g: real, b: real)
    ensures var max, min := Max3(r, g, b), Min3(r, g, b);
      -1.0 <= HsbHueSixths(r, g, b, max, max - min) <= 5.0
  {
    var max, min := Max3(r, g, b), Min3(r, g, b);
    var delta := max - min;
    if delta != 0.0 {
      if max == r {
        SignedQuotientUnit(g - b, delta);
        RemSixOfSmall((g - b) / delta);
      } else if max == g {
        SignedQuotientUnit(b - r, delta);
      } else {
        SignedQuotientUnit(r - g, delta);
      }
    }
  }

  /** The components of `rgbToHsb` on an in-gamut colour: the hue in
      degrees in [0, 360) after negative hues are moved up by 360, the
      saturation and brightness percentages. */
  lemma RgbToHsbRange(c: ColorValue)
    requires InGamut(c)
    ensures var x := RgbToHsb(c.r, c.g, c.b);
      0 <= x.h < 360 && 0 <= x.s <= 100 && 0 <= x.b <= 100
  {
    var r, g, b := c.r as real / 255.0, c.g as real / 255.0, c.b as real / 255.0;
    ChannelFractions(c);
    var max, min := Max3(r, g, b), Min3(r, g, b);
    HsbHueSixthsRange(r, g, b);
    var sixths := HsbHueSixths(r, g, b, max, max - min);
    RoundWithin(sixths * 60.0, -60, 300);
    if max != 0.0 {
      QuotientUnit(max - min, max);
      RoundWithin((max - min) / max * 100.0, 0, 100);
    }
    RoundWithin(max * 100.0, 0, 100);
  }

  /** Black has no hue and no saturation: the `max === 0` guard. */
  lemma RgbToHsbBlack()
    ensures RgbToHsb(0, 0, 0) == HsbColor(0, 0, 0)
  {
  }
  /** Saturation and brightness that are fractions, and any hue that is
      not negative, give an in-gamut colour. */
  lemma HsbToRgbInGamut(h: real, s: real, b: real)
    requires 0.0 <= h && IsFraction(s) && IsFraction(b)
    ensures InGamut(HsbToRgb(h, s, b))
  {
    HsbChroma(h, s, b);
    HsbChannels(h, b * s, b * s * HueFactor(h), b);
    HsbToRgbIsMix(h, s, b);
  }

  /** The chroma `c = b * s` and the second channel `x = c * factor` of
      `hsbToRgb` satisfy `0 <= x <= c <= b`. */
  lemma HsbChroma(h: real, s: real, b: real)
    requires 0.0 <= h && IsFraction(s) && IsFraction(b)
    ensures 0.0 <= b * s * HueFactor(h) <= b * s <= b
  {
    ScaleUnit(b, s);
    HsbSecond(h, b * s);
  }

  lemma HsbToRgbIsMix(h: real, s: real, b: real)
    requires InGamut(HsbMix(h, b * s, b * s * HueFactor(h), b))
    ensures InGamut(HsbToRgb(h, s, b))
  {
  }

  /** The second-largest channel `x` of `hsbToRgb` lies between 0 and the
      chroma. */
  lemma HsbSecond(h: real, c: real)
    requires 0.0 <= h && 0.0 <= c
    ensures 0.0 <= c * HueFactor(h) <= c
  {
    HueFactorUnit(h);
    ScaleUnit(c, HueFactor(h));
  }

  /** For a hue that is not negative the factor is a fraction. */
  lemma HueFactorUnit(h: real)
    requires 0.0 <= h
    ensures IsFraction(HueFactor(h))
  {
    RemTwoBounds(h * 6.0);
  }

  lemma HsbChannels(h: real, c: real, x: real, b: real)
    requires 0.0 <= x <= c <= b && IsFraction(b)
    ensures InGamut(HsbMix(h, c, x, b))
  {
    var t := HsbSector(h, c, x);
    SectorBetween(h, c, x);
    SectorChannel(t.0, c, b - c, b);
    SectorChannel(t.1, c, b - c, b);
    SectorChannel(t.2, c, b - c, b);
  }

  /** A channel of the sector, between 0 and `c`, plus `m = b - c`. */
  lemma SectorChannel(v: real, c: real, m: real, b: real)
    requires 0.0 <= v <= c && m == b - c && c <= b && IsFraction(b)
    ensures 0 <= Round((v + m) * 255.0) <= 255
  {
    RoundWithin((v + m) * 255.0, 0, 255);
  }
  /** Every channel of a sector is 0, `x` or `c`. */
  lemma SectorBetween(h: real, c: real, x: real)
    requires 0.0 <= x <= c
    ensures var t := HsbSector(h, c, x);
      0.0 <= t.0 <= c && 0.0 <= t.1 <= c && 0.0 <= t.2 <= c
  {
  }
}
