/** The colour conversion engine of `src/utils/colorUtils.ts`: strict parsers
    from text to canonical RGB, the transforms between RGB and HSL, HSB and
    CMYK, and the formatter back to text. Every operation is a pure function.
    Arithmetic is over exact reals; `Math.round` is `JsMath.Round`. */
module ColorUtils {
  import opened JsText
  import opened JsMath

  datatype Option<T> = None | Some(value: T)

  /** A parse either yields a value or is the `Error` the source throws. */
  datatype Result<T> = Ok(value: T) | Failure(message: string)

  datatype ColorFormat = HEX | RGB | HSL | HSB | CMYK

  /** Canonical colour. Every producer rounds (or reads digits), so the
      channels are integers; they are in [0,255] only when the input was. */
  datatype ColorValue = ColorValue(r: int, g: int, b: int)

  /** A number written by `Math.round`: an integer, or `Infinity` when the
      value rounded came from dividing by zero. */
  datatype RoundedNumber = Finite(n: int) | Infinity

  datatype HslColor = HslColor(h: int, s: RoundedNumber, l: int)

  datatype HsbColor = HsbColor(h: int, s: int, b: int)

  datatype CmykColor = CmykColor(c: int, m: int, y: int, k: int)

  /** What `convertColor` returns: the canonical colour itself for HEX and
      RGB, a derived record for the other formats. */
  datatype Converted =
    | RgbValue(rgb: ColorValue)
    | HslValue(hsl: HslColor)
    | HsbValue(hsb: HsbColor)
    | CmykValue(cmyk: CmykColor)

  /** The message of the error each format's parser throws. */
  function ErrorMessage(format: ColorFormat): string {
    match format
    case HEX => "Invalid HEX format"
    case RGB => "Invalid RGB format"
    case HSL => "Invalid HSL format"
    case HSB => "Invalid HSB format"
    case CMYK => "Invalid CMYK format"
  }

  predicate InGamut(c: ColorValue) {
    0 <= c.r <= 255 && 0 <= c.g <= 255 && 0 <= c.b <= 255
  }

  predicate IsFraction(x: real) {
    0.0 <= x <= 1.0
  }

  // ====================================================================
  // Numeric transforms
  // ====================================================================

  /** The piecewise helper of `hslToRgb`: `t` is first wrapped once
      towards [0,1]. */
  function Hue2Rgb(p: real, q: real, t0: real): real {
    var t1 := if t0 < 0.0 then t0 + 1.0 else t0;
    var t := if t1 > 1.0 then t1 - 1.0 else t1;
    if t < 1.0 / 6.0 then p + (q - p) * 6.0 * t
    else if t < 1.0 / 2.0 then q
    else if t < 2.0 / 3.0 then p + (q - p) * (2.0 / 3.0 - t) * 6.0
    else p
  }

  /** For `t` no less than -1 the helper's value lies between `p` and `q`:
      each piece is `p`, `q`, or `p` plus a fraction of `q - p` (past 2 the
      single wrap leaves `t` above 1, which gives `p`). */
  lemma Hue2RgbBetween(p: real, q: real, t0: real)
    requires -1.0 <= t0 && p <= q
    ensures p <= Hue2Rgb(p, q, t0) <= q
  {
    var t1 := if t0 < 0.0 then t0 + 1.0 else t0;
    var t := if t1 > 1.0 then t1 - 1.0 else t1;
    var v := Hue2Rgb(p, q, t0);
    assert 0.0 <= t;
    if t < 1.0 / 6.0 {
      assert v == p + (q - p) * 6.0 * t;
      PartWay(p, q, 6.0 * t, v);
    } else if 1.0 / 2.0 <= t < 2.0 / 3.0 {
      assert v == p + (q - p) * (2.0 / 3.0 - t) * 6.0;
      PartWay(p, q, (2.0 / 3.0 - t) * 6.0, v);
    }
  }

  /** `p` plus a fraction of `q - p` lies between `p` and `q`. */
  lemma PartWay(p: real, q: real, f: real, v: real)
    requires p <= q && 0.0 <= f <= 1.0
    requires v == p + (q - p) * f
    ensures p <= v <= q
  {
    MulNonneg(q - p, f);
    MulNonneg(q - p, 1.0 - f);
    assert (q - p) * (1.0 - f) == (q - p) - (q - p) * f;
  }

  /** `hslToRgb(h, s, l)`: the arguments are fractions (hue in turns). */
  function HslToRgb(h: real, s: real, l: real): ColorValue {
    if s == 0.0 then
      var v := Round(l * 255.0);
      ColorValue(v, v, v)
    else
      var q := HslQ(s, l);
      HslMix(h, 2.0 * l - q, q)
  }

  /** The upper bound `q` of `hslToRgb`'s helper, which branches on whether
      the lightness is below one half. */
  function HslQ(s: real, l: real): real {
    if l < 0.5 then l * (1.0 + s) else l + s - l * s
  }

  /** The end of `hslToRgb`: the helper at the hue and a third of a turn on
      either side, scaled and rounded. */
  function HslMix(h: real, p: real, q: real): ColorValue {
    ColorValue(Round(Hue2Rgb(p, q, h + 1.0 / 3.0) * 255.0),
               Round(Hue2Rgb(p, q, h) * 255.0),
               Round(Hue2Rgb(p, q, h - 1.0 / 3.0) * 255.0))
  }

  /** The hue of `rgbToHsl` before it is divided by 6: the channel-of-max
      switch takes the first of r, g, b that equals the maximum. */
  function HslHueSixths(r: real, g: real, b: real, max: real, d: real): real
    requires d != 0.0
  {
    if max == r then (g - b) / d + (if g < b then 6.0 else 0.0)
    else if max == g then (b - r) / d + 2.0
    else (r - g) / d + 4.0
  }

  /** `rgbToHsl(r, g, b)` */
  function RgbToHsl(r0: int, g0: int, b0: int): HslColor {
    var r, g, b := r0 as real / 255.0, g0 as real / 255.0, b0 as real / 255.0;
    var max, min := Max3(r, g, b), Min3(r, g, b);
    var l := (max + min) / 2.0;
    if max == min then HslColor(0, Finite(0), Round(l * 100.0))
    else
      var d := max - min;
      var denominator := if l > 0.5 then 2.0 - max - min else max + min;
      var s := if denominator == 0.0 then Infinity else Finite(Round(d / denominator * 100.0));
      HslColor(Round(HslHueSixths(r, g, b, max, d) / 6.0 * 360.0), s, Round(l * 100.0))
  }

  /** The channel values before `m` is added, by sixth of the hue wheel. */
  function HsbSector(h: real, c: real, x: real): (real, real, real) {
    if 0.0 <= h < 1.0 / 6.0 then (c, x, 0.0)
    else if 1.0 / 6.0 <= h < 2.0 / 6.0 then (x, c, 0.0)
    else if 2.0 / 6.0 <= h < 3.0 / 6.0 then (0.0, c, x)
    else if 3.0 / 6.0 <= h < 4.0 / 6.0 then (0.0, x, c)
    else if 4.0 / 6.0 <= h < 5.0 / 6.0 then (x, 0.0, c)
    else (c, 0.0, x)
  }

  /** The factor `1 - |((h * 6) % 2) - 1|` that scales the chroma into the
      second-largest channel of `hsbToRgb`. */
  function HueFactor(h: real): real {
    1.0 - Abs(Rem(h * 6.0, 2.0) - 1.0)
  }

  /** Adds `m` to each sector channel, scales by 255 and rounds. */
  function ShiftScale(t: (real, real, real), m: real): ColorValue {
    ColorValue(Round((t.0 + m) * 255.0), Round((t.1 + m) * 255.0), Round((t.2 + m) * 255.0))
  }

  /** `hsbToRgb(h, s, b)`: the arguments are fractions (hue in turns). */
  function HsbToRgb(h: real, s: real, b: real): ColorValue {
    var c := b * s;
    HsbMix(h, c, c * HueFactor(h), b)
  }

  /** The end of `hsbToRgb`: the sector's channels (chroma `c`, second
      channel `x`) plus `m = b - c`, scaled and rounded. */
  function HsbMix(h: real, c: real, x: real, b: real): ColorValue {
    ShiftScale(HsbSector(h, c, x), b - c)
  }

  /** The hue of `rgbToHsb` in sixths, before it is scaled to degrees. */
  function HsbHueSixths(r: real, g: real, b: real, max: real, delta: real): real {
    if delta == 0.0 then 0.0
    else if max == r then Rem((g - b) / delta, 6.0)
    else if max == g then (b - r) / delta + 2.0
    else (r - g) / delta + 4.0
  }

  /** `rgbToHsb(r, g, b)` */
  function RgbToHsb(r0: int, g0: int, b0: int): HsbColor {
    var r, g, b := r0 as real / 255.0, g0 as real / 255.0, b0 as real / 255.0;
    var max, min := Max3(r, g, b), Min3(r, g, b);
    var delta := max - min;
    var degrees := Round(HsbHueSixths(r, g, b, max, delta) * 60.0);
    var h := if degrees < 0 then degrees + 360 else degrees;
    var s := if max == 0.0 then 0 else Round(delta / max * 100.0);
    HsbColor(h, s, Round(max * 100.0))
  }

  /** `cmykToRgb(c, m, y, k)`: the arguments are fractions. */
  function CmykToRgb(c: real, m: real, y: real, k: real): ColorValue {
    ColorValue(Round(255.0 * (1.0 - c) * (1.0 - k)),
               Round(255.0 * (1.0 - m) * (1.0 - k)),
               Round(255.0 * (1.0 - y) * (1.0 - k)))
  }

  /** `rgbToCmyk(r, g, b)`: the `k === 1` test keeps pure black from
      dividing by zero. */
  function RgbToCmyk(r0: int, g0: int, b0: int): CmykColor {
    var r, g, b := r0 as real / 255.0, g0 as real / 255.0, b0 as real / 255.0;
    var k := 1.0 - Max3(r, g, b);
    var c := if k == 1.0 then 0.0 else (1.0 - r - k) / (1.0 - k);
    var m := if k == 1.0 then 0.0 else (1.0 - g - k) / (1.0 - k);
    var y := if k == 1.0 then 0.0 else (1.0 - b - k) / (1.0 - k);
    CmykColor(Round(c * 100.0), Round(m * 100.0), Round(y * 100.0), Round(k * 100.0))
  }

  // ====================================================================
  // Grammars
  // ====================================================================

  /** The HEX pattern `^#?([a-f\d]{2})([a-f\d]{2})([a-f\d]{2})$` with the
      `i` flag: the whole text is an optional `#` and six hex digits. */
  predicate IsHexCode(s: string) {
    || (|s| == 6 && forall i :: 0 <= i < 6 ==> IsHexDigit(s[i]))
    || (|s| == 7 && s[0] == '#' && forall i :: 1 <= i < 7 ==> IsHexDigit(s[i]))
  }

  /** The other four patterns have the shape
      `name\s*\(` group `,` group ... `,` group `\)` where each group is
      `\s*(\d+)\s*` or `\s*(\d+)%\s*`. These lists say, group by group,
      whether a `%` follows the digits. */
  const RgbGroups: seq<bool> := [false, false, false]
  const HueGroups: seq<bool> := [false, true, true]
  const CmykGroups: seq<bool> := [true, true, true, true]

  /** Length of the run of decimal digits that `\d+` consumes greedily. */
  function DigitRun(s: string): (n: nat)
    ensures n <= |s|
  {
    if |s| > 0 && IsDigit(s[0]) then 1 + DigitRun(s[1..]) else 0
  }

  /** One group `\s*(\d+)\s*` (or with `%` after the digits) at the start of
      `s`: the value `parseInt` gives the digits and the text after the
      group. Each greedy repetition is followed by a character it cannot
      consume, so matching without backtracking is exact. */
  function Group(percent: bool, s: string): (r: Option<(nat, string)>)
    ensures r.Some? ==> |r.value.1| < |s|
  {
    var t := TrimStart(s);
    var n := DigitRun(t);
    if n == 0 then None
    else
      var value := DigitsValue(t[..n], 10);
      var rest := t[n..];
      if !percent then Some((value, TrimStart(rest)))
      else if |rest| > 0 && rest[0] == '%' then Some((value, TrimStart(rest[1..])))
      else None
  }

  /** The groups `percents` describes, separated by `,` and closed by `)`. */
  function Groups(percents: seq<bool>, s: string): (r: Option<seq<nat>>)
    requires |percents| > 0
    ensures r.Some? ==> |r.value| == |percents|
    decreases |percents|
  {
    var g := Group(percents[0], s);
    if g.None? then None
    else
      var value, rest := g.value.0, g.value.1;
      if |rest| == 0 then None
      else if |percents| == 1 then (if rest[0] == ')' then Some([value]) else None)
      else if rest[0] != ',' then None
      else
        var more := Groups(percents[1..], rest[1..]);
        if more.None? then None else Some([value] + more.value)
  }

  /** Does the pattern `name\s*\(`groups`\)` match at the start of `s`?
      The name is compared ignoring ASCII case. */
  function MatchAt(name: string, percents: seq<bool>, s: string): (r: Option<seq<nat>>)
    requires |percents| > 0
    ensures r.Some? ==> |r.value| == |percents|
  {
    if |s| < |name| || ToLower(s[..|name|]) != name then None
    else
      var t := TrimStart(s[|name|..]);
      if |t| == 0 || t[0] != '(' then None else Groups(percents, t[1..])
  }

  /** `text.match(pattern)` for an unanchored pattern: the groups of the
      match at the leftmost position (from `from` on) where there is one;
      `SearchIsLeftmost` states this. */
  function Search(name: string, percents: seq<bool>, text: string, from: nat): (r: Option<seq<nat>>)
    requires |percents| > 0 && from <= |text|
    ensures r.Some? ==> |r.value| == |percents|
    decreases |text| - from
  {
    var m := MatchAt(name, percents, text[from..]);
    if m.Some? then m
    else if from == |text| then None
    else Search(name, percents, text, from + 1)
  }

  /** The search result is the match at the first position where the
      pattern matches, and there is none when it matches nowhere. */
  lemma {:induction false} SearchIsLeftmost(name: string, percents: seq<bool>, text: string, from: nat)
    requires |percents| > 0 && from <= |text|
    ensures var r := Search(name, percents, text, from);
      r.Some? ==>
        exists i :: from <= i <= |text| && MatchAt(name, percents, text[i..]) == r
          && forall j :: from <= j < i ==> MatchAt(name, percents, text[j..]).None?
    ensures Search(name, percents, text, from).None? ==>
      forall i :: from <= i <= |text| ==> MatchAt(name, percents, text[i..]).None?
    decreases |text| - from
  {
    var m := MatchAt(name, percents, text[from..]);
    var r := Search(name, percents, text, from);
    if m.Some? {
      assert MatchAt(name, percents, text[from..]) == r;
    } else if from == |text| {
      assert r.None?;
      forall i | from <= i <= |text| ensures MatchAt(name, percents, text[i..]).None? {
        assert i == from;
      }
    } else {
      SearchIsLeftmost(name, percents, text, from + 1);
      assert r == Search(name, percents, text, from + 1);
      if r.Some? {
        var i :| from + 1 <= i <= |text| && MatchAt(name, percents, text[i..]) == r
          && forall j :: from + 1 <= j < i ==> MatchAt(name, percents, text[j..]).None?;
        assert forall j :: from <= j < i ==> MatchAt(name, percents, text[j..]).None?;
      } else {
        forall i | from <= i <= |text| ensures MatchAt(name, percents, text[i..]).None? {
          if i > from {
            assert from + 1 <= i <= |text|;
          }
        }
      }
    }
  }

  // ====================================================================
  // Parsers
  // ====================================================================

  /** `parseHex` */
  function ParseHex(hex: string): (r: Result<ColorValue>)
    ensures r.Ok? <==> IsHexCode(hex)
    ensures r.Ok? ==> InGamut(r.value)
    ensures r.Failure? ==> r.message == "Invalid HEX format"
  {
    var digits := if |hex| > 0 && hex[0] == '#' then hex[1..] else hex;
    if |digits| == 6 && forall i :: 0 <= i < 6 ==> IsHexDigit(digits[i]) then
      Ok(ColorValue(HexPairValue(digits[0], digits[1]),
                    HexPairValue(digits[2], digits[3]),
                    HexPairValue(digits[4], digits[5])))
    else Failure("Invalid HEX format")
  }

  /** `parseInt(pair, 16)` for a two-digit pair. */
  function HexPairValue(hi: char, lo: char): (v: nat)
    requires IsHexDigit(hi) && IsHexDigit(lo)
    ensures v == DigitsValue([hi, lo], 16)
    ensures v <= 255
  {
    assert [hi, lo][..1] == [hi] && [hi][..0] == [];
    assert DigitsValue([hi], 16) == DigitValue(hi);
    assert DigitsValue([hi, lo], 16) == DigitsValue([hi], 16) * 16 + DigitValue(lo);
    DigitValue(hi) * 16 + DigitValue(lo)
  }

  /** `parseRGB`: no range check, so `rgb(999, 0, 0)` gives r = 999. */
  function ParseRgb(text: string): (r: Result<ColorValue>)
    ensures r.Ok? ==> r.value.r >= 0 && r.value.g >= 0 && r.value.b >= 0
    ensures r.Ok? <==> Search("rgb", RgbGroups, text, 0).Some?
    ensures r.Failure? ==> r.message == "Invalid RGB format"
  {
    match Search("rgb", RgbGroups, text, 0)
    case None => Failure("Invalid RGB format")
    case Some(v) => Ok(ColorValue(v[0], v[1], v[2]))
  }

  /** `parseHSL`: degrees and percentages become fractions for `hslToRgb`. */
  function ParseHsl(text: string): (r: Result<ColorValue>)
    ensures r.Ok? <==> Search("hsl", HueGroups, text, 0).Some?
    ensures r.Failure? ==> r.message == "Invalid HSL format"
  {
    match Search("hsl", HueGroups, text, 0)
    case None => Failure("Invalid HSL format")
    case Some(v) => Ok(HslOfGroups(v))
  }

  /** `hslToRgb(h / 360, s / 100, l / 100)` of the captured numbers. */
  function HslOfGroups(v: seq<nat>): ColorValue
    requires |v| == 3
  {
    HslToRgb(v[0] as real / 360.0, v[1] as real / 100.0, v[2] as real / 100.0)
  }

  /** `parseHSB` */
  function ParseHsb(text: string): (r: Result<ColorValue>)
    ensures r.Ok? <==> Search("hsb", HueGroups, text, 0).Some?
    ensures r.Failure? ==> r.message == "Invalid HSB format"
  {
    match Search("hsb", HueGroups, text, 0)
    case None => Failure("Invalid HSB format")
    case Some(v) => Ok(HsbOfGroups(v))
  }

  /** `hsbToRgb(h / 360, s / 100, b / 100)` of the captured numbers. */
  function HsbOfGroups(v: seq<nat>): ColorValue
    requires |v| == 3
  {
    HsbToRgb(v[0] as real / 360.0, v[1] as real / 100.0, v[2] as real / 100.0)
  }

  /** `parseCMYK` */
  function ParseCmyk(text: string): (r: Result<ColorValue>)
    ensures r.Ok? <==> Search("cmyk", CmykGroups, text, 0).Some?
    ensures r.Failure? ==> r.message == "Invalid CMYK format"
  {
    match Search("cmyk", CmykGroups, text, 0)
    case None => Failure("Invalid CMYK format")
    case Some(v) => Ok(CmykOfGroups(v))
  }

  /** `cmykToRgb(c / 100, m / 100, y / 100, k / 100)` of the captured numbers. */
  function CmykOfGroups(v: seq<nat>): ColorValue
    requires |v| == 4
  {
    CmykToRgb(v[0] as real / 100.0, v[1] as real / 100.0, v[2] as real / 100.0, v[3] as real / 100.0)
  }

  /** `parseColor(input, format)`: the trimmed text goes to the parser of
      the format; each failure names its format. */
  function ParseColor(input: string, format: ColorFormat): (r: Result<ColorValue>)
    ensures r.Failure? ==> r.message == ErrorMessage(format)
    ensures format == HEX ==> (r.Ok? <==> IsHexCode(Trim(input)))
  {
    var trimmed := Trim(input);
    match format
    case HEX => ParseHex(trimmed)
    case RGB => ParseRgb(trimmed)
    case HSL => ParseHsl(trimmed)
    case HSB => ParseHsb(trimmed)
    case CMYK => ParseCmyk(trimmed)
  }

  // ====================================================================
  // Conversion and formatting
  // ====================================================================

  /** The record shape `formatColor` reads for each format. */
  predicate Fits(x: Converted, format: ColorFormat) {
    match format
    case HEX => x.RgbValue?
    case RGB => x.RgbValue?
    case HSL => x.HslValue?
    case HSB => x.HsbValue?
    case CMYK => x.CmykValue?
  }

  /** `convertColor(color, toFormat)` */
  function ConvertColor(color: ColorValue, to: ColorFormat): (r: Converted)
    ensures Fits(r, to)
    ensures to == HEX || to == RGB ==> r == RgbValue(color)
  {
    match to
    case HEX => RgbValue(color)
    case RGB => RgbValue(color)
    case HSL => HslValue(RgbToHsl(color.r, color.g, color.b))
    case HSB => HsbValue(RgbToHsb(color.r, color.g, color.b))
    case CMYK => CmykValue(RgbToCmyk(color.r, color.g, color.b))
  }

  /** `Math.round(n).toString(16).padStart(2, '0')` */
  function HexByte(n: int): string {
    PadStart(IntText(n, 16), 2, '0')
  }

  /** `${Math.round(x)}` for a number that may be `Infinity`. */
  function NumberText(x: RoundedNumber): string {
    match x
    case Finite(n) => DecimalText(n)
    case Infinity => "Infinity"
  }

  /** `formatColor(color, format)`. The record fields are already integers
      (or `Infinity`), so the `Math.round` calls leave them as they are. */
  function FormatColor(x: Converted, format: ColorFormat): string
    requires Fits(x, format)
  {
    match format
    case HEX => FormatHex(x.rgb)
    case RGB => FormatRgb(x.rgb)
    case HSL => FormatHsl(x.hsl)
    case HSB => FormatHsb(x.hsb)
    case CMYK => FormatCmyk(x.cmyk)
  }

  function FormatHex(c: ColorValue): string {
    ToUpper("#" + HexByte(c.r) + HexByte(c.g) + HexByte(c.b))
  }

  function FormatRgb(c: ColorValue): string {
    "rgb(" + DecimalText(c.r) + ", " + DecimalText(c.g) + ", " + DecimalText(c.b) + ")"
  }

  function FormatHsl(c: HslColor): string {
    "hsl(" + DecimalText(c.h) + ", " + NumberText(c.s) + "%, " + DecimalText(c.l) + "%)"
  }

  function FormatHsb(c: HsbColor): string {
    "hsb(" + DecimalText(c.h) + ", " + DecimalText(c.s) + "%, " + DecimalText(c.b) + "%)"
  }

  function FormatCmyk(c: CmykColor): string {
    "cmyk(" + DecimalText(c.c) + "%, " + DecimalText(c.m) + "%, " + DecimalText(c.y) + "%, "
      + DecimalText(c.k) + "%)"
  }

  // ====================================================================
  // Arithmetic helpers
  // ====================================================================

  /** Scaling by a factor in [0,1] stays between 0 and the value scaled. */
  lemma ScaleUnit(a: real, f: real)
    requires 0.0 <= a && 0.0 <= f <= 1.0
    ensures 0.0 <= a * f <= a
  {
    MulNonneg(a, f);
    MulNonneg(a, 1.0 - f);
    assert a * (1.0 - f) == a - a * f;
  }
}
