/** `formatColor` and `parseColor` are inverse on the color records the
    converter produces: the text written for a record is read back by the
    parser of the same format, to the same channels (RGB, HEX) or to the
    conversion of the written numbers (HSL, HSB, CMYK). */
module ColorRoundTrip {
  import opened JsText
  import opened JsMath
  import opened ColorUtils
  import ColorProperties

  // ====================================================================
  // The grammar reads back what the formatter writes
  // ====================================================================

  /** How `formatColor` writes one group: the value in decimal, then `%`
      where the pattern has one. */
  function GroupText(percent: bool, value: nat): string {
    NatText(value, 10) + (if percent then "%" else "")
  }

  /** How `formatColor` writes a run of groups: `, ` between groups. */
  function GroupsText(percents: seq<bool>, values: seq<nat>): string
    requires |percents| == |values| > 0
    decreases |percents|
  {
    if |percents| == 1 then GroupText(percents[0], values[0])
    else GroupText(percents[0], values[0]) + (", " + GroupsText(percents[1..], values[1..]))
  }

  lemma {:induction false} DigitRunOf(a: string, b: string)
    requires AllDigits(a)
    requires b == [] || !IsDigit(b[0])
    ensures DigitRun(a + b) == |a|
    decreases |a|
  {
    if a == [] {
      assert a + b == b;
    } else {
      assert (a + b)[1..] == a[1..] + b;
      DigitRunOf(a[1..], b);
    }
  }

  lemma TrimStartKeeps(s: string)
    requires s == [] || !IsSpace(s[0])
    ensures TrimStart(s) == s
  {
  }

  /** The digits of a group, what follows them, and the value they spell. */
  lemma GroupTextParts(percent: bool, v: nat, tail: string)
    requires |tail| > 0 && !IsDigit(tail[0])
    ensures var d := NatText(v, 10);
      var s := GroupText(percent, v) + tail;
      0 < |d| <= |s| && !IsSpace(s[0]) && DigitRun(s) == |d|
      && DigitsValue(s[..|d|], 10) == v && s[|d|..] == (if percent then "%" else "") + tail
  {
    var d := NatText(v, 10);
    var mark := if percent then "%" else "";
    var s := GroupText(percent, v) + tail;
    DecimalTextOfNat(v);
    assert s == d + (mark + tail);
    assert s[..|d|] == d;
    DigitRunOf(d, mark + tail);
    NatTextValue(v, 10);
  }

  /** `Group` on a text whose leading digits and what follows them are known. */
  lemma GroupOfParts(percent: bool, s: string, n: nat, v: nat, after: string)
    requires 0 < n <= |s| && !IsSpace(s[0]) && DigitRun(s) == n
    requires DigitsValue(s[..n], 10) == v && s[n..] == after
    ensures !percent ==> Group(percent, s) == Some((v, TrimStart(after)))
    ensures percent && |after| > 0 && after[0] == '%' ==> Group(percent, s) == Some((v, TrimStart(after[1..])))
  {
    TrimStartKeeps(s);
  }

  /** One group written as `formatColor` writes it is read back, leaving
      the separator or closing parenthesis that follows it. */
  lemma GroupOfText(percent: bool, v: nat, tail: string)
    requires |tail| > 0 && (tail[0] == ',' || tail[0] == ')')
    ensures Group(percent, GroupText(percent, v) + tail) == Some((v, tail))
  {
    var s := GroupText(percent, v) + tail;
    var n := |NatText(v, 10)|;
    var after := (if percent then "%" else "") + tail;
    GroupTextParts(percent, v, tail);
    TrimStartKeeps(tail);
    if percent {
      DropFirst("%", tail);
    } else {
      assert after == tail;
    }
    GroupOfParts(percent, s, n, v, after);
  }

  /** White space before a run of groups is skipped by its first `\s*`. */
  lemma GroupsSkipSpace(percents: seq<bool>, x: string)
    requires |percents| > 0
    ensures Groups(percents, " " + x) == Groups(percents, x)
  {
    assert (" " + x)[1..] == x;
    assert TrimStart(" " + x) == TrimStart(x);
    assert Group(percents[0], " " + x) == Group(percents[0], x);
  }

  /** The rest of a run of groups once its first group has been read. */
  lemma GroupsAfterFirst(percents: seq<bool>, s: string, value: nat, tail: string)
    requires |percents| > 1 && Group(percents[0], s) == Some((value, tail))
    requires |tail| > 0 && tail[0] == ','
    ensures var more := Groups(percents[1..], tail[1..]);
      Groups(percents, s) == if more.None? then None else Some([value] + more.value)
  {
  }

  lemma DropFirst(a: string, x: string)
    requires |a| > 0
    ensures (a + x)[1..] == a[1..] + x
  {
  }

  /** A group followed by `,` and a further run of groups. */
  lemma GroupsCons(percents: seq<bool>, s: string, value: nat, after: string, more: seq<nat>)
    requires |percents| > 1
    requires Group(percents[0], s) == Some((value, ", " + after))
    requires Groups(percents[1..], after) == Some(more)
    ensures Groups(percents, s) == Some([value] + more)
  {
    GroupsAfterFirst(percents, s, value, ", " + after);
    DropFirst(", ", after);
    assert ", "[1..] == " ";
    GroupsSkipSpace(percents[1..], after);
  }

  /** `GroupsText(percents, values) + tail`, built from the right so that
      each group is followed directly by the text after it. */
  function GroupsThen(percents: seq<bool>, values: seq<nat>, tail: string): string
    requires |percents| == |values| > 0
    decreases |percents|
  {
    if |percents| == 1 then GroupText(percents[0], values[0]) + tail
    else GroupText(percents[0], values[0]) + (", " + GroupsThen(percents[1..], values[1..], tail))
  }

  lemma {:induction false} GroupsThenIsAppend(percents: seq<bool>, values: seq<nat>, tail: string)
    requires |percents| == |values| > 0
    ensures GroupsThen(percents, values, tail) == GroupsText(percents, values) + tail
    decreases |percents|
  {
    if |percents| > 1 {
      GroupsThenIsAppend(percents[1..], values[1..], tail);
      var first := GroupText(percents[0], values[0]);
      var more := GroupsText(percents[1..], values[1..]);
      assert first + (", " + (more + tail)) == first + (", " + more) + tail;
    }
  }

  /** A run of groups written as `formatColor` writes it is read back, up
      to the closing parenthesis. */
  lemma {:induction false} GroupsOfText(percents: seq<bool>, values: seq<nat>, tail: string)
    requires |percents| == |values| > 0
    requires |tail| > 0 && tail[0] == ')'
    ensures Groups(percents, GroupsThen(percents, values, tail)) == Some(values)
    decreases |percents|
  {
    if |percents| == 1 {
      GroupsOfLast(percents, values, tail);
    } else {
      GroupsOfText(percents[1..], values[1..], tail);
      GroupsOfFirst(percents, values, tail);
    }
  }

  /** The step of `GroupsOfText`: once the groups after the first are read
      back, so is the whole run. */
  lemma GroupsOfFirst(percents: seq<bool>, values: seq<nat>, tail: string)
    requires |percents| == |values| > 1
    requires |tail| > 0 && tail[0] == ')'
    requires Groups(percents[1..], GroupsThen(percents[1..], values[1..], tail)) == Some(values[1..])
    ensures Groups(percents, GroupsThen(percents, values, tail)) == Some(values)
  {
    GroupsThenCons(percents, values, tail);
    GroupsOfComma(percents, values, GroupsThen(percents[1..], values[1..], tail));
  }

  /** A first group, `, ` and text from which the other groups are read. */
  lemma GroupsOfComma(percents: seq<bool>, values: seq<nat>, after: string)
    requires |percents| == |values| > 1
    requires Groups(percents[1..], after) == Some(values[1..])
    ensures Groups(percents, GroupText(percents[0], values[0]) + (", " + after)) == Some(values)
  {
    GroupOfText(percents[0], values[0], ", " + after);
    GroupsCons(percents, GroupText(percents[0], values[0]) + (", " + after), values[0], after, values[1..]);
    assert [values[0]] + values[1..] == values;
  }

  lemma GroupsThenCons(percents: seq<bool>, values: seq<nat>, tail: string)
    requires |percents| == |values| > 1
    ensures GroupsThen(percents, values, tail)
      == GroupText(percents[0], values[0]) + (", " + GroupsThen(percents[1..], values[1..], tail))
  {
  }

  lemma GroupsOfLast(percents: seq<bool>, values: seq<nat>, tail: string)
    requires |percents| == |values| == 1
    requires |tail| > 0 && tail[0] == ')'
    ensures Groups(percents, GroupsThen(percents, values, tail)) == Some(values)
  {
    GroupOfText(percents[0], values[0], tail);
    assert [values[0]] == values;
  }

  /** `name(groups)` written as `formatColor` writes it matches the pattern
      at its first character, with the values it was written from. */
  lemma MatchAtOfText(name: string, percents: seq<bool>, values: seq<nat>)
    requires |percents| == |values| > 0
    requires IsLowerWord(name)
    ensures MatchAt(name, percents, CallText(name, percents, values)) == Some(values)
  {
    var g := GroupsText(percents, values);
    var s := CallText(name, percents, values);
    var x := "(" + (g + ")");
    assert s == name + x;
    assert s[..|name|] == name && s[|name|..] == x;
    LowerWordFolds(name);
    TrimStartKeeps(x);
    assert x[1..] == g + ")";
    GroupsOfText(percents, values, ")");
    GroupsThenIsAppend(percents, values, ")");
  }

  /** How `formatColor` writes a colour in functional notation. */
  function CallText(name: string, percents: seq<bool>, values: seq<nat>): string
    requires |percents| == |values| > 0
  {
    name + "(" + GroupsText(percents, values) + ")"
  }

  /** A text that matches at its first character is found there. */
  lemma SearchFindsAtStart(name: string, percents: seq<bool>, text: string)
    requires |percents| > 0
    requires MatchAt(name, percents, text).Some?
    ensures Search(name, percents, text, 0) == MatchAt(name, percents, text)
  {
    assert text[0..] == text;
  }

  /** Text that starts and ends with a visible character survives `trim`. */
  lemma TrimKeeps(t: string)
    requires Trimmed(t)
    ensures Trim(t) == t
  {
    TrimOfPadded("", t, "");
    assert "" + t + "" == t;
  }

  /** Parsing a call-shaped text written by the formatter: `trim` keeps it
      and the search hits at its first character with the written values. */
  lemma SearchOfText(name: string, percents: seq<bool>, values: seq<nat>)
    requires |percents| == |values| > 0
    requires IsLowerWord(name)
    ensures var t := CallText(name, percents, values);
      Trim(t) == t && Search(name, percents, t, 0) == Some(values)
  {
    var t := CallText(name, percents, values);
    MatchAtOfText(name, percents, values);
    SearchFindsAtStart(name, percents, t);
    LowerWordFolds(name);
    assert t[0] == name[0];
    assert t[|t| - 1] == ')';
    TrimKeeps(t);
  }

  /** A function name of the patterns: lower-case ASCII letters. */
  predicate IsLowerWord(name: string) {
    |name| > 0 && forall i :: 0 <= i < |name| ==> 'a' <= name[i] <= 'z'
  }

  lemma LowerWordFolds(name: string)
    requires IsLowerWord(name)
    ensures ToLower(name) == name && !IsSpace(name[0])
  {
  }

  lemma GroupsText3(percents: seq<bool>, values: seq<nat>)
    requires |percents| == |values| == 3
    ensures GroupsText(percents, values) == GroupText(percents[0], values[0])
      + (", " + (GroupText(percents[1], values[1]) + (", " + GroupText(percents[2], values[2]))))
  {
    var ps, vs := percents[1..], values[1..];
    assert ps[1..] == [percents[2]] && vs[1..] == [values[2]];
    assert GroupsText(ps[1..], vs[1..]) == GroupText(percents[2], values[2]);
    assert GroupsText(ps, vs) == GroupText(percents[1], values[1]) + (", " + GroupText(percents[2], values[2]));
  }

  lemma GroupsText4(percents: seq<bool>, values: seq<nat>)
    requires |percents| == |values| == 4
    ensures GroupsText(percents, values) == GroupText(percents[0], values[0])
      + (", " + (GroupText(percents[1], values[1]) + (", " + (GroupText(percents[2], values[2])
      + (", " + GroupText(percents[3], values[3]))))))
  {
    GroupsText3(percents[1..], values[1..]);
  }

  /** The layout `formatColor` uses for RGB, regrouped one group at a time. */
  lemma RgbLayout(a: string, b: string, c: string)
    ensures "rgb(" + a + ", " + b + ", " + c + ")"
      == "rgb" + "(" + ((a + "") + (", " + ((b + "") + (", " + (c + ""))))) + ")"
  {
    assert "rgb(" == "rgb" + "(";
  }

  /** The layout `formatColor` uses for HSL and HSB, regrouped. */
  lemma HueLayout(name: string, a: string, b: string, c: string)
    ensures name + "(" + a + ", " + b + "%, " + c + "%)"
      == name + "(" + ((a + "") + (", " + ((b + "%") + (", " + (c + "%"))))) + ")"
  {
    assert "%, " == "%" + ", " && "%)" == "%" + ")";
  }

  /** The layout `formatColor` uses for CMYK, regrouped. */
  lemma CmykLayout(a: string, b: string, c: string, d: string)
    ensures "cmyk(" + a + "%, " + b + "%, " + c + "%, " + d + "%)"
      == "cmyk" + "(" + ((a + "%") + (", " + ((b + "%") + (", " + ((c + "%") + (", " + (d + "%"))))))) + ")"
  {
    assert "cmyk(" == "cmyk" + "(" && "%, " == "%" + ", " && "%)" == "%" + ")";
  }

  lemma RgbText(c: ColorValue)
    requires c.r >= 0 && c.g >= 0 && c.b >= 0
    ensures FormatRgb(c) == CallText("rgb", RgbGroups, [c.r, c.g, c.b])
  {
    DecimalTextOfNat(c.r);
    DecimalTextOfNat(c.g);
    DecimalTextOfNat(c.b);
    RgbLayout(NatText(c.r, 10), NatText(c.g, 10), NatText(c.b, 10));
    GroupsText3(RgbGroups, [c.r, c.g, c.b]);
  }

  lemma HslText(x: HslColor, s: nat)
    requires x.h >= 0 && x.s == Finite(s) && x.l >= 0
    ensures FormatHsl(x) == CallText("hsl", HueGroups, [x.h, s, x.l])
  {
    DecimalTextOfNat(x.h);
    DecimalTextOfNat(s);
    DecimalTextOfNat(x.l);
    HueLayout("hsl", NatText(x.h, 10), NatText(s, 10), NatText(x.l, 10));
    assert "hsl(" == "hsl" + "(";
    GroupsText3(HueGroups, [x.h, s, x.l]);
  }

  lemma HsbText(x: HsbColor)
    requires x.h >= 0 && x.s >= 0 && x.b >= 0
    ensures FormatHsb(x) == CallText("hsb", HueGroups, [x.h, x.s, x.b])
  {
    DecimalTextOfNat(x.h);
    DecimalTextOfNat(x.s);
    DecimalTextOfNat(x.b);
    HueLayout("hsb", NatText(x.h, 10), NatText(x.s, 10), NatText(x.b, 10));
    assert "hsb(" == "hsb" + "(";
    GroupsText3(HueGroups, [x.h, x.s, x.b]);
  }

  lemma CmykText(x: CmykColor)
    requires x.c >= 0 && x.m >= 0 && x.y >= 0 && x.k >= 0
    ensures FormatCmyk(x) == CallText("cmyk", CmykGroups, [x.c, x.m, x.y, x.k])
  {
    DecimalTextOfNat(x.c);
    DecimalTextOfNat(x.m);
    DecimalTextOfNat(x.y);
    DecimalTextOfNat(x.k);
    CmykLayout(NatText(x.c, 10), NatText(x.m, 10), NatText(x.y, 10), NatText(x.k, 10));
    GroupsText4(CmykGroups, [x.c, x.m, x.y, x.k]);
  }

  lemma RgbSearch(c: ColorValue)
    requires c.r >= 0 && c.g >= 0 && c.b >= 0
    ensures Trim(FormatRgb(c)) == FormatRgb(c)
    ensures Search("rgb", RgbGroups, FormatRgb(c), 0) == Some([c.r, c.g, c.b])
  {
    RgbText(c);
    SearchOfText("rgb", RgbGroups, [c.r, c.g, c.b]);
  }

  lemma HslSearch(x: HslColor, s: nat)
    requires x.h >= 0 && x.s == Finite(s) && x.l >= 0
    ensures Trim(FormatHsl(x)) == FormatHsl(x)
    ensures Search("hsl", HueGroups, FormatHsl(x), 0) == Some([x.h, s, x.l])
  {
    HslText(x, s);
    SearchOfText("hsl", HueGroups, [x.h, s, x.l]);
  }

  lemma HsbSearch(x: HsbColor)
    requires x.h >= 0 && x.s >= 0 && x.b >= 0
    ensures Trim(FormatHsb(x)) == FormatHsb(x)
    ensures Search("hsb", HueGroups, FormatHsb(x), 0) == Some([x.h, x.s, x.b])
  {
    HsbText(x);
    SearchOfText("hsb", HueGroups, [x.h, x.s, x.b]);
  }

  lemma CmykSearch(x: CmykColor)
    requires x.c >= 0 && x.m >= 0 && x.y >= 0 && x.k >= 0
    ensures Trim(FormatCmyk(x)) == FormatCmyk(x)
    ensures Search("cmyk", CmykGroups, FormatCmyk(x), 0) == Some([x.c, x.m, x.y, x.k])
  {
    CmykText(x);
    SearchOfText("cmyk", CmykGroups, [x.c, x.m, x.y, x.k]);
  }

  /** What `parseColor` gives a text that `trim` keeps and in which the
      format's pattern first matches with the values `v`. */
  lemma ParseOfMatch(t: string, format: ColorFormat, v: seq<nat>)
    requires Trim(t) == t
    requires format != HEX
    requires Search(PatternName(format), PatternGroups(format), t, 0) == Some(v)
    ensures ParseColor(t, format) == Ok(FromValues(format, v))
  {
  }

  /** The function name each functional-notation format's pattern starts with. */
  function PatternName(format: ColorFormat): string
    requires format != HEX
  {
    match format
    case RGB => "rgb"
    case HSL => "hsl"
    case HSB => "hsb"
    case CMYK => "cmyk"
  }

  /** The groups of each functional-notation format's pattern. */
  function PatternGroups(format: ColorFormat): (r: seq<bool>)
    requires format != HEX
    ensures |r| > 0
  {
    match format
    case RGB => RgbGroups
    case HSL => HueGroups
    case HSB => HueGroups
    case CMYK => CmykGroups
  }

  /** The colour each parser builds from the values its pattern captured. */
  function FromValues(format: ColorFormat, v: seq<nat>): ColorValue
    requires format != HEX && |v| == |PatternGroups(format)|
  {
    match format
    case RGB => ColorValue(v[0], v[1], v[2])
    case HSL => HslOfGroups(v)
    case HSB => HsbOfGroups(v)
    case CMYK => CmykOfGroups(v)
  }

  /** RGB round trip: the text `formatColor` writes for non-negative
      channels parses back to the same channels. No range check applies,
      so this holds above 255 too. */
  lemma RgbRoundTrip(c: ColorValue)
    requires c.r >= 0 && c.g >= 0 && c.b >= 0
    ensures ParseColor(FormatColor(RgbValue(c), RGB), RGB) == Ok(c)
  {
    RgbSearch(c);
    ParseOfMatch(FormatRgb(c), RGB, [c.r, c.g, c.b]);
  }

  /** The text `formatColor` writes for an HSL record with finite,
      non-negative parts parses back through `hslToRgb` of those parts. */
  lemma HslTextParses(x: HslColor, s: nat)
    requires x.h >= 0 && x.s == Finite(s) && x.l >= 0
    ensures ParseColor(FormatColor(HslValue(x), HSL), HSL)
      == Ok(HslOfGroups([x.h, s, x.l]))
  {
    HslSearch(x, s);
    ParseOfMatch(FormatHsl(x), HSL, [x.h, s, x.l]);
  }

  /** The text `formatColor` writes for an HSB record with non-negative
      parts parses back through `hsbToRgb` of those parts. */
  lemma HsbTextParses(x: HsbColor)
    requires x.h >= 0 && x.s >= 0 && x.b >= 0
    ensures ParseColor(FormatColor(HsbValue(x), HSB), HSB)
      == Ok(HsbOfGroups([x.h, x.s, x.b]))
  {
    HsbSearch(x);
    ParseOfMatch(FormatHsb(x), HSB, [x.h, x.s, x.b]);
  }

  /** The text `formatColor` writes for a CMYK record with non-negative
      parts parses back through `cmykToRgb` of those parts. */
  lemma CmykTextParses(x: CmykColor)
    requires x.c >= 0 && x.m >= 0 && x.y >= 0 && x.k >= 0
    ensures ParseColor(FormatColor(CmykValue(x), CMYK), CMYK)
      == Ok(CmykOfGroups([x.c, x.m, x.y, x.k]))
  {
    CmykSearch(x);
    ParseOfMatch(FormatCmyk(x), CMYK, [x.c, x.m, x.y, x.k]);
  }

  // ====================================================================
  // HEX round trip
  // ====================================================================

  /** Two hex digits, most significant first, spelling a byte value. */
  predicate SpellsByte(t: string, n: int) {
    |t| == 2 && IsHexDigit(t[0]) && IsHexDigit(t[1]) && DigitValue(t[0]) * 16 + DigitValue(t[1]) == n
  }

  lemma HexByteSmall(n: int)
    requires 0 <= n < 16
    ensures HexByte(n) == ['0', DigitChar(n)]
  {
    assert NatText(n, 16) == [DigitChar(n)];
    assert PadStart([DigitChar(n)], 2, '0') == PadStart(['0'] + [DigitChar(n)], 2, '0');
    assert ['0'] + [DigitChar(n)] == ['0', DigitChar(n)];
  }

  lemma HexByteLarge(n: int)
    requires 16 <= n <= 255
    ensures HexByte(n) == [DigitChar(n / 16), DigitChar(n % 16)]
  {
    DivMod(n, 16);
    assert NatText(n / 16, 16) == [DigitChar(n / 16)];
    assert NatText(n, 16) == [DigitChar(n / 16)] + [DigitChar(n % 16)];
  }

  /** `toString(16).padStart(2, '0')` of a byte is two lower-case hex
      digits spelling it. */
  lemma HexByteSpells(n: int)
    requires 0 <= n <= 255
    ensures SpellsByte(HexByte(n), n)
    ensures !('A' <= HexByte(n)[0] <= 'F') && !('A' <= HexByte(n)[1] <= 'F')
  {
    if n < 16 {
      HexByteSmall(n);
    } else {
      HexByteLarge(n);
      DivMod(n, 16);
    }
  }

  /** Upper-casing a hex digit keeps its value. */
  lemma UpperDigit(c: char)
    requires IsHexDigit(c) && !('A' <= c <= 'F')
    ensures IsHexDigit(UpperChar(c)) && DigitValue(UpperChar(c)) == DigitValue(c)
    ensures IsUpperHexDigit(UpperChar(c))
  {
  }

  /** The HEX code `formatColor` writes: `#` and six upper-case hex digits,
      two per channel. */
  predicate IsUpperHexCode(t: string) {
    |t| == 7 && t[0] == '#' && forall i :: 1 <= i < 7 ==> IsUpperHexDigit(t[i])
  }

  predicate IsUpperHexDigit(c: char) {
    IsDigit(c) || 'A' <= c <= 'F'
  }

  /** A lower-case spelled byte, upper-cased, spells the same byte. */
  lemma UpperPair(p: string, n: int)
    requires SpellsByte(p, n) && !('A' <= p[0] <= 'F') && !('A' <= p[1] <= 'F')
    ensures SpellsByte(ToUpper(p), n)
    ensures IsUpperHexDigit(ToUpper(p)[0]) && IsUpperHexDigit(ToUpper(p)[1])
  {
    UpperDigit(p[0]);
    UpperDigit(p[1]);
  }

  /** `#` and three upper-case spelled bytes. */
  lemma HexCodeOfPairs(x: string, y: string, z: string, r: int, g: int, b: int)
    requires SpellsByte(x, r) && SpellsByte(y, g) && SpellsByte(z, b)
    requires IsUpperHexDigit(x[0]) && IsUpperHexDigit(x[1]) && IsUpperHexDigit(y[0])
      && IsUpperHexDigit(y[1]) && IsUpperHexDigit(z[0]) && IsUpperHexDigit(z[1])
    ensures var t := "#" + x + y + z;
      IsUpperHexCode(t) && SpellsByte(t[1..3], r) && SpellsByte(t[3..5], g) && SpellsByte(t[5..7], b)
  {
    var t := "#" + x + y + z;
    assert t[1..3] == x && t[3..5] == y && t[5..7] == z;
    forall i | 1 <= i < 7 ensures IsUpperHexDigit(t[i]) {
      if i < 3 {
        assert t[i] == x[i - 1];
      } else if i < 5 {
        assert t[i] == y[i - 3];
      } else {
        assert t[i] == z[i - 5];
      }
    }
  }

  /** Upper-casing `#` followed by three lower-case spelled bytes. */
  lemma UpperHexOf(a: string, b: string, d: string, r: int, g: int, bl: int)
    requires SpellsByte(a, r) && SpellsByte(b, g) && SpellsByte(d, bl)
    requires !('A' <= a[0] <= 'F') && !('A' <= a[1] <= 'F') && !('A' <= b[0] <= 'F')
      && !('A' <= b[1] <= 'F') && !('A' <= d[0] <= 'F') && !('A' <= d[1] <= 'F')
    ensures var t := ToUpper("#" + a + b + d);
      IsUpperHexCode(t) && SpellsByte(t[1..3], r) && SpellsByte(t[3..5], g) && SpellsByte(t[5..7], bl)
  {
    UpperPair(a, r);
    UpperPair(b, g);
    UpperPair(d, bl);
    ToUpperAppend("#" + a + b, d);
    ToUpperAppend("#" + a, b);
    ToUpperAppend("#", a);
    assert ToUpper("#") == "#";
    HexCodeOfPairs(ToUpper(a), ToUpper(b), ToUpper(d), r, g, bl);
  }

  /** `#` followed by six hex digits spelling three bytes parses to them. */
  lemma ParseOfUpperHex(t: string, c: ColorValue)
    requires IsUpperHexCode(t) && SpellsByte(t[1..3], c.r) && SpellsByte(t[3..5], c.g) && SpellsByte(t[5..7], c.b)
    ensures ParseColor(t, HEX) == Ok(c)
  {
    assert Trimmed(t);
    TrimKeeps(t);
    var digits := t[1..];
    assert digits[0] == t[1..3][0] && digits[1] == t[1..3][1];
    assert digits[2] == t[3..5][0] && digits[3] == t[3..5][1];
    assert digits[4] == t[5..7][0] && digits[5] == t[5..7][1];
  }

  /** HEX round trip: for channels in [0, 255], `formatColor` writes `#`
      and six upper-case hex digits, and `parseColor` reads the same
      channels back. */
  lemma HexRoundTrip(c: ColorValue)
    requires InGamut(c)
    ensures IsUpperHexCode(FormatColor(RgbValue(c), HEX))
    ensures ParseColor(FormatColor(RgbValue(c), HEX), HEX) == Ok(c)
  {
    HexByteSpells(c.r);
    HexByteSpells(c.g);
    HexByteSpells(c.b);
    UpperHexOf(HexByte(c.r), HexByte(c.g), HexByte(c.b), c.r, c.g, c.b);
    ParseOfUpperHex(FormatHex(c), c);
  }

  // ====================================================================
  // Every format reads back what it writes
  // ====================================================================

  /** Whatever format is selected, the text `formatColor` writes for the
      conversion of a colour of the gamut is accepted by `parseColor` in
      that format; for HEX and RGB it is read back to the same colour. */
  lemma ReformatParses(c: ColorValue, to: ColorFormat)
    requires InGamut(c)
    ensures ParseColor(FormatColor(ConvertColor(c, to), to), to).Ok?
    ensures to == HEX || to == RGB ==> ParseColor(FormatColor(ConvertColor(c, to), to), to) == Ok(c)
  {
    match to
    case HEX =>
      HexRoundTrip(c);
    case RGB =>
      RgbRoundTrip(c);
    case HSL =>
      var x := RgbToHsl(c.r, c.g, c.b);
      ColorProperties.RgbToHslRange(c);
      HslTextParses(x, x.s.n);
    case HSB =>
      ColorProperties.RgbToHsbRange(c);
      HsbTextParses(RgbToHsb(c.r, c.g, c.b));
    case CMYK =>
      ColorProperties.RgbToCmykRange(c);
      CmykTextParses(RgbToCmyk(c.r, c.g, c.b));
  }

  /** `parseColor` trims its input first: white space around a text does
      not change what any format's parser makes of it. */
  lemma ParseIgnoresSpace(a: string, t: string, b: string, format: ColorFormat)
    requires AllSpaces(a) && AllSpaces(b)
    ensures ParseColor(a + t + b, format) == ParseColor(t, format)
  {
    var u := Trim(t);
    var a2, b2 := TrimSplits(t);
    assert a + t + b == (a + a2) + u + (b2 + b);
    AllSpacesAppend(a, a2);
    AllSpacesAppend(b2, b);
    TrimOfPadded(a + a2, u, b2 + b);
  }
}
