# Colour converter: conversion engine and colour list

This project is a Dafny model of the core of a browser colour-format converter. It has two parts.

- **The conversion engine** of `src/utils/colorUtils.ts`:
  - `parseColor` trims its input and reads it in one of five notations (HEX, `rgb(…)`, `hsl(…%)`, `hsb(…%)`, `cmyk(…%)`) into a canonical RGB colour.
  - `convertColor` turns canonical RGB into an HSL, HSB or CMYK record.
  - `formatColor` writes a record back as text.
  - Beneath these sit six numeric transforms between RGB and the other colour models.
- **The colour list** of `src/components/ColorConverter.tsx`:
  - The selected format and a list of at most 20 entries `{id, value, isValid}`.
  - Four handlers change them: format change, edit, add and remove.

Modules:

- `JsMath` (`js_math.dfy`) holds the JavaScript number operations the transforms use, over exact reals:
  - `Math.round` is `(x + 0.5).Floor`, which rounds a half up.
  - `%` is a remainder that truncates toward zero.
  - It also has `Math.abs` and `Math.max`/`Math.min` of three values.
- `JsText` (`js_text.dfy`) holds the string built-ins:
  - `trim`, with the JavaScript white-space set that `\s` also matches.
  - `toString(base)` and `parseInt` on runs of digits.
  - `padStart`, and `toUpperCase` on ASCII text.
- `ColorUtils` (`color_utils.dfy`) holds the engine, as pure functions:
  - Each regular expression is a hand-written recogniser.
  - The HEX pattern is anchored, so `IsHexCode` looks at the whole text.
  - The other four patterns are not anchored and use the `i` flag. `MatchAt` matches a pattern at one position, ignoring ASCII case. `Search` finds the leftmost position where it matches.
  - `\d+` accepts any number of digits and there is no range check. So `rgb(999, 0, 0)` parses to r = 999, and `hsl(400, 150%, 0%)` is accepted too.
- `ColorRoundTrip` (`color_round_trip.dfy`): what `formatColor` writes, the same format's `parseColor` reads back.
- `ColorProperties` (`color_properties.dfy`): ranges, guarded divisions and grey/black special cases of the transforms.
- `ColorConverter` (`color_converter.dfy`): the colour list.
  - The `Converter` class has `format` and `colors` fields. Its methods replace them as `setFormat` and `setColors` do.
  - The work each handler does per entry (`colors.map`, `prev.filter`) is written as pure functions, each with its own lemmas.

The code's behaviour is followed throughout, including where it differs from the documented ranges:

- `rgbToHsl` can return a hue of 360 (`RgbToHslHue360`: `rgb(255, 0, 1)`), not only values in [0, 360).
- The saturation of `rgbToHsl` divides by zero when a channel is outside [0, 255], for example `rgb(510, 0, 0)`. The result is then `Infinity` and `formatColor` writes the word `Infinity`. The record models this with `RoundedNumber.Infinity`.
- Switching `#FF5733` from HEX to HSL gives `hsl(11, 100%, 60%)`. The hue is 10.59 degrees before rounding, not 9 (`HexToHslScenario`).
- `handleFormatChange` can mark an entry valid even though the new format's parser rejects its new text. This happens when the old text denoted a colour outside [0, 255]: `rgb(999, 0, 0)` becomes `#3E70000` in HEX, which has seven digits (`OutOfGamutStaysValid`). For colours inside the gamut, every valid entry stays parseable (`ConvertAllConsistent`).

## Model

| member | source | states |
|---|---|---|
| `ColorUtils.ParseColor` | src/utils/colorUtils.ts:29-46 | A failure carries the message of the selected format's parser; in HEX the parse succeeds exactly when the trimmed text is a hex code |
| `ColorRoundTrip.ParseIgnoresSpace` | src/utils/colorUtils.ts:29-30 | White space around the text never changes the result in any format, because the input is trimmed first |
| `JsText.TrimOfPadded` | src/utils/colorUtils.ts:30 | `trim` of a text with no white space at either end, padded with white space, is that text |
| `JsText.TrimSplits` | src/utils/colorUtils.ts:30 | Every text is white space, then its trimmed form, then white space |
| `ColorUtils.ParseHex` | src/utils/colorUtils.ts:48-57 | Succeeds exactly when the text is an optional `#` and six hex digits in either case; every channel is in [0,255]; otherwise fails with "Invalid HEX format" |
| `ColorUtils.HexPairValue` | src/utils/colorUtils.ts:53-55 | A channel is `parseInt` of its two-digit pair in base 16, at most 255 |
| `ColorUtils.ParseRgb` | src/utils/colorUtils.ts:59-68 | Succeeds exactly when the unanchored `rgb(…)` pattern matches somewhere; the channels are non-negative and have no upper bound; otherwise fails with "Invalid RGB format" |
| `ColorUtils.ParseHsl` | src/utils/colorUtils.ts:70-79 | Succeeds exactly when the `hsl(…%)` pattern matches somewhere, giving `hslToRgb` of the captured numbers divided by 360, 100 and 100; otherwise fails with "Invalid HSL format" |
| `ColorUtils.ParseHsb` | src/utils/colorUtils.ts:81-90 | Succeeds exactly when the `hsb(…%)` pattern matches somewhere, giving `hsbToRgb` of the captured fractions; otherwise fails with "Invalid HSB format" |
| `ColorUtils.ParseCmyk` | src/utils/colorUtils.ts:92-102 | Succeeds exactly when the `cmyk(…%)` pattern matches somewhere, giving `cmykToRgb` of the four percentages as fractions; otherwise fails with "Invalid CMYK format" |
| `ColorUtils.Search` | src/utils/colorUtils.ts:60-93 | A match captures exactly one number per group of the pattern; where it is found is stated by `SearchIsLeftmost`, and what it reads from `formatColor`'s text by `ColorRoundTrip.MatchAtOfText` |
| `ColorUtils.MatchAt` | src/utils/colorUtils.ts:60-93 | A match of a pattern at one position captures exactly one number per group; `ColorRoundTrip.MatchAtOfText` shows it reads back the numbers of a written call |
| `ColorUtils.Groups` | src/utils/colorUtils.ts:60-93 | The comma-separated captures give one number per group; `ColorRoundTrip.GroupsOfText` shows they read back written numbers |
| `ColorUtils.Group` | src/utils/colorUtils.ts:60-93 | One capture (white space, a digit run, then `%` where the pattern requires one, then white space) consumes at least one character; `ColorRoundTrip.GroupOfText` shows it reads back a written number |
| `ColorUtils.SearchIsLeftmost` | src/utils/colorUtils.ts:60 | The unanchored match is taken at the leftmost position where the pattern matches, and there is none when it matches nowhere |
| `ColorUtils.ConvertColor` | src/utils/colorUtils.ts:104-119 | Returns the colour unchanged for HEX and RGB, and otherwise the record shape that `formatColor` expects for the target format |
| `ColorUtils.FormatColor` | src/utils/colorUtils.ts:121-136 | No contract of its own beyond requiring the record shape `ConvertColor` produces; what it writes is stated by `HexRoundTrip`, `RgbRoundTrip`, `HslTextParses`, `HsbTextParses`, `CmykTextParses` and `ReformatParses` |
| `JsMath.RoundOfInt` | src/utils/colorUtils.ts:124-132 | `Math.round` of an integer is that integer, so `formatColor` rounding integer record fields changes nothing |
| `ColorRoundTrip.HexRoundTrip` | src/utils/colorUtils.ts:124 | For channels in [0,255], the HEX text is `#` and six upper-case hex digits, and `parseColor` in HEX reads back exactly the same channels |
| `ColorRoundTrip.RgbRoundTrip` | src/utils/colorUtils.ts:126 | For non-negative channels (also above 255), `parseColor` in RGB reads back exactly the channels that were written |
| `ColorRoundTrip.HslTextParses` | src/utils/colorUtils.ts:128 | The HSL text of a record with finite non-negative parts parses in HSL to `hslToRgb` of those parts |
| `ColorRoundTrip.HsbTextParses` | src/utils/colorUtils.ts:130 | The HSB text of a record with non-negative parts parses in HSB to `hsbToRgb` of those parts |
| `ColorRoundTrip.CmykTextParses` | src/utils/colorUtils.ts:132 | The CMYK text of a record with non-negative parts parses in CMYK to `cmykToRgb` of those parts |
| `ColorRoundTrip.ReformatParses` | src/utils/colorUtils.ts:104-136 | For a colour in the gamut and any format, the converted and formatted text is accepted by `parseColor` in that format; for HEX and RGB it is read back to the same colour |
| `JsText.NatTextValue` | src/utils/colorUtils.ts:124 | `parseInt` reads back the number that `toString(base)` wrote |
| `JsText.PadStartShape` | src/utils/colorUtils.ts:124 | `padStart` puts only fill characters before the text and keeps the text at the end |
| `JsText.Trim` | src/utils/colorUtils.ts:30 | The result has no white space at either end and is no longer than the input; `TrimOfPadded` and `TrimSplits` pin it down exactly |
| `JsMath.Round` | src/utils/colorUtils.ts:162-164 | `Math.round` gives the integer within one half of its argument, so a half rounds up |
| `ColorUtils.Hue2RgbBetween` | src/utils/colorUtils.ts:145-152 | For any hue offset of at least −1 (so for `h + 1/3`, `h` and `h − 1/3` of every parsed hue), the `hue2rgb` helper's value lies between `p` and `q` |
| `ColorUtils.HslToRgb` | src/utils/colorUtils.ts:139-166 | No contract; see `HslToRgbGrey`, `HslToRgbInGamut`, `HslBounds` and `Hue2RgbBetween` |
| `ColorUtils.RgbToHsl` | src/utils/colorUtils.ts:168-196 | No contract; see `RgbToHslRange`, `RgbToHslGrey`, `RgbToHslWhiteBlack`, `RgbToHslHue360` and `RgbToHslOfFF5733` |
| `ColorUtils.HsbToRgb` | src/utils/colorUtils.ts:198-224 | No contract; see `HsbToRgbInGamut`, `HueFactorUnit` and `SectorBetween` |
| `ColorUtils.RgbToHsb` | src/utils/colorUtils.ts:226-248 | No contract; see `RgbToHsbRange`, `HsbHueSixthsRange` and `RgbToHsbBlack` |
| `ColorUtils.CmykToRgb` | src/utils/colorUtils.ts:250-260 | No contract; see `CmykToRgbInGamut` and `CmykToRgbFullBlack` |
| `ColorUtils.RgbToCmyk` | src/utils/colorUtils.ts:262-278 | No contract; see `RgbToCmykRange` and `RgbToCmykBlack` |
| `ColorProperties.HslToRgbGrey` | src/utils/colorUtils.ts:142-143 | With saturation 0, all three channels equal `round(l·255)` |
| `ColorProperties.HslToRgbInGamut` | src/utils/colorUtils.ts:139-166 | Any non-negative hue (also above 360 degrees, as `hsl(400, …)` gives) with saturation and lightness fractions gives channels in [0,255] |
| `ColorProperties.HslBounds` | src/utils/colorUtils.ts:154-155 | The helper's arguments satisfy 0 ≤ p ≤ q ≤ 1 on both sides of the lightness ½ branch |
| `ColorProperties.RgbToHslGrey` | src/utils/colorUtils.ts:177-178 | When max equals min (a grey), hue and saturation are 0 and the lightness is the channel as a percentage |
| `ColorProperties.RgbToHslWhiteBlack` | src/utils/colorUtils.ts:168-196 | White is (0, 0, 100) and black is (0, 0, 0): both have saturation 0 |
| `ColorProperties.HslSaturationRange` | src/utils/colorUtils.ts:181 | For an in-gamut colour that is not grey, the saturation denominator is positive and the quotient is a fraction |
| `ColorProperties.HslHueSixthsRange` | src/utils/colorUtils.ts:183-188 | The channel-of-max hue switch gives a value in [0,6] sixths |
| `ColorProperties.RgbToHslRange` | src/utils/colorUtils.ts:168-196 | For an in-gamut colour: hue in [0,360], saturation finite and in [0,100], lightness in [0,100] |
| `ColorProperties.RgbToHslHue360` | src/utils/colorUtils.ts:192 | Rounding can give a hue of 360: `rgbToHsl(255, 0, 1)` is (360, 100, 50) |
| `ColorProperties.RgbToHslOfFF5733` | src/utils/colorUtils.ts:168-196 | `rgbToHsl(255, 87, 51)` is (11, 100, 60) |
| `ColorProperties.HsbToRgbInGamut` | src/utils/colorUtils.ts:198-224 | A non-negative hue with saturation and brightness fractions gives channels in [0,255] |
| `ColorProperties.HueFactorUnit` | src/utils/colorUtils.ts:200 | For a non-negative hue, `1 − abs(((h·6) % 2) − 1)` is a fraction |
| `ColorProperties.SectorBetween` | src/utils/colorUtils.ts:205-217 | Every channel picked in each of the six hue sectors is 0, `x` or `c`, so it lies in [0, c] |
| `ColorProperties.RgbToHsbRange` | src/utils/colorUtils.ts:226-248 | For an in-gamut colour: hue in [0,360) after negative hues are raised by 360, saturation and brightness in [0,100] |
| `ColorProperties.HsbHueSixthsRange` | src/utils/colorUtils.ts:236-240 | The hue in sixths lies in [−1,5]; the `% 6` leaves the red case unchanged |
| `ColorProperties.RgbToHsbBlack` | src/utils/colorUtils.ts:244 | Black is (0, 0, 0): the `max === 0` guard gives saturation 0 |
| `ColorProperties.CmykToRgbFullBlack` | src/utils/colorUtils.ts:250-260 | With k = 1, r = g = b = 0 whatever the other inks are |
| `ColorProperties.CmykToRgbInGamut` | src/utils/colorUtils.ts:250-260 | Ink fractions give channels in [0,255] |
| `ColorProperties.RgbToCmykBlack` | src/utils/colorUtils.ts:267-270 | `rgbToCmyk(0,0,0)` is (0, 0, 0, 100): the `k === 1` guard avoids dividing by zero |
| `ColorProperties.RgbToCmykRange` | src/utils/colorUtils.ts:262-278 | For an in-gamut colour, all four components are in [0,100] |
| `ColorConverter.ConvertEntry` | src/components/ColorConverter.tsx:28-44 | Keeps the id and leaves invalid entries untouched. The result is valid exactly when the entry was valid and its text parses in the old format. A valid result holds the formatted conversion; an invalid result keeps its text |
| `ColorConverter.ConvertAll` | src/components/ColorConverter.tsx:28-44 | The map keeps the length of the list; entry by entry it is `ConvertEntry` (`ConvertAllAt`) |
| `ColorConverter.ConvertAllAt` | src/components/ColorConverter.tsx:28 | Entry k of the new list is the conversion of entry k of the old list |
| `ColorConverter.ConvertAllShape` | src/components/ColorConverter.tsx:27-48 | A format change keeps the length and every id in place and leaves invalid entries untouched. An entry becomes invalid, keeping its text, exactly when its text does not parse |
| `ColorConverter.EmptyNeverParses` | src/utils/colorUtils.ts:29-46 | `parseColor` rejects the empty text in every format |
| `ColorConverter.EmptyBecomesInvalid` | src/components/ColorConverter.tsx:29-42 | An empty entry marked valid, as `addColor` creates it, is kept as valid text by an edit but becomes invalid, with its text kept, on any format change |
| `ColorConverter.ConvertEntryConsistent` | src/components/ColorConverter.tsx:31-42 | A valid entry whose colour is in the gamut is rewritten as text that the new format accepts |
| `ColorConverter.ConvertAllConsistent` | src/components/ColorConverter.tsx:27-48 | After a format change, every valid entry holds text the new format accepts, provided the old valid entries denoted colours in the gamut |
| `ColorConverter.OutOfGamutStaysValid` | src/components/ColorConverter.tsx:31-40 | `rgb(999, 0, 0)` switched to HEX becomes `#3E70000`, which is still marked valid although the HEX parser rejects it |
| `ColorConverter.HexToHslScenario` | src/components/ColorConverter.tsx:31-40 | `#FF5733` switched from HEX to HSL becomes `hsl(11, 100%, 60%)` and stays valid |
| `ColorConverter.ChangeEntry` | src/components/ColorConverter.tsx:51-63 | Only the entry with the id changes: it gets the new text, and it is valid exactly when the text is empty or parses in the current format |
| `ColorConverter.ChangeAll` | src/components/ColorConverter.tsx:51-64 | The map keeps the length of the list; entry by entry it is `ChangeEntry` (`ChangeAllAt`) |
| `ColorConverter.ChangeAllAt` | src/components/ColorConverter.tsx:51 | Entry k after an edit is `ChangeEntry` of entry k before it |
| `ColorConverter.ChangeAllShape` | src/components/ColorConverter.tsx:50-65 | An edit keeps the length and every entry with another id; an entry with the id becomes (id, value, validity); consistency is kept |
| `ColorConverter.Added` | src/components/ColorConverter.tsx:84-93 | At 20 or more entries nothing changes. Otherwise exactly one entry (id, '', valid) is appended at the end, the earlier entries are unchanged, and the list stays within 20 |
| `ColorConverter.AddedInvariants` | src/components/ColorConverter.tsx:87-92 | Adding keeps the list consistent, and keeps its ids distinct when the new id is not already in use |
| `ColorConverter.Without` | src/components/ColorConverter.tsx:95-97 | No entry with the id remains, and what remains is a sub-multiset of the list |
| `ColorConverter.WithoutAppend` | src/components/ColorConverter.tsx:96 | The filter distributes over concatenation, so the kept entries stay in their original order |
| `ColorConverter.WithoutCounts` | src/components/ColorConverter.tsx:96 | Every entry with another id is kept as often as it occurred; entries with the id are all removed |
| `ColorConverter.WithoutAbsent` | src/components/ColorConverter.tsx:96 | Removing an id that is not in the list leaves the list unchanged |
| `ColorConverter.WithoutConsistent` | src/components/ColorConverter.tsx:95-97 | Removal keeps every valid entry parseable |
| `ColorConverter.WithoutUnique` | src/components/ColorConverter.tsx:95-97 | Removal keeps the ids distinct |
| `ColorConverter.InitialConsistent` | src/components/ColorConverter.tsx:19-23 | The three starting entries have distinct ids and are valid HEX |
| `ColorConverter.Converter.constructor` | src/components/ColorConverter.tsx:18-23 | The state starts in HEX with the three starting entries, within the cap, consistent, with distinct ids |
| `ColorConverter.Converter.HandleFormatChange` | src/components/ColorConverter.tsx:27-48 | The list becomes its conversion from the old format to the new one and the format becomes the new one. Ids stay distinct; consistency is kept when the old colours are in the gamut |
| `ColorConverter.Converter.HandleColorChange` | src/components/ColorConverter.tsx:50-65 | The list becomes the edit applied to the old list, and its bound, distinct ids and consistency are kept |
| `ColorConverter.Converter.AddColor` | src/components/ColorConverter.tsx:84-93 | The list becomes `Added` of the old list with the supplied id, and stays within the cap of 20 |
| `ColorConverter.Converter.RemoveColor` | src/components/ColorConverter.tsx:95-97 | The list becomes the old list without the entries with the id, and its bound, distinct ids and consistency are kept |

## Left out

- The `default` branches of `parseColor` (`Unsupported format`), `convertColor` and `formatColor` are left out. The format is a closed datatype here, so no other format can reach them.
- `parseColorFlexible` and its validation result are left out. The colour swatch imports it, but `src/utils/colorUtils.ts` does not define it, so its behaviour cannot be checked.
- Floating point is not modelled. The arithmetic uses exact reals:
  - `1/3` and `1/6` are exact.
  - `===` on computed numbers is exact equality.
  - No claim is made about bit-exact IEEE-754 results.
- `parseInt` is modelled as exact on any number of digits, with no loss of precision above 2^53. Numbers are written in plain decimal at every size, whereas a template literal writes 1e21 and above as `1e+21`, which the `rgb` pattern rejects; so `ColorRoundTrip.RgbRoundTrip` holds in the source only below 1e21.
- The round trips RGB → HSL → RGB and RGB → HSB → RGB within ±1 per channel are not proved.
- `formatColor` calls `Math.round` on each record field. Every field here is already an integer (or `Infinity`), so those calls are the identity (`JsMath.RoundOfInt`) and are not written out.
- The React side of the handlers is sequential here. `addColor` checks the length it sees when it runs, and the update happens at once; React's batched state updates are not modelled.
- `ColorConverter.Converter.AddColor` takes the entry id as a parameter instead of `Date.now().toString()`. Distinct ids are proved only when that id is not yet in use.
- `handleCopyColor` (toasts, clipboard), theme toggling through the document, and all rendering are left out, because they are user-interface side effects.
- The `i` flag folds ASCII letters only. This matches what a non-Unicode JavaScript pattern does for the letters of these patterns.
