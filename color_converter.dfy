/** The colour list of `src/components/ColorConverter.tsx` without React:
    the selected format and the list of entries are the state a `Converter`
    object holds, and the four handlers replace them the way `setFormat`
    and `setColors` do. The per-entry work inside `colors.map` and
    `prev.filter` is pure and is written as functions. */
module ColorConverter {
  import opened ColorUtils
  import ColorRoundTrip
  import ColorProperties
  import JsText

  /** `ColorEntry`: the id React keys the entry by, the text the user
      typed, and whether that text was accepted. */
  datatype ColorEntry = ColorEntry(id: string, value: string, isValid: bool)

  /** `addColor` adds nothing once the list holds this many entries. */
  const MaxColors: nat := 20

  /** `parseColor(value, format)` returns instead of throwing. */
  predicate Parses(value: string, format: ColorFormat) {
    ParseColor(value, format).Ok?
  }

  /** The validity `handleColorChange` gives typed text: the empty text
      (nothing entered yet) counts as valid. */
  predicate Acceptable(value: string, format: ColorFormat) {
    value == "" || Parses(value, format)
  }

  /** An entry marked valid holds text the format accepts. */
  predicate Consistent(e: ColorEntry, format: ColorFormat) {
    e.isValid ==> Acceptable(e.value, format)
  }

  predicate AllConsistent(colors: seq<ColorEntry>, format: ColorFormat) {
    forall k :: 0 <= k < |colors| ==> Consistent(colors[k], format)
  }

  /** No two entries share an id. */
  predicate UniqueIds(colors: seq<ColorEntry>) {
    forall i, j :: 0 <= i < j < |colors| ==> colors[i].id != colors[j].id
  }

  predicate HasId(colors: seq<ColorEntry>, id: string) {
    exists k :: 0 <= k < |colors| && colors[k].id == id
  }

  // ====================================================================
  // handleFormatChange
  // ====================================================================

  /** The callback `handleFormatChange` maps over the list: an invalid
      entry is returned as it is; a valid one is parsed in the old format,
      converted and written in the new one, or marked invalid (its text
      kept) when the parse throws. */
  function ConvertEntry(e: ColorEntry, from: ColorFormat, to: ColorFormat): (r: ColorEntry)
    ensures r.id == e.id
    ensures !e.isValid ==> r == e
    ensures r.isValid <==> e.isValid && Parses(e.value, from)
    ensures !r.isValid ==> r.value == e.value
    ensures r.isValid ==> r.value == FormatColor(ConvertColor(ParseColor(e.value, from).value, to), to)
  {
    if !e.isValid then e
    else
      match ParseColor(e.value, from)
      case Ok(c) => e.(value := FormatColor(ConvertColor(c, to), to), isValid := true)
      case Failure(_) => e.(isValid := false)
  }

  /** `colors.map(...)` with `ConvertEntry`. */
  function ConvertAll(colors: seq<ColorEntry>, from: ColorFormat, to: ColorFormat): (r: seq<ColorEntry>)
    ensures |r| == |colors|
  {
    if colors == [] then [] else [ConvertEntry(colors[0], from, to)] + ConvertAll(colors[1..], from, to)
  }

  /** Each entry of the new list is the conversion of the entry at the same
      place in the old one. */
  lemma {:induction false} ConvertAllAt(colors: seq<ColorEntry>, from: ColorFormat, to: ColorFormat, k: nat)
    requires k < |colors|
    ensures ConvertAll(colors, from, to)[k] == ConvertEntry(colors[k], from, to)
  {
    if k > 0 {
      ConvertAllAt(colors[1..], from, to, k - 1);
    }
  }

  /** The whole list after a format change: same length, every id in its
      place, invalid entries untouched, and each valid entry either
      re-written in the new format or marked invalid with its text kept. */
  lemma ConvertAllShape(colors: seq<ColorEntry>, from: ColorFormat, to: ColorFormat)
    ensures var r := ConvertAll(colors, from, to);
      |r| == |colors|
      && (forall k :: 0 <= k < |r| ==> r[k].id == colors[k].id)
      && (forall k :: 0 <= k < |r| && !colors[k].isValid ==> r[k] == colors[k])
      && (forall k :: 0 <= k < |r| ==> (r[k].isValid <==> colors[k].isValid && Parses(colors[k].value, from)))
      && (forall k :: 0 <= k < |r| && !r[k].isValid ==> r[k].value == colors[k].value)
  {
    forall k | 0 <= k < |colors| {
      ConvertAllAt(colors, from, to, k);
    }
  }

  /** Every colour a valid entry's text denotes in the old format lies in
      the gamut. */
  predicate ParsesInGamut(e: ColorEntry, from: ColorFormat) {
    e.isValid && Parses(e.value, from) ==> InGamut(ParseColor(e.value, from).value)
  }

  /** A valid entry whose colour lies in the gamut is re-written as text
      the new format accepts; an entry that stops being valid is
      consistent trivially. */
  lemma ConvertEntryConsistent(e: ColorEntry, from: ColorFormat, to: ColorFormat)
    requires ParsesInGamut(e, from)
    ensures Consistent(ConvertEntry(e, from, to), to)
  {
    if e.isValid && Parses(e.value, from) {
      ColorRoundTrip.ReformatParses(ParseColor(e.value, from).value, to);
    }
  }

  /** After a format change every entry marked valid holds text the new
      format accepts, provided the valid entries denoted colours of the
      gamut. Parsers that do no range check let a colour outside the gamut
      through, and then this fails: see `OutOfGamutStaysValid`. */
  lemma ConvertAllConsistent(colors: seq<ColorEntry>, from: ColorFormat, to: ColorFormat)
    requires forall k :: 0 <= k < |colors| ==> ParsesInGamut(colors[k], from)
    ensures AllConsistent(ConvertAll(colors, from, to), to)
  {
    var r := ConvertAll(colors, from, to);
    forall k | 0 <= k < |r| ensures Consistent(r[k], to) {
      ConvertAllAt(colors, from, to, k);
      ConvertEntryConsistent(colors[k], from, to);
    }
  }

  /** `rgb(999, 0, 0)` is valid RGB (no range check), but switching to HEX
      writes `#3E70000`, seven digits, which the HEX parser rejects; the
      entry is still marked valid. */
  lemma OutOfGamutStaysValid()
    ensures var r := ConvertEntry(ColorEntry("1", "rgb(999, 0, 0)", true), RGB, HEX);
      r.isValid && r.value == "#3E70000" && !Parses(r.value, HEX)
  {
    var c := ColorValue(999, 0, 0);
    ColorRoundTrip.RgbRoundTrip(c);
    RgbText999();
    HexText999();
    NotHex3E70000();
  }

  lemma RgbText999()
    ensures FormatRgb(ColorValue(999, 0, 0)) == "rgb(999, 0, 0)"
  {
    assert JsText.NatText(999, 10) == "999";
  }

  lemma HexText999()
    ensures FormatHex(ColorValue(999, 0, 0)) == "#3E70000"
  {
    assert JsText.NatText(999, 16) == "3e7";
    assert HexByte(0) == "00";
  }

  lemma NotHex3E70000()
    ensures !Parses("#3E70000", HEX)
  {
    ColorRoundTrip.TrimKeeps("#3E70000");
  }

  /** The scenario of switching from HEX to HSL while an entry holds
      `#FF5733`: the hue 10.59 degrees is rounded to 11. */
  lemma HexToHslScenario()
    ensures ConvertEntry(ColorEntry("1", "#FF5733", true), HEX, HSL)
      == ColorEntry("1", "hsl(11, 100%, 60%)", true)
  {
    ParseFF5733();
    ColorProperties.RgbToHslOfFF5733();
    HslText11();
  }

  lemma ParseFF5733()
    ensures ParseColor("#FF5733", HEX) == Ok(ColorValue(255, 87, 51))
  {
    ColorRoundTrip.TrimKeeps("#FF5733");
  }

  lemma HslText11()
    ensures FormatHsl(HslColor(11, Finite(100), 60)) == "hsl(11, 100%, 60%)"
  {
    assert JsText.NatText(11, 10) == "11";
    assert JsText.NatText(100, 10) == "100";
    assert JsText.NatText(60, 10) == "60";
  }

  /** No format accepts the empty text: `trim` keeps it empty, which is
      not a hex code and holds no function name. */
  lemma EmptyNeverParses(format: ColorFormat)
    ensures !Parses("", format)
  {
    assert JsText.Trim("") == "";
    assert ""[0..] == "";
  }

  /** The empty entry `addColor` appends is valid, but a format change
      marks it invalid: `parseColor("")` throws in every format, unlike the
      `value === ''` case `handleColorChange` lets through. */
  lemma EmptyBecomesInvalid(id: string, from: ColorFormat, to: ColorFormat)
    ensures Acceptable("", from)
    ensures ConvertEntry(ColorEntry(id, "", true), from, to) == ColorEntry(id, "", false)
  {
    EmptyNeverParses(from);
  }

  // ====================================================================
  // handleColorChange
  // ====================================================================

  /** The callback `handleColorChange` maps over the list: only the entry
      with the id changes, to the new text and its validity. */
  function ChangeEntry(e: ColorEntry, id: string, value: string, format: ColorFormat): (r: ColorEntry)
    ensures r.id == e.id
    ensures e.id != id ==> r == e
    ensures e.id == id ==> r.value == value && (r.isValid <==> Acceptable(value, format))
  {
    if e.id != id then e else e.(value := value, isValid := value == "" || Parses(value, format))
  }

  /** `prev.map(...)` with `ChangeEntry`. */
  function ChangeAll(colors: seq<ColorEntry>, id: string, value: string, format: ColorFormat): (r: seq<ColorEntry>)
    ensures |r| == |colors|
  {
    if colors == [] then []
    else [ChangeEntry(colors[0], id, value, format)] + ChangeAll(colors[1..], id, value, format)
  }

  lemma {:induction false} ChangeAllAt(colors: seq<ColorEntry>, id: string, value: string, format: ColorFormat, k: nat)
    requires k < |colors|
    ensures ChangeAll(colors, id, value, format)[k] == ChangeEntry(colors[k], id, value, format)
  {
    if k > 0 {
      ChangeAllAt(colors[1..], id, value, format, k - 1);
    }
  }

  /** Editing one entry: the length and every other entry stay as they
      were, the edited entries keep their ids, and the result stays
      consistent with the format when the list was. */
  lemma ChangeAllShape(colors: seq<ColorEntry>, id: string, value: string, format: ColorFormat)
    ensures var r := ChangeAll(colors, id, value, format);
      |r| == |colors|
      && (forall k :: 0 <= k < |r| && colors[k].id != id ==> r[k] == colors[k])
      && (forall k :: 0 <= k < |r| && colors[k].id == id ==>
            r[k] == ColorEntry(id, value, Acceptable(value, format)))
      && (AllConsistent(colors, format) ==> AllConsistent(r, format))
  {
    forall k | 0 <= k < |colors| {
      ChangeAllAt(colors, id, value, format, k);
    }
  }

  // ====================================================================
  // addColor and removeColor
  // ====================================================================

  /** `addColor`: with fewer than `MaxColors` entries, a new empty entry
      (valid, since nothing is entered yet) goes at the end. */
  function Added(colors: seq<ColorEntry>, freshId: string): (r: seq<ColorEntry>)
    ensures |colors| >= MaxColors ==> r == colors
    ensures |colors| < MaxColors ==>
      |r| == |colors| + 1 && r[..|colors|] == colors && r[|colors|] == ColorEntry(freshId, "", true)
    ensures |colors| <= MaxColors ==> |r| <= MaxColors
  {
    if |colors| >= MaxColors then colors else colors + [ColorEntry(freshId, "", true)]
  }

  /** The new entry keeps the list consistent, and its ids distinct when
      the id is not yet in use. */
  lemma AddedInvariants(colors: seq<ColorEntry>, freshId: string, format: ColorFormat)
    ensures AllConsistent(colors, format) ==> AllConsistent(Added(colors, freshId), format)
    ensures UniqueIds(colors) && !HasId(colors, freshId) ==> UniqueIds(Added(colors, freshId))
  {
  }

  /** `prev.filter(color => color.id !== id)` */
  function Without(colors: seq<ColorEntry>, id: string): (r: seq<ColorEntry>)
    ensures |r| <= |colors|
    ensures !HasId(r, id)
    ensures multiset(r) <= multiset(colors)
  {
    if colors == [] then []
    else
      assert colors == [colors[0]] + colors[1..];
      if colors[0].id == id then Without(colors[1..], id)
      else [colors[0]] + Without(colors[1..], id)
  }

  /** Filtering distributes over concatenation, so what is kept stays in
      its original order. */
  lemma {:induction false} WithoutAppend(a: seq<ColorEntry>, b: seq<ColorEntry>, id: string)
    ensures Without(a + b, id) == Without(a, id) + Without(b, id)
  {
    if a != [] {
      assert (a + b)[1..] == a[1..] + b;
      WithoutAppend(a[1..], b, id);
    } else {
      assert a + b == b;
    }
  }

  /** Exactly the entries with the id are removed: every other entry is
      kept as often as it occurred. */
  lemma {:induction false} WithoutCounts(colors: seq<ColorEntry>, id: string, e: ColorEntry)
    ensures e.id != id ==> multiset(Without(colors, id))[e] == multiset(colors)[e]
    ensures e.id == id ==> multiset(Without(colors, id))[e] == 0
  {
    if colors != [] {
      WithoutCounts(colors[1..], id, e);
      assert colors == [colors[0]] + colors[1..];
    }
  }

  /** Removing an id that is not there leaves the list as it was. */
  lemma {:induction false} WithoutAbsent(colors: seq<ColorEntry>, id: string)
    requires !HasId(colors, id)
    ensures Without(colors, id) == colors
  {
    if colors != [] {
      assert colors[0].id != id;
      forall k | 0 <= k < |colors| - 1 ensures colors[1..][k].id != id {
        assert colors[1..][k] == colors[k + 1];
      }
      WithoutAbsent(colors[1..], id);
    }
  }

  /** An id absent from a list is absent from what the filter keeps. */
  lemma WithoutKeepsOut(rest: seq<ColorEntry>, id: string, other: string)
    requires !HasId(rest, other)
    ensures !HasId(Without(rest, id), other)
  {
    var w := Without(rest, id);
    forall k | 0 <= k < |w| ensures w[k].id != other {
      assert w[k] in multiset(rest);
    }
  }

  /** Removal keeps the list consistent: what is kept was in the list. */
  lemma WithoutConsistent(colors: seq<ColorEntry>, id: string, format: ColorFormat)
    requires AllConsistent(colors, format)
    ensures AllConsistent(Without(colors, id), format)
  {
    var r := Without(colors, id);
    forall k | 0 <= k < |r| ensures Consistent(r[k], format) {
      assert r[k] in multiset(colors);
    }
  }

  /** Removal keeps the ids distinct. */
  lemma {:induction false} WithoutUnique(colors: seq<ColorEntry>, id: string)
    requires UniqueIds(colors)
    ensures UniqueIds(Without(colors, id))
  {
    if colors != [] {
      var rest := colors[1..];
      WithoutUnique(rest, id);
      if colors[0].id != id {
        WithoutKeepsOut(rest, id, colors[0].id);
        var r := Without(colors, id);
        assert r == [colors[0]] + Without(rest, id);
      }
    }
  }

  // ====================================================================
  // The component's state
  // ====================================================================

  /** The entries the component starts with. */
  function InitialColors(): seq<ColorEntry> {
    [ColorEntry("1", "#FF5733", true), ColorEntry("2", "#33FF57", true), ColorEntry("3", "#3357FF", true)]
  }

  /** The state of `ColorConverter`: `format` and `colors`, each replaced
      whole by its setter. */
  class Converter {
    var format: ColorFormat
    var colors: seq<ColorEntry>

    /** The list never outgrows the cap `addColor` enforces. */
    ghost predicate Valid()
      reads this
    {
      |colors| <= MaxColors
    }

    /** `useState('HEX')` and `useState([...three entries...])`. */
    constructor ()
      ensures Valid()
      ensures format == HEX && colors == InitialColors()
      ensures UniqueIds(colors) && AllConsistent(colors, format)
    {
      format := HEX;
      colors := InitialColors();
      new;
      InitialConsistent();
    }

    /** `handleFormatChange(newFormat)` */
    method HandleFormatChange(newFormat: ColorFormat)
      requires Valid()
      modifies this
      ensures Valid()
      ensures format == newFormat
      ensures colors == ConvertAll(old(colors), old(format), newFormat)
      ensures UniqueIds(old(colors)) ==> UniqueIds(colors)
      ensures (forall k :: 0 <= k < |old(colors)| ==> ParsesInGamut(old(colors)[k], old(format)))
        ==> AllConsistent(colors, format)
    {
      var converted := ConvertAll(colors, format, newFormat);
      ConvertAllShape(colors, format, newFormat);
      if forall k :: 0 <= k < |colors| ==> ParsesInGamut(colors[k], format) {
        ConvertAllConsistent(colors, format, newFormat);
      }
      colors := converted;
      format := newFormat;
    }

    /** `handleColorChange(id, value)` */
    method HandleColorChange(id: string, value: string)
      requires Valid()
      modifies this`colors
      ensures Valid()
      ensures colors == ChangeAll(old(colors), id, value, format)
      ensures UniqueIds(old(colors)) ==> UniqueIds(colors)
      ensures AllConsistent(old(colors), format) ==> AllConsistent(colors, format)
    {
      ChangeAllShape(colors, id, value, format);
      colors := ChangeAll(colors, id, value, format);
    }

    /** `addColor()`; the id `Date.now().toString()` is `freshId`. */
    method AddColor(freshId: string)
      requires Valid()
      modifies this`colors
      ensures Valid()
      ensures colors == Added(old(colors), freshId)
      ensures UniqueIds(old(colors)) && !HasId(old(colors), freshId) ==> UniqueIds(colors)
      ensures AllConsistent(old(colors), format) ==> AllConsistent(colors, format)
    {
      AddedInvariants(colors, freshId, format);
      colors := Added(colors, freshId);
    }

    /** `removeColor(id)` */
    method RemoveColor(id: string)
      requires Valid()
      modifies this`colors
      ensures Valid()
      ensures colors == Without(old(colors), id)
      ensures UniqueIds(old(colors)) ==> UniqueIds(colors)
      ensures AllConsistent(old(colors), format) ==> AllConsistent(colors, format)
    {
      if UniqueIds(colors) {
        WithoutUnique(colors, id);
      }
      if AllConsistent(colors, format) {
        WithoutConsistent(colors, id, format);
      }
      colors := Without(colors, id);
    }
  }

  /** The three starting entries have distinct ids and are valid HEX. */
  lemma InitialConsistent()
    ensures UniqueIds(InitialColors()) && AllConsistent(InitialColors(), HEX)
  {
    InitialIds();
    var c := InitialColors();
    forall k | 0 <= k < |c| ensures Consistent(c[k], HEX) {
      if k == 0 {
        HexCodeParses('F', 'F', '5', '7', '3', '3');
      } else if k == 1 {
        HexCodeParses('3', '3', 'F', 'F', '5', '7');
      } else {
        HexCodeParses('3', '3', '5', '7', 'F', 'F');
      }
    }
  }

  lemma InitialIds()
    ensures UniqueIds(InitialColors())
  {
    var c := InitialColors();
    assert c[0].id == "1" && c[1].id == "2" && c[2].id == "3";
  }

  /** `#` and six hex digits is valid HEX. */
  lemma HexCodeParses(d1: char, d2: char, d3: char, d4: char, d5: char, d6: char)
    requires JsText.IsHexDigit(d1) && JsText.IsHexDigit(d2) && JsText.IsHexDigit(d3)
    requires JsText.IsHexDigit(d4) && JsText.IsHexDigit(d5) && JsText.IsHexDigit(d6)
    ensures Parses(['#', d1, d2, d3, d4, d5, d6], HEX)
  {
    ColorRoundTrip.TrimKeeps(['#', d1, d2, d3, d4, d5, d6]);
  }
}
