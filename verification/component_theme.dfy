/**
 The documentation app's `ComponentTheme` table: one row per theme variable of a
 component, showing hex colours as a swatch with the colour's name from the theme,
 `rgb…` values as a swatch with the raw value, and anything else as plain text.
 */
module ComponentTheme {
  import opened Base
  import opened OrderedMap

  /**
   A theme variable's value: a string, a number, or a missing one (`undefined`,
   `null`, `false`).
   */
  datatype ThemeValue = Text(s: string) | Number(n: int) | Missing

  predicate TruthyValue(v: ThemeValue) {
    match v
    case Text(s) => s != ""
    case Number(n) => n != 0
    case Missing => false
  }

  /** `themeVariables.colors`: colour name to colour value, with an optional `values` object. */
  datatype Colors = Colors(entries: OMap<string>, values: Option<OMap<string>>)

  /** The cell for a variable's value. */
  datatype Cell =
    | HexCell(color: string, colorName: Option<string>)  // swatch and the colour's name
    | RgbCell(color: string)                             // swatch and the raw value
    | PlainCell(value: ThemeValue)                       // the value as text

  datatype Row = Row(name: string, cell: Cell)

  // ---------------------------------------------------------------- the colour names

  /**
   `mapColors`: colour value to colour name, walking the names in order; a value that
   several names share keeps the first name.
   */
  function MapColors(colorKey: OMap<string>): (names: OMap<string>)
    ensures Wf(names)
    decreases |colorKey|
  {
    if |colorKey| == 0 then []
    else
      var front := MapColors(colorKey[..|colorKey| - 1]);
      var (color, hex) := colorKey[|colorKey| - 1];
      if HasKey(front, hex) then front else Put(front, hex, color)
  }

  /** The first name (in key order) whose colour value is `hex`. */
  function FirstNameOf(colorKey: OMap<string>, hex: string): (r: Option<string>)
    ensures r.Some? <==> hex in Values(colorKey)
    ensures r.Some? ==> var i := IndexOf(Values(colorKey), hex); r.value == colorKey[i].0
  {
    if hex in Values(colorKey) then Some(colorKey[IndexOf(Values(colorKey), hex)].0) else None
  }

  /**
   The colour map sends each colour value to the first name that has it, and knows no
   other value.
   */
  lemma {:induction false} MapColorsFirstName(colorKey: OMap<string>, hex: string)
    ensures Get(MapColors(colorKey), hex) == FirstNameOf(colorKey, hex)
    decreases |colorKey|
  {
    if |colorKey| > 0 {
      var n := |colorKey| - 1;
      var front := colorKey[..n];
      MapColorsFirstName(front, hex);
      assert Values(colorKey) == Values(front) + [colorKey[n].1];
      if hex in Values(front) {
        IndexOfAppend(Values(front), colorKey[n].1, hex);
        MapColorsFirstName(front, colorKey[n].1);
      } else if hex == colorKey[n].1 {
        IndexOfFirst(Values(colorKey), hex, n);
        MapColorsFirstName(front, hex);
      }
    }
  }

  /**
   The name the colour map gives a value is a name whose colour is that value, so
   looking the name up again gives the value back.
   */
  lemma MapColorsRoundTrip(colorKey: OMap<string>, hex: string)
    requires Wf(colorKey)
    requires HasKey(MapColors(colorKey), hex)
    ensures Get(colorKey, Get(MapColors(colorKey), hex).value) == Some(hex)
  {
    MapColorsFirstName(colorKey, hex);
  }

  /** Every colour value of the theme has a name in the colour map. */
  lemma MapColorsCovers(colorKey: OMap<string>, i: int)
    requires 0 <= i < |colorKey|
    ensures HasKey(MapColors(colorKey), colorKey[i].1)
  {
    assert Values(colorKey)[i] == colorKey[i].1;
    MapColorsFirstName(colorKey, colorKey[i].1);
  }

  /** `colors.values` when present, `colors` itself otherwise. */
  function ColorSource(colors: Colors): (r: OMap<string>)
    ensures colors.values.Some? ==> r == colors.values.value
    ensures colors.values.None? ==> r == colors.entries
  {
    match colors.values
    case Some(vs) => vs
    case None => colors.entries
  }

  // ---------------------------------------------------------------- one row

  /** `componentTheme[name] || 'undefined'`. */
  function ShownValue(v: ThemeValue): (r: ThemeValue)
    ensures TruthyValue(r)
    ensures TruthyValue(v) ==> r == v
    ensures !TruthyValue(v) ==> r == Text("undefined")
  {
    if TruthyValue(v) then v else Text("undefined")
  }

  predicate StartsWithHash(s: string) {
    |s| > 0 && s[0] == '#'
  }

  predicate StartsWithRgb(s: string) {
    |s| >= 3 && s[..3] == "rgb"
  }

  /** The cell for a value: `#…` is a named swatch, `rgb…` a raw swatch, anything else text. */
  function CellOf(names: OMap<string>, value: ThemeValue): (c: Cell)
    ensures c.HexCell? <==> value.Text? && StartsWithHash(value.s)
    ensures c.RgbCell? <==> value.Text? && !StartsWithHash(value.s) && StartsWithRgb(value.s)
    ensures c.HexCell? ==> c.color == value.s && c.colorName == Get(names, value.s)
    ensures c.RgbCell? ==> c.color == value.s
    ensures c.PlainCell? ==> c.value == value
  {
    match value
    case Text(s) =>
      if StartsWithHash(s) then HexCell(s, Get(names, s))
      else if StartsWithRgb(s) then RgbCell(s)
      else PlainCell(value)
    case _ => PlainCell(value)
  }

  /** `renderRows`: one row per variable, in key order. */
  function RenderRows(componentTheme: OMap<ThemeValue>, colors: Colors): (rows: seq<Row>)
    ensures |rows| == |componentTheme|
    ensures forall i :: 0 <= i < |rows| ==> rows[i].name == componentTheme[i].0
  {
    var names := MapColors(ColorSource(colors));
    seq(|componentTheme|, i requires 0 <= i < |componentTheme| =>
      Row(componentTheme[i].0, CellOf(names, ShownValue(componentTheme[i].1))))
  }

  /**
   Each row shows its variable's value, or "undefined" for a missing one, and a hex
   colour's name, when it has one, is a name the theme gives that very colour.
   */
  lemma RowMeaning(componentTheme: OMap<ThemeValue>, colors: Colors, i: int)
    requires Wf(ColorSource(colors))
    requires 0 <= i < |componentTheme|
    ensures var c := RenderRows(componentTheme, colors)[i].cell;
      var v := componentTheme[i].1;
      && (c.HexCell? || c.RgbCell? ==> TruthyValue(v) && v == Text(c.color))
      && (c.PlainCell? ==> c.value == ShownValue(v))
      && (c.HexCell? && c.colorName.Some? ==> Get(ColorSource(colors), c.colorName.value) == Some(c.color))
  {
    var c := RenderRows(componentTheme, colors)[i].cell;
    if c.HexCell? && c.colorName.Some? {
      MapColorsRoundTrip(ColorSource(colors), c.color);
    }
  }

  /** A hex colour the theme defines always gets a name. */
  lemma ThemeColorsAreNamed(componentTheme: OMap<ThemeValue>, colors: Colors, i: int, j: int)
    requires 0 <= i < |componentTheme| && 0 <= j < |ColorSource(colors)|
    requires componentTheme[i].1 == Text(ColorSource(colors)[j].1)
    requires StartsWithHash(ColorSource(colors)[j].1)
    ensures RenderRows(componentTheme, colors)[i].cell.HexCell?
    ensures RenderRows(componentTheme, colors)[i].cell.colorName.Some?
  {
    MapColorsCovers(ColorSource(colors), j);
  }

  /** `render`: the table only when there is a component theme with at least one variable. */
  function Render(componentTheme: Option<OMap<ThemeValue>>, colors: Colors): (r: Option<seq<Row>>)
    ensures r.Some? <==> componentTheme.Some? && |componentTheme.value| > 0
    ensures r.Some? ==> Keys(componentTheme.value) == seq(|r.value|, i requires 0 <= i < |r.value| => r.value[i].name)
  {
    match componentTheme
    case Some(theme) =>
      if |theme| > 0 then Some(RenderRows(theme, colors)) else None
    case None => None
  }
}
