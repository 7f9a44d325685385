/** The "color" attribute of MetaModels: the setting names and the field
    definition it declares to the backend, the raw value it hands to the
    templates, and its hex2rgba() converter from a hex colour code and an
    opacity to a CSS rgb()/rgba() colour. */
module ColorAttribute {
  import opened PhpRuntime
  import opened CssRgb

  // ---------------------------------------------------------------------
  // getAttributeSettingNames()

  /** The settings the colour attribute supports beyond its parent's. */
  const ColorSettingNames: seq<string> := ["flag", "searchable", "filterable", "sortable", "mandatory"]

  /** array_merge() of the parent's (list-shaped) names and the colour
      settings: the parent's names come first and keep their order. */
  function AttributeSettingNames(parentNames: seq<string>): (names: seq<string>)
    ensures |names| == |parentNames| + 5
    ensures names[..|parentNames|] == parentNames
    ensures names[|parentNames|..] == ["flag", "searchable", "filterable", "sortable", "mandatory"]
  {
    parentNames + ColorSettingNames
  }

  /** A name is offered exactly when the parent offers it or it is one of
      the five colour settings. */
  lemma SettingNamesMembership(parentNames: seq<string>, name: string)
    ensures name in AttributeSettingNames(parentNames) <==> name in parentNames || name in ColorSettingNames
  {
    var names := AttributeSettingNames(parentNames);
    if name in names {
      var i :| 0 <= i < |names| && names[i] == name;
      if i >= |parentNames| {
        assert names[|parentNames|..][i - |parentNames|] == name;
      }
    }
  }

  // ---------------------------------------------------------------------
  // getFieldDefinition()

  /** The keys of 'eval' that the colour attribute sets or extends. */
  const EvalKeys: set<string> := {"maxlength", "size", "multiple", "isHexColor", "decodeEntities", "tl_class"}

  /** The CSS classes appended to the widget's tl_class. */
  const WizardClasses := " wizard inline"

  /** The parent's 'eval' entry is an array, or absent, null or false (PHP
      then creates the array on the first assignment into it). */
  predicate EvalIsArray(definition: map<string, Value>)
  {
    "eval" !in definition || definition["eval"].Null? || definition["eval"] == Bool(false) || definition["eval"].Arr?
  }

  /** The parent's 'eval' array, empty when it has none. */
  function ParentEval(definition: map<string, Value>): (eval: map<string, Value>)
    requires EvalIsArray(definition)
  {
    if "eval" in definition && definition["eval"].Arr? then definition["eval"].entries else map[]
  }

  /** The parent's field definition with the colour widget's settings
      written over it, one key at a time as the source does. */
  function FieldDefinition(parent: map<string, Value>): (definition: map<string, Value>)
    requires EvalIsArray(parent)
    ensures definition.Keys == parent.Keys + {"inputType", "eval"}
    ensures forall k :: k in parent && k != "inputType" && k != "eval" ==> definition[k] == parent[k]
    ensures definition["inputType"] == Str("text")
    ensures definition["eval"].Arr?
    ensures var before, after := ParentEval(parent), definition["eval"].entries;
      && after.Keys == before.Keys + EvalKeys
      && (forall k :: k in before && k !in EvalKeys ==> after[k] == before[k])
      && after["maxlength"] == Int(6)
      && after["size"] == Int(2)
      && after["multiple"] == Bool(true)
      && after["isHexColor"] == Bool(true)
      && after["decodeEntities"] == Bool(true)
      && after["tl_class"] == Str(ToPhpString(Lookup(before, "tl_class")) + WizardClasses)
  {
    var withInput := parent["inputType" := Str("text")];
    var eval0 := ParentEval(parent);
    var eval1 := eval0["maxlength" := Int(6)];
    var eval2 := eval1["size" := Int(2)];
    var eval3 := eval2["multiple" := Bool(true)];
    var eval4 := eval3["isHexColor" := Bool(true)];
    var eval5 := eval4["decodeEntities" := Bool(true)];
    var eval6 := eval5["tl_class" := Str(ToPhpString(Lookup(eval5, "tl_class")) + WizardClasses)];
    withInput["eval" := Arr(eval6)]
  }

  // ---------------------------------------------------------------------
  // hex2rgba()

  /** What hex2rgba() returns for a colour it cannot convert. */
  const Default := "rgb(0,0,0)"

  /** The colour with one leading '#' removed. */
  function Sanitize(color: string): (c: string)
    requires color != []
    ensures color[0] == '#' ==> "#" + c == color
    ensures color[0] != '#' ==> c == color
  {
    if color[0] == '#' then color[1..] else color
  }

  /** The colours hex2rgba() converts rather than falls back on: not empty()
      and of length 6 or 3 once sanitized. */
  predicate Convertible(color: string)
  {
    Truthy(Str(color)) && (|Sanitize(color)| == 6 || |Sanitize(color)| == 3)
  }

  /** The three two-character chunks of a sanitized colour: a 6-character
      colour cut in three, a 3-character colour with each character
      doubled. */
  function HexPairs(c: string): (hex: seq<string>)
    requires |c| == 6 || |c| == 3
    ensures |hex| == 3 && forall i :: 0 <= i < 3 ==> |hex[i]| == 2
    ensures |c| == 6 ==> hex[0] + hex[1] + hex[2] == c
    ensures |c| == 3 ==> forall i :: 0 <= i < 3 ==> hex[i] == [c[i], c[i]]
  {
    if |c| == 6 then [c[0..2], c[2..4], c[4..6]]
    else [[c[0], c[0]], [c[1], c[1]], [c[2], c[2]]]
  }

  /** array_map('hexdec', $hex): every channel fits in a byte. */
  function Channels(c: string): (rgb: seq<nat>)
    requires |c| == 6 || |c| == 3
    ensures |rgb| == 3 && forall i :: 0 <= i < 3 ==> rgb[i] < 256
  {
    var hex := HexPairs(c);
    assert Pow16(2) == 256;
    [HexDec(hex[0]), HexDec(hex[1]), HexDec(hex[2])]
  }

  /** The channels of a 6-character colour are the hexdec() values of its
      three pairs, whatever characters the pairs hold. */
  lemma ChannelsOfPairs(x: string, y: string, z: string)
    requires |x| == 2 && |y| == 2 && |z| == 2
    ensures Channels(x + y + z) == [HexDec(x), HexDec(y), HexDec(z)]
  {
    var c := x + y + z;
    assert c[0..2] == x && c[2..4] == y && c[4..6] == z;
  }

  /** The alpha written into rgba(): an opacity of magnitude above 1 is a
      percentage and is divided by 100; any other is written as it is. */
  function Alpha(opacity: Value): (alpha: string)
    requires !opacity.Arr?
  {
    AlphaText(ToNumber(opacity), ToPhpString(opacity))
  }

  /** The alpha of an opacity with number n and string form text: above 1 in
      magnitude, a decimal numeral that reads back as n/100; otherwise the
      text, whatever it holds. */
  function AlphaText(n: Decimal, text: string): (alpha: string)
    ensures Abs(n.mant) > Pow10(n.exp) ==> IsDecimalText(alpha) && SameValue(LeadingNumber(alpha), Decimal(n.mant, n.exp + 2))
    ensures Abs(n.mant) <= Pow10(n.exp) ==> alpha == text
  {
    if Abs(n.mant) > Pow10(n.exp) then
      RenderedIsDecimalText(Decimal(n.mant, n.exp + 2));
      DecimalToStringReadsBack(Decimal(n.mant, n.exp + 2));
      DecimalToString(Decimal(n.mant, n.exp + 2))
    else text
  }

  /** The imploded channels inside rgb() and rgba() read as the channels
      separated by commas. */
  lemma CssShape(r: string, g: string, b: string, channels: string, alpha: string)
    requires channels == Implode(",", [r, g, b])
    ensures "rgba(" + channels + "," + alpha + ")" == "rgba(" + r + "," + g + "," + b + "," + alpha + ")"
    ensures "rgb(" + channels + ")" == "rgb(" + r + "," + g + "," + b + ")"
  {
    assert [r, g, b][1..] == [g, b] && [g, b][1..] == [b];
    assert Implode(",", [b]) == b;
    assert Implode(",", [g, b]) == g + "," + b;
    assert channels == r + "," + (g + "," + b);
  }

  /** The channels written as rgba() when the opacity is truthy and as rgb()
      otherwise: exactly the CSS text of the channels (and of the alpha). */
  function Format(rgb: seq<nat>, opacity: Value): (text: string)
    requires |rgb| == 3 && !opacity.Arr?
    ensures text == if Truthy(opacity) then RgbaText(rgb[0], rgb[1], rgb[2], Alpha(opacity)) else RgbText(rgb[0], rgb[1], rgb[2])
  {
    var r, g, b := NatToString(rgb[0]), NatToString(rgb[1]), NatToString(rgb[2]);
    var channels := Implode(",", [r, g, b]);
    CssShape(r, g, b, channels, Alpha(opacity));
    if Truthy(opacity) then "rgba(" + channels + "," + Alpha(opacity) + ")"
    else "rgb(" + channels + ")"
  }

  /** The formatted text reads back as the channels, and as the alpha when
      the opacity is truthy. */
  lemma FormatReadsBack(rgb: seq<nat>, opacity: Value)
    requires |rgb| == 3 && !opacity.Arr?
    ensures ParseCss(Format(rgb, opacity))
         == Some(if Truthy(opacity) then Rgba(rgb[0], rgb[1], rgb[2], Alpha(opacity)) else Rgb(rgb[0], rgb[1], rgb[2]))
  {
    if Truthy(opacity) {
      RgbaReadsBack(rgb[0], rgb[1], rgb[2], Alpha(opacity));
    } else {
      RgbReadsBack(rgb[0], rgb[1], rgb[2]);
    }
  }

  lemma DefaultReadsBack()
    ensures ParseCss(Default) == Some(Rgb(0, 0, 0))
  {
    RgbReadsBack(0, 0, 0);
    assert RgbText(0, 0, 0) == Default;
  }

  /** hex2rgba(): what it emits, read as CSS, is always a well-formed rgb()
      or rgba() with byte-sized channels; rgba() exactly when the colour is
      convertible and the opacity truthy, with the opacity's alpha; the
      hexdec() channels of the sanitized colour when it is convertible, and
      black otherwise. */
  function Hex2Rgba(color: string, opacity: Value): (rgba: string)
    requires !opacity.Arr?
    ensures var css := ParseCss(rgba);
      && css.Some?
      && css.value.r < 256 && css.value.g < 256 && css.value.b < 256
      && (css.value.Rgba? <==> Convertible(color) && Truthy(opacity))
      && (css.value.Rgba? ==> css.value.alpha == Alpha(opacity))
      && (Convertible(color) ==> [css.value.r, css.value.g, css.value.b] == Channels(Sanitize(color)))
      && (!Convertible(color) ==> css.value == Rgb(0, 0, 0))
  {
    if !Truthy(Str(color)) then
      DefaultReadsBack();
      Default
    else
      var c := Sanitize(color);
      if |c| == 6 || |c| == 3 then
        FormatReadsBack(Channels(c), opacity);
        Format(Channels(c), opacity)
      else
        DefaultReadsBack();
        Default
  }

  /** The fallbacks: an empty() colour, and any colour that is not 6 or 3
      characters long once one '#' is removed, give exactly rgb(0,0,0)
      whatever the opacity; so does a doubled '#'. */
  lemma Hex2RgbaFallsBack(color: string, opacity: Value)
    requires !opacity.Arr?
    ensures color == "" || color == "0" ==> Hex2Rgba(color, opacity) == Default
    ensures !Convertible(color) ==> Hex2Rgba(color, opacity) == Default
    ensures |color| == 3 || |color| == 6 ==> Hex2Rgba("##" + color, opacity) == Default
  {
    if |color| == 3 || |color| == 6 {
      var c := "##" + color;
      assert c[0] == '#' && Sanitize(c) == "#" + color;
    }
  }

  /** One leading '#' makes no difference. */
  lemma Hex2RgbaHashPrefix(s: string, opacity: Value)
    requires s != [] && s[0] != '#' && !opacity.Arr?
    ensures Hex2Rgba("#" + s, opacity) == Hex2Rgba(s, opacity)
  {
    var h := "#" + s;
    assert h[0] == '#' && h[1..] == s;
    assert Truthy(Str(h)) && Sanitize(h) == s;
    if Convertible(s) {
      SameChannels(h, s, opacity);
    } else {
      Hex2RgbaFallsBack(h, opacity);
      Hex2RgbaFallsBack(s, opacity);
    }
  }

  /** A 3-character colour is the 6-character colour with each character
      doubled. */
  lemma Hex2RgbaShortForm(s: string, opacity: Value)
    requires |s| == 3 && !opacity.Arr?
    ensures Hex2Rgba(s, opacity) == Hex2Rgba([s[0], s[0], s[1], s[1], s[2], s[2]], opacity)
  {
    var long := [s[0], s[0], s[1], s[1], s[2], s[2]];
    if s[0] == '#' {
      assert |Sanitize(s)| == 2 && |Sanitize(long)| == 5;
      Hex2RgbaFallsBack(s, opacity);
      Hex2RgbaFallsBack(long, opacity);
    } else {
      assert Sanitize(s) == s && Sanitize(long) == long;
      ShortChannels(s, long);
      SameChannels(s, long, opacity);
    }
  }

  /** A convertible colour is formatted from the channels of its sanitized
      form. */
  lemma Hex2RgbaConverts(color: string, opacity: Value)
    requires Convertible(color) && !opacity.Arr?
    ensures Hex2Rgba(color, opacity) == Format(Channels(Sanitize(color)), opacity)
  {
  }

  /** Two convertible colours with the same channels convert alike. */
  lemma SameChannels(a: string, b: string, opacity: Value)
    requires Convertible(a) && Convertible(b) && !opacity.Arr?
    requires Channels(Sanitize(a)) == Channels(Sanitize(b))
    ensures Hex2Rgba(a, opacity) == Hex2Rgba(b, opacity)
  {
  }

  lemma ShortChannels(s: string, long: string)
    requires |s| == 3 && long == [s[0], s[0], s[1], s[1], s[2], s[2]]
    ensures Channels(long) == Channels(s)
  {
    assert long == [s[0], s[0]] + [s[1], s[1]] + [s[2], s[2]];
    ChannelsOfPairs([s[0], s[0]], [s[1], s[1]], [s[2], s[2]]);
  }

  /** A byte as two lower-case hex digits, as dechex() and colour pickers
      write it. */
  function HexByte(n: nat): (h: string)
    requires n < 256
    ensures |h| == 2 && HexDec(h) == n
  {
    HexDecOfByte(n);
    [HexDigitChar(n / 16), HexDigitChar(n % 16)]
  }

  lemma ChannelsOfHexBytes(r: nat, g: nat, b: nat)
    requires r < 256 && g < 256 && b < 256
    ensures Channels(HexByte(r) + HexByte(g) + HexByte(b)) == [r, g, b]
  {
    ChannelsOfPairs(HexByte(r), HexByte(g), HexByte(b));
  }

  /** The "#rrggbb" notation of three bytes. */
  function HexColor(r: nat, g: nat, b: nat): (color: string)
    requires r < 256 && g < 256 && b < 256
    ensures |color| == 7 && color[0] == '#'
  {
    "#" + HexByte(r) + HexByte(g) + HexByte(b)
  }

  lemma HexColorConverts(r: nat, g: nat, b: nat, opacity: Value)
    requires r < 256 && g < 256 && b < 256 && !opacity.Arr?
    ensures Hex2Rgba(HexColor(r, g, b), opacity) == Format([r, g, b], opacity)
  {
    var hex := HexByte(r) + HexByte(g) + HexByte(b);
    assert Sanitize(HexColor(r, g, b)) == hex;
    ChannelsOfHexBytes(r, g, b);
    Hex2RgbaConverts(HexColor(r, g, b), opacity);
  }

  /** The converter inverts hex colour notation: "#rrggbb" comes out as
      exactly the channels r, g and b. */
  lemma Hex2RgbaOfHexColor(r: nat, g: nat, b: nat, opacity: Value)
    requires r < 256 && g < 256 && b < 256 && !opacity.Arr?
    ensures ParseCss(Hex2Rgba(HexColor(r, g, b), opacity))
         == Some(if Truthy(opacity) then Rgba(r, g, b, Alpha(opacity)) else Rgb(r, g, b))
  {
    HexColorConverts(r, g, b, opacity);
    FormatReadsBack([r, g, b], opacity);
  }

  /** The opacity matters only through its truthiness and its alpha; in
      particular every falsy opacity gives the same result as none. */
  lemma Hex2RgbaOpacityOnlyThroughAlpha(color: string, o1: Value, o2: Value)
    requires !o1.Arr? && !o2.Arr?
    requires Truthy(o1) == Truthy(o2)
    requires Truthy(o1) ==> Alpha(o1) == Alpha(o2)
    ensures Hex2Rgba(color, o1) == Hex2Rgba(color, o2)
  {
  }

  /** A falsy opacity gives what the default opacity `false` gives. */
  lemma FalsyOpacityIsNone(color: string, opacity: Value)
    requires !opacity.Arr?
    ensures !Truthy(opacity) ==> Hex2Rgba(color, opacity) == Hex2Rgba(color, Bool(false))
  {
    if !Truthy(opacity) {
      Hex2RgbaOpacityOnlyThroughAlpha(color, opacity, Bool(false));
    }
  }

  /** The alpha written reads back as the opacity divided by 100 when its
      magnitude is above 1, and as the opacity itself otherwise. */
  lemma AlphaReadsBack(opacity: Value)
    requires !opacity.Arr?
    ensures var n := ToNumber(opacity);
      SameValue(LeadingNumber(Alpha(opacity)), if Abs(n.mant) > Pow10(n.exp) then Decimal(n.mant, n.exp + 2) else n)
  {
    var n := ToNumber(opacity);
    if Abs(n.mant) <= Pow10(n.exp) {
      ToPhpStringReadsBack(opacity);
    }
  }

  /** An opacity stored as the decimal string of an integer (as the row
      holds it) converts exactly as the integer does. */
  lemma Hex2RgbaStringOpacity(color: string, i: int)
    ensures Hex2Rgba(color, Str(IntToString(i))) == Hex2Rgba(color, Int(i))
  {
    IntToStringReadsBack(i);
    var s := IntToString(i);
    assert Truthy(Str(s)) == Truthy(Int(i)) by {
      if i < 0 {
        assert s[0] == '-';
      } else {
        assert s == "0" <==> i == 0;
      }
    }
    assert Alpha(Str(s)) == Alpha(Int(i));
    Hex2RgbaOpacityOnlyThroughAlpha(color, Str(s), Int(i));
  }

  // ---------------------------------------------------------------------
  // parseValue(): the raw value

  /** The colour as hex2rgba() receives it: a null colour is empty() just
      like the empty string. */
  function ColorArgument(v: Value): (color: string)
    requires v.Str? || v.Null?
    ensures Truthy(Str(color)) == Truthy(v)
  {
    if v.Str? then v.s else ""
  }

  /** The stored cell holds a colour that is a string or null and an
      opacity that is not an array, as hex2rgba() expects. */
  predicate CellIsColor(row: map<string, Value>, colName: string)
  {
    var cell := Lookup(row, colName);
    (ItemAt(cell, 0).Str? || ItemAt(cell, 0).Null?) && !ItemAt(cell, 1).Arr?
  }

  /** The result parseValue() builds before any rendering: 'raw' holds the
      stored colour, the stored opacity and their rgb()/rgba() form.  The
      opacity is passed on only when it is not loosely null, and since every
      loosely-null value is falsy this is the same as always passing it. */
  function RawResult(row: map<string, Value>, colName: string): (result: map<string, Value>)
    requires CellIsColor(row, colName)
    ensures result.Keys == {"raw"} && result["raw"].Arr?
    ensures var raw, cell := result["raw"].entries, Lookup(row, colName);
      && raw.Keys == {"color", "opacity", "rgba"}
      && raw["color"] == ItemAt(cell, 0)
      && raw["opacity"] == ItemAt(cell, 1)
      && raw["rgba"] == Str(Hex2Rgba(ColorArgument(ItemAt(cell, 0)), ItemAt(cell, 1)))
  {
    var cell := Lookup(row, colName);
    var color, opacity := ItemAt(cell, 0), ItemAt(cell, 1);
    var raw := map["color" := color, "opacity" := opacity];
    var rgba :=
      if !LooselyNull(opacity) then Hex2Rgba(ColorArgument(color), opacity)
      else Hex2Rgba(ColorArgument(color), Bool(false));
    LooselyNullIsFalsy(opacity);
    FalsyOpacityIsNone(ColorArgument(color), opacity);
    map["raw" := Arr(raw["rgba" := Str(rgba)])]
  }

  /** The one opacity that is passed on yet still gives rgb() is the string
      "0"; every other stored opacity gives rgba() for a convertible colour
      exactly when it is passed on. */
  lemma RawRgbaForm(row: map<string, Value>, colName: string)
    requires CellIsColor(row, colName)
    ensures var cell := Lookup(row, colName);
      var color, opacity := ColorArgument(ItemAt(cell, 0)), ItemAt(cell, 1);
      var css := ParseCss(RawResult(row, colName)["raw"].entries["rgba"].s);
      && css.Some?
      && (css.value.Rgba? <==> Convertible(color) && !LooselyNull(opacity) && opacity != Str("0"))
  {
    var cell := Lookup(row, colName);
    LooselyNullIsFalsy(ItemAt(cell, 1));
  }

  /** Without a template, parseValue() parses its own result again (the
      else branch of Color.php:124-127) and returns that second result
      whole.  Its row is the first result, which has no column of the
      attribute's name, so the 'raw' it returns has lost the stored colour
      and opacity and holds black, whatever the stored cell was. */
  lemma ReparsedRawIsBlank(row: map<string, Value>, colName: string)
    requires CellIsColor(row, colName) && colName != "raw"
    ensures CellIsColor(RawResult(row, colName), colName)
    ensures RawResult(RawResult(row, colName), colName)["raw"].entries
      == map["color" := Null, "opacity" := Null, "rgba" := Str(Default)]
  {
    var first := RawResult(row, colName);
    assert Lookup(first, colName) == Null;
    Hex2RgbaFallsBack("", Null);
    var raw := RawResult(first, colName)["raw"].entries;
    assert raw.Keys == {"color", "opacity", "rgba"};
  }
}
