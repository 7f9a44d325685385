/** A reader for the two CSS colour notations the attribute emits,
    `rgb(r,g,b)` and `rgba(r,g,b,a)`.  It gives the emitted strings a meaning
    against which the converter is specified. */
module CssRgb {
  import opened PhpRuntime

  datatype Option<T> = None | Some(value: T)

  /** A colour as CSS reads it: three decimal channels and, for rgba, the
      alpha text that follows the third comma. */
  datatype Css =
    | Rgb(r: nat, g: nat, b: nat)
    | Rgba(r: nat, g: nat, b: nat, alpha: string)

  /** s split at its first comma. */
  function SplitComma(s: string): (r: Option<(string, string)>)
    ensures r.Some? ==> ',' !in r.value.0 && s == r.value.0 + "," + r.value.1
    ensures r.None? ==> ',' !in s
  {
    if s == [] then None
    else if s[0] == ',' then Some(([], s[1..]))
    else
      match SplitComma(s[1..])
      case None => None
      case Some((a, b)) => Some(([s[0]] + a, b))
  }

  /** Splitting text that has its first comma right after a gives a. */
  lemma {:induction false} SplitCommaAt(a: string, b: string)
    requires ',' !in a
    ensures SplitComma(a + "," + b) == Some((a, b))
  {
    if a == [] {
      assert (a + "," + b)[1..] == b;
    } else {
      assert a[0] in a;
      assert (a + "," + b)[0] == a[0];
      assert (a + "," + b)[1..] == a[1..] + "," + b;
      SplitCommaAt(a[1..], b);
      assert [a[0]] + a[1..] == a;
    }
  }

  /** The arguments of rgb(): exactly three decimal numerals. */
  function RgbArguments(s: string): (css: Option<Css>)
  {
    match SplitComma(s)
    case None => None
    case Some((r, rest)) =>
      match SplitComma(rest)
      case None => None
      case Some((g, b)) =>
        if IsNumeral(r) && IsNumeral(g) && IsNumeral(b) then
          Some(Rgb(DigitsValue(r), DigitsValue(g), DigitsValue(b)))
        else None
  }

  /** The arguments of rgba(): three decimal numerals, then the alpha text. */
  function RgbaArguments(s: string): (css: Option<Css>)
  {
    match SplitComma(s)
    case None => None
    case Some((r, rest)) =>
      match SplitComma(rest)
      case None => None
      case Some((g, rest')) =>
        match SplitComma(rest')
        case None => None
        case Some((b, alpha)) =>
          if IsNumeral(r) && IsNumeral(g) && IsNumeral(b) then
            Some(Rgba(DigitsValue(r), DigitsValue(g), DigitsValue(b), alpha))
          else None
  }

  function ParseCss(s: string): (css: Option<Css>)
  {
    if |s| >= 6 && s[..5] == "rgba(" && s[|s| - 1] == ')' then RgbaArguments(s[5..|s| - 1])
    else if |s| >= 5 && s[..4] == "rgb(" && s[|s| - 1] == ')' then RgbArguments(s[4..|s| - 1])
    else None
  }

  lemma NumeralHasNoComma(s: string)
    requires AllDigits(s)
    ensures ',' !in s
  {
  }

  lemma ParseRgbText(args: string)
    ensures ParseCss("rgb(" + args + ")") == RgbArguments(args)
  {
    var s := "rgb(" + args + ")";
    assert s[3] == '(';
    assert s[..4] == "rgb(";
    assert s[4..|s| - 1] == args;
  }

  lemma ParseRgbaText(args: string)
    ensures ParseCss("rgba(" + args + ")") == RgbaArguments(args)
  {
    var s := "rgba(" + args + ")";
    assert s[..5] == "rgba(";
    assert s[5..|s| - 1] == args;
  }

  lemma RgbArgumentsOf(r: string, g: string, b: string)
    requires IsNumeral(r) && IsNumeral(g) && IsNumeral(b)
    ensures RgbArguments(r + "," + g + "," + b) == Some(Rgb(DigitsValue(r), DigitsValue(g), DigitsValue(b)))
  {
    NumeralHasNoComma(r);
    NumeralHasNoComma(g);
    assert r + "," + g + "," + b == r + "," + (g + "," + b);
    SplitCommaAt(r, g + "," + b);
    SplitCommaAt(g, b);
  }

  lemma RgbaArgumentsOf(r: string, g: string, b: string, alpha: string)
    requires IsNumeral(r) && IsNumeral(g) && IsNumeral(b)
    ensures RgbaArguments(r + "," + g + "," + b + "," + alpha)
         == Some(Rgba(DigitsValue(r), DigitsValue(g), DigitsValue(b), alpha))
  {
    NumeralHasNoComma(r);
    NumeralHasNoComma(g);
    NumeralHasNoComma(b);
    assert r + "," + g + "," + b + "," + alpha == r + "," + (g + "," + (b + "," + alpha));
    SplitCommaAt(r, g + "," + (b + "," + alpha));
    SplitCommaAt(g, b + "," + alpha);
    SplitCommaAt(b, alpha);
  }

  /** The rgb() text of three numbers. */
  function RgbText(r: nat, g: nat, b: nat): (s: string)
  {
    "rgb(" + NatToString(r) + "," + NatToString(g) + "," + NatToString(b) + ")"
  }

  /** The rgba() text of three numbers and an alpha. */
  function RgbaText(r: nat, g: nat, b: nat, alpha: string): (s: string)
  {
    "rgba(" + NatToString(r) + "," + NatToString(g) + "," + NatToString(b) + "," + alpha + ")"
  }

  /** The rgb() text of three numbers reads back as those numbers. */
  lemma RgbReadsBack(r: nat, g: nat, b: nat)
    ensures ParseCss(RgbText(r, g, b)) == Some(Rgb(r, g, b))
  {
    var R, G, B := NatToString(r), NatToString(g), NatToString(b);
    NatToStringReadsBack(r);
    NatToStringReadsBack(g);
    NatToStringReadsBack(b);
    var args := R + "," + G + "," + B;
    assert "rgb(" + R + "," + G + "," + B + ")" == "rgb(" + args + ")";
    ParseRgbText(args);
    RgbArgumentsOf(R, G, B);
  }

  /** The rgba() text of three numbers and an alpha reads back as them. */
  lemma RgbaReadsBack(r: nat, g: nat, b: nat, alpha: string)
    ensures ParseCss(RgbaText(r, g, b, alpha)) == Some(Rgba(r, g, b, alpha))
  {
    var R, G, B := NatToString(r), NatToString(g), NatToString(b);
    NatToStringReadsBack(r);
    NatToStringReadsBack(g);
    NatToStringReadsBack(b);
    var args := R + "," + G + "," + B + "," + alpha;
    assert "rgba(" + R + "," + G + "," + B + "," + alpha + ")" == "rgba(" + args + ")";
    ParseRgbaText(args);
    RgbaArgumentsOf(R, G, B, alpha);
  }
}
