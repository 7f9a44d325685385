/** The part of PHP's value semantics that the colour attribute relies on:
    values, conversion to boolean, loose comparison with null, the
    conversions between numbers and strings, array reads, implode() and
    hexdec(). */
module PhpRuntime {

  /** The number mant / 10^exp, held exactly.  A PHP integer i is
      Decimal(i, 0); a PHP float is represented by the decimal PHP prints for
      it (14 significant digits), so 0.7 is Decimal(7, 1).  Binary doubles
      are not modelled, so beyond 14 significant digits the model keeps
      digits that PHP rounds away. */
  datatype Decimal = Decimal(mant: int, exp: nat)

  /** A PHP value.  Array keys are strings: PHP stores a key that spells a
      decimal integer as that integer, so integer key k is written as the
      decimal string of k. */
  datatype Value =
    | Null
    | Bool(b: bool)
    | Int(i: int)
    | Float(d: Decimal)
    | Str(s: string)
    | Arr(entries: map<string, Value>)

  function Abs(x: int): (a: nat)
  {
    if x < 0 then -x else x
  }

  function Pow10(n: nat): (r: nat)
    ensures r >= 1
  {
    if n == 0 then 1 else 10 * Pow10(n - 1)
  }

  lemma {:induction false} Pow10Add(a: nat, b: nat)
    ensures Pow10(a + b) == Pow10(a) * Pow10(b)
  {
    if b > 0 {
      Pow10Add(a, b - 1);
      calc {
        Pow10(a + b);
        10 * Pow10(a + b - 1);
        10 * (Pow10(a) * Pow10(b - 1));
        Pow10(a) * (10 * Pow10(b - 1));
      }
    }
  }

  /** Two decimals denote the same number. */
  predicate SameValue(x: Decimal, y: Decimal)
  {
    x.mant * Pow10(y.exp) == y.mant * Pow10(x.exp)
  }

  // ---------------------------------------------------------------------
  // Booleans and null

  /** Conversion to boolean, as `if ($v)` performs it. */
  predicate Truthy(v: Value)
  {
    match v
    case Null => false
    case Bool(b) => b
    case Int(i) => i != 0
    case Float(d) => d.mant != 0
    case Str(s) => s != "" && s != "0"
    case Arr(m) => m != map[]
  }

  /** The loose comparison `$v == null`: null compares with a string as the
      empty string and with anything else as false. */
  predicate LooselyNull(v: Value)
  {
    match v
    case Null => true
    case Bool(b) => !b
    case Int(i) => i == 0
    case Float(d) => d.mant == 0
    case Str(s) => s == ""
    case Arr(m) => m == map[]
  }

  /** Every value loosely equal to null is falsy; the string "0" is the one
      falsy value that is not loosely equal to null. */
  lemma LooselyNullIsFalsy(v: Value)
    ensures LooselyNull(v) ==> !Truthy(v)
    ensures !Truthy(v) && !LooselyNull(v) <==> v == Str("0")
  {
  }

  // ---------------------------------------------------------------------
  // Decimal numerals

  predicate IsDigit(c: char)
  {
    '0' <= c <= '9'
  }

  predicate AllDigits(s: string)
  {
    forall i :: 0 <= i < |s| ==> IsDigit(s[i])
  }

  predicate IsNumeral(s: string)
  {
    |s| > 0 && AllDigits(s)
  }

  /** A decimal numeral with nothing around it: an optional '-', digits,
      and optionally a point followed by at least one digit. */
  predicate IsDecimalText(s: string)
  {
    var u := if s != [] && s[0] == '-' then s[1..] else s;
    exists k :: 0 < k <= |u| && IsNumeral(u[..k]) && (k == |u| || (u[k] == '.' && IsNumeral(u[k + 1..])))
  }

  function DigitChar(d: nat): (c: char)
    requires d < 10
    ensures IsDigit(c)
  {
    ('0' as int + d) as char
  }

  function DigitValue(c: char): (v: nat)
    requires IsDigit(c)
  {
    c as int - '0' as int
  }

  /** The number a string of decimal digits spells (0 for the empty string). */
  function DigitsValue(s: string): (v: nat)
    requires AllDigits(s)
  {
    if s == [] then 0 else 10 * DigitsValue(s[..|s| - 1]) + DigitValue(s[|s| - 1])
  }

  /** PHP's rendering of a non-negative integer: decimal digits, with no
      leading zero unless the number is 0. */
  function NatToString(n: nat): (s: string)
    ensures IsNumeral(s)
    ensures s[0] == '0' <==> n == 0
    ensures n == 0 ==> s == "0"
  {
    if n < 10 then [DigitChar(n)] else NatToString(n / 10) + [DigitChar(n % 10)]
  }

  /** Reading a rendered integer back gives the integer. */
  lemma {:induction false} NatToStringReadsBack(n: nat)
    ensures DigitsValue(NatToString(n)) == n
  {
    if n >= 10 {
      NatToStringReadsBack(n / 10);
      var s := NatToString(n);
      assert s[..|s| - 1] == NatToString(n / 10);
    }
  }

  /** PHP's rendering of an integer. */
  function IntToString(i: int): (s: string)
  {
    if i < 0 then "-" + NatToString(-i) else NatToString(i)
  }

  function Zeros(n: nat): (z: string)
    ensures |z| == n && AllDigits(z)
    ensures forall k :: 0 <= k < n ==> z[k] == '0'
  {
    if n == 0 then [] else Zeros(n - 1) + ['0']
  }

  /** s preceded by enough zeros to make it at least width characters long. */
  function PadLeft(s: string, width: nat): (r: string)
    ensures |r| >= width && |r| >= |s|
    ensures AllDigits(s) ==> AllDigits(r)
  {
    if |s| < width then Zeros(width - |s|) + s else s
  }

  /** s without its trailing zeros. */
  function TrimTrailingZeros(s: string): (r: string)
    ensures |r| <= |s| && r == s[..|r|]
    ensures forall k :: |r| <= k < |s| ==> s[k] == '0'
    ensures r == [] || r[|r| - 1] != '0'
  {
    if s != [] && s[|s| - 1] == '0' then TrimTrailingZeros(s[..|s| - 1]) else s
  }

  /** The trimmed zeros and the rest make up s again. */
  lemma TrimSplit(s: string)
    ensures var r := TrimTrailingZeros(s);
      s == r + Zeros(|s| - |r|)
  {
    var r := TrimTrailingZeros(s);
    var z := Zeros(|s| - |r|);
    assert forall k :: 0 <= k < |s| ==> s[k] == (r + z)[k];
  }

  /** The digits of |d.mant|, with enough leading zeros that at least one
      digit stands before the decimal point. */
  function PaddedDigits(d: Decimal): (s: string)
    ensures |s| > d.exp && AllDigits(s)
  {
    PadLeft(NatToString(Abs(d.mant)), d.exp + 1)
  }

  /** The digits before the decimal point. */
  function WholeDigits(d: Decimal): (w: string)
  {
    var s := PaddedDigits(d);
    s[..|s| - d.exp]
  }

  /** The digits after the decimal point, without trailing zeros. */
  function FractionDigits(d: Decimal): (f: string)
  {
    var s := PaddedDigits(d);
    TrimTrailingZeros(s[|s| - d.exp..])
  }

  /** A float (or an exact integer quotient) converted to a string: the
      decimal expansion without trailing zeros in the fraction and without a
      trailing point. */
  function DecimalToString(d: Decimal): (s: string)
  {
    (if d.mant < 0 then "-" else "") + WholeDigits(d) + (if FractionDigits(d) == [] then "" else "." + FractionDigits(d))
  }

  /** The string conversion `(string)$v` of a value. */
  function ToPhpString(v: Value): (s: string)
  {
    match v
    case Null => ""
    case Bool(b) => if b then "1" else ""
    case Int(i) => IntToString(i)
    case Float(d) => DecimalToString(d)
    case Str(s) => s
    case Arr(_) => "Array"
  }

  // ---------------------------------------------------------------------
  // Strings read as numbers

  predicate IsSpace(c: char)
  {
    c == ' ' || c == '\t' || c == '\n' || c == '\r' || c == '\U{B}' || c == '\U{C}'
  }

  function SkipSpace(s: string): (r: string)
    ensures |r| <= |s|
  {
    if s != [] && IsSpace(s[0]) then SkipSpace(s[1..]) else s
  }

  /** The longest prefix of s made of decimal digits. */
  function DigitRun(s: string): (r: string)
    ensures |r| <= |s| && r == s[..|r|] && AllDigits(r)
    ensures |r| < |s| ==> !IsDigit(s[|r|])
  {
    if s != [] && IsDigit(s[0]) then [s[0]] + DigitRun(s[1..]) else []
  }

  /** An unsigned number at the start of s: digits, optionally a point and
      more digits. */
  function UnsignedPrefix(s: string): (d: Decimal)
  {
    var whole := DigitRun(s);
    var rest := s[|whole|..];
    if rest != [] && rest[0] == '.' then
      var fraction := DigitRun(rest[1..]);
      Decimal(DigitsValue(whole + fraction), |fraction|)
    else
      Decimal(DigitsValue(whole), 0)
  }

  /** The number a string converts to in arithmetic: the numeric prefix after
      leading white space, and 0 when there is none. */
  function LeadingNumber(s: string): (d: Decimal)
  {
    var t := SkipSpace(s);
    if t != [] && t[0] == '-' then
      var d := UnsignedPrefix(t[1..]);
      Decimal(-d.mant, d.exp)
    else if t != [] && t[0] == '+' then
      UnsignedPrefix(t[1..])
    else
      UnsignedPrefix(t)
  }

  /** The number a scalar converts to in `abs()` and `/`. */
  function ToNumber(v: Value): (d: Decimal)
    requires !v.Arr?
  {
    match v
    case Null => Decimal(0, 0)
    case Bool(b) => Decimal(if b then 1 else 0, 0)
    case Int(i) => Decimal(i, 0)
    case Float(d) => d
    case Str(s) => LeadingNumber(s)
  }

  lemma {:induction false} DigitRunOfDigits(a: string, b: string)
    requires AllDigits(a)
    requires b == [] || !IsDigit(b[0])
    ensures DigitRun(a + b) == a
  {
    if a != [] {
      assert (a + b)[1..] == a[1..] + b;
      DigitRunOfDigits(a[1..], b);
    }
  }

  /** An integer rendered by PHP converts back to the same integer. */
  lemma IntToStringReadsBack(i: int)
    ensures LeadingNumber(IntToString(i)) == Decimal(i, 0)
  {
    var n := NatToString(Abs(i));
    NatToStringReadsBack(Abs(i));
    ParseUnsigned(n, []);
    assert n + [] == n && n + "" == n;
    ParseSigned(i < 0, n);
    assert IntToString(i) == (if i < 0 then "-" else "") + n;
  }

  /** The string form of a scalar converts back to the scalar's number. */
  lemma ToPhpStringReadsBack(v: Value)
    requires !v.Arr?
    ensures SameValue(LeadingNumber(ToPhpString(v)), ToNumber(v))
  {
    match v
    case Null =>
    case Bool(b) =>
      if b {
        IntToStringReadsBack(1);
      }
    case Int(i) =>
      IntToStringReadsBack(i);
    case Float(d) =>
      DecimalToStringReadsBack(d);
    case Str(s) =>
  }

  // ---------------------------------------------------------------------
  // Decimal rendering

  lemma {:induction false} DigitsValueAppend(a: string, b: string)
    requires AllDigits(a) && AllDigits(b)
    ensures DigitsValue(a + b) == DigitsValue(a) * Pow10(|b|) + DigitsValue(b)
  {
    if b == [] {
      assert a + b == a;
    } else {
      var b' := b[..|b| - 1];
      assert (a + b)[..|a + b| - 1] == a + b';
      DigitsValueAppend(a, b');
      var x, p, y, v := DigitsValue(a), Pow10(|b'|), DigitsValue(b'), DigitValue(b[|b| - 1]);
      assert DigitsValue(a + b) == 10 * (x * p + y) + v;
      assert 10 * (x * p) == x * (10 * p) by {
        MulAssoc(x, p);
      }
      assert Pow10(|b|) == 10 * p;
    }
  }

  lemma MulAssoc(x: nat, p: nat)
    ensures 10 * (x * p) == x * (10 * p)
  {
  }

  lemma {:induction false} ZerosValue(k: nat)
    ensures DigitsValue(Zeros(k)) == 0
  {
    if k > 0 {
      ZerosValue(k - 1);
    }
  }

  lemma PaddedDigitsValue(d: Decimal)
    ensures DigitsValue(PaddedDigits(d)) == Abs(d.mant)
  {
    var s := NatToString(Abs(d.mant));
    NatToStringReadsBack(Abs(d.mant));
    if |s| < d.exp + 1 {
      DigitsValueAppend(Zeros(d.exp + 1 - |s|), s);
      ZerosValue(d.exp + 1 - |s|);
    }
  }

  /** The padded digits are the whole part, the trimmed fraction and the
      trimmed zeros, in that order. */
  lemma SplitDigits(d: Decimal)
    ensures |FractionDigits(d)| <= d.exp
    ensures PaddedDigits(d) == WholeDigits(d) + FractionDigits(d) + Zeros(d.exp - |FractionDigits(d)|)
  {
    var s := PaddedDigits(d);
    var tail := s[|s| - d.exp..];
    assert s == WholeDigits(d) + tail;
    TrimSplit(tail);
  }

  lemma ParseUnsigned(w: string, f: string)
    requires IsNumeral(w) && AllDigits(f)
    ensures AllDigits(w + f)
    ensures UnsignedPrefix(w + (if f == [] then "" else "." + f)) == Decimal(DigitsValue(w + f), |f|)
  {
    var text := if f == [] then "" else "." + f;
    DigitRunOfDigits(w, text);
    var u := w + text;
    assert u[|w|..] == text;
    if f != [] {
      DigitRunOfDigits(f, []);
      assert text[1..] == f + [];
    } else {
      assert w + f == w;
    }
  }

  lemma ParseSigned(negative: bool, u: string)
    requires u != [] && IsDigit(u[0])
    ensures var p := UnsignedPrefix(u);
      LeadingNumber((if negative then "-" else "") + u) == Decimal(if negative then -p.mant else p.mant, p.exp)
  {
    var s := (if negative then "-" else "") + u;
    assert SkipSpace(s) == s;
    if negative {
      assert s[1..] == u;
    } else {
      assert s == u;
    }
  }

  lemma RenderedDigits(d: Decimal)
    ensures IsNumeral(WholeDigits(d)) && AllDigits(FractionDigits(d))
  {
    var s := PaddedDigits(d);
    var w, f := WholeDigits(d), FractionDigits(d);
    SplitDigits(d);
    assert forall i :: 0 <= i < |w| ==> w[i] == s[i];
    assert forall i :: 0 <= i < |f| ==> f[i] == s[|w| + i];
  }

  /** Rendering writes a decimal numeral and nothing else. */
  lemma RenderedIsDecimalText(d: Decimal)
    ensures IsDecimalText(DecimalToString(d))
  {
    RenderedDigits(d);
    PartsAreDecimalText(d.mant < 0, WholeDigits(d), FractionDigits(d));
  }

  lemma PartsAreDecimalText(negative: bool, w: string, f: string)
    requires IsNumeral(w) && AllDigits(f)
    ensures IsDecimalText((if negative then "-" else "") + w + (if f == [] then "" else "." + f))
  {
    var sign, text := if negative then "-" else "", if f == [] then "" else "." + f;
    var s, u := sign + w + text, w + text;
    assert s == sign + u;
    if negative {
      assert s[0] == '-' && s[1..] == u;
    } else {
      assert s == u && s[0] == w[0];
    }
    assert (if s != [] && s[0] == '-' then s[1..] else s) == u;
    assert u[..|w|] == w;
    if f != [] {
      assert u[|w|] == '.' && u[|w| + 1..] == f;
    }
    assert 0 < |w| <= |u| && IsNumeral(u[..|w|]) && (|w| == |u| || (u[|w|] == '.' && IsNumeral(u[|w| + 1..])));
  }

  /** The rendered string read as a number. */
  lemma ParseRendered(d: Decimal)
    ensures var w, f := WholeDigits(d), FractionDigits(d);
      AllDigits(w + f) &&
      LeadingNumber(DecimalToString(d)) == Decimal((if d.mant < 0 then -1 else 1) * DigitsValue(w + f), |f|)
  {
    RenderedDigits(d);
    ParseParts(d.mant < 0, WholeDigits(d), FractionDigits(d));
  }

  /** A sign, a numeral and an optional fraction read as a number. */
  lemma ParseParts(negative: bool, w: string, f: string)
    requires IsNumeral(w) && AllDigits(f)
    ensures AllDigits(w + f)
    ensures LeadingNumber((if negative then "-" else "") + w + (if f == [] then "" else "." + f))
         == Decimal((if negative then -1 else 1) * DigitsValue(w + f), |f|)
  {
    var sign, text := if negative then "-" else "", if f == [] then "" else "." + f;
    ParseUnsigned(w, f);
    assert (w + text)[0] == w[0];
    ParseSigned(negative, w + text);
    assert sign + w + text == sign + (w + text);
  }

  /** A rendered decimal converts back to the number it renders. */
  lemma DecimalToStringReadsBack(d: Decimal)
    ensures SameValue(LeadingNumber(DecimalToString(d)), d)
  {
    var w, f := WholeDigits(d), FractionDigits(d);
    ParseRendered(d);
    TrimmedValue(d);
    ScaledReadsBack(LeadingNumber(DecimalToString(d)), d, DigitsValue(w + f), |f|);
  }

  /** A decimal with the sign of d whose digits, scaled up to d's exponent,
      give d's magnitude denotes the same number as d. */
  lemma ScaledReadsBack(x: Decimal, d: Decimal, v: nat, n: nat)
    requires n <= d.exp && v * Pow10(d.exp - n) == Abs(d.mant)
    requires x == Decimal((if d.mant < 0 then -1 else 1) * v, n)
    ensures SameValue(x, d)
  {
    var k := d.exp - n;
    Pow10Add(n, k);
    SameValueArith(if d.mant < 0 then -1 else 1, v, Pow10(k), Pow10(n), Pow10(d.exp), d.mant);
  }

  /** Trimming the fraction's trailing zeros divides the digits' value by a
      power of ten. */
  lemma TrimmedValue(d: Decimal)
    ensures AllDigits(WholeDigits(d) + FractionDigits(d))
    ensures |FractionDigits(d)| <= d.exp
    ensures DigitsValue(WholeDigits(d) + FractionDigits(d)) * Pow10(d.exp - |FractionDigits(d)|) == Abs(d.mant)
  {
    var w, f := WholeDigits(d), FractionDigits(d);
    RenderedDigits(d);
    SplitDigits(d);
    PaddedDigitsValue(d);
    AppendZerosValue(w, f, d.exp - |f|);
  }

  /** Appending k zeros to a numeral multiplies its value by 10^k. */
  lemma AppendZerosValue(w: string, f: string, k: nat)
    requires AllDigits(w) && AllDigits(f)
    ensures AllDigits(w + f)
    ensures DigitsValue(w + f + Zeros(k)) == DigitsValue(w + f) * Pow10(k)
  {
    assert forall i :: 0 <= i < |w + f| ==> (w + f)[i] == if i < |w| then w[i] else f[i - |w|];
    DigitsValueAppend(w + f, Zeros(k));
    ZerosValue(k);
  }

  lemma SameValueArith(sign: int, v: nat, pk: nat, pf: nat, pe: nat, mant: int)
    requires sign == 1 || sign == -1
    requires v * pk == Abs(mant) && (sign == -1 <==> mant < 0)
    requires pe == pf * pk
    ensures (sign * v) * pe == mant * pf
  {
    assert mant == sign * (v * pk);
    calc {
      (sign * v) * pe;
      (sign * v) * (pf * pk);
      (sign * (v * pk)) * pf;
    }
  }

  /** Rendering depends on the number only: a trailing zero in the mantissa
      that the exponent cancels does not change the string. */
  lemma DecimalToStringScale(m: int, e: nat)
    ensures DecimalToString(Decimal(10 * m, e + 1)) == DecimalToString(Decimal(m, e))
  {
    if m == 0 {
      DecimalZero(e);
      DecimalZero(e + 1);
    } else {
      PaddedScale(m, e);
      WholeAndFractionScale(Decimal(10 * m, e + 1), Decimal(m, e));
    }
  }

  /** Scaling a non-zero mantissa by ten appends one '0' to its digits. */
  lemma PaddedScale(m: int, e: nat)
    requires m != 0
    ensures PaddedDigits(Decimal(10 * m, e + 1)) == PaddedDigits(Decimal(m, e)) + ['0']
  {
    var n := Abs(m);
    assert Abs(10 * m) == 10 * n;
    assert NatToString(10 * n) == NatToString(n) + ['0'] by {
      assert (10 * n) / 10 == n && (10 * n) % 10 == 0;
    }
    PadLeftAppend(NatToString(n), '0', e + 1);
  }

  lemma WholeAndFractionScale(d: Decimal, e: Decimal)
    requires d.exp == e.exp + 1 && PaddedDigits(d) == PaddedDigits(e) + ['0']
    ensures WholeDigits(d) == WholeDigits(e)
    ensures FractionDigits(d) == FractionDigits(e)
  {
    CutAppendZero(PaddedDigits(e), PaddedDigits(d), e.exp);
    WholeScale(d, e);
    FractionScale(d, e);
  }

  lemma WholeScale(d: Decimal, e: Decimal)
    requires d.exp == e.exp + 1
    requires var s, t := PaddedDigits(e), PaddedDigits(d); t[..|t| - (e.exp + 1)] == s[..|s| - e.exp]
    ensures WholeDigits(d) == WholeDigits(e)
  {
  }

  lemma FractionScale(d: Decimal, e: Decimal)
    requires d.exp == e.exp + 1
    requires var s, t := PaddedDigits(e), PaddedDigits(d); TrimTrailingZeros(t[|t| - (e.exp + 1)..]) == TrimTrailingZeros(s[|s| - e.exp..])
    ensures FractionDigits(d) == FractionDigits(e)
  {
  }

  /** Cutting a numeral with one more zero and one more place at the point
      gives the same whole part and, once trimmed, the same fraction. */
  lemma CutAppendZero(s: string, t: string, e: nat)
    requires |s| > e && t == s + ['0']
    ensures t[..|t| - (e + 1)] == s[..|s| - e]
    ensures TrimTrailingZeros(t[|t| - (e + 1)..]) == TrimTrailingZeros(s[|s| - e..])
  {
    var cut := |s| - e;
    assert t[..cut] == s[..cut];
    assert t[cut..] == s[cut..] + ['0'];
    TrimAppendZero(s[cut..]);
  }

  lemma PadLeftAppend(s: string, c: char, width: nat)
    ensures PadLeft(s + [c], width + 1) == PadLeft(s, width) + [c]
  {
  }

  lemma TrimAppendZero(s: string)
    ensures TrimTrailingZeros(s + ['0']) == TrimTrailingZeros(s)
  {
    assert (s + ['0'])[..|s|] == s;
  }

  lemma TrimAllZeros(n: nat)
    ensures TrimTrailingZeros(Zeros(n)) == []
  {
  }

  lemma ZerosTail(n: nat)
    ensures Zeros(n + 1)[1..] == Zeros(n)
  {
    var t := Zeros(n + 1)[1..];
    assert forall k :: 0 <= k < n ==> t[k] == '0';
  }

  /** Zero renders as "0" whatever its exponent. */
  lemma DecimalZero(e: nat)
    ensures DecimalToString(Decimal(0, e)) == "0"
  {
    var s := PaddedDigits(Decimal(0, e));
    assert NatToString(0) == "0";
    assert s == Zeros(e + 1) by {
      if e == 0 {
        assert s == "0";
      }
    }
    CutZeros(s, e);
  }

  /** e + 1 zeros cut e places from the right: a whole part "0" and no
      fraction. */
  lemma CutZeros(s: string, e: nat)
    requires s == Zeros(e + 1)
    ensures s[..|s| - e] == "0" && TrimTrailingZeros(s[|s| - e..]) == []
  {
    assert s[..1] == "0";
    ZerosTail(e);
    TrimAllZeros(e);
  }

  /** An integer renders the same way as an integer and as a float. */
  lemma DecimalOfInteger(i: int)
    ensures DecimalToString(Decimal(i, 0)) == IntToString(i)
  {
    var digits := NatToString(Abs(i));
    var d := Decimal(i, 0);
    assert PaddedDigits(d) == digits;
    assert WholeDigits(d) == digits by {
      assert digits[..|digits|] == digits;
    }
    assert FractionDigits(d) == [] by {
      assert digits[|digits|..] == [];
    }
    assert DecimalToString(d) == (if i < 0 then "-" else "") + digits + "";
    assert digits + "" == digits;
  }

  /** An integer written as a decimal with k zero places, such as 100/100
      held as 100 hundredths, prints as the integer. */
  lemma DecimalOfScaledInteger(i: int, k: nat)
    ensures DecimalToString(Decimal(i * Pow10(k), k)) == IntToString(i)
  {
    ScaledText(i, Decimal(i * Pow10(k), k));
  }

  lemma {:induction false} ScaledText(i: int, d: Decimal)
    requires d.mant == i * Pow10(d.exp)
    ensures DecimalToString(d) == IntToString(i)
    decreases d.exp
  {
    if d.exp == 0 {
      ScaledBase(i, d);
    } else {
      var e := Decimal(i * Pow10(d.exp - 1), d.exp - 1);
      MulPow10Step(i, d.exp);
      ScaledText(i, e);
      ScaledStep(d, e);
    }
  }

  lemma MulPow10Step(i: int, k: nat)
    requires k > 0
    ensures i * Pow10(k) == 10 * (i * Pow10(k - 1))
  {
    assert Pow10(k) == 10 * Pow10(k - 1);
  }

  lemma ScaledBase(i: int, d: Decimal)
    requires d.exp == 0 && d.mant == i * Pow10(d.exp)
    ensures DecimalToString(d) == IntToString(i)
  {
    assert d == Decimal(i, 0);
    DecimalOfInteger(i);
  }

  /** One more zero place in an integer-valued decimal changes nothing. */
  lemma ScaledStep(d: Decimal, e: Decimal)
    requires d.exp == e.exp + 1 && d.mant == 10 * e.mant
    ensures DecimalToString(d) == DecimalToString(e)
  {
    DecimalToStringScale(e.mant, e.exp);
  }

  // ---------------------------------------------------------------------
  // Arrays and strings

  /** Reading `$a[$k]`: a missing key reads as null. */
  function Lookup(m: map<string, Value>, k: string): (v: Value)
  {
    if k in m then m[k] else Null
  }

  /** Reading `$v[i]` for an integer i: an array by key, a string by byte
      (past the end, the empty string), and anything else as null. */
  function ItemAt(v: Value, i: nat): (item: Value)
  {
    match v
    case Arr(m) => Lookup(m, NatToString(i))
    case Str(s) => if i < |s| then Str([s[i]]) else Str("")
    case _ => Null
  }

  /** implode($sep, $parts). */
  function Implode(sep: string, parts: seq<string>): (s: string)
  {
    if |parts| == 0 then "" else if |parts| == 1 then parts[0] else parts[0] + sep + Implode(sep, parts[1..])
  }

  // ---------------------------------------------------------------------
  // hexdec()

  predicate IsHexDigit(c: char)
  {
    '0' <= c <= '9' || 'a' <= c <= 'f' || 'A' <= c <= 'F'
  }

  function HexDigitValue(c: char): (v: nat)
    requires IsHexDigit(c)
    ensures v < 16
  {
    if '0' <= c <= '9' then c as int - '0' as int
    else if 'a' <= c <= 'f' then c as int - 'a' as int + 10
    else c as int - 'A' as int + 10
  }

  /** The lower-case hex digit of d, as dechex() writes it. */
  function HexDigitChar(d: nat): (c: char)
    requires d < 16
    ensures IsHexDigit(c) && HexDigitValue(c) == d
  {
    if d < 10 then ('0' as int + d) as char else ('a' as int + d - 10) as char
  }

  function Pow16(n: nat): (r: nat)
    ensures r >= 1
  {
    if n == 0 then 1 else 16 * Pow16(n - 1)
  }

  /** hexdec($s): the hex digits of s read as a base-16 number; every other
      character is skipped. */
  function HexDec(s: string): (r: nat)
    ensures r < Pow16(|s|)
  {
    if s == [] then 0
    else
      var init, c := s[..|s| - 1], s[|s| - 1];
      if IsHexDigit(c) then 16 * HexDec(init) + HexDigitValue(c) else HexDec(init)
  }

  /** The hex digits of s, in order. */
  function HexOnly(s: string): (r: string)
    ensures forall k :: 0 <= k < |r| ==> IsHexDigit(r[k])
  {
    if s == [] then []
    else if IsHexDigit(s[|s| - 1]) then HexOnly(s[..|s| - 1]) + [s[|s| - 1]]
    else HexOnly(s[..|s| - 1])
  }

  /** hexdec() depends on the hex digits of its argument only. */
  lemma {:induction false} HexDecSkipsNonHex(s: string)
    ensures HexDec(s) == HexDec(HexOnly(s))
  {
    if s != [] {
      var init := s[..|s| - 1];
      HexDecSkipsNonHex(init);
      if IsHexDigit(s[|s| - 1]) {
        var h := HexOnly(init) + [s[|s| - 1]];
        assert h[..|h| - 1] == HexOnly(init);
      }
    }
  }

  /** Two lower-case hex digits of a byte read back as the byte. */
  lemma HexDecOfByte(n: nat)
    requires n < 256
    ensures HexDec([HexDigitChar(n / 16), HexDigitChar(n % 16)]) == n
  {
    var s := [HexDigitChar(n / 16), HexDigitChar(n % 16)];
    assert s[..1] == [s[0]];
    assert [s[0]][..0] == [];
  }
}
