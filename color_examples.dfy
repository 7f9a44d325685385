/** Worked conversions of the colour attribute, each stated for concrete
    inputs. */
module ColorExamples {
  import opened PhpRuntime
  import opened CssRgb
  import opened ColorAttribute

  lemma SmallNumerals()
    ensures NatToString(0) == "0" && NatToString(1) == "1" && NatToString(255) == "255"
  {
    assert NatToString(25) == "25";
  }

  lemma HalfText()
    ensures DecimalToString(Decimal(5, 1)) == "0.5"
  {
    assert NatToString(5) == "5";
    assert PaddedDigits(Decimal(5, 1)) == "05";
    assert TrimTrailingZeros("5") == "5";
  }

  lemma FiftyHundredthsText()
    ensures DecimalToString(Decimal(50, 2)) == "0.5"
  {
    DecimalToStringScale(5, 1);
    HalfText();
  }

  lemma HexDecOfPairs()
    ensures HexDec("ff") == 255 && HexDec("00") == 0 && HexDec("zz") == 0
  {
    assert "ff"[..1] == "f" && "f"[..0] == "";
    assert "00"[..1] == "0" && "0"[..0] == "";
    assert "zz"[..1] == "z" && "z"[..0] == "";
  }

  lemma ChannelsOfRed()
    ensures Channels("ff0000") == [255, 0, 0]
  {
    HexDecOfPairs();
    assert "ff0000" == "ff" + "00" + "00";
    ChannelsOfPairs("ff", "00", "00");
  }

  lemma ChannelsOfShortRed()
    ensures Channels("f00") == [255, 0, 0]
  {
    HexDecOfPairs();
    assert HexPairs("f00") == ["ff", "00", "00"];
  }

  lemma ChannelsOfGreen()
    ensures Channels("00ff00") == [0, 255, 0]
  {
    HexDecOfPairs();
    assert "00ff00" == "00" + "ff" + "00";
    ChannelsOfPairs("00", "ff", "00");
  }

  lemma ChannelsOfBlue()
    ensures Channels("0000ff") == [0, 0, 255]
  {
    HexDecOfPairs();
    assert "0000ff" == "00" + "00" + "ff";
    ChannelsOfPairs("00", "00", "ff");
  }

  lemma ChannelsOfBlack()
    ensures Channels("000000") == [0, 0, 0]
  {
    HexDecOfPairs();
    assert "000000" == "00" + "00" + "00";
    ChannelsOfPairs("00", "00", "00");
  }

  lemma ChannelsOfNonHex()
    ensures Channels("zzzzzz") == [0, 0, 0]
  {
    HexDecOfPairs();
    assert "zzzzzz" == "zz" + "zz" + "zz";
    ChannelsOfPairs("zz", "zz", "zz");
  }

  lemma AlphaOfFifty()
    ensures Alpha(Int(50)) == "0.5"
  {
    FiftyHundredthsText();
  }

  lemma AlphaOfFiftyText()
    ensures Alpha(Str("50")) == "0.5"
  {
    IntToStringReadsBack(50);
    assert IntToString(50) == "50" by {
      assert NatToString(5) == "5";
    }
    FiftyHundredthsText();
  }

  lemma AlphaOfHalf()
    ensures Alpha(Float(Decimal(5, 1))) == "0.5"
  {
    HalfText();
  }

  lemma RedText()
    ensures RgbText(255, 0, 0) == "rgb(255,0,0)"
    ensures RgbaText(255, 0, 0, "0.5") == "rgba(255,0,0,0.5)"
  {
    SmallNumerals();
  }

  lemma GreenText()
    ensures RgbaText(0, 255, 0, "0.5") == "rgba(0,255,0,0.5)"
  {
    SmallNumerals();
  }

  lemma BlueText()
    ensures RgbaText(0, 0, 255, "0.5") == "rgba(0,0,255,0.5)"
  {
    SmallNumerals();
  }

  lemma BlackText()
    ensures RgbText(0, 0, 0) == "rgb(0,0,0)"
    ensures RgbaText(0, 0, 0, "0.5") == "rgba(0,0,0,0.5)"
  {
    SmallNumerals();
  }

  lemma OpaqueBlackText()
    ensures RgbaText(0, 0, 0, "1") == "rgba(0,0,0,1)"
  {
    SmallNumerals();
  }

  /** A six-digit colour without '#' and a truthy opacity give rgba(). */
  lemma ConvertsWithAlpha(c: string, rgb: seq<nat>, opacity: Value, alpha: string)
    requires |c| == 6 && c[0] != '#' && !opacity.Arr? && Truthy(opacity)
    requires Channels(c) == rgb && Alpha(opacity) == alpha
    ensures Hex2Rgba(c, opacity) == RgbaText(rgb[0], rgb[1], rgb[2], alpha)
  {
  }

  /** A '#' and three characters and a truthy opacity give rgba(). */
  lemma ConvertsShortWithAlpha(c: string, rgb: seq<nat>, opacity: Value, alpha: string)
    requires |c| == 4 && c[0] == '#' && !opacity.Arr? && Truthy(opacity)
    requires Channels(c[1..]) == rgb && Alpha(opacity) == alpha
    ensures Hex2Rgba(c, opacity) == RgbaText(rgb[0], rgb[1], rgb[2], alpha)
  {
  }

  /** "ff0000" is red. */
  lemma Red()
    ensures Hex2Rgba("ff0000", Bool(false)) == "rgb(255,0,0)"
  {
    ChannelsOfRed();
    RedText();
  }

  /** "#ff0000" is red too. */
  lemma RedWithHash()
    ensures Hex2Rgba("#ff0000", Bool(false)) == "rgb(255,0,0)"
  {
    assert "#ff0000"[1..] == "ff0000";
    Hex2RgbaConverts("#ff0000", Bool(false));
    ChannelsOfRed();
    RedText();
  }

  /** "f00" is the short form of red. */
  lemma RedShortForm()
    ensures Hex2Rgba("f00", Bool(false)) == "rgb(255,0,0)"
  {
    Hex2RgbaShortForm("f00", Bool(false));
    assert ['f', 'f', '0', '0', '0', '0'] == "ff0000";
    Red();
  }

  lemma RedAtHalf()
    ensures Hex2Rgba("ff0000", Str("50")) == "rgba(255,0,0,0.5)"
  {
    ChannelsOfRed();
    AlphaOfFiftyText();
    ConvertsWithAlpha("ff0000", [255, 0, 0], Str("50"), "0.5");
    RedText();
  }

  /** "#f00" at opacity "50", the text a database row holds. */
  lemma RedAtHalfFromText()
    ensures Hex2Rgba("#f00", Str("50")) == "rgba(255,0,0,0.5)"
  {
    ChannelsOfShortRed();
    AlphaOfFiftyText();
    assert "#f00"[1..] == "f00";
    ConvertsShortWithAlpha("#f00", [255, 0, 0], Str("50"), "0.5");
    RedText();
  }

  /** "00ff00" at opacity 50 is green at half alpha. */
  lemma GreenAtHalf()
    ensures Hex2Rgba("00ff00", Int(50)) == "rgba(0,255,0,0.5)"
  {
    ChannelsOfGreen();
    AlphaOfFifty();
    ConvertsWithAlpha("00ff00", [0, 255, 0], Int(50), "0.5");
    GreenText();
  }

  /** "0000ff" at opacity 0.5 is blue, the fraction kept as it is. */
  lemma BlueAtHalf()
    ensures Hex2Rgba("0000ff", Float(Decimal(5, 1))) == "rgba(0,0,255,0.5)"
  {
    ChannelsOfBlue();
    AlphaOfHalf();
    ConvertsWithAlpha("0000ff", [0, 0, 255], Float(Decimal(5, 1)), "0.5");
    BlueText();
  }

  /** There is no check that the characters are hex digits: "zzzzzz" is
      converted, to black. */
  lemma NonHexIsBlack()
    ensures Hex2Rgba("zzzzzz", Bool(false)) == "rgb(0,0,0)"
  {
    ChannelsOfNonHex();
    BlackText();
  }

  /** ... and, unlike a colour that falls back, keeps its opacity. */
  lemma NonHexKeepsOpacity()
    ensures Hex2Rgba("zzzzzz", Int(50)) == "rgba(0,0,0,0.5)"
  {
    ChannelsOfNonHex();
    AlphaOfFifty();
    ConvertsWithAlpha("zzzzzz", [0, 0, 0], Int(50), "0.5");
    BlackText();
  }

  /** An opacity of 1 is not a percentage: it becomes alpha 1, full
      opacity. */
  lemma OpacityOne()
    ensures Hex2Rgba("000000", Int(1)) == "rgba(0,0,0,1)"
  {
    ChannelsOfBlack();
    assert Alpha(Int(1)) == "1" by {
      SmallNumerals();
    }
    OpaqueBlackText();
  }

  /** An opacity of 0 is falsy and gives rgb(). */
  lemma OpacityZero()
    ensures Hex2Rgba("000000", Int(0)) == "rgb(0,0,0)"
  {
    ChannelsOfBlack();
    BlackText();
  }

  /** A string that does not start like a number reads as 0 and is its own
      alpha. */
  lemma AlphaOfWord(w: string)
    requires w != [] && !IsSpace(w[0]) && !IsDigit(w[0]) && w[0] !in "+-."
    ensures Alpha(Str(w)) == w
  {
    assert SkipSpace(w) == w;
    assert DigitRun(w) == [];
    assert w[0..] == w;
  }

  lemma WordIsNotDecimal()
    ensures !IsDecimalText("abc")
  {
    forall k | 0 < k <= 3
      ensures !IsNumeral("abc"[..k])
    {
      assert "abc"[..k][0] == 'a';
    }
  }

  /** A non-numeric string opacity is truthy, reads as 0 in abs(), and is
      written into rgba() unchanged: the output is not a CSS colour. */
  lemma WordOpacityPassesThrough()
    ensures Hex2Rgba("000000", Str("abc")) == "rgba(0,0,0,abc)"
  {
    ChannelsOfBlack();
    AlphaOfWord("abc");
    ConvertsWithAlpha("000000", [0, 0, 0], Str("abc"), "abc");
    WordText();
  }

  lemma WordText()
    ensures RgbaText(0, 0, 0, "abc") == "rgba(0,0,0,abc)"
  {
    SmallNumerals();
  }

  /** A stored colour "#f00" with opacity "50", as a row holds them. */
  lemma StoredColorRaw()
    ensures var row := map["color" := Arr(map["0" := Str("#f00"), "1" := Str("50")])];
      RawResult(row, "color")["raw"].entries
        == map["color" := Str("#f00"), "opacity" := Str("50"), "rgba" := Str("rgba(255,0,0,0.5)")]
  {
    var row := map["color" := Arr(map["0" := Str("#f00"), "1" := Str("50")])];
    assert NatToString(0) == "0" && NatToString(1) == "1";
    assert ItemAt(row["color"], 0) == Str("#f00");
    assert ItemAt(row["color"], 1) == Str("50");
    assert ColorArgument(Str("#f00")) == "#f00";
    RedAtHalfFromText();
  }
}
