/** The crate's documented and tested examples, stated about the model. */
module DocExamples {
  import opened Results
  import opened Text
  import opened Units
  import opened Grammar
  import opened Parser
  import opened Readings

  lemma ValueOf123()
    ensures AllDigits("123") && ValueOf("123") == 123
  {
    assert "" + ['1'] == "1";
    assert "1" + ['2'] == "12";
    assert "12" + ['3'] == "123";
    ValueOfSnoc("", '1');
    ValueOfSnoc("1", '2');
    ValueOfSnoc("12", '3');
  }

  lemma ValueOf1234()
    ensures AllDigits("1234") && ValueOf("1234") == 1234
  {
    ValueOf123();
    assert "123" + ['4'] == "1234";
    ValueOfSnoc("123", '4');
  }

  /** The table of `parse` examples: 1.23 of each unit, rounded down to whole bytes. */
  function DocumentedBytes(u: Unit): nat {
    match u
    case B => 1
    case KB => 1_230
    case MB => 1_230_000
    case GB => 1_230_000_000
    case TB => 1_230_000_000_000
    case PB => 1_230_000_000_000_000
    case KIB => 1_259
    case MIB => 1_289_748
    case GIB => 1_320_702_443
    case TIB => 1_352_399_302_164
    case PIB => 1_384_856_885_416_427
  }

  lemma OnePointTwoThreeBytes(u: Unit)
    ensures ByteCount(ParsedSize(Magnitude(123, 2), u)) == DocumentedBytes(u)
  {
    assert Pow10(2) == 100;
    CountsAs(ParsedSize(Magnitude(123, 2), u), DocumentedBytes(u));
  }

  /** "1.23" followed by any spelling of `u` reads as 123 hundredths of `u`. */
  lemma OnePointTwoThree(spaces: nat, tok: string, u: Unit)
    requires IsUnitToken(Ascii, tok) && UpperString(tok) == Token(u)
    ensures ParseSizeUnit("1.23" + Blanks(spaces) + tok) == Ok(ParsedSize(Magnitude(123, 2), u))
    ensures Parse("1.23" + Blanks(spaces) + tok) == Ok(DocumentedBytes(u))
  {
    assert "1" + "." + "23" == "1.23";
    assert "1" + "23" == "123";
    ValueOf123();
    DecimalReading("1", "23", spaces, tok, u);
    OnePointTwoThreeBytes(u);
  }

  /** The documented `parse` table, spelled as the documentation spells it. */
  lemma DocumentedParse(u: Unit)
    ensures Parse("1.23 " + Suffix(u)) == Ok(DocumentedBytes(u))
  {
    var tok := Suffix(u);
    SpellingsName(u);
    OnePointTwoThree(1, tok, u);
    assert "1.23" + Blanks(1) == "1.23 ";
  }

  /** The same table as the crate's tests spell it: no space, upper case. */
  lemma TestedParse(u: Unit)
    ensures Parse("1.23" + Token(u)) == Ok(DocumentedBytes(u))
  {
    var tok := Token(u);
    SpellingsName(u);
    OnePointTwoThree(0, tok, u);
    assert "1.23" + Blanks(0) == "1.23";
  }

  /** The crate's tests of `parse_size_unit` with 12.34 of each unit, with or without one space. */
  lemma TestedParseSizeUnit(spaces: nat, u: Unit)
    ensures ParseSizeUnit("12.34" + Blanks(spaces) + Spelling(u)) == Ok(ParsedSize(Magnitude(1234, 2), u))
    ensures ParseSizeUnit("12.34" + Blanks(spaces) + Suffix(u)) == Ok(ParsedSize(Magnitude(1234, 2), u))
  {
    SpellingsName(u);
    ValueOf1234();
    assert "12" + "." + "34" == "12.34";
    assert "12" + "34" == "1234";
    DecimalReading("12", "34", spaces, Spelling(u), u);
    DecimalReading("12", "34", spaces, Suffix(u), u);
  }

  /** The crate's test of `parse_size_unit` without a unit. */
  lemma TestedBare()
    ensures ParseSizeUnit("123") == Ok(ParsedSize(Magnitude(123, 0), B))
  {
    ValueOf123();
    BareReading("123");
  }

  /** The crate's test of `parse_size_unit` with a fraction and no unit. */
  lemma FractionExample()
    ensures ParseSizeUnit("12.34") == Ok(ParsedSize(Magnitude(1234, 2), B))
  {
    ValueOf1234();
    var t := SizeText("12", Some("34"), 0, None);
    assert Show(t) == "12.34";
    assert "12" + "34" == "1234";
    ReadsAs(t, "12.34", B);
  }

  /** The crate's test of `parse_size_unit` with a bare B. */
  lemma TestedBytes()
    ensures ParseSizeUnit("123B") == Ok(ParsedSize(Magnitude(123, 0), B))
  {
    ValueOf123();
    SpellingsName(B);
    IntegerReading("123", 0, "B", B);
    assert "123" + Blanks(0) + "B" == "123B";
  }

  lemma TestedBareBytes()
    ensures Parse("123") == Ok(123)
  {
    TestedBare();
    assert Pow10(0) == 1;
    CountsAs(ParsedSize(Magnitude(123, 0), B), 123);
  }

  lemma TestedBytesBytes()
    ensures Parse("123B") == Ok(123)
  {
    TestedBytes();
    assert Pow10(0) == 1;
    CountsAs(ParsedSize(Magnitude(123, 0), B), 123);
  }

  lemma OneHundredTwentyThreeBytes()
    ensures InUnit(123, KB) == 0.123
    ensures InUnit(123, MB) == 0.000123
  {
    InUnitIs(123, KB, 0.123);
    InUnitIs(123, MB, 0.000123);
  }

  /** The documented `parse_to` examples: 123 bytes in kilobytes and megabytes. */
  lemma DocumentedParseTo()
    ensures ParseTo("123B", KB) == Ok(0.123)
    ensures ParseTo("123B", MB) == Ok(0.000123)
  {
    OneHundredTwentyThreeBytes();
    TestedBytesBytes();
    ConvertsAs("123B", 123, KB, 0.123);
    ConvertsAs("123B", 123, MB, 0.000123);
  }

  /** The crate's test of `parse_to` without a unit. */
  lemma TestedParseTo()
    ensures ParseTo("123", KB) == Ok(0.123)
  {
    OneHundredTwentyThreeBytes();
    TestedBareBytes();
    ConvertsAs("123", 123, KB, 0.123);
  }

  /** The amounts the crate's `parse_to` tests print to two decimals as 1.23. */
  lemma OnePointTwoThreeInUnit(u: Unit)
    requires u != B
    ensures 1.225 <= InUnit(DocumentedBytes(u), u) < 1.235
  {
    var r := InUnit(DocumentedBytes(u), u);
    var m := Multiplier(u) as real;
    assert r * m == DocumentedBytes(u) as real;
    match u
    case KB => assert m == 1_000.0;
    case MB => assert m == 1_000_000.0;
    case GB => assert m == 1_000_000_000.0;
    case TB => assert m == 1_000_000_000_000.0;
    case PB => assert m == 1_000_000_000_000_000.0;
    case KIB => assert m == 1_024.0;
    case MIB => assert m == 1_048_576.0;
    case GIB => assert m == 1_073_741_824.0;
    case TIB => assert m == 1_099_511_627_776.0;
    case PIB => assert m == 1_125_899_906_842_624.0;
  }

  /** The crate's tests of `parse_to` back into the unit parsed: the amount,
      written with two decimals, is 1.23. */
  lemma TestedParseToSameUnit(u: Unit)
    requires u != B
    ensures ParseTo("1.23" + Token(u), u).Ok?
    ensures 1.225 <= ParseTo("1.23" + Token(u), u).value < 1.235
  {
    TestedParse(u);
    OnePointTwoThreeInUnit(u);
    ConvertsAs("1.23" + Token(u), DocumentedBytes(u), u, InUnit(DocumentedBytes(u), u));
  }

  /** The empty string is rejected. */
  lemma RejectsEmpty()
    ensures ParseSizeUnit("") == InvalidFormat
  {
    RejectsLeadingNonDigit("");
  }

  /** A word without digits is rejected. */
  lemma RejectsWord()
    ensures ParseSizeUnit("abc") == InvalidFormat
  {
    RejectsLeadingNonDigit("abc");
  }

  /** Leading spaces are not skipped. */
  lemma RejectsLeadingSpace()
    ensures ParseSizeUnit(" 1") == InvalidFormat
  {
    RejectsLeadingNonDigit(" 1");
  }

  /** A trailing point is rejected. */
  lemma RejectsTrailingPoint()
    ensures ParseSizeUnit("1.") == InvalidFormat
  {
    RejectsEmptyFraction("1", "");
    assert "1" + "." + "" == "1.";
  }

  /** An unknown unit is rejected, not read as bytes. */
  lemma RejectsUnknownUnitExample()
    ensures ParseSizeUnit("12.34XB") == InvalidFormat
  {
    XbIsNoToken();
    var t := SizeText("12", Some("34"), 0, None);
    assert Show(t) == "12.34";
    RejectsUnknownUnit(t, "XB");
    assert "12.34" + "XB" == "12.34XB";
  }

  /** Spaces do not make an unknown unit acceptable. */
  lemma RejectsSpacedUnknownUnit()
    ensures ParseSizeUnit("12 XB") == InvalidFormat
  {
    XbIsNoToken();
    var t := SizeText("12", None, 1, None);
    assert Show(t) == "12 ";
    RejectsUnknownUnit(t, "XB");
    assert "12 " + "XB" == "12 XB";
  }

  lemma XbIsNoToken()
    ensures !IsUnitToken(Ascii, "XB")
  {
    assert FoldString(Ascii, "XB")[0] == 'x';
  }
}
