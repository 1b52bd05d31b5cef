/** The crate's documented and tested examples of `format` and `format_to`. */
module FormatExamples {
  import opened Text
  import opened Units
  import opened Formatter

  /** "1.23" printed for 123 hundredths. */
  lemma NumberText123()
    ensures NumberText(123) == "1.23"
  {
    NumberTextHundredths(123);
    assert NatToDigits(1) == "1";
  }

  /** "1.25" printed for 125 hundredths. */
  lemma NumberText125()
    ensures NumberText(125) == "1.25"
  {
    NumberTextHundredths(125);
    assert NatToDigits(1) == "1";
  }

  /** "0.5" printed for 50 hundredths. */
  lemma NumberText50()
    ensures NumberText(50) == "0.5"
  {
    NumberTextTenths(50);
    assert NatToDigits(0) == "0";
  }

  lemma Digits123()
    ensures NatToDigits(123) == "123"
  {
    assert NatToDigits(1) == "1";
    assert NatToDigits(12) == NatToDigits(1) + [DigitChar(2)] == "12";
    assert NatToDigits(123) == NatToDigits(12) + [DigitChar(3)] == "123";
  }

  lemma Digits1000()
    ensures NatToDigits(1_000) == "1000"
  {
    assert NatToDigits(1) == "1";
    assert NatToDigits(10) == NatToDigits(1) + [DigitChar(0)] == "10";
    assert NatToDigits(100) == NatToDigits(10) + [DigitChar(0)] == "100";
    assert NatToDigits(1_000) == NatToDigits(100) + [DigitChar(0)] == "1000";
  }

  /** The documented `format(123)`. */
  lemma FormatBytesExample()
    ensures Format(123) == "123 B"
  {
    FormatSmall(123);
    Digits123();
  }

  /** The documented `format` table: 1.23 of each decimal unit above the byte. */
  lemma DocumentedFormat(u: Unit)
    requires IsDecimal(u) && u != B
    ensures Format(123 * (Multiplier(u) / 100)) == "1.23 " + Suffix(u)
  {
    DocumentedUnit(u);
    DocumentedRounding(u);
    NumberText123();
  }

  lemma DocumentedUnit(u: Unit)
    requires IsDecimal(u) && u != B
    ensures AutoUnit(123 * (Multiplier(u) / 100)) == u
  {
    assert Multiplier(u) / 100 * 100 == Multiplier(u);
    AutoUnitUnique(123 * (Multiplier(u) / 100), u);
  }

  lemma DocumentedRounding(u: Unit)
    requires IsDecimal(u) && u != B
    ensures RoundHundredths(123 * (Multiplier(u) / 100), Multiplier(u)) == 123
  {
    assert Multiplier(u) / 100 * 100 == Multiplier(u);
    RoundingUnique(123 * (Multiplier(u) / 100), Multiplier(u), 123);
  }

  /** The counts the crate's `format_to` tests expect to print as 1.25 units. */
  function RoundsToOnePointTwoFive(u: Unit): nat
    requires u != B
  {
    match u
    case KB => 1_245
    case MB => 1_245_000
    case GB => 1_245_000_000
    case TB => 1_245_000_000_000
    case PB => 1_245_000_000_000_000
    case KIB => 1_275
    case MIB => 1_306_525
    case GIB => 1_337_882_312
    case TIB => 1_369_991_488_208
    case PIB => 1_402_871_283_925_909
  }

  /** The crate's `format_to` tests that print 1.25 units, ties and near-ties included. */
  lemma TestedFormatTo(u: Unit)
    requires u != B
    ensures FormatTo(RoundsToOnePointTwoFive(u), u) == "1.25 " + Suffix(u)
  {
    TestedRounding(u);
    NumberText125();
  }

  lemma TestedRounding(u: Unit)
    requires u != B
    ensures RoundHundredths(RoundsToOnePointTwoFive(u), Multiplier(u)) == 125
  {
    RoundingUnique(RoundsToOnePointTwoFive(u), Multiplier(u), 125);
  }

  /** The crate's `format_to` tests that print half a unit. */
  lemma TestedFormatToHalf(u: Unit)
    requires u != B
    ensures FormatTo(Multiplier(u) / 2, u) == "0.5 " + Suffix(u)
  {
    var m := Multiplier(u);
    assert m / 2 * 2 == m;
    RoundingUnique(m / 2, m, 50);
    NumberText50();
  }

  /** The crate's `format_to(123, B)` test. */
  lemma TestedFormatToBytes()
    ensures FormatTo(123, B) == "123 B"
  {
    FormatToBytes(123);
    Digits123();
  }

  /** 999 999 bytes are below a megabyte, so `format` picks kilobytes, and the
      amount rounds up to a thousand of them. */
  lemma FormatJustBelowMegabyte()
    ensures Format(999_999) == "1000 KB"
  {
    AutoUnitUnique(999_999, KB);
    RoundingUnique(999_999, 1_000, 100_000);
    NumberTextWhole(100_000);
    Digits1000();
  }
}
