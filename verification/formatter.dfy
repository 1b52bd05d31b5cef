/** Rendering a byte count as a size string: `format_to` in a chosen unit and
    `format` in the largest decimal unit the count reaches. */
module Formatter {
  import opened Results
  import opened Text
  import opened Units
  import opened Grammar
  import opened Parser
  import opened Readings

  /** The whole number of hundredths of an `m`-byte unit nearest to `bytes`
      bytes, a tie going up: h/100 lies within half a hundredth of bytes/m. */
  function RoundHundredths(bytes: nat, m: nat): (h: nat)
    requires m >= 1
    ensures h * (2 * m) <= 200 * bytes + m < (h + 1) * (2 * m)
  {
    FloorDivision(200 * bytes + m, 2 * m);
    (200 * bytes + m) / (2 * m)
  }

  /** Only one count of hundredths lies that close. */
  lemma RoundingUnique(bytes: nat, m: nat, h: nat)
    requires m >= 1
    requires h * (2 * m) <= 200 * bytes + m < (h + 1) * (2 * m)
    ensures RoundHundredths(bytes, m) == h
  {
    FloorUnique(h, RoundHundredths(bytes, m), 200 * bytes + m, 2 * m);
  }

  /** In whole bytes nothing is rounded. */
  lemma RoundingBytes(bytes: nat)
    ensures RoundHundredths(bytes, 1) == 100 * bytes
  {
    RoundingUnique(bytes, 1, 100 * bytes);
  }

  /** The digits of the whole part of `h` hundredths. */
  function WholeDigits(h: nat): string {
    NatToDigits(h / 100)
  }

  /** `h` hundredths written with exactly two decimals. */
  function Fixed2(h: nat): (s: string)
    ensures |s| >= 4 && s[|s| - 3] == '.'
    ensures AllDigits(s[..|s| - 3]) && AllDigits(s[|s| - 2..])
    ensures ValueOf(s[..|s| - 3] + s[|s| - 2..]) == h
  {
    var w := WholeDigits(h);
    var s := w + ['.', DigitChar(h / 10 % 10), DigitChar(h % 10)];
    assert s[..|s| - 3] == w;
    assert s[|s| - 2..] == [DigitChar(h / 10 % 10)] + [DigitChar(h % 10)];
    Fixed2Value(h);
    s
  }

  lemma Fixed2Value(h: nat)
    ensures var w := WholeDigits(h);
      var f := [DigitChar(h / 10 % 10)] + [DigitChar(h % 10)];
      AllDigits(w + f) && ValueOf(w + f) == h
  {
    var w := WholeDigits(h);
    var d1 := DigitChar(h / 10 % 10);
    var d2 := DigitChar(h % 10);
    assert w + ([d1] + [d2]) == (w + [d1]) + [d2];
    ValueOfSnoc(w, d1);
    ValueOfSnoc(w + [d1], d2);
    Hundredths(h);
  }

  lemma Hundredths(h: nat)
    ensures (h / 100 * 10 + h / 10 % 10) * 10 + h % 10 == h
    ensures h / 100 * 10 + h / 10 % 10 == h / 10
  {
  }

  /** `s` without its trailing run of `c`, as `trim_end_matches(c)` leaves it. */
  function TrimEnd(s: string, c: char): (r: string)
    ensures |r| <= |s| && r == s[..|r|]
    ensures r == [] || r[|r| - 1] != c
    ensures forall i :: |r| <= i < |s| ==> s[i] == c
    decreases |s|
  {
    if |s| > 0 && s[|s| - 1] == c then TrimEnd(s[..|s| - 1], c) else s
  }

  /** The three properties above pin the trimmed string down. */
  lemma TrimEndUnique(s: string, c: char, r: string)
    requires |r| <= |s| && r == s[..|r|]
    requires r == [] || r[|r| - 1] != c
    requires forall i :: |r| <= i < |s| ==> s[i] == c
    ensures TrimEnd(s, c) == r
  {
  }

  /** The number `format_to` prints for `h` hundredths: two decimals, then
      trailing zeros and a bare point removed. */
  function NumberText(h: nat): string {
    TrimEnd(TrimEnd(Fixed2(h), '0'), '.')
  }

  lemma DigitCharZero(d: nat)
    requires d < 10
    ensures DigitChar(d) == '0' <==> d == 0
  {
  }

  /** A whole number of units prints without a point. */
  lemma NumberTextWhole(h: nat)
    requires h % 100 == 0
    ensures NumberText(h) == WholeDigits(h)
  {
    var w := WholeDigits(h);
    var s := Fixed2(h);
    DigitCharZero(h / 10 % 10);
    DigitCharZero(h % 10);
    assert s == w + ['.'] + ['0', '0'];
    TrimEndUnique(s, '0', w + ['.']);
    TrimEndUnique(w + ['.'], '.', w);
  }

  /** A whole number of tenths prints with one decimal. */
  lemma NumberTextTenths(h: nat)
    requires h % 100 != 0 && h % 10 == 0
    ensures NumberText(h) == WholeDigits(h) + "." + [DigitChar(h / 10 % 10)]
  {
    var w := WholeDigits(h);
    var d1 := DigitChar(h / 10 % 10);
    var s := Fixed2(h);
    DigitCharZero(h / 10 % 10);
    DigitCharZero(h % 10);
    assert s == w + "." + [d1] + ['0'];
    TrimEndUnique(s, '0', w + "." + [d1]);
    TrimEndUnique(w + "." + [d1], '.', w + "." + [d1]);
  }

  /** Anything else prints with both decimals. */
  lemma NumberTextHundredths(h: nat)
    requires h % 10 != 0
    ensures NumberText(h) == WholeDigits(h) + "." + [DigitChar(h / 10 % 10), DigitChar(h % 10)]
  {
    var s := Fixed2(h);
    DigitCharZero(h % 10);
    TrimEndUnique(s, '0', s);
    TrimEndUnique(s, '.', s);
  }

  /** `format_to`: the count in unit `u`, rounded to hundredths, then the unit's suffix. */
  function FormatTo(bytes: nat, u: Unit): string {
    NumberText(RoundHundredths(bytes, Multiplier(u))) + " " + Suffix(u)
  }

  /** The shortest decimal reading of `h` hundredths: the mantissa over a power
      of ten equals h/100, and its last digit is not a zero after the point. */
  predicate Denotes(m: Magnitude, h: nat) {
    && m.mantissa * 100 == h * Pow10(m.fractionDigits)
    && m.fractionDigits <= 2
    && (m.fractionDigits > 0 ==> m.mantissa % 10 != 0)
  }

  /** Parsing what `format_to` prints gives back the rounded amount in the same unit. */
  lemma FormatToReadsBack(bytes: nat, u: Unit)
    ensures ParseSizeUnit(FormatTo(bytes, u)).Ok?
    ensures ParseSizeUnit(FormatTo(bytes, u)).value.unit == u
    ensures Denotes(ParseSizeUnit(FormatTo(bytes, u)).value.magnitude, RoundHundredths(bytes, Multiplier(u)))
  {
    var h := RoundHundredths(bytes, Multiplier(u));
    SpellingsName(u);
    assert Blanks(1) == " ";
    if h % 100 == 0 {
      WholeReadsBack(h, u);
    } else if h % 10 == 0 {
      TenthsReadsBack(h, u);
    } else {
      HundredthsReadsBack(h, u);
    }
  }

  lemma WholeReadsBack(h: nat, u: Unit)
    requires h % 100 == 0
    ensures ParseSizeUnit(NumberText(h) + " " + Suffix(u)) == Ok(ParsedSize(Magnitude(h / 100, 0), u))
    ensures Denotes(Magnitude(h / 100, 0), h)
  {
    SpellingsName(u);
    NumberTextWhole(h);
    assert Blanks(1) == " ";
    IntegerReading(WholeDigits(h), 1, Suffix(u), u);
    DenotesWhole(h);
  }

  lemma DenotesWhole(h: nat)
    requires h % 100 == 0
    ensures Denotes(Magnitude(h / 100, 0), h)
  {
    assert Pow10(0) == 1;
  }

  lemma TenthsReadsBack(h: nat, u: Unit)
    requires h % 100 != 0 && h % 10 == 0
    ensures ParseSizeUnit(NumberText(h) + " " + Suffix(u)) == Ok(ParsedSize(Magnitude(h / 10, 1), u))
    ensures Denotes(Magnitude(h / 10, 1), h)
  {
    var w := WholeDigits(h);
    var d1 := DigitChar(h / 10 % 10);
    SpellingsName(u);
    NumberTextTenths(h);
    assert Blanks(1) == " ";
    TenthsValue(h);
    DecimalReading(w, [d1], 1, Suffix(u), u);
    DenotesTenths(h);
  }

  lemma TenthsValue(h: nat)
    ensures AllDigits(WholeDigits(h) + [DigitChar(h / 10 % 10)])
    ensures ValueOf(WholeDigits(h) + [DigitChar(h / 10 % 10)]) == h / 10
  {
    ValueOfSnoc(WholeDigits(h), DigitChar(h / 10 % 10));
    Hundredths(h);
  }

  lemma DenotesTenths(h: nat)
    requires h % 100 != 0 && h % 10 == 0
    ensures Denotes(Magnitude(h / 10, 1), h)
  {
    assert Pow10(1) == 10;
  }

  lemma HundredthsReadsBack(h: nat, u: Unit)
    requires h % 10 != 0
    ensures ParseSizeUnit(NumberText(h) + " " + Suffix(u)) == Ok(ParsedSize(Magnitude(h, 2), u))
    ensures Denotes(Magnitude(h, 2), h)
  {
    var w := WholeDigits(h);
    var f := [DigitChar(h / 10 % 10)] + [DigitChar(h % 10)];
    SpellingsName(u);
    NumberTextHundredths(h);
    assert Blanks(1) == " ";
    assert [DigitChar(h / 10 % 10), DigitChar(h % 10)] == f;
    Fixed2Value(h);
    DecimalReading(w, f, 1, Suffix(u), u);
    DenotesHundredths(h);
  }

  lemma DenotesHundredths(h: nat)
    requires h % 10 != 0
    ensures Denotes(Magnitude(h, 2), h)
  {
    assert Pow10(2) == 100;
  }

  /** `format`'s choice: the largest decimal unit not above the count, bytes
      below one kilobyte. */
  function AutoUnit(bytes: nat): (u: Unit)
    ensures IsDecimal(u)
    ensures u == B || Multiplier(u) <= bytes
    ensures u == PB || bytes < 1000 * Multiplier(u)
  {
    if bytes < 1_000 then B
    else if bytes < 1_000_000 then KB
    else if bytes < 1_000_000_000 then MB
    else if bytes < 1_000_000_000_000 then GB
    else if bytes < 1_000_000_000_000_000 then TB
    else PB
  }

  /** Exactly one decimal unit meets both bounds. */
  lemma AutoUnitUnique(bytes: nat, u: Unit)
    requires IsDecimal(u)
    requires u == B || Multiplier(u) <= bytes
    requires u == PB || bytes < 1000 * Multiplier(u)
    ensures AutoUnit(bytes) == u
  {
  }

  /** A larger count never gets a smaller unit. */
  lemma AutoUnitMonotone(a: nat, b: nat)
    requires a <= b
    ensures Multiplier(AutoUnit(a)) <= Multiplier(AutoUnit(b))
  {
  }

  /** `format`: `format_to` in the unit `AutoUnit` picks. */
  function Format(bytes: nat): string {
    FormatTo(bytes, AutoUnit(bytes))
  }

  /** Below one kilobyte, `format` prints the count itself in bytes. */
  lemma FormatSmall(bytes: nat)
    requires bytes < 1_000
    ensures Format(bytes) == NatToDigits(bytes) + " B"
  {
    BytesText(bytes);
  }

  /** In bytes, `format_to` prints the count itself. */
  lemma FormatToBytes(bytes: nat)
    ensures FormatTo(bytes, B) == NatToDigits(bytes) + " B"
  {
    var n := NatToDigits(bytes);
    BytesText(bytes);
    assert Multiplier(B) == 1 && Suffix(B) == "B";
    assert n + " " + "B" == n + " B";
  }

  /** In bytes the count prints as itself. */
  lemma BytesText(bytes: nat)
    ensures NumberText(RoundHundredths(bytes, 1)) == NatToDigits(bytes)
  {
    RoundingBytes(bytes);
    NumberTextWhole(100 * bytes);
    assert (100 * bytes) / 100 == bytes;
  }

  /** Formatting in bytes and parsing back is the identity. */
  lemma FormatToBytesRoundTrip(bytes: nat)
    ensures Parse(FormatTo(bytes, B)) == Ok(bytes)
  {
    BytesText(bytes);
    SpellingsName(B);
    assert Blanks(1) == " ";
    IntegerReading(NatToDigits(bytes), 1, Suffix(B), B);
    assert Pow10(0) == 1;
    CountsAs(ParsedSize(Magnitude(bytes, 0), B), bytes);
  }

  /** Formatting in any unit and parsing back loses at most half a hundredth
      of the unit to rounding, plus the fraction of a byte parsing drops. */
  lemma FormatToParsesNear(bytes: nat, u: Unit)
    ensures Parse(FormatTo(bytes, u)).Ok?
    ensures var n := Parse(FormatTo(bytes, u)).value;
      200 * n <= 200 * bytes + Multiplier(u) && 200 * bytes < 200 * n + 200 + Multiplier(u)
  {
    FormatToReadsBack(bytes, u);
    CountNear(bytes, ParseSizeUnit(FormatTo(bytes, u)).value);
  }

  /** Parsing a size text `t` of at most two decimals in a unit above B and
      formatting the byte count in that unit gives the written hundredths
      back: parsing drops less than a byte, and rounding to hundredths of a
      unit of at least 1000 bytes absorbs that. */
  lemma ParseThenFormat(t: SizeText, u: Unit)
    requires WellFormed(Ascii, t) && t.token.Some? && UpperString(t.token.value) == Token(u)
    requires u != B && |t.FractionDigits()| <= 2
    ensures Parse(Show(t)).Ok?
    ensures RoundHundredths(Parse(Show(t)).value, Multiplier(u)) == WrittenHundredths(MagnitudeOf(t))
    ensures FormatTo(Parse(Show(t)).value, u) == NumberText(WrittenHundredths(MagnitudeOf(t))) + " " + Suffix(u)
  {
    CountOf(t, u);
    CountRecoversHundredths(ParsedSize(MagnitudeOf(t), u));
  }

  /** The hundredths a magnitude of at most two decimals writes. */
  function WrittenHundredths(m: Magnitude): nat
    requires m.fractionDigits <= 2
  {
    m.mantissa * Pow10(2 - m.fractionDigits)
  }

  lemma CountRecoversHundredths(p: ParsedSize)
    requires p.unit != B && p.magnitude.fractionDigits <= 2
    ensures RoundHundredths(ByteCount(p), Multiplier(p.unit)) == WrittenHundredths(p.magnitude)
    ensures FormatTo(ByteCount(p), p.unit) == NumberText(WrittenHundredths(p.magnitude)) + " " + Suffix(p.unit)
  {
    RecoversHundredths(ByteCount(p), p.magnitude.mantissa, p.magnitude.fractionDigits, Multiplier(p.unit));
  }

  /** The round trip in full: what `format_to` prints for the parsed count
      reads back, in the same unit, as the same amount the input wrote, though
      perhaps with fewer decimals ("1.20 KB" comes back as "1.2 KB"). */
  lemma ParseFormatParse(t: SizeText, u: Unit)
    requires WellFormed(Ascii, t) && t.token.Some? && UpperString(t.token.value) == Token(u)
    requires u != B && |t.FractionDigits()| <= 2
    ensures Parse(Show(t)).Ok?
    ensures ParseSizeUnit(FormatTo(Parse(Show(t)).value, u)).Ok?
    ensures ParseSizeUnit(FormatTo(Parse(Show(t)).value, u)).value.unit == u
    ensures SameAmount(ParseSizeUnit(FormatTo(Parse(Show(t)).value, u)).value.magnitude, MagnitudeOf(t))
  {
    ParseThenFormat(t, u);
    FormatRestores(Parse(Show(t)).value, MagnitudeOf(t), u);
  }

  /** Two magnitudes denote the same amount: a/10^k == b/10^j. */
  predicate SameAmount(x: Magnitude, y: Magnitude) {
    x.mantissa * Pow10(y.fractionDigits) == y.mantissa * Pow10(x.fractionDigits)
  }

  /** A count whose hundredths in `u` are those magnitude `m` writes prints as
      a text that reads back as `m` units. */
  lemma FormatRestores(n: nat, m: Magnitude, u: Unit)
    requires m.fractionDigits <= 2 && RoundHundredths(n, Multiplier(u)) == WrittenHundredths(m)
    ensures ParseSizeUnit(FormatTo(n, u)).Ok?
    ensures ParseSizeUnit(FormatTo(n, u)).value.unit == u
    ensures SameAmount(ParseSizeUnit(FormatTo(n, u)).value.magnitude, m)
  {
    FormatToReadsBack(n, u);
    SameHundredths(ParseSizeUnit(FormatTo(n, u)).value.magnitude, m);
  }

  /** In bytes the round trip keeps the whole bytes the text wrote and drops
      its fraction. */
  lemma ParseThenFormatBytes(t: SizeText)
    requires WellFormed(Ascii, t)
    requires t.token.Some? ==> UpperString(t.token.value) == Token(B)
    ensures Parse(Show(t)) == Ok(MagnitudeOf(t).mantissa / Pow10(MagnitudeOf(t).fractionDigits))
    ensures RoundHundredths(Parse(Show(t)).value, Multiplier(B))
         == 100 * (MagnitudeOf(t).mantissa / Pow10(MagnitudeOf(t).fractionDigits))
    ensures FormatTo(Parse(Show(t)).value, B)
         == NatToDigits(MagnitudeOf(t).mantissa / Pow10(MagnitudeOf(t).fractionDigits)) + " B"
  {
    var p := ParsedSize(MagnitudeOf(t), B);
    CountOf(t, B);
    TruncatedBytes(p);
    RoundingBytes(ByteCount(p));
    FormatToBytes(ByteCount(p));
  }

  lemma TruncatedBytes(p: ParsedSize)
    requires p.unit == B
    ensures ByteCount(p) == p.magnitude.mantissa / Pow10(p.magnitude.fractionDigits)
  {
    var a := p.magnitude.mantissa;
    var d := Pow10(p.magnitude.fractionDigits);
    FloorDivision(a, d);
    assert Multiplier(B) == 1;
    CountsAs(p, a / d);
  }

  /** With at most two decimals and a unit of at least 200 bytes, the nearest
      hundredths of the truncated count are the hundredths of the magnitude. */
  lemma RecoversHundredths(n: nat, a: nat, k: nat, m: nat)
    requires k <= 2 && m >= 200
    requires n * Pow10(k) <= a * m < (n + 1) * Pow10(k)
    ensures RoundHundredths(n, m) == a * Pow10(2 - k)
  {
    var h := a * Pow10(2 - k);
    ToHundredths(n, a, k, m);
    assert h * (2 * m) == 2 * (h * m);
    assert (h + 1) * (2 * m) == 2 * (h * m) + 2 * m;
    RoundingUnique(n, m, h);
  }

  /** Scaling the floor bounds from 10^k up to hundredths. */
  lemma ToHundredths(n: nat, a: nat, k: nat, m: nat)
    requires k <= 2
    requires n * Pow10(k) <= a * m < (n + 1) * Pow10(k)
    ensures n * 100 <= a * Pow10(2 - k) * m < (n + 1) * 100
  {
    var c := Pow10(2 - k);
    PowersToHundred(k);
    MulMono(n * Pow10(k), a * m, c);
    MulStrict(a * m, (n + 1) * Pow10(k), c);
    Regroup(n, Pow10(k), c);
    Regroup(n + 1, Pow10(k), c);
    assert a * m * c == a * c * m;
  }

  lemma PowersToHundred(k: nat)
    requires k <= 2
    ensures Pow10(k) * Pow10(2 - k) == 100
  {
    assert Pow10(1) == 10 && Pow10(2) == 100;
  }

  lemma Regroup(x: nat, p: nat, c: nat)
    ensures x * p * c == x * (p * c)
  {
  }

  /** Two readings of the same hundredths denote the same amount. */
  lemma SameHundredths(x: Magnitude, m: Magnitude)
    requires m.fractionDigits <= 2
    requires Denotes(x, WrittenHundredths(m))
    ensures SameAmount(x, m)
  {
    var k := m.fractionDigits;
    var c := Pow10(2 - k);
    PowersToHundred(k);
    assert x.mantissa * Pow10(k) * c == m.mantissa * Pow10(x.fractionDigits) * c;
  }

  /** The byte count of any reading of the rounded amount lies that near. */
  lemma CountNear(bytes: nat, p: ParsedSize)
    requires Denotes(p.magnitude, RoundHundredths(bytes, Multiplier(p.unit)))
    ensures 200 * ByteCount(p) <= 200 * bytes + Multiplier(p.unit)
    ensures 200 * bytes < 200 * ByteCount(p) + 200 + Multiplier(p.unit)
  {
    var m := Multiplier(p.unit);
    var h := RoundHundredths(bytes, m);
    var n := ByteCount(p);
    ScaledBounds(n, p.magnitude.mantissa, Pow10(p.magnitude.fractionDigits), m, h);
    NearBounds(bytes, m, h, n);
  }

  /** Dividing out the common power of ten of the two readings. */
  lemma ScaledBounds(n: nat, mantissa: nat, scale: nat, m: nat, h: nat)
    requires scale >= 1
    requires mantissa * 100 == h * scale
    requires n * scale <= mantissa * m < (n + 1) * scale
    ensures n * 100 <= h * m < (n + 1) * 100
  {
    assert n * scale * 100 <= h * m * scale by {
      MulMono(n * scale, mantissa * m, 100);
      assert mantissa * m * 100 == h * scale * m;
    }
    assert h * m * scale < (n + 1) * scale * 100 by {
      MulStrict(mantissa * m, (n + 1) * scale, 100);
      assert mantissa * m * 100 == h * scale * m;
    }
    if n * 100 > h * m {
      MulStrict(h * m, n * 100, scale);
    }
    if h * m >= (n + 1) * 100 {
      MulMono((n + 1) * 100, h * m, scale);
    }
  }

  lemma NearBounds(bytes: nat, m: nat, h: nat, n: nat)
    requires h * (2 * m) <= 200 * bytes + m < (h + 1) * (2 * m)
    requires n * 100 <= h * m < (n + 1) * 100
    ensures 200 * n <= 200 * bytes + m && 200 * bytes < 200 * n + 200 + m
  {
    assert h * (2 * m) == 2 * (h * m);
    assert (h + 1) * (2 * m) == 2 * (h * m) + 2 * m;
  }

  lemma MulStrict(a: nat, b: nat, c: nat)
    requires a < b && c >= 1
    ensures a * c < b * c
  {
  }

  /** Parsing what `format` prints gives back the rounded amount in the chosen unit. */
  lemma FormatReadsBack(bytes: nat)
    ensures ParseSizeUnit(Format(bytes)).Ok?
    ensures ParseSizeUnit(Format(bytes)).value.unit == AutoUnit(bytes)
    ensures IsDecimal(ParseSizeUnit(Format(bytes)).value.unit)
  {
    FormatToReadsBack(bytes, AutoUnit(bytes));
  }

  /** From one kilobyte up, `format` prints an amount from 1 to 1000 units,
      except in petabytes, where it is unbounded above; 1000 is reached when
      the count rounds up to the next unit's threshold, as 999 999 does. */
  lemma FormatAmountRange(bytes: nat)
    requires bytes >= 1_000
    ensures 100 <= RoundHundredths(bytes, Multiplier(AutoUnit(bytes)))
    ensures AutoUnit(bytes) != PB ==> RoundHundredths(bytes, Multiplier(AutoUnit(bytes))) <= 100_000
  {
    var m := Multiplier(AutoUnit(bytes));
    var h := RoundHundredths(bytes, m);
    RangeBounds(bytes, m, h);
  }

  lemma RangeBounds(bytes: nat, m: nat, h: nat)
    requires m >= 1 && m <= bytes
    requires h * (2 * m) <= 200 * bytes + m < (h + 1) * (2 * m)
    ensures 100 <= h
    ensures bytes < 1000 * m ==> h <= 100_000
  {
    if h < 100 {
      MulMono(h + 1, 100, 2 * m);
    }
    if bytes < 1000 * m && h > 100_000 {
      MulMono(100_001, h, 2 * m);
    }
  }

  lemma MulMono(a: nat, b: nat, c: nat)
    requires a <= b
    ensures a * c <= b * c
  {
  }
}
