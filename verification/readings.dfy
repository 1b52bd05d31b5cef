/** What the parser makes of size texts of a known shape. */
module Readings {
  import opened Results
  import opened Text
  import opened Units
  import opened Grammar
  import opened Parser

  /** Reading a size text whose unit is known. */
  lemma ReadsAs(t: SizeText, s: string, u: Unit)
    requires WellFormed(Ascii, t) && Show(t) == s
    requires t.token.None? ==> u == B
    requires t.token.Some? ==> UpperString(t.token.value) == Token(u)
    ensures AllDigits(t.whole + t.FractionDigits())
    ensures ParseSizeUnit(s)
         == Ok(ParsedSize(Magnitude(ValueOf(t.whole + t.FractionDigits()), |t.FractionDigits()|), u))
  {
    ParseSizeUnitReadsText(t);
    if t.token.Some? {
      TokenInjective(ParseSizeUnit(s).value.unit, u);
    }
  }

  /** The byte count of a size text whose unit is known. */
  lemma CountOf(t: SizeText, u: Unit)
    requires WellFormed(Ascii, t)
    requires t.token.None? ==> u == B
    requires t.token.Some? ==> UpperString(t.token.value) == Token(u)
    ensures AllDigits(t.whole + t.FractionDigits())
    ensures Parse(Show(t)) == Ok(ByteCount(ParsedSize(MagnitudeOf(t), u)))
  {
    ReadsAs(t, Show(t), u);
  }

  /** Every way the crate spells a unit is a token naming that unit. */
  lemma SpellingsName(u: Unit)
    ensures IsUnitToken(Ascii, Suffix(u)) && UpperString(Suffix(u)) == Token(u)
    ensures IsUnitToken(Ascii, Spelling(u)) && UpperString(Spelling(u)) == Token(u)
    ensures IsUnitToken(Ascii, Token(u)) && UpperString(Token(u)) == Token(u)
  {
    SuffixNamesUnit(u);
    TokenNamesUnit(Suffix(u));
    UpperOfSpelling(u);
    TokenNamesUnit(Spelling(u));
    UpperOfLowerString(Token(u));
    TokenNamesUnit(Token(u));
  }

  /** ASCII digits are digits in either mode. */
  lemma DigitsInAscii(s: string)
    requires AllDigits(s)
    ensures AllDigitsIn(Ascii, s)
  {
  }

  lemma ShowInteger(w: string, spaces: nat, tok: string)
    ensures Show(SizeText(w, None, spaces, Some(tok))) == w + Blanks(spaces) + tok
  {
    var t := SizeText(w, None, spaces, Some(tok));
    assert ShowAfterWhole(t) == Blanks(spaces) + tok;
  }

  lemma ShowDecimal(w: string, f: string, spaces: nat, tok: string)
    ensures Show(SizeText(w, Some(f), spaces, Some(tok))) == w + "." + f + Blanks(spaces) + tok
  {
  }

  /** A whole number on its own is a count of bytes. */
  lemma BareReading(w: string)
    requires |w| > 0 && AllDigits(w)
    ensures ParseSizeUnit(w) == Ok(ParsedSize(Magnitude(ValueOf(w), 0), B))
  {
    var t := SizeText(w, None, 0, None);
    DigitsInAscii(w);
    assert Show(t) == w;
    assert t.whole + t.FractionDigits() == w;
    ReadsAs(t, w, B);
  }

  /** A whole number, some spaces and a unit token. */
  lemma IntegerReading(w: string, spaces: nat, tok: string, u: Unit)
    requires |w| > 0 && AllDigits(w)
    requires IsUnitToken(Ascii, tok) && UpperString(tok) == Token(u)
    ensures ParseSizeUnit(w + Blanks(spaces) + tok) == Ok(ParsedSize(Magnitude(ValueOf(w), 0), u))
  {
    var t := SizeText(w, None, spaces, Some(tok));
    DigitsInAscii(w);
    ShowInteger(w, spaces, tok);
    assert t.whole + t.FractionDigits() == w;
    ReadsAs(t, w + Blanks(spaces) + tok, u);
  }

  /** Digits, a point, digits, some spaces and a unit token. */
  lemma DecimalReading(w: string, f: string, spaces: nat, tok: string, u: Unit)
    requires |w| > 0 && AllDigits(w) && |f| > 0 && AllDigits(f)
    requires IsUnitToken(Ascii, tok) && UpperString(tok) == Token(u)
    ensures ParseSizeUnit(w + "." + f + Blanks(spaces) + tok)
         == Ok(ParsedSize(Magnitude(ValueOf(w + f), |f|), u))
  {
    var t := SizeText(w, Some(f), spaces, Some(tok));
    DigitsInAscii(w);
    DigitsInAscii(f);
    ShowDecimal(w, f, spaces, tok);
    ReadsAs(t, w + "." + f + Blanks(spaces) + tok, u);
  }

  /** The floor is the only count between the two bounds. */
  lemma FloorUnique(n: nat, m: nat, x: nat, d: nat)
    requires d >= 1
    requires n * d <= x < (n + 1) * d
    requires m * d <= x < (m + 1) * d
    ensures n == m
  {
  }

  /** The byte count is the one count between the two bounds. */
  lemma CountsAs(p: ParsedSize, n: nat)
    requires n * Pow10(p.magnitude.fractionDigits) <= p.magnitude.mantissa * Multiplier(p.unit)
    requires p.magnitude.mantissa * Multiplier(p.unit) < (n + 1) * Pow10(p.magnitude.fractionDigits)
    ensures ByteCount(p) == n
  {
    FloorUnique(n, ByteCount(p), p.magnitude.mantissa * Multiplier(p.unit), Pow10(p.magnitude.fractionDigits));
  }

  /** A quotient by a positive number is unique. */
  lemma QuotientUnique(a: real, b: real, m: real)
    requires m > 0.0 && a * m == b * m
    ensures a == b
  {
  }

  /** The amount in `u` units is the one that makes up the bytes. */
  lemma InUnitIs(n: nat, u: Unit, r: real)
    requires r * (Multiplier(u) as real) == n as real
    ensures InUnit(n, u) == r
  {
    QuotientUnique(r, InUnit(n, u), Multiplier(u) as real);
  }

  /** `parse_to` yields `r` once the byte count is known and `r` units make it up. */
  lemma ConvertsAs(s: string, n: nat, u: Unit, r: real)
    requires Parse(s) == Ok(n)
    requires InUnit(n, u) == r
    ensures ParseTo(s, u) == Ok(r)
  {
  }

  /** A string that does not open with an ASCII digit is rejected. */
  lemma RejectsLeadingNonDigit(s: string)
    requires s == [] || !IsDigit(s[0])
    ensures ParseSizeUnit(s) == InvalidFormat
  {
    assert Run(Digits(Ascii), s) == 0;
  }

  /** A point must be followed by at least one digit. */
  lemma RejectsEmptyFraction(w: string, rest: string)
    requires |w| > 0 && AllDigits(w)
    requires rest == [] || !IsDigit(rest[0])
    ensures ParseSizeUnit(w + "." + rest) == InvalidFormat
  {
    RunOverPrefix(Digits(Ascii), w, "." + rest);
    assert w + "." + rest == w + ("." + rest);
    assert ("." + rest)[1..] == rest;
    assert Run(Digits(Ascii), rest) == 0;
  }

  /** After the number and its spaces only a unit token may follow: a number
      `t`, with its spaces but no token, followed by any other non-empty text
      is rejected, unless that text would only continue the number or the
      spaces. */
  lemma RejectsUnknownUnit(t: SizeText, tail: string)
    requires WellFormed(Ascii, t) && t.token.None?
    requires tail != [] && tail[0] != ' ' && !IsUnitToken(Ascii, tail)
    requires t.spaces == 0 ==> !IsDigit(tail[0])
    requires t.spaces == 0 && t.fraction.None? ==> tail[0] != '.'
    ensures ParseSizeUnit(Show(t) + tail) == InvalidFormat
  {
    RecogniseRejectsTail(t, tail);
  }

  lemma RecogniseRejectsTail(t: SizeText, tail: string)
    requires WellFormed(Ascii, t) && t.token.None?
    requires tail != [] && tail[0] != ' ' && !IsUnitToken(Ascii, tail)
    requires t.spaces == 0 ==> !IsDigit(tail[0])
    requires t.spaces == 0 && t.fraction.None? ==> tail[0] != '.'
    ensures Recognise(Ascii, Show(t) + tail) == None
  {
    var r := ShowAfterWhole(t) + tail;
    AfterWholeRejects(t, tail);
    RunOverPrefix(Digits(Ascii), t.whole, r);
    assert Show(t) + tail == t.whole + r;
  }

  lemma AfterWholeRejects(t: SizeText, tail: string)
    requires t.token.None?
    requires t.fraction.Some? ==> |t.fraction.value| > 0 && AllDigits(t.fraction.value)
    requires tail != [] && tail[0] != ' ' && !IsUnitToken(Ascii, tail)
    requires t.spaces == 0 ==> !IsDigit(tail[0])
    requires t.spaces == 0 && t.fraction.None? ==> tail[0] != '.'
    ensures RecogniseAfterWhole(Ascii, t.whole, ShowAfterWhole(t) + tail) == None
    ensures !IsDigit((ShowAfterWhole(t) + tail)[0])
  {
    var n := t.spaces;
    var r := ShowAfterWhole(t) + tail;
    assert ShowAfterNumber(t) == Blanks(n);
    assert (Blanks(n) + tail)[0] == if n > 0 then ' ' else tail[0];
    match t.fraction
    case Some(f) =>
      assert r == ['.'] + (f + (Blanks(n) + tail));
      assert r[1..] == f + (Blanks(n) + tail);
      RunOverPrefix(Digits(Ascii), f, Blanks(n) + tail);
      AfterNumberRejects(t.whole, t.fraction, n, tail);
    case None =>
      assert r == Blanks(n) + tail;
      AfterNumberRejects(t.whole, None, n, tail);
  }

  /** Spaces followed by a text that is not a unit token end the match. */
  lemma AfterNumberRejects(whole: string, fraction: Option<string>, n: nat, tail: string)
    requires tail != [] && tail[0] != ' ' && !IsUnitToken(Ascii, tail)
    ensures RecogniseAfterNumber(Ascii, whole, fraction, Blanks(n) + tail) == None
  {
    RunOverPrefix(Spaces, Blanks(n), tail);
  }
}
