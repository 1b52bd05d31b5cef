/** The parser proper: from a size string to a magnitude and a unit, and
    from there to a whole number of bytes or to an exact amount of another
    unit. Magnitudes are exact decimals, so the arithmetic is exact. */
module Parser {
  import opened Results
  import opened Text
  import opened Units
  import opened Grammar

  /** The exact decimal mantissa / 10^fractionDigits, as written in the input. */
  datatype Magnitude = Magnitude(mantissa: nat, fractionDigits: nat)

  datatype ParsedSize = ParsedSize(magnitude: Magnitude, unit: Unit)

  /** Well-formed ASCII texts hold ASCII digits only. */
  lemma AsciiDigits(t: SizeText)
    requires WellFormed(Ascii, t)
    ensures AllDigits(t.whole + t.FractionDigits())
  {
  }

  /** The magnitude of a recognised number: its digits read as one integer,
      scaled down by the number of digits after the point. */
  function MagnitudeOf(t: SizeText): Magnitude
    requires AllDigits(t.whole + t.FractionDigits())
  {
    Magnitude(ValueOf(t.whole + t.FractionDigits()), |t.FractionDigits()|)
  }

  /** The unit a recognised token names; no token means bytes. The inner
      `None` arm is the catch-all the crate falls back to for an unknown
      upper-cased token. */
  function UnitNamed(token: Option<string>): Unit {
    match token
    case None => B
    case Some(tok) =>
      match UnitOfToken(UpperString(tok))
      case Some(u) => u
      case None => B
  }

  /** Splits a size string into its magnitude and unit, or reports the
      single parse error. */
  function ParseSizeUnit(s: string): (r: Result<ParsedSize>)
    ensures r.Ok? <==> InGrammar(Ascii, s)
  {
    RecogniseExactly(Ascii, s);
    RecogniseSound(Ascii, s);
    match Recognise(Ascii, s)
    case None => InvalidFormat
    case Some(t) =>
      AsciiDigits(t);
      Ok(ParsedSize(MagnitudeOf(t), UnitNamed(t.token)))
  }

  /** Lower-case and upper-case strings agree after upper-casing. */
  lemma UpperOfLowerString(s: string)
    ensures UpperString(LowerString(s)) == UpperString(s)
    ensures FoldString(Ascii, s) == LowerString(s)
  {
    var a := UpperString(LowerString(s));
    var b := UpperString(s);
    forall i | 0 <= i < |s|
      ensures a[i] == b[i]
    {
      UpperOfLower(s[i]);
    }
  }

  lemma LowerOfUpperString(s: string)
    ensures LowerString(UpperString(s)) == LowerString(s)
  {
    var a := LowerString(UpperString(s));
    var b := LowerString(s);
    forall i | 0 <= i < |s|
      ensures a[i] == b[i]
    {
    }
  }

  /** The lower-case spelling of each unit token. */
  function Spelling(u: Unit): string {
    LowerString(Token(u))
  }

  lemma SpellingsAreTokens()
    ensures forall u :: Spelling(u) in TokenSpellings
    ensures forall x :: x in TokenSpellings ==> exists u :: Spelling(u) == x
  {
    assert Spelling(B) == "b";
    assert Spelling(KB) == "kb";
    assert Spelling(MB) == "mb";
    assert Spelling(GB) == "gb";
    assert Spelling(TB) == "tb";
    assert Spelling(PB) == "pb";
    assert Spelling(KIB) == "kib";
    assert Spelling(MIB) == "mib";
    assert Spelling(GIB) == "gib";
    assert Spelling(TIB) == "tib";
    assert Spelling(PIB) == "pib";
  }

  lemma UpperOfSpelling(u: Unit)
    ensures UpperString(Spelling(u)) == Token(u)
    ensures UnitOfToken(Token(u)) == Some(u)
  {
    var t := Token(u);
    var r := UpperString(Spelling(u));
    forall i | 0 <= i < |t|
      ensures r[i] == t[i]
    {
    }
  }

  /** Every token the grammar admits upper-cases to one of the eleven table
      entries, and every string that upper-cases to a table entry is a
      token of the grammar: the lookup's catch-all is never reached. */
  lemma TokenNamesUnit(tok: string)
    ensures IsUnitToken(Ascii, tok) <==> UnitOfToken(UpperString(tok)).Some?
  {
    UpperOfLowerString(tok);
    SpellingsAreTokens();
    if IsUnitToken(Ascii, tok) {
      var u :| Spelling(u) == LowerString(tok);
      UpperOfSpelling(u);
    }
    if UnitOfToken(UpperString(tok)).Some? {
      var u := UnitOfToken(UpperString(tok)).value;
      LowerOfUpperString(tok);
      assert LowerString(tok) == Spelling(u);
    }
  }

  /** Reading a well-formed size text: the magnitude is its digits over a
      power of ten, and the unit is bytes when no token is written and
      otherwise the unit whose table entry the token upper-cases to. */
  lemma ParseSizeUnitReadsText(t: SizeText)
    requires WellFormed(Ascii, t)
    ensures AllDigits(t.whole + t.FractionDigits())
    ensures ParseSizeUnit(Show(t)).Ok?
    ensures ParseSizeUnit(Show(t)).value.magnitude
         == Magnitude(ValueOf(t.whole + t.FractionDigits()), |t.FractionDigits()|)
    ensures t.token.None? ==> ParseSizeUnit(Show(t)).value.unit == B
    ensures t.token.Some? ==> Token(ParseSizeUnit(Show(t)).value.unit) == UpperString(t.token.value)
  {
    RecogniseComplete(Ascii, t);
    AsciiDigits(t);
    if t.token.Some? {
      TokenNamesUnit(t.token.value);
    }
  }

  /** Whatever the parser accepts came from a token that names its unit
      through the table, never through the catch-all. */
  lemma ParsedUnitIsNamed(s: string)
    requires ParseSizeUnit(s).Ok?
    ensures var t := Recognise(Ascii, s).value;
      && (t.token.None? ==> ParseSizeUnit(s).value.unit == B)
      && (t.token.Some? ==> UnitOfToken(UpperString(t.token.value)) == Some(ParseSizeUnit(s).value.unit))
  {
    RecogniseSound(Ascii, s);
    var t := Recognise(Ascii, s).value;
    if t.token.Some? {
      TokenNamesUnit(t.token.value);
    }
  }

  lemma ParseSizeUnitOfLower(s: string)
    ensures ParseSizeUnit(LowerString(s)) == ParseSizeUnit(s)
  {
    RecogniseIgnoresCase(Ascii, s);
    match Recognise(Ascii, s)
    case None =>
    case Some(t) =>
      if t.token.Some? {
        UpperOfLowerString(t.token.value);
      }
  }

  /** Case-insensitivity: two strings that differ only in the case of their
      letters parse to the same result. */
  lemma CaseInsensitive(s: string, s': string)
    requires LowerString(s) == LowerString(s')
    ensures ParseSizeUnit(s) == ParseSizeUnit(s')
  {
    ParseSizeUnitOfLower(s);
    ParseSizeUnitOfLower(s');
  }

  /** The number of spaces between number and unit does not matter. */
  lemma SpacesIrrelevant(t: SizeText, n: nat)
    requires WellFormed(Ascii, t)
    ensures ParseSizeUnit(Show(t.(spaces := n))) == ParseSizeUnit(Show(t))
  {
    ParseSizeUnitReadsText(t);
    ParseSizeUnitReadsText(t.(spaces := n));
    var u := ParseSizeUnit(Show(t)).value.unit;
    var u' := ParseSizeUnit(Show(t.(spaces := n))).value.unit;
    if t.token.Some? {
      TokenInjective(u, u');
    }
  }

  lemma TokenInjective(u: Unit, v: Unit)
    requires Token(u) == Token(v)
    ensures u == v
  {
    UpperOfSpelling(u);
    UpperOfSpelling(v);
  }

  /** The bytes a magnitude of a unit amounts to: the exact product
      truncated to a whole number, never rounded up. */
  function ByteCount(p: ParsedSize): (n: nat)
    ensures n * Pow10(p.magnitude.fractionDigits) <= p.magnitude.mantissa * Multiplier(p.unit)
    ensures p.magnitude.mantissa * Multiplier(p.unit) < (n + 1) * Pow10(p.magnitude.fractionDigits)
  {
    var exact := Product(p.magnitude.mantissa, Multiplier(p.unit));
    var scale := Pow10(p.magnitude.fractionDigits);
    FloorDivision(exact, scale);
    exact / scale
  }

  function Product(a: nat, b: nat): (r: nat)
    ensures r == a * b
  {
    a * b
  }

  lemma FloorDivision(x: nat, d: nat)
    requires d >= 1
    ensures 0 <= x / d
    ensures (x / d) * d <= x < (x / d + 1) * d
  {
  }

  /** A size string to a whole number of bytes. */
  function Parse(s: string): (r: Result<nat>)
    ensures r.Ok? <==> InGrammar(Ascii, s)
    ensures r.Ok? ==> r.value == ByteCount(ParseSizeUnit(s).value)
  {
    match ParseSizeUnit(s)
    case InvalidFormat => InvalidFormat
    case Ok(p) => Ok(ByteCount(p))
  }

  /** An exact number of bytes expressed in `target` units. */
  function InUnit(bytes: nat, target: Unit): (r: real)
    ensures r * (Multiplier(target) as real) == bytes as real
    ensures r >= 0.0
  {
    RealQuotient(bytes as real, Multiplier(target) as real);
    (bytes as real) / (Multiplier(target) as real)
  }

  lemma RealQuotient(x: real, d: real)
    requires d > 0.0
    ensures (x / d) * d == x
  {
  }

  /** A size string to an exact amount of `target` units. */
  function ParseTo(s: string, target: Unit): (r: Result<real>)
    ensures r.Ok? <==> InGrammar(Ascii, s)
    ensures r.Ok? ==> r.value == InUnit(Parse(s).value, target)
  {
    match Parse(s)
    case InvalidFormat => InvalidFormat
    case Ok(bytes) => Ok(InUnit(bytes, target))
  }

  lemma InBytes(n: nat)
    ensures InUnit(n, B) == n as real
  {
    var r := InUnit(n, B);
    assert Multiplier(B) as real == 1.0;
    assert r * 1.0 == n as real;
  }

  /** Converting to bytes is the identity on what `Parse` returns. */
  lemma ParseToBytes(s: string)
    ensures ParseTo(s, B).Ok? <==> Parse(s).Ok?
    ensures Parse(s).Ok? ==> ParseTo(s, B).value == Parse(s).value as real
  {
    if Parse(s).Ok? {
      InBytes(Parse(s).value);
    }
  }
}
