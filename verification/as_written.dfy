/** `parse_size_unit` as the crate's code behaves with its Unicode-aware
    pattern, set against the ASCII parser the rest of the model uses. */
module AsWritten {
  import opened Results
  import opened Text
  import opened Units
  import opened Grammar
  import opened Parser

  /** What a call of `parse_size_unit` as written comes to: a reading, the
      parse error, or a panic of the `unwrap` on the number conversion. */
  datatype Outcome = Parsed(size: ParsedSize) | Rejected | Panicked

  /** `parse_size_unit` as written. The pattern's `\d` admits non-ASCII
      decimal digits, which the float conversion then refuses, so the
      `unwrap` panics; its case-insensitive `k` admits the KELVIN SIGN, which
      upper-casing keeps, so the token matches no unit name and falls to the
      catch-all arm, bytes. */
  function ParseSizeUnitAsWritten(s: string): (r: Outcome)
    ensures r.Rejected? <==> !InGrammar(UnicodeRegex, s)
  {
    RecogniseExactly(UnicodeRegex, s);
    match Recognise(UnicodeRegex, s)
    case None => Rejected
    case Some(t) =>
      if AllDigits(t.whole + t.FractionDigits()) then Parsed(ParsedSize(MagnitudeOf(t), UnitNamed(t.token)))
      else Panicked
  }

  /** A KELVIN SIGN is not a letter of any unit name. */
  lemma KelvinNamesNoUnit(u: Unit)
    ensures Token(u)[0] != KelvinSign
  {
  }

  /** KELVIN SIGN and B: a unit token to the Unicode-aware pattern. */
  const KelvinBytes: string := [KelvinSign, 'B']

  /** Digits followed by KELVIN SIGN and B: the code as written reads bytes,
      a thousandth of what the kilobyte spelling means; the corrected parser
      rejects the text. */
  lemma KelvinSignReadAsBytes(w: string)
    requires |w| > 0 && AllDigits(w)
    ensures ParseSizeUnitAsWritten(w + KelvinBytes) == Parsed(ParsedSize(Magnitude(ValueOf(w), 0), B))
    ensures ParseSizeUnit(w + KelvinBytes) == InvalidFormat
  {
    KelvinRecognised(w);
    KelvinTokenNamesBytes();
    assert w + [] == w;
    KelvinRejected(w);
  }

  lemma KelvinRecognised(w: string)
    requires |w| > 0 && AllDigits(w)
    ensures Recognise(UnicodeRegex, w + KelvinBytes) == Some(SizeText(w, None, 0, Some(KelvinBytes)))
  {
    RunOverPrefix(Digits(UnicodeRegex), w, KelvinBytes);
    assert Run(Spaces, KelvinBytes) == 0;
    assert FoldString(UnicodeRegex, KelvinBytes) == "kb";
  }

  /** Upper-casing keeps the KELVIN SIGN, so the token names no unit and the
      catch-all arm gives bytes. */
  lemma KelvinTokenNamesBytes()
    ensures UnitNamed(Some(KelvinBytes)) == B
  {
    assert UpperString(KelvinBytes) == KelvinBytes;
    if UnitOfToken(KelvinBytes).Some? {
      KelvinNamesNoUnit(UnitOfToken(KelvinBytes).value);
    }
  }

  lemma KelvinRejected(w: string)
    requires |w| > 0 && AllDigits(w)
    ensures ParseSizeUnit(w + KelvinBytes) == InvalidFormat
  {
    RunOverPrefix(Digits(Ascii), w, KelvinBytes);
    assert Run(Spaces, KelvinBytes) == 0;
    KelvinBytesNoAsciiToken();
  }

  /** Without Unicode folding KELVIN SIGN and B spell no unit. */
  lemma KelvinBytesNoAsciiToken()
    ensures !IsUnitToken(Ascii, KelvinBytes)
  {
    SpellingsStartWithLetter();
    assert FoldString(Ascii, KelvinBytes)[0] == KelvinSign;
  }

  /** ARABIC-INDIC DIGIT ONE. */
  const ArabicIndicOne: char := '\U{661}'

  /** A number written in non-ASCII decimal digits: the code as written
      panics; the corrected parser reports the parse error. */
  lemma NonAsciiDigitsPanic()
    ensures ParseSizeUnitAsWritten([ArabicIndicOne]) == Panicked
    ensures ParseSizeUnit([ArabicIndicOne]) == InvalidFormat
  {
    var s := [ArabicIndicOne];
    assert Run(Digits(UnicodeRegex), s[1..]) == 0;
    assert Run(Digits(UnicodeRegex), s) == 1;
    assert s[..1] == s && s[1..] == [];
    assert Recognise(UnicodeRegex, s) == Some(SizeText(s, None, 0, None));
    assert (s + [])[0] == ArabicIndicOne;
    assert Run(Digits(Ascii), s) == 0;
  }

  /** An ASCII unit token needs no Unicode folding. */
  lemma AsciiTokenFolds(tok: string)
    requires IsUnitToken(Ascii, tok)
    ensures FoldString(UnicodeRegex, tok) == FoldString(Ascii, tok)
    ensures IsUnitToken(UnicodeRegex, tok)
  {
    forall i | 0 <= i < |tok|
      ensures tok[i] != KelvinSign
    {
      TokenLettersAscii(FoldString(Ascii, tok), i);
    }
  }

  /** Every letter of a unit spelling is an ASCII lower-case letter. */
  lemma TokenLettersAscii(x: string, i: nat)
    requires x in TokenSpellings && i < |x|
    ensures x[i] != KelvinSign
  {
  }

  /** Every text the ASCII grammar generates, the Unicode-aware pattern also matches. */
  lemma AsciiTextWellFormed(t: SizeText)
    requires WellFormed(Ascii, t)
    ensures WellFormed(UnicodeRegex, t)
  {
    if t.token.Some? {
      AsciiTokenFolds(t.token.value);
    }
  }

  /** On every input the corrected parser accepts, the code as written gives
      the same reading: the correction changes only the inputs it now rejects. */
  lemma CorrectionAgreesOnGrammar(s: string)
    requires ParseSizeUnit(s).Ok?
    ensures ParseSizeUnitAsWritten(s) == Parsed(ParseSizeUnit(s).value)
  {
    RecogniseSound(Ascii, s);
    var t := Recognise(Ascii, s).value;
    AsciiTextWellFormed(t);
    RecogniseComplete(UnicodeRegex, t);
    AsciiDigits(t);
  }
}
