/** The size-string grammar
      size       := digits ('.' digits)? ' '* unit_token?
      unit_token := (k|m|g|t|p|ki|mi|gi|ti|pi)? b      (any casing)
    anchored at both ends, given twice: as a generator (SizeText, Show,
    WellFormed) and as a hand-written recogniser (Recognise), with proofs
    that the two describe the same strings. */
module Grammar {
  import opened Results
  import opened Text

  /** The character semantics the recogniser runs with. `Ascii` is the grammar
      as the crate documents it. `UnicodeRegex` adds what the regex engine's
      Unicode-aware classes also admit: more decimal digits for `\d`, and the
      KELVIN SIGN, which case-insensitive matching folds together with `k`. */
  datatype Mode = Ascii | UnicodeRegex

  const KelvinSign: char := '\U{212A}'

  /** Some non-ASCII decimal digits that `\d` matches: Arabic-Indic, Extended
      Arabic-Indic, Devanagari and full-width digits. */
  predicate IsOtherDecimalDigit(c: char) {
    || ('\U{660}' <= c <= '\U{669}')
    || ('\U{6F0}' <= c <= '\U{6F9}')
    || ('\U{966}' <= c <= '\U{96F}')
    || ('\U{FF10}' <= c <= '\U{FF19}')
  }

  predicate IsDigitIn(mode: Mode, c: char) {
    IsDigit(c) || (mode == UnicodeRegex && IsOtherDecimalDigit(c))
  }

  predicate AllDigitsIn(mode: Mode, s: string) {
    forall i :: 0 <= i < |s| ==> IsDigitIn(mode, s[i])
  }

  /** The spelling a character is compared by when matching case-insensitively. */
  function Fold(mode: Mode, c: char): char {
    if mode == UnicodeRegex && c == KelvinSign then 'k' else ToLower(c)
  }

  function FoldString(mode: Mode, s: string): (r: string)
    ensures |r| == |s|
  {
    seq(|s|, i requires 0 <= i < |s| => Fold(mode, s[i]))
  }

  /** The alternatives of `(k|m|g|t|p|ki|mi|gi|ti|pi)?b`. */
  const TokenSpellings: set<string> := {"b", "kb", "mb", "gb", "tb", "pb", "kib", "mib", "gib", "tib", "pib"}

  predicate IsUnitToken(mode: Mode, tok: string) {
    FoldString(mode, tok) in TokenSpellings
  }

  function Blanks(n: nat): (r: string)
    ensures |r| == n
    ensures forall i :: 0 <= i < n ==> r[i] == ' '
  {
    seq(n, _ => ' ')
  }

  /** A size string taken apart: the integer digits, the digits after the
      point if there is one, the number of spaces, and the unit token as
      written if there is one. */
  datatype SizeText = SizeText(whole: string, fraction: Option<string>, spaces: nat, token: Option<string>)
  {
    function FractionDigits(): string {
      match fraction
      case None => []
      case Some(f) => f
    }

    function TokenText(): string {
      match token
      case None => []
      case Some(u) => u
    }
  }

  /** The text of a size: digits, optional point and fraction, spaces,
      optional unit token. */
  function Show(t: SizeText): string {
    t.whole + ShowAfterWhole(t)
  }

  function ShowAfterWhole(t: SizeText): string {
    match t.fraction
    case None => ShowAfterNumber(t)
    case Some(f) => ['.'] + (f + ShowAfterNumber(t))
  }

  function ShowAfterNumber(t: SizeText): string {
    Blanks(t.spaces) + t.TokenText()
  }

  predicate WellFormed(mode: Mode, t: SizeText) {
    && |t.whole| > 0 && AllDigitsIn(mode, t.whole)
    && (t.fraction.Some? ==> |t.fraction.value| > 0 && AllDigitsIn(mode, t.fraction.value))
    && (t.token.Some? ==> IsUnitToken(mode, t.token.value))
  }

  /** The strings the anchored grammar matches. */
  ghost predicate InGrammar(mode: Mode, s: string) {
    exists t :: WellFormed(mode, t) && Show(t) == s
  }

  datatype CharClass = Digits(mode: Mode) | Spaces

  predicate InClass(cls: CharClass, c: char) {
    match cls
    case Digits(mode) => IsDigitIn(mode, c)
    case Spaces => c == ' '
  }

  /** The length of the longest prefix of `s` made of `cls` characters. */
  function Run(cls: CharClass, s: string): (n: nat)
    ensures n <= |s|
    ensures forall k :: 0 <= k < n ==> InClass(cls, s[k])
    ensures n == |s| || !InClass(cls, s[n])
  {
    if |s| > 0 && InClass(cls, s[0]) then 1 + Run(cls, s[1..]) else 0
  }

  /** A run is determined by where the class first fails to hold. */
  lemma RunStopsAt(cls: CharClass, s: string, n: nat)
    requires n <= |s|
    requires forall k :: 0 <= k < n ==> InClass(cls, s[k])
    requires n == |s| || !InClass(cls, s[n])
    ensures Run(cls, s) == n
  {
  }

  /** Scanning `a + b`, where `a` is all `cls` and `b` does not start with
      one, stops exactly at the end of `a`. */
  lemma RunOverPrefix(cls: CharClass, a: string, b: string)
    requires forall k :: 0 <= k < |a| ==> InClass(cls, a[k])
    requires b == [] || !InClass(cls, b[0])
    ensures Run(cls, a + b) == |a|
    ensures (a + b)[..|a|] == a && (a + b)[|a|..] == b
  {
    var s := a + b;
    if |a| < |s| {
      assert s[|a|] == b[0];
    }
    RunStopsAt(cls, s, |a|);
  }

  /** The recogniser: scan the integer digits, an optional point and
      fraction digits, the spaces, and check that what is left is empty or a
      unit token. */
  function Recognise(mode: Mode, s: string): Option<SizeText> {
    var w := Run(Digits(mode), s);
    if w == 0 then None else RecogniseAfterWhole(mode, s[..w], s[w..])
  }

  function RecogniseAfterWhole(mode: Mode, whole: string, rest: string): Option<SizeText> {
    if |rest| > 0 && rest[0] == '.' then
      var digits := rest[1..];
      var f := Run(Digits(mode), digits);
      if f == 0 then None else RecogniseAfterNumber(mode, whole, Some(digits[..f]), digits[f..])
    else
      RecogniseAfterNumber(mode, whole, None, rest)
  }

  function RecogniseAfterNumber(mode: Mode, whole: string, fraction: Option<string>, rest: string)
    : Option<SizeText>
  {
    var e := Run(Spaces, rest);
    var tail := rest[e..];
    if tail == [] then Some(SizeText(whole, fraction, e, None))
    else if IsUnitToken(mode, tail) then Some(SizeText(whole, fraction, e, Some(tail)))
    else None
  }

  lemma RecogniseAfterNumberSound(mode: Mode, whole: string, fraction: Option<string>, rest: string)
    ensures var r := RecogniseAfterNumber(mode, whole, fraction, rest);
      r.Some? ==> && r.value.whole == whole && r.value.fraction == fraction
                  && (r.value.token.Some? ==> IsUnitToken(mode, r.value.token.value))
                  && ShowAfterNumber(r.value) == rest
  {
    var e := Run(Spaces, rest);
    assert rest[..e] == Blanks(e);
    assert rest == rest[..e] + rest[e..];
  }

  lemma RecogniseAfterWholeSound(mode: Mode, whole: string, rest: string)
    ensures var r := RecogniseAfterWhole(mode, whole, rest);
      r.Some? ==> && r.value.whole == whole
                  && (r.value.fraction.Some? ==> |r.value.fraction.value| > 0
                                                 && AllDigitsIn(mode, r.value.fraction.value))
                  && (r.value.token.Some? ==> IsUnitToken(mode, r.value.token.value))
                  && ShowAfterWhole(r.value) == rest
  {
    if |rest| > 0 && rest[0] == '.' {
      RecogniseFractionSound(mode, whole, rest);
    } else {
      RecogniseAfterNumberSound(mode, whole, None, rest);
    }
  }

  lemma RecogniseFractionSound(mode: Mode, whole: string, rest: string)
    requires |rest| > 0 && rest[0] == '.'
    ensures var r := RecogniseAfterWhole(mode, whole, rest);
      r.Some? ==> && r.value.whole == whole
                  && r.value.fraction.Some? && |r.value.fraction.value| > 0
                  && AllDigitsIn(mode, r.value.fraction.value)
                  && (r.value.token.Some? ==> IsUnitToken(mode, r.value.token.value))
                  && ShowAfterWhole(r.value) == rest
  {
    var digits := rest[1..];
    var f := Run(Digits(mode), digits);
    if f > 0 {
      RecogniseAfterNumberSound(mode, whole, Some(digits[..f]), digits[f..]);
      assert digits == digits[..f] + digits[f..];
      assert rest == ['.'] + digits;
    }
  }

  /** Soundness: whatever the recogniser reports is a well-formed size text
      that renders back to exactly the input. */
  lemma RecogniseSound(mode: Mode, s: string)
    ensures var r := Recognise(mode, s);
      r.Some? ==> WellFormed(mode, r.value) && Show(r.value) == s
  {
    var w := Run(Digits(mode), s);
    if w > 0 {
      RecogniseAfterWholeSound(mode, s[..w], s[w..]);
      assert s == s[..w] + s[w..];
    }
  }

  lemma SpellingsStartWithLetter()
    ensures forall x :: x in TokenSpellings ==> |x| > 0 && x[0] in "bkmgtp"
  {
  }

  /** A unit token begins with a letter: not a digit, a point or a space. */
  lemma TokenStartsWithLetter(mode: Mode, tok: string)
    requires IsUnitToken(mode, tok)
    ensures |tok| > 0
    ensures !IsDigitIn(mode, tok[0]) && tok[0] != '.' && tok[0] != ' '
  {
    SpellingsStartWithLetter();
    var f := FoldString(mode, tok);
    assert f[0] == Fold(mode, tok[0]);
  }

  lemma RecogniseAfterNumberComplete(mode: Mode, t: SizeText)
    requires t.token.Some? ==> IsUnitToken(mode, t.token.value)
    ensures RecogniseAfterNumber(mode, t.whole, t.fraction, ShowAfterNumber(t)) == Some(t)
    ensures var r := ShowAfterNumber(t); r == [] || (!IsDigitIn(mode, r[0]) && r[0] != '.')
  {
    if t.token.Some? {
      TokenStartsWithLetter(mode, t.token.value);
    }
    RunOverPrefix(Spaces, Blanks(t.spaces), t.TokenText());
    if t.spaces > 0 {
      assert ShowAfterNumber(t)[0] == Blanks(t.spaces)[0];
    }
  }

  lemma RecogniseAfterWholeComplete(mode: Mode, t: SizeText)
    requires t.fraction.Some? ==> |t.fraction.value| > 0 && AllDigitsIn(mode, t.fraction.value)
    requires t.token.Some? ==> IsUnitToken(mode, t.token.value)
    ensures RecogniseAfterWhole(mode, t.whole, ShowAfterWhole(t)) == Some(t)
    ensures var r := ShowAfterWhole(t); r == [] || !IsDigitIn(mode, r[0])
  {
    RecogniseAfterNumberComplete(mode, t);
    if t.fraction.Some? {
      RecogniseFractionComplete(mode, t);
    }
  }

  lemma RecogniseFractionComplete(mode: Mode, t: SizeText)
    requires t.fraction.Some? && |t.fraction.value| > 0 && AllDigitsIn(mode, t.fraction.value)
    requires RecogniseAfterNumber(mode, t.whole, t.fraction, ShowAfterNumber(t)) == Some(t)
    requires var r := ShowAfterNumber(t); r == [] || !IsDigitIn(mode, r[0])
    ensures RecogniseAfterWhole(mode, t.whole, ShowAfterWhole(t)) == Some(t)
    ensures ShowAfterWhole(t)[0] == '.'
  {
    RunOverPrefix(Digits(mode), t.fraction.value, ShowAfterNumber(t));
  }

  /** Completeness: every well-formed size text is recognised, and taken
      apart exactly as it was put together (so the grammar is unambiguous). */
  lemma RecogniseComplete(mode: Mode, t: SizeText)
    requires WellFormed(mode, t)
    ensures Recognise(mode, Show(t)) == Some(t)
  {
    RecogniseAfterWholeComplete(mode, t);
    RunOverPrefix(Digits(mode), t.whole, ShowAfterWhole(t));
  }

  /** The recogniser accepts exactly the strings of the grammar. */
  lemma RecogniseExactly(mode: Mode, s: string)
    ensures Recognise(mode, s).Some? <==> InGrammar(mode, s)
  {
    RecogniseSound(mode, s);
    if InGrammar(mode, s) {
      var t :| WellFormed(mode, t) && Show(t) == s;
      RecogniseComplete(mode, t);
    }
  }

  /** The recognition result with the unit token lower-cased. */
  function LowerToken(r: Option<SizeText>): Option<SizeText> {
    match r
    case None => None
    case Some(t) =>
      match t.token
      case None => Some(t)
      case Some(u) => Some(t.(token := Some(LowerString(u))))
  }

  /** Lower-casing never turns a character into, or out of, a digit, a
      space or a point, and leaves digits and spaces as they are. */
  lemma ClassIgnoresCase(cls: CharClass, c: char)
    ensures InClass(cls, ToLower(c)) == InClass(cls, c)
    ensures (ToLower(c) == '.') == (c == '.')
    ensures InClass(cls, c) ==> ToLower(c) == c
  {
  }

  lemma LowerSlice(s: string, i: nat)
    requires i <= |s|
    ensures LowerString(s)[i..] == LowerString(s[i..])
    ensures LowerString(s)[..i] == LowerString(s[..i])
  {
  }

  lemma RunIgnoresCase(cls: CharClass, s: string)
    ensures Run(cls, LowerString(s)) == Run(cls, s)
    ensures LowerString(s)[..Run(cls, s)] == s[..Run(cls, s)]
  {
    var n := Run(cls, s);
    var s' := LowerString(s);
    forall k | 0 <= k < n
      ensures InClass(cls, s'[k]) && s'[k] == s[k]
    {
      ClassIgnoresCase(cls, s[k]);
    }
    if n < |s| {
      ClassIgnoresCase(cls, s[n]);
    }
    RunStopsAt(cls, s', n);
  }

  lemma TokenIgnoresCase(mode: Mode, tok: string)
    ensures FoldString(mode, LowerString(tok)) == FoldString(mode, tok)
    ensures IsUnitToken(mode, LowerString(tok)) == IsUnitToken(mode, tok)
  {
    var a := FoldString(mode, LowerString(tok));
    var b := FoldString(mode, tok);
    forall i | 0 <= i < |tok|
      ensures a[i] == b[i]
    {
    }
  }

  lemma AfterNumberIgnoresCase(mode: Mode, whole: string, fraction: Option<string>, rest: string)
    ensures RecogniseAfterNumber(mode, whole, fraction, LowerString(rest))
         == LowerToken(RecogniseAfterNumber(mode, whole, fraction, rest))
  {
    RunIgnoresCase(Spaces, rest);
    var e := Run(Spaces, rest);
    LowerSlice(rest, e);
    TokenIgnoresCase(mode, rest[e..]);
  }

  lemma AfterWholeIgnoresCase(mode: Mode, whole: string, rest: string)
    ensures RecogniseAfterWhole(mode, whole, LowerString(rest))
         == LowerToken(RecogniseAfterWhole(mode, whole, rest))
  {
    var rest' := LowerString(rest);
    if |rest| > 0 {
      ClassIgnoresCase(Spaces, rest[0]);
    }
    if |rest| > 0 && rest[0] == '.' {
      var digits := rest[1..];
      LowerSlice(rest, 1);
      RunIgnoresCase(Digits(mode), digits);
      var f := Run(Digits(mode), digits);
      LowerSlice(digits, f);
      AfterNumberIgnoresCase(mode, whole, Some(digits[..f]), digits[f..]);
    } else {
      AfterNumberIgnoresCase(mode, whole, None, rest);
    }
  }

  /** Case-insensitivity: lower-casing the input changes nothing the
      recogniser reports except the spelling of the unit token. */
  lemma RecogniseIgnoresCase(mode: Mode, s: string)
    ensures Recognise(mode, LowerString(s)) == LowerToken(Recognise(mode, s))
  {
    RunIgnoresCase(Digits(mode), s);
    var w := Run(Digits(mode), s);
    LowerSlice(s, w);
    AfterWholeIgnoresCase(mode, s[..w], s[w..]);
  }
}
