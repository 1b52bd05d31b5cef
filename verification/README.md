# byteunit, modelled in Dafny

A Dafny model of the Rust crate `byteunit` (the single file `src/lib.rs`).
The crate turns human-readable size strings such as `"1.23 KiB"` into byte
counts, and turns byte counts back into such strings. The model covers:

- the eleven units `B, KB … PB` (powers of 1000) and `KiB … PiB` (powers of
  1024), with their multipliers, their display suffixes and their upper-case
  names;
- `parse_size_unit`, the anchored, case-insensitive pattern
  `digits ('.' digits)? ' '* ((k|m|g|t|p|ki|mi|gi|ti|pi)? b)?` and the
  mapping of the upper-cased token to a unit;
- `parse`, the number of whole bytes: the magnitude times the multiplier,
  truncated;
- `parse_to`, the byte count divided by the target unit's multiplier;
- `format_to`, the amount in a unit rounded to two decimals, with trailing
  zeros and then a bare point trimmed, followed by a space and the unit's
  suffix (`KiB`, not `KIB`);
- `format`, `format_to` in the largest decimal unit whose threshold the count
  reaches.

Numbers are exact. A magnitude is a mantissa over a power of ten: `12.34` is
1234 over 10^2. `parse` is floor(mantissa × multiplier / 10^k). `parse_to`
returns a `real`. `format_to` rounds 100 × bytes / multiplier to the nearest
integer, and a tie goes up.

The modules follow the crate's structure:

- `Units` holds the unit table.
- `Grammar` holds the pattern. A generator (`SizeText`, `Show`) and a
  recogniser (`Recognise`) are proved to describe the same language.
- `Parser` holds `parse_size_unit`, `parse` and `parse_to`.
- `Readings` holds what the parser makes of texts of a known shape.
- `Formatter` holds `format_to` and `format`.
- `AsWritten` holds the parser as the code behaves with its Unicode-aware
  pattern.
- `DocExamples` and `FormatExamples` restate the crate's documented and
  tested examples.

The recogniser takes a `Mode`. `Ascii` is the grammar as documented.
`UnicodeRegex` adds what the regex engine's Unicode classes also let through
(see AsWritten and the findings below).

One behaviour of the source follows from the order of its steps rather than
from a slip. `format` chooses the unit before it rounds, so 999 999 bytes
print as `1000 KB` (`FormatExamples.FormatJustBelowMegabyte`,
`Formatter.FormatAmountRange`).

## Model

| member | source | states |
|---|---|---|
| Units.MultipliersArePowers | src/lib.rs:11-22 | the i-th decimal unit is 1000^i bytes and the i-th binary unit is 1024^i bytes |
| Units.MultiplierOrder | src/lib.rs:11-22 | each family strictly increases; each binary unit above B is larger than the decimal unit of the same rank; distinct units have distinct multipliers |
| Units.UnitOfToken | src/lib.rs:52-65 | the lookup of an upper-cased token yields the unit whose name it is, or nothing when no unit has that name (the catch-all arm) |
| Units.Multiplier | src/lib.rs:11-22 | each unit's size in bytes is a power of 1000 or 1024 (its contract is carried by Units.MultipliersArePowers and Units.MultiplierOrder) |
| Units.Suffix | src/lib.rs:217-229 | the suffix `format_to` appends; Units.SuffixNamesUnit and Readings.SpellingsName show it names the same unit when parsed |
| Units.SuffixNamesUnit | src/lib.rs:217-229 | the suffix `format_to` appends, once upper-cased, is the name `parse_size_unit` maps back to the same unit |
| Grammar.Run | src/lib.rs:41 | the length of the longest prefix made of one character class (the `\d+` and ` *` parts of the pattern) |
| Grammar.Recognise | src/lib.rs:41-42 | the anchored match of the pattern; Grammar.RecogniseSound, Grammar.RecogniseComplete and Grammar.RecogniseExactly carry its contract |
| Grammar.RecogniseSound | src/lib.rs:41 | every string the recogniser accepts is a well-formed size text printed back exactly |
| Grammar.RecogniseComplete | src/lib.rs:41 | every well-formed size text is recognised, as itself, from its printed form |
| Grammar.RecogniseExactly | src/lib.rs:41 | the recogniser accepts exactly the strings the anchored pattern generates |
| Grammar.RecogniseIgnoresCase | src/lib.rs:41 | under `(?i)`, lower-casing the input lower-cases the token read and changes nothing else |
| Grammar.TokenStartsWithLetter | src/lib.rs:41 | a unit token starts with a letter, so it cannot extend the number or the run of spaces |
| Parser.ParseSizeUnit | src/lib.rs:39-69 | succeeds exactly on the strings of the ASCII grammar, which is the pattern corrected (the pattern as written is AsWritten.ParseSizeUnitAsWritten); every other input gives the single parse error |
| Parser.UnitNamed | src/lib.rs:47-65 | no token means bytes, else the unit whose upper-case name the token is; Parser.ParsedUnitIsNamed shows the catch-all arm is never reached on an accepted string |
| Parser.ParseSizeUnitReadsText | src/lib.rs:46-65 | a well-formed text reads as its digits over 10^(fraction length), in bytes without a token, else in the unit its upper-cased token names |
| Parser.ParsedUnitIsNamed | src/lib.rs:47-65 | a successful parse takes its unit from the name table, never from the catch-all arm |
| Parser.TokenNamesUnit | src/lib.rs:41-65 | a string matches the pattern's unit part exactly when its upper-casing is one of the eleven unit names |
| Parser.ParseSizeUnitOfLower | src/lib.rs:41 | lower-casing the whole input does not change the result |
| Parser.CaseInsensitive | src/lib.rs:41 | two inputs that differ only in letter case parse alike |
| Parser.SpacesIrrelevant | src/lib.rs:41 | the number of spaces between number and unit does not change the result |
| Parser.TokenInjective | src/lib.rs:52-65 | no two units share an upper-case name |
| Parser.ByteCount | src/lib.rs:97-113 | the byte count is the largest whole number not above magnitude × multiplier |
| Parser.Parse | src/lib.rs:89-115 | succeeds exactly on the strings of the ASCII grammar (the corrected pattern), with the truncated byte count of the reading |
| Parser.InUnit | src/lib.rs:131-143 | the amount in the target unit times that unit's multiplier is the byte count |
| Parser.ParseTo | src/lib.rs:128-149 | succeeds exactly when `parse` does, with the byte count expressed in the target unit |
| Parser.ParseToBytes | src/lib.rs:128-149 | `parse_to` into bytes is `parse` |
| Parser.InBytes | src/lib.rs:132 | an amount in bytes is the count itself |
| Readings.ReadsAs | src/lib.rs:41-65 | a well-formed text whose token names a unit parses to its digits over a power of ten in that unit |
| Readings.SpellingsName | src/lib.rs:52-65 | the display suffix, the lower-case spelling and the upper-case name of each unit all match the pattern and name that unit |
| Readings.BareReading | src/lib.rs:47-50 | a bare whole number parses as that many bytes |
| Readings.IntegerReading | src/lib.rs:41-65 | digits, spaces and a unit token parse as that whole number of the unit |
| Readings.DecimalReading | src/lib.rs:41-65 | digits, a point, digits, spaces and a token parse as all the digits over 10^(fraction length) of the unit |
| Readings.CountsAs | src/lib.rs:97-113 | the byte count is the only whole number between the two bounds of the exact product |
| Readings.InUnitIs | src/lib.rs:131-143 | the amount in a unit is the only one that makes up the byte count |
| Readings.RejectsLeadingNonDigit | src/lib.rs:41 | input that is empty or does not open with an ASCII digit is rejected |
| Readings.RejectsEmptyFraction | src/lib.rs:41 | a point must be followed by a digit |
| Readings.RejectsUnknownUnit | src/lib.rs:41 | a number and its spaces followed by any non-empty text that is not a unit token, and that does not merely continue the number or the spaces, is rejected |
| Formatter.RoundHundredths | src/lib.rs:198-211 | the whole number of hundredths nearest to bytes / multiplier, ties going up |
| Formatter.RoundingUnique | src/lib.rs:198-211 | exactly one count of hundredths lies within half a hundredth |
| Formatter.Fixed2 | src/lib.rs:211 | two decimals after a point, and the digits around the point spell the hundredths |
| Formatter.TrimEnd | src/lib.rs:212-213 | the prefix left once the whole trailing run of the character is cut off: it does not end in the character, and everything cut off is that character |
| Formatter.TrimEndUnique | src/lib.rs:212-213 | those three properties determine the trimmed string |
| Formatter.NumberText | src/lib.rs:211-215 | `{:.2}` then trimming; Formatter.NumberTextWhole, Formatter.NumberTextTenths and Formatter.NumberTextHundredths state what it prints |
| Formatter.NumberTextWhole | src/lib.rs:211-214 | a whole number of units prints without a point |
| Formatter.NumberTextTenths | src/lib.rs:211-214 | a whole number of tenths prints with one decimal |
| Formatter.NumberTextHundredths | src/lib.rs:211-214 | any other amount prints with both decimals |
| Formatter.FormatTo | src/lib.rs:197-232 | `format_to`; Formatter.FormatToReadsBack, Formatter.FormatToParsesNear and Formatter.ParseFormatParse carry its contract |
| Formatter.FormatToReadsBack | src/lib.rs:197-232 | `parse_size_unit` of `format_to`'s output gives the same unit and exactly the rounded amount, with no trailing zero after the point |
| Formatter.FormatToBytes | src/lib.rs:199 | in bytes, `format_to` prints the count itself, then ` B` |
| Formatter.FormatToBytesRoundTrip | src/lib.rs:197-232 | `parse` of `format_to` in bytes gives back the count |
| Formatter.ParseThenFormat | src/lib.rs:197-232 | for a size of at most two decimals in a unit above B, `format_to` of the parsed count in that unit rounds back to exactly the hundredths the text wrote and prints them with the unit's suffix |
| Formatter.ParseFormatParse | src/lib.rs:197-232 | parse, then `format_to` in the same unit, then parse again: the same unit and the same amount as the input wrote, for at most two decimals and a unit above B |
| Formatter.ParseThenFormatBytes | src/lib.rs:89-115 | in bytes, parsing keeps the whole bytes the text wrote and drops its fraction, and `format_to` prints that count |
| Formatter.FormatToParsesNear | src/lib.rs:197-232 | `parse` of `format_to` in any unit is within half a hundredth of the unit, plus under one byte, of the count |
| Formatter.AutoUnit | src/lib.rs:163-185 | `format` picks a decimal unit no larger than the count (bytes below 1000) and below whose thousandfold the count lies (except PB) |
| Formatter.AutoUnitUnique | src/lib.rs:163-185 | exactly one decimal unit meets those bounds |
| Formatter.AutoUnitMonotone | src/lib.rs:163-185 | a larger count never gets a smaller unit |
| Formatter.FormatSmall | src/lib.rs:164-166 | below 1000, `format` prints the count in bytes |
| Formatter.FormatReadsBack | src/lib.rs:163-185 | `format`'s output parses back, in the unit `format` chose, which is decimal |
| Formatter.Format | src/lib.rs:163-185 | `format` is `format_to` in the unit Formatter.AutoUnit picks; Formatter.FormatReadsBack and Formatter.FormatSmall carry its contract |
| Formatter.FormatAmountRange | src/lib.rs:163-185 | from one kilobyte up, `format` prints between 1 and 1000 units, except in petabytes |
| AsWritten.ParseSizeUnitAsWritten | src/lib.rs:39-69 | the code as written rejects exactly the strings its Unicode-aware pattern does not match |
| AsWritten.KelvinSignReadAsBytes | src/lib.rs:41-64 | digits, KELVIN SIGN and `B` read as bytes as written, while the corrected parser rejects them |
| AsWritten.NonAsciiDigitsPanic | src/lib.rs:41-52 | a number in ARABIC-INDIC digits makes the code as written panic, while the corrected parser rejects it |
| AsWritten.AsciiTextWellFormed | src/lib.rs:41 | every text of the ASCII grammar also matches the Unicode-aware pattern |
| AsWritten.CorrectionAgreesOnGrammar | src/lib.rs:39-69 | on every input the corrected parser accepts, the code as written gives the same reading |
| DocExamples.DocumentedParse | src/lib.rs:75-86 | the documented `parse` table: "1.23 KiB" is 1259 bytes, "1.23 PiB" is 1 384 856 885 416 427, and so on |
| DocExamples.TestedParse | src/lib.rs:296-310 | the same table in the tests' spelling ("1.23KIB") |
| DocExamples.TestedParseSizeUnit | src/lib.rs:243-293 | "12.34" with every unit, in either case, with or without a space, reads as 1234 hundredths of that unit |
| DocExamples.TestedBare | src/lib.rs:240 | "123" reads as 123 bytes |
| DocExamples.FractionExample | src/lib.rs:241 | "12.34" reads as 1234 hundredths of a byte |
| DocExamples.TestedBytes | src/lib.rs:242 | "123B" reads as 123 bytes |
| DocExamples.DocumentedParseTo | src/lib.rs:122-126 | `parse_to("123B")` is 0.123 in KB and 0.000123 in MB |
| DocExamples.TestedParseTo | src/lib.rs:314 | `parse_to("123", KB)` is 0.123 |
| DocExamples.TestedParseToSameUnit | src/lib.rs:315-324 | "1.23" of each unit, converted back to that unit, prints as 1.23 with two decimals |
| DocExamples.RejectsEmpty | src/lib.rs:67 | "" is rejected |
| DocExamples.RejectsUnknownUnitExample | src/lib.rs:41 | "12.34XB" is rejected |
| DocExamples.RejectsSpacedUnknownUnit | src/lib.rs:41 | "12 XB" is rejected |
| FormatExamples.FormatBytesExample | src/lib.rs:155 | `format(123)` is "123 B" |
| FormatExamples.DocumentedFormat | src/lib.rs:156-160 | 1.23 of each decimal unit formats as "1.23" and its suffix |
| FormatExamples.TestedFormatTo | src/lib.rs:341-350 | the tested counts format as "1.25" in each unit |
| FormatExamples.TestedFormatToHalf | src/lib.rs:352-361 | half of any unit formats as "0.5" and its suffix |
| FormatExamples.TestedFormatToBytes | src/lib.rs:340 | `format_to(123, B)` is "123 B" |
| FormatExamples.FormatJustBelowMegabyte | src/lib.rs:167-169 | 999 999 bytes format as "1000 KB" |

## Left out

- The regex engine is not modelled. The pattern is a hand-written recogniser, proved equal to the language the pattern describes.
- Floating point is replaced by exact rationals. For a decimal magnitude, `parse` truncates the exact product. The source reads the digits into the nearest `f64`, rounds the product to the nearest `f64` and truncates that. Its count can therefore differ from the exact floor in either direction, by up to about half an `f64` unit in the last place of the product. Above 2^53 that is many bytes: "1000000000000000063" gives 10^18 there, 63 bytes fewer than here, and "18014398509481991" gives 18014398509481992 there. Below 2^53 a product that falls just under a whole number can lose one byte.
- Formatter.RoundHundredths: rounds the exact quotient half up. The source divides in `f64` and `{:.2}` rounds that binary value, so every decimal tie is decided by the representation error of the `f64` quotient, and exact binary ties go half to even. `format_to(1005, KB)` and `format(1005)` print "1 KB" there (1005/1000 is 1.00499999… in `f64`) and "1.01 KB" here. 2675 bytes print "2.67 KB" there and "2.68 KB" here. 1152 bytes in KiB (1.125 exactly) print "1.12 KiB" there and "1.13 KiB" here. The tested value 1245 agrees only because 1.245 is stored slightly above the tie.
- Parser.ParseSizeUnit: models the pattern corrected to ASCII digits and ASCII unit spellings, not the pattern as written. `parse` and `parse_to` (Parser.Parse, Parser.ParseTo) build on this corrected parser. The code as written is AsWritten.ParseSizeUnitAsWritten, and AsWritten.CorrectionAgreesOnGrammar shows the two agree on every input the corrected parser accepts.
- Parser.ParseTo: returns an exact `real` rather than the nearest `f64`.
- Parser.Parse: no `usize` width. The source saturates a float-to-`usize` cast, so "99999999999 PB" gives `usize::MAX` there and the exact count here. Byte counts given to `format` and `format_to` are likewise unbounded.
- The generic `Into<String>` parameters and the error message text are not modelled. The error is one `InvalidFormat` value.
- AsWritten.ParseSizeUnitAsWritten: the Unicode digit class lists only Arabic-Indic, Extended Arabic-Indic, Devanagari and full-width digits, not every decimal digit `\d` admits.
- There is no I/O, clock or randomness in the crate.

## Findings

| source | as written | input that shows it | evidently intended | confidence | as-written member | corrected member |
|---|---|---|---|---|---|---|
| src/lib.rs:41, 48, 64 | `(?i)` matching folds `k` with KELVIN SIGN (U+212A); `to_uppercase` keeps the sign, so the token matches no unit name and the catch-all arm reads it as bytes | "1\u{212A}B" gives 1 byte, not an error and not 1 KB | accept only the ASCII unit spellings, so the input is rejected | not executed | AsWritten.KelvinSignReadAsBytes | Parser.ParseSizeUnit |
| src/lib.rs:41, 52 | `\d` matches any Unicode decimal digit, but `str::parse::<f64>` accepts only ASCII digits, so the `unwrap` panics | "\u{661}" (ARABIC-INDIC DIGIT ONE) panics | treat non-ASCII digits as a format error | not executed | AsWritten.NonAsciiDigitsPanic | Parser.ParseSizeUnit |
