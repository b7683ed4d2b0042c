# Currency rate extraction, modelled in Dafny

The Go package `currency` downloads a JavaScript payload of exchange rates.
It pulls every `CODE:number` pair out of the payload with the regular
expression `(\w+):(\d*\.*\d+)` and turns each number into a rate with
`parseCurrencyRate`. A rate that comes out as zero is dropped. The rest go
into a map keyed by currency code, and a later pair overwrites an earlier
one. When the pattern matches nowhere, `GetCurrencies` returns the error
`no currencies found`.

This project models that extraction core and proves its properties:

- `wrappers.dfy`: `Option` and `Result`.
- `chars.dfy`: the ASCII classes `\w` and `\d`, and digit values.
- `decimals.dfy`: exact decimal numbers (`mantissa * 10^exponent`) with a
  normal form. They stand in for `float64`. A ghost real value gives them
  their meaning.
- `float_syntax.dfy`: the decimal syntax `strconv.ParseFloat` accepts
  (`[+-]? digits [. digits] ([eE][+-]? digits)?`, with at least one mantissa
  digit), its parser, its printer, and the exact value of a parsed literal.
- `pattern.dfy`: the `reCurr` pattern.
  - A reference semantics says what leftmost-first (Perl-like) matching
    reports. The preferred parse at a position is the lexicographically
    greatest tuple of group lengths, which is the order a backtracking
    matcher tries them in.
  - A greedy scanner computes the match at each position.
  - `FindAllStringSubmatch` collects the successive non-overlapping matches.
    It is proved equal to the one list the reference semantics allows.
- `currency.dfy`:
  - `parseCurrencyRate`.
  - The extraction loop of `GetCurrencies`, as a method proved against a
    specification function (`Table`).
  - The lemmas about the map the loop builds.
  - The rate examples of currency_test.go.

The `0` that `parseCurrencyRate` puts before a leading point never changes
the result. Go's `ParseFloat` already accepts `.5`. The prefix changes the
parse only for a point without digits, alone or followed by an exponent
(`.`, `.e5`). Such text fails to parse on its own, while `0.` and `0.e5`
parse as zero, so both give the rate 0. `Currency.ParseCurrencyRate`
states this as its second `ensures`.

## Model

| member | source | states |
|---|---|---|
| Chars.DigitValue | currency.go:50 | the value of a digit the number conversion reads is below ten |
| Decimals.Normalize | currency.go:50 | the result is in normal form and keeps the sign of the mantissa |
| Decimals.NormalizeKeepsValue | currency.go:50 | normalising keeps the exact value |
| Decimals.NormalizeNormalized | currency.go:50 | a decimal already in normal form is unchanged by normalising |
| Decimals.NormalizedIsCanonical | currency.go:35 | two normalised decimals are equal exactly when their values are, so comparing with `Zero` is comparing the value with 0 |
| Decimals.MantissaZeroIffValueZero | currency.go:35 | a decimal has a zero mantissa exactly when its value is 0 |
| Decimals.ZeroIffValueZero | currency.go:35 | a normalised decimal equals `Zero` exactly when its value is 0 |
| Decimals.PositiveValue | currency.go:35 | a positive mantissa gives a positive value |
| FloatSyntax.ParseLiteral | currency.go:50 | the syntax `ParseFloat` accepts: by `ParseLiteralSpells` every accepted text is a well-formed literal that spells back to the input, and by `SpellParses` every well-formed literal is accepted |
| FloatSyntax.ToDecimal | currency.go:50 | the number a literal denotes: by `ToDecimalValue` its value is the signed digits times ten to the exponent less the number of fraction digits |
| FloatSyntax.FirstIndexIn | currency.go:50 | the index found is the first position holding one of the characters, or the length when there is none |
| FloatSyntax.ParseLiteralSpells | currency.go:50 | whatever the parser accepts is a well-formed literal that spells back to exactly the input |
| FloatSyntax.SpellParses | currency.go:50 | every well-formed literal, spelled out, parses back to itself |
| FloatSyntax.ExponentParses | currency.go:50 | every well-formed exponent, spelled out, parses back to itself |
| FloatSyntax.ExponentReadBack | currency.go:50 | a parsed exponent is well formed and spells back to its text |
| FloatSyntax.DigitsValueAppend | currency.go:50 | the value of `a + b` is the value of `a` shifted by the length of `b` plus the value of `b` |
| FloatSyntax.DigitsValueSnoc | currency.go:50 | one more digit multiplies by ten and adds that digit |
| FloatSyntax.LeadingZero | currency.go:46-48 | a leading `0` does not change the value of a digit string |
| FloatSyntax.ToDecimalValue | currency.go:50 | a literal's value is its signed digits over ten to the number of fraction digits, times ten to its exponent |
| FloatSyntax.NatDigits | currency.go:50 | the decimal digits of a natural are a non-empty digit string |
| FloatSyntax.NatDigitsValue | currency.go:50 | the digits of `n` have the value `n` |
| FloatSyntax.Format | currency.go:50 | formatting a decimal gives a well-formed literal without a point |
| FloatSyntax.FormatToDecimal | currency.go:50 | the formatted literal of a normalised decimal denotes that decimal |
| FloatSyntax.ParseFloat | currency.go:50-53 | an error exactly when the text is not a decimal literal, and otherwise a normalised value |
| FloatSyntax.FormatParses | currency.go:50 | a normalised decimal, formatted and parsed again, comes back unchanged |
| FloatSyntax.ZeroBeforePoint | currency.go:46-48 | for text starting with a point, putting `0` in front only gives the literal an integer part `0`; when only the prefixed text parses, that literal has the single digit `0` |
| FloatSyntax.ZeroBeforePointValue | currency.go:46-53 | for text starting with a point, the `0` prefix keeps any value the text already has; when only the prefixed text parses, the value is zero |
| FloatSyntax.ZeroIntDigits | currency.go:46-48 | a `0` integer part in place of an empty one keeps the value |
| FloatSyntax.DigitsAndPointsParse | currency.go:50-53 | a token of digits and points that ends in a digit parses exactly when it has at most one point |
| FloatSyntax.PlainParse | currency.go:50 | such a token parses as its digits before and after its first point, with no sign and no exponent |
| Pattern.RunLength | currency.go:17 | a run of one class is made of that class and is not followed by it |
| Pattern.RunIsMaximal | currency.go:17 | every run of the class from that position is at most as long as the one found |
| Pattern.NumberAt | currency.go:17 | the number group found ends inside the text |
| Pattern.NumberAtIsParse | currency.go:17 | the lengths found form a parse of `\d*\.*\d+` |
| Pattern.NumberAtIsGreatest | currency.go:17 | any parse of `\d*\.*\d+` is found, and none is preferred to the one found |
| Pattern.NumberParseFacts | currency.go:17 | a number parse ends in a digit, and its points follow its integer digits |
| Pattern.ChoiceAt | currency.go:17 | the match found ends inside the text |
| Pattern.CodeIsMaximalRun | currency.go:17 | in any parse the code group is the whole word run at its start |
| Pattern.ChoiceAtIsParse | currency.go:17 | what the scanner reports is a parse of the whole pattern |
| Pattern.ChoiceAtIsGreatest | currency.go:17 | every parse at a position is at most the one reported there |
| Pattern.ChoiceAtIsPreferred | currency.go:17 | the scanner reports at a position exactly when the pattern matches there, and it reports the preferred parse |
| Pattern.PreferredIsUnique | currency.go:17 | a position has at most one preferred parse |
| Pattern.FindAllFrom | currency.go:27 | the matches from a position: by `FindAllFromScans` the scanner's successive non-overlapping matches |
| Pattern.FindAllStringSubmatch | currency.go:27 | `reCurr.FindAllStringSubmatch(text, -1)`: by `FindAllIsLeftmostFirst` and `LeftmostFirstIsUnique` the one leftmost-first list of matches of the whole text |
| Pattern.FindAllFromScans | currency.go:27 | the list collected is the scanner's list of successive non-overlapping matches |
| Pattern.ScanFromIsLeftmostFirst | currency.go:27 | the scanner's list is a leftmost-first list of matches |
| Pattern.ScannedIsMatch | currency.go:27 | a match the scanner reports is a leftmost-first match |
| Pattern.NoneScannedIsNoMatch | currency.go:27 | where the scanner reports nothing, the pattern matches nowhere |
| Pattern.FindAllIsLeftmostFirst | currency.go:27 | `FindAllStringSubmatch` returns the leftmost-first matches of the whole text |
| Pattern.LeftmostFirstIsUnique | currency.go:27 | the text has only one leftmost-first list of matches |
| Pattern.FirstMatchesAgree | currency.go:27 | two leftmost-first lists from one position start with the same match |
| Pattern.LeftmostFirstElements | currency.go:27 | each element is a match at or after the start, and each match ends no later than the next begins |
| Pattern.MatchCodeShape | currency.go:17 | group 1 is a non-empty run of word characters in the text, followed by `:` |
| Pattern.MatchNumberShape | currency.go:17 | group 2 is the text after the colon up to the match's end, made of digits and points, and ending in a digit |
| Pattern.CodeStartsAtBoundary | currency.go:17 | the first match starts at the scan start or just after a non-word character |
| Pattern.WordBefore | currency.go:17 | a word character before a parse extends its code group by one |
| Pattern.NoMatchesIffNoneMatchable | currency.go:27-28 | the list of matches is empty exactly when the pattern matches at no position |
| Currency.ParseCurrencyRate | currency.go:45-56 | the rate is normalised, and it is the parsed value of the token itself, or zero on a parse error, so the `0` prefix changes nothing |
| Currency.TokenRate | currency.go:45-56 | a matched number's rate is never negative, and it is zero when the number has two points or more |
| Currency.Live | currency.go:35 | an entry is kept when its rate is not zero: by `LiveIffValueNonZero` exactly when the value of the rate is not 0 |
| Currency.LiveIffValueNonZero | currency.go:35 | a normalised rate is kept exactly when its value is not 0, the test `currRate == 0` |
| Currency.Table | currency.go:32-40 | no code is mapped to zero |
| Currency.TableIsLastLive | currency.go:33-40 | a code is a key exactly when some entry with that code has a non-zero rate, and its value is the rate of the last such entry |
| Currency.ExtractCurrencies | currency.go:27-42 | the error `no currencies found` exactly when the pattern matches nowhere, and otherwise the map `Table` gives for the entries of the matches |
| Currency.TableEmptyIffNoneLive | currency.go:32-42 | the map is empty exactly when every rate is zero |
| Currency.ExtractedRates | currency.go:33-40 | each value in the map is strictly positive and is the rate of the last match of its code whose rate is not zero |
| Currency.FoundIsMatch | currency.go:27 | each element of the match list is a leftmost-first match |
| Currency.KeptRateIsPositive | currency.go:34-39 | a rate that is not zero from a match is strictly positive |
| Currency.RateOfFixed | currency.go:45-56 | `ip.fp` gives all its digits as one integer over ten to the number of fraction digits, normalised, with an empty `ip` allowed |
| Currency.RateOfDecimal | currency_test.go:33-35 | `1.15998` gives 1.15998 |
| Currency.RateUnderOne | currency_test.go:37-39 | `.808357` gives 0.808357 |
| Currency.RateOfInvalidInput | currency_test.go:41-43 | `F` gives zero |
| Currency.RateOfTwoPoints | currency.go:45-56 | `1..5`, which the pattern admits, gives zero |

## Left out

- `get` (currency.go:58-91) is left out: it is HTTP I/O with a timeout and TLS settings. `ExtractCurrencies` takes the fetched payload as its parameter, and the fetch error is not modelled.
- `float64` is left out. Rates are exact decimals, so rounding to binary, overflow and underflow are not modelled. The zero test `currRate == 0` is made on the exact value. Two consequences follow. A literal too small for `float64` rounds to 0 in Go and is dropped, but here it is kept. A literal too large gives Go a range error and so the rate 0, but here it keeps its exact value.
- Parts of `strconv.ParseFloat` are left out: `inf`, `nan`, hexadecimal floats, and underscores. Each of them needs a letter or an underscore, and the number group `\d*\.*\d+` matches neither, so they never reach `parseCurrencyRate` from the pattern. `ParseCurrencyRate` on arbitrary text treats them as parse errors. `strconv` is Go's standard library, not part of this model; its decimal syntax is modelled from its documentation.
- The `regexp` engine is left out. The pattern is modelled by its leftmost-first semantics on text seen as a sequence of characters. Invalid UTF-8 bytes and the engine's internals are not modelled. `\w` and `\d` are ASCII only, as in Go.
- Map iteration order is left out. It plays no part in the extraction.
- `TestGetCurrencies` (currency_test.go:5-24) is left out. It calls `GetCurrencyRates`, which the package does not define, and it needs the network.
- Currency.RateOfDecimal: takes the token character by character rather than as one string literal, and states the same value.
- Currency.RateUnderOne: takes the token character by character rather than as one string literal, and states the same value.
