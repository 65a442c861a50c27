# GNU Taler amounts in Dafny

This project models the amount type of taler-go (`pkg/util/amount.go`) and proves properties of the model.

A GNU Taler amount is three things:

- a currency code;
- a whole-unit `Value`, a Go `uint64`;
- a `Fraction` in units of 10^-8, also a `uint64`.

The file provides:

- `NewAmount` and `IsZero`;
- `Add`, with a carry and an overflow check against 2^52, and `Sub`, with a borrow;
- `ParseAmount`, which reads the text form `<currency>:<value>[.<fraction>]` through a regular expression;
- `String()`, which writes that form back;
- display formatting through a currency specification, and the registry `Currencies` of those specifications.

The Go code is pure: every function builds a new value or string. So the model is datatypes, functions and lemmas, one module per concern:

| file | module | what |
|---|---|---|
| `decimal.dfy` | `Decimal` | decimal digit strings: `strconv.FormatUint`, `strings.TrimRight(s, "0")`, the zero padding of `%0*d`, and the number a digit string denotes |
| `amount.dfy` | `Amounts` | the constants, `Amount`, `NewAmount`, `IsZero`, `Add`, `Sub`, and the corrected `AddChecked` and `SubChecked` |
| `parser.dfy` | `Parser` | the amount pattern as a scanner (`Scan`), its grammar (`Render`), `ParseAmount`, and the corrected `ParseAmountUpTo8` |
| `wire.dfy` | `Wire` | `String()` (`ToString`), what it reads back as, and the corrected `CanonicalString` |
| `display.dfy` | `Display` | `CurrencySpecification`, `Currencies`, `FormatWithCurrencySpecification`, `Format`, and the corrected `FormatScaled` |
| `scenarios.dfy` | `Scenarios` | the concrete results the repository's tests expect, and two general facts about `ParseAmount` |

The model follows the code as written. Every place where Go's `uint64` arithmetic can wrap is written out with `% Uint64Limit` (2^64):

- the value sum in `Add`;
- the fraction sum in `Add`;
- the borrow `v -= 1` in `Sub`;
- `f += FractionalBase` and `f -= b.Fraction` in `Sub`.

`ParseAmount` does not check whether the pattern matched. When it does not, `FindStringSubmatch` returns nil and indexing it panics. The model returns the distinct outcome `MatchPanic` for this case.

The pattern `^\s*([-_*A-Za-z0-9]+):([0-9]+)\.?([0-9]+)?\s*$` is modelled in two parts:

- `Scan` is a hand-written scanner that returns the capture groups;
- `Render(lead, captures, trail)` is the grammar that the pattern describes.

Two lemmas tie them together:

- `Scan`'s own contract: whatever it finds renders back to the input;
- `ScanRender`: every rendered match is found.

In six places the code behaves differently from what its own constants, comments and messages lead one to expect. The model follows the code in each, and a lemma states the behaviour:

- `ParseAmount` returns an error value (line 184), and a failed match yields nil. Yet the only error it tests before indexing the match is the compile error (line 188), so a non-matching input panics (`Scenarios.NoColonPanics`).
- `FractionalLength` is 8 (line 101), the precision of the fraction. Yet the length test on `"0." + digits` (line 195) admits only 7 digits (`Wire.EightDigitFractionRejected`).
- The pattern `\.?([0-9]+)?` makes both the '.' and the digits after it optional, each on its own. So "EUR:1." is a match and parses as EUR 1 (`Scenarios.TrailingDotAccepted`).
- `String()` prints the fraction with `FormatUint`, which drops the leading zeros that give the digits their weight (lines 222-223). So EUR 1.05 prints "EUR:1.5" (`Wire.StringDropsLeadingZeros`).
- `NumFractionalNormalDigits` is described as the number of digits shown, "€,$,£: 2; some arabic currencies: 3, ¥: 0" (line 38). Yet the display divides the fraction by 10^6 whatever that number is (line 124), so a three-digit currency shows 1.5 as "1.050" (`Display.DisplayDivisorFixed`).
- The comment on `Sub` says "a >= b" (lines 135-136). Yet a borrow from a zero value wraps the `uint64` and passes the `v < b.Value` test (`Amounts.SubWrapsOnZeroValue`).

The ones that are evidently bugs are also listed under Findings, with a corrected member.

## Model

| member | source | states |
|---|---|---|
| Amounts.NewAmount | pkg/util/amount.go:110-116 | the amount holds exactly the given currency, value and fraction, no normalisation; its magnitude is value·10^8 + fraction |
| Amounts.IsZero | pkg/util/amount.go:213-215 | true exactly when the amount's magnitude is 0 |
| Amounts.Add | pkg/util/amount.go:163-181 | fails with CurrencyMismatch exactly when the currencies differ; a success carries a's currency, a value below 2^52 and a fraction below 10^8, whatever the operands |
| Amounts.AddExact | pkg/util/amount.go:163-181 | for operands of one currency with fractions below 10^8 whose value sum does not wrap (values of any size, as ParseAmount yields): the carry is 0 or 1; Add succeeds iff value sum plus carry < 2^52, iff the exact sum of magnitudes < 2^52·10^8; a success has value aV+bV+carry, fraction (aF+bF) mod 10^8, is the exact sum and is valid; every failure is AmountOverflow |
| Amounts.AddCommutative | pkg/util/amount.go:163-181 | Add(a, b) == Add(b, a), including both failure kinds |
| Amounts.Sub | pkg/util/amount.go:137-158 | fails with CurrencyMismatch exactly when the currencies differ; a success carries a's currency |
| Amounts.SubExact | pkg/util/amount.go:135-158 | for operands of one currency with fractions below 10^8 and any uint64 values, where the borrow cannot wrap (aV ≥ 1 or aF ≥ bF): Sub succeeds iff a ≥ b, every failure is AmountOverflow, a success is the exact difference with a fraction below 10^8, and valid when a is |
| Amounts.SubWrapsOnZeroValue | pkg/util/amount.go:143-150 | when aV = 0 and aF < bF, a < b and yet Sub succeeds, with value 2^64−1−bV and fraction aF+10^8−bF |
| Amounts.SubUndoesAdd | pkg/util/amount.go:137-181 | for valid a, b with Add(a, b) successful, Sub(Add(a, b), b) == a |
| Amounts.AddUndoesSub | pkg/util/amount.go:137-181 | for valid a, b with Sub(a, b) successful and no wrap, Add(Sub(a, b), b) == a |
| Amounts.SubCheckedExact | pkg/util/amount.go:135-136 | the corrected Sub, which never wraps, succeeds iff a ≥ b for all valid operands, and a success is the exact, valid difference |
| Amounts.AddCheckedExact | pkg/util/amount.go:160-172 | the corrected Add, checked before the uint64 sum can wrap, succeeds iff the exact sum is below 2^52 whole units, whatever the operands' values, and a success is the exact, valid sum |
| Amounts.AddWrapsPastUint64 | pkg/util/amount.go:167-171 | Add(2^64−1, 1) passes the overflow check and yields 0; AddChecked reports AmountOverflow |
| Decimal.FormatUint | pkg/util/amount.go:220-222 | strconv.FormatUint: a non-empty digit string that denotes n, with no leading zero unless n = 0, of exactly as many digits as n's magnitude requires |
| Decimal.FormatUintInjective | pkg/util/amount.go:220-222 | distinct numbers print differently |
| Decimal.TrimZeros | pkg/util/amount.go:223 | strings.TrimRight(s, "0"): a prefix of s that does not end in '0', with only '0's cut off |
| Decimal.ValueTrimZeros | pkg/util/amount.go:223 | trimming k trailing zeros divides the denoted number by exactly 10^k |
| Decimal.ValuePadLeft | pkg/util/amount.go:124 | zero padding on the left keeps the denoted number |
| Decimal.PadLeftWidth | pkg/util/amount.go:124 | a number padded to width n ≥ 1 has exactly n digits, or more and no leading zero |
| Parser.Scan | pkg/util/amount.go:185-186 | every match is well formed (the currency class, at least one integer digit, digits after the optional '.') and renders back to the input between whitespace |
| Parser.ScanRender | pkg/util/amount.go:185-186 | every well-formed match between any whitespace is found, with exactly its capture groups |
| Parser.Convert | pkg/util/amount.go:198-208 | succeeds iff the integer digits denote a value below 2^64, else ValueUnparsable; the amount holds the first group as currency, the digits' value, and a fraction below 10^8 |
| Parser.ParseAmount | pkg/util/amount.go:184-210 | MatchPanic iff the pattern does not match; FractionTooLong iff it matches with more than 7 fraction digits; a success has a pattern-valid currency and a fraction below 10^8 |
| Parser.ParseAmountOfRender | pkg/util/amount.go:184-209 | for every match: FractionTooLong beyond 7 digits, else ValueUnparsable beyond uint64, else the amount (currency, integer value, Value(d)·10^(8−len d)) |
| Parser.ParseAmountUpTo8OfRender | pkg/util/amount.go:191-196 | the corrected parser admits up to 8 fraction digits and is otherwise ParseAmount |
| Wire.ToString | pkg/util/amount.go:219-227 | String() starts with "<currency>:" and, for a pattern-valid currency, is matched by the amount pattern with the groups (currency, FormatUint(value), fraction ≠ 0, trimmed fraction digits) |
| Wire.WireFractionReads | pkg/util/amount.go:219-227 | the printed fraction digits are 1 to 8 digits; they are at most 7 and scale back to the fraction iff the fraction has 8 significant digits ending in 0 |
| Wire.StringRoundTrip | pkg/util/amount.go:184-227 | for a pattern-valid currency and a fraction below 10^8, ParseAmount(String(a)) == a iff the fraction is 0 or lies in [10^7, 10^8) and ends in 0 |
| Wire.StringDropsLeadingZeros | pkg/util/amount.go:222-223 | String() of EUR 1.05 (fraction 5000000) is "EUR:1.5" |
| Wire.OnePointFiveReadsBack | pkg/util/amount.go:184-210 | "EUR:1.5" parses as EUR 1.5, not as the 1.05 it was printed from |
| Wire.CanonicalRoundTrip | pkg/util/amount.go:217-227 | the corrected wire form, padded to 8 digits before trimming, reads back through the 8-digit parser as the very same amount, for every valid currency and fraction |
| Wire.CanonicalKeepsLeadingZeros | pkg/util/amount.go:217-227 | the corrected wire form of EUR 1.05 is "EUR:1.05" |
| Wire.EightDigitFractionRejected | pkg/util/amount.go:191-196 | ParseAmount("EUR:0.00000001") is FractionTooLong; the corrected parser reads 1 fraction unit |
| Display.FormatWithCurrencySpecification | pkg/util/amount.go:119-125 | the display opens with the base unit name and a space; it ends right after the whole units exactly when no normal digits are shown |
| Display.DisplayFraction | pkg/util/amount.go:121-124 | empty iff no digits are shown; otherwise '.' followed by the quotient of the fraction by the divisor in digits, zero-padded as %0*d pads: exactly n digits, or more only without a leading zero |
| Display.Format | pkg/util/amount.go:127-133 | fails iff the currency is not registered, naming the currency; otherwise the registered specification's display |
| Display.FormatShowsValue | pkg/util/amount.go:119-125 | the display opens with the base unit name and a space, followed by the whole units exactly as strconv prints them |
| Display.FormatShowsFraction | pkg/util/amount.go:124 | with n > 0 normal digits the whole units are followed by '.' and nothing but digits, which denote fraction div 10^6: exactly n of them, or more only without a leading zero |
| Display.TwoDigitDisplayTruncates | pkg/util/amount.go:124 | with two normal digits and a valid fraction the display ends in '.' and exactly two digits d with d·10^6 ≤ fraction < (d+1)·10^6: truncated, not rounded |
| Display.DisplayDivisorFixed | pkg/util/amount.go:124 | with three normal digits, 1.5 displays as "X 1.050"; the corrected display shows "X 1.500" |
| Display.FormatScaledShowsLeadingDigits | pkg/util/amount.go:124 | the corrected display's fraction is '.' and exactly n digits d with d·10^(8−n) ≤ fraction < (d+1)·10^(8−n), the first n of the 8 fraction digits |
| Scenarios.AddScenario | pkg/util/amount_test.go:24-32 | EUR 1.5 + EUR 23.70007 = EUR 25.20007 |
| Scenarios.SubScenario | pkg/util/amount_test.go:34-42 | EUR 25.20007 − EUR 23.70007 = EUR 1.5 |
| Scenarios.StringScenario | pkg/taler/amount_test.go:46-50 | String() of EUR 25.20007 is "EUR:25.20007" |
| Scenarios.StringA | pkg/util/amount_test.go:34-42 | String() of EUR 1.5 is "EUR:1.5" |
| Scenarios.LargeScenario | pkg/util/amount_test.go:44-51 | "EUR:50" parses to EUR 50, and adding EUR 1.5 succeeds with EUR 51.5 |
| Scenarios.TrailingDotAccepted | pkg/util/amount.go:185 | "EUR:1." parses to EUR 1 |
| Scenarios.SurroundingSpaceSkipped | pkg/util/amount.go:185 | " EUR:50\n" parses to EUR 50 |
| Scenarios.NoColonPanics | pkg/util/amount.go:185-198 | every string without ':' makes ParseAmount panic |
| Scenarios.ParsedValueUnbounded | pkg/util/amount.go:171-198 | for any value ≥ 2^52 and a valid currency, ParseAmount reads the value back from its own String(), while Add refuses it even when adding zero |
| Scenarios.RegistryEntries | pkg/util/amount.go:52-85 | KUDOS and EUR are registered with base unit names "KUDOS" and "€" and two normal digits; FOO is not registered |
| Scenarios.FormatKScenario | pkg/util/amount_test.go:53-66 | "KUDOS:50.2" parses to 50.2, and with unit "K" and two digits shows as "K 50.20" |
| Scenarios.FormatKudosScenario | pkg/util/amount_test.go:67-72 | "KUDOS:50.234" parses to 50.234 and formats through the registry as "KUDOS 50.23" |
| Scenarios.FormatEuroScenario | pkg/util/amount_test.go:73-78 | "EUR:50.234" formats through the registry as "€ 50.23" |
| Scenarios.FormatUnknownScenario | pkg/util/amount_test.go:79-83 | "FOO:50.234" parses, and Format reports that FOO has no specification |

## Left out

- Floating point is replaced by exact integer arithmetic:
  - The carry in `Add` goes through `float64` and `math.Floor` in Go; the model uses integer division.
  - The fraction in `ParseAmount` goes through `strconv.ParseFloat` and `math.Round`; the model computes Value(d)·10^(8−len d) exactly.
  - Both agree with the Go results for the operands in range, which are fraction sums below 2·10^8 and at most 7 digits.
  - Float rounding outside that range is not modelled.
- The Go `regexp`, `strconv` and `fmt` packages are not part of this model. The pattern is written out as a scanner, with lemmas that it and the pattern agree. Decimal printing is `FormatUint`, and `%0*d` is `PadLeft`.
- Strings are sequences of characters, not UTF-8 bytes. Only ASCII digits and separators are ever measured, so lengths agree with Go's byte lengths wherever the code uses them.
- The compile error of the pattern is not modelled, because the pattern is a constant that compiles.
- Unit names for non-zero powers of ten are not used, because the code leaves them unimplemented (the FIXME at `pkg/util/amount.go:118`).
- `NumFractionalInputDigits` and `NumFractionalTrailingZeroDigits` are kept in the datatype but never read, as in the code.
- The message texts of the Go errors are left out. The model keeps one constructor per distinct error; `Add` and `Sub` both report overflow and underflow as "Amount Overflow".
- The format test builds its specification with a field named `AltUnitNames` (`pkg/util/amount_test.go:57`). The struct calls that field `AllUnitNames`, so the test does not compile as written. The model reads the test's expected strings with the unit name set through `allUnitNames`.
- `pkg/taler/amount_test.go` tests a `taler.Amount` type whose source is not part of this model. Its expectations are checked against the `util` model, which they share.
- `pkg/merchant/merchant.go`, `pkg/rest/tos.go` and `pkg/util/db.go` are not part of this model. They are HTTP, file and database input/output.
- `Currencies` is a constant map. The Go variable is mutable, but the code only reads it.

## Findings

| source | as written | input that shows it | evidently intended | confidence | as-written member | corrected member |
|---|---|---|---|---|---|---|
| pkg/util/amount.go:143-150 | `v -= 1` on a `uint64` value of 0 wraps to 2^64−1, so `v < b.Value` does not fire | Sub(EUR 0.1, EUR 0.2) succeeds with value 2^64−1 | report an error whenever a < b, as the comment "a >= b" demands | not executed | Amounts.SubWrapsOnZeroValue | Amounts.SubCheckedExact |
| pkg/util/amount.go:167-171 | the value sum wraps as a `uint64` before it is compared with 2^52 | Add(EUR 18446744073709551615, EUR 1) succeeds with EUR 0; ParseAmount accepts that value | report overflow whenever the true sum reaches 2^52 | not executed | Amounts.AddWrapsPastUint64 | Amounts.AddCheckedExact |
| pkg/util/amount.go:222-223 | the fraction is printed without its leading zeros before trailing zeros are cut | EUR 1.05 (fraction 5000000) prints "EUR:1.5", which parses as EUR 1.5 | pad to eight digits, then trim, so that String() round-trips | not executed | Wire.StringDropsLeadingZeros | Wire.CanonicalRoundTrip |
| pkg/util/amount.go:195 | `len("0."+digits) > FractionalLength+1` admits only 7 fraction digits | "EUR:0.00000001" is FractionTooLong | admit all FractionalLength = 8 digits | not executed | Wire.EightDigitFractionRejected | Parser.ParseAmountUpTo8OfRender |
| pkg/util/amount.go:124 | the fraction is divided by 10^6 whatever the number of normal digits | 1.5 with three normal digits displays "1.050" | divide by 10^(8−n) to show the first n fraction digits | not executed | Display.DisplayDivisorFixed | Display.FormatScaledShowsLeadingDigits |
