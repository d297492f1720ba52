# Daily power report checker — a Dafny model

This project models the part of the daily power report checker that reads
numbers out of a pasted report and decides whether the report adds up
(`script.js`, lines 1–78):

- `getInt` and `getPct` each turn one labelled match into a number, or fail
  with a message naming the field.
- `verifyReport` extracts eleven fields in a fixed order:
  - the WHRS (waste-heat recovery) generation, auxiliary, net and percentage;
  - the CPP (captive power plant) generation, auxiliary, net and percentage;
  - the EB (electricity board) units and percentage;
  - the plant total.

  It then runs six checks and collects the message of every check that fails:
  - WHRS net = generation − auxiliary;
  - CPP net = generation − auxiliary;
  - the three nets add up to the total;
  - for each source, the reported percentage is within 0.1 of its rounded
    share of the total.

  A field that is not found ends the run. Its message goes after the
  messages already collected.

There are three modules:

- `Extraction` (extraction.dfy) covers what `getInt` and `getPct` do with a
  capture:
  - comma stripping, `parseInt` in base 10, and `parseFloat` on a `[\d.]+`
    capture, including where it stops;
  - the two "not found" messages.

  The regular-expression search is an input: `Match<T>` is either the first
  capture group or `NoMatch`.
- `Percentage` (percentage.dfy) covers `Math.round(x * 100) / 100`, the 0.1
  tolerance, and what JavaScript does when the total is zero.
- `Verification` (verification.dfy) contains the following:
  - `VerifyReport` is an imperative method that appends to a message sequence
    and returns early when a field is missing. Each commented block of the
    source's `try` statement is one method (`WhrsBlock`, `CppBlock`,
    `EbBlock`, `TotalBlock`, `PercentBlock`). A block that yields `NotFound`
    has thrown, and `VerifyReport` does what the `catch` does: it appends the
    message.
  - `Expected` states the result by cases on the first missing field.
  - `Report` states the same result as a rule over the list of checks.
  - Lemmas prove that the method computes `Expected`, that `Expected` is
    `Report`, and the properties below.

Three facts about the code shape the model:

- A missing field does not discard the messages already pushed; its message
  follows them (`script.js:33`, `43`, `74`).
- The WHRS net check runs before the CPP fields are read, and the CPP net
  check before the EB fields are read (`script.js:32-37`, `42-47`).
- `Math.round` is floor(x + ½), so a value halfway between two hundredths
  rounds up.

## Model

| member | source | states |
|---|---|---|
| `Extraction.GetInt` | script.js:2-9 | Fails exactly when the pattern did not match, with the message "`<name>` not found". Otherwise the value is the comma-stripped base-10 parse of the capture, a natural number. |
| `Extraction.GetPct` | script.js:12-19 | Fails exactly when the pattern did not match, with the message "`<name>` % not found". Otherwise the value is `parseFloat` of the capture, never negative. |
| `Extraction.StripCommas` | script.js:8 | `replace(/,/g, '')` never lengthens the capture. No comma remains and a comma-free string is unchanged (`StripCommasSpec`). Stripping distributes over concatenation (`StripCommasAppend`), so every other character stays, in order. |
| `Extraction.StripCommasAppend` | script.js:8 | Stripping the commas of a + b gives the stripped a followed by the stripped b, for all strings. |
| `Extraction.ParseInt` | script.js:8 | A capture without commas parses to its plain base-10 value. With commas, `ParseIntIgnoresCommas` and `ParseIntOfGrouped` state the value. |
| `Extraction.StripCommasSpec` | script.js:8 | After `replace(/,/g, '')` no comma remains. A capture of digits and commas leaves only digits. A string without commas is unchanged. |
| `Extraction.DigitsValueBound` | script.js:8 | A string of k digits parses to a number below 10^k. |
| `Extraction.ParseIntIgnoresCommas` | script.js:8 | Inserting a comma anywhere in a capture leaves it a valid capture and does not change the parsed value ("1,000" reads as "1000"). |
| `Extraction.ParseIntOfDecimal` | script.js:8 | The plain decimal rendering of any count is a valid capture and parses back to that count. |
| `Extraction.ParseIntOfGrouped` | script.js:8 | The thousands-grouped rendering of any count ("1,234,567") is a valid capture and parses back to that count, so parsing undoes digit grouping. |
| `Extraction.LeadingDigitsSpec` | script.js:18 | The integer part `parseFloat` reads is the longest all-digit prefix: a prefix of the capture, all digits, followed by a non-digit or nothing. |
| `Extraction.FractionValue` | script.js:18 | The digits after the decimal point contribute a value in [0, 1). |
| `Extraction.ParseFloat` | script.js:18 | The value is never negative, and its integer part is the value of the leading digits. |
| `Extraction.ParseFloatOfWhole` | script.js:18 | A capture without a dot ("40") parses to its base-10 value. |
| `Extraction.ParseFloatOfDecimal` | script.js:18 | "whole.fraction" is a valid capture and parses to whole + fraction/10^len(fraction). Either part may be empty but not both, so ".5" reads as 0.5. |
| `Extraction.ParseFloatStopsAtSecondDot` | script.js:18 | `parseFloat` stops at a second dot: "w.f.t" parses the same as "w.f", with the same cases for the parts as above. |
| `Percentage.Share` | script.js:58 | `(units / total) * 100` is the non-negative percentage p with p × total = units × 100. It is at most 100 when units do not exceed the total. |
| `Percentage.Mismatch` | script.js:58-71 | A reported value equal to the rounded share is never flagged, and a source with no units reported as 0% is never flagged, even with a zero total. Both directions are stated by `MismatchOutsideBand` and `MismatchZeroTotal`. |
| `Percentage.Round2` | script.js:58 | `Math.round(x*100)/100` lies within half a hundredth of x (ties go up) and is a whole number of hundredths. |
| `Percentage.Round2TiesUp` | script.js:58 | A value exactly halfway between two hundredths rounds up, as `Math.round` does. |
| `Percentage.Round2OfHundredths` | script.js:58 | A value that already has two decimals is unchanged by rounding. |
| `Percentage.Round2Idempotent` | script.js:58 | Rounding twice is the same as rounding once. |
| `Percentage.MismatchOutsideBand` | script.js:58-71 | With a positive total, a percentage is flagged iff the reported value lies outside the closed band of ±0.1 around the rounded share. A difference of exactly 0.1 is accepted, and an equal value is never flagged. |
| `Percentage.MismatchZeroTotal` | script.js:58-71 | With a zero total, a source is flagged iff it has units (division gives Infinity). A zero share gives NaN, which is never flagged. |
| `Percentage.MismatchByExactShare` | script.js:58-71 | Measured against the exact share: a report within 0.095 always passes, and one more than 0.105 away always fails. |
| `Verification.Fails` | script.js:32-71 | An auxiliary reading above generation always fails that source's net check. A total below the WHRS and CPP nets together always fails the total check. When each check's message is reported is stated by `CheckReportedIff`. |
| `Verification.Expected` | script.js:23-77 | At most one message per check that ran: at most 3 when a field is missing (two net checks and the missing field), at most 6 otherwise. `ExpectedIsReport` states it as the rule over the check list. |
| `Verification.VerifyReport` | script.js:22-78 | The pushes and the early exit through the `catch` produce exactly `Expected`. The messages are the net-check messages of the blocks already run, then the first missing field's message; with all fields found, every failed check's message in run order. |
| `Verification.WhrsBlock` | script.js:27-34 | Throws exactly when one of the four WHRS fields is missing, with that field's message and nothing pushed. Otherwise it returns the four readings and pushes the WHRS net message iff generation − auxiliary ≠ net. |
| `Verification.CppBlock` | script.js:37-44 | The same for the four CPP fields and the CPP net check. |
| `Verification.EbBlock` | script.js:47-48 | Throws exactly when the EB units or the EB percentage is missing, with that field's message. Otherwise it returns both readings. |
| `Verification.TotalBlock` | script.js:51-55 | Throws exactly when the total is missing. Otherwise it returns the total and pushes the total message iff the three nets do not add up to it. |
| `Verification.PercentBlock` | script.js:58-71 | Pushes the WHRS, CPP and EB percentage messages, in that order, each iff that source's percentage is a mismatch against the extracted total. |
| `Verification.ExpectedIsReport` | script.js:23-77 | The result is the rule over the check list: every check whose fields precede the first missing field reports iff it fails, in run order and at most once, followed by the missing field's message if any. |
| `Verification.CheckReportedOnce` | script.js:23-77 | Each check's message occurs at most once in the result. |
| `Verification.CheckReportedIff` | script.js:32-71 | A check's message is in the result iff the check ran (all its fields found before any missing one) and it failed. The total and percentage checks run even after a net check failed. No total or percentage message appears once a field is missing. |
| `Verification.MissingFieldLast` | script.js:73-74 | When a field is missing, its message is the last entry, preceded by at most one message per net check that ran. |
| `Verification.NoErrorsIff` | script.js:23-77 | The result is empty iff every field is found and none of the six checks fails. |
| `Verification.WhrsGenerationMissing` | script.js:27 | Without a WHRS generation match, the result is exactly ["WHRS Generation not found"]. |
| `Verification.NetErrorThenMissingCppPercent` | script.js:32-40 | A WHRS net error followed by a missing CPP percentage gives exactly two entries: the net error, then "CPP % not found". |
| `Verification.AuxAboveGenerationFlagged` | script.js:27-33 | Counts are never negative but generation − auxiliary can be. An auxiliary reading above generation is always reported as a WHRS net error. |

## Left out

- The regular-expression search (`new RegExp(pattern, 'is')` and `text.match`, script.js:3-4, 13-14 and the patterns at 27-51) is not modelled. Each of the eleven captures is an input, so the model does not say which text yields which capture. For example, the unanchored `EB.*?([\d,]+)` can match "eb" inside another word.
- `displayResults`, the live clock, the button and keyboard handlers, the loading state, the 300 ms delay and the empty-input alert (script.js:81-171) are presentation and event-loop code, and are not modelled.
- Numbers are exact: counts are unbounded naturals and percentages are reals. Binary floating-point error in `* 100 * 100` and in the 0.1 comparison is not modelled, and neither is the loss of precision of integers above 2^53.
- Captures that make the parse give NaN are outside the model. `IntCapture` admits only `[\d,]+` strings that contain a digit, so a comma-only capture is excluded. `PctCapture` admits only `[\d.]+` strings whose numeral has a digit, so "." is excluded. The regular expressions admit both kinds.
- `Extraction.ParseFloat`: its own contract bounds the value by its integer part. The exact value is stated by `Extraction.ParseFloatOfWhole` for captures without a dot, `Extraction.ParseFloatOfDecimal` for one dot and `Extraction.ParseFloatStopsAtSecondDot` for more.
