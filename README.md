# Time service and date formatter

This project models two pieces of a set of Node.js microservices in Dafny. The services serve the current time, time zones, conversions between times and minutes, aggregation and date formatting. The two modelled pieces are:

- **The time service of `microservicio3`.** It validates `HH:MM:SS`
  strings, converts a time of day to minutes since midnight (rounding the
  seconds to the nearest minute) and converts minutes back to an
  `HH:MM:00` string.
- **The date formatter of `microservicio5`.** It takes what date-fns-tz
  renders for an instant in a time zone and builds
  `<Capitalised long date> UTC±H`. Any failure is rewrapped as
  `Error al formatear la fecha: <message>`.

The modules are:

- `Wrappers`: the `Option` and `Result` datatypes. A thrown `Error`
  becomes `Err(message)`, and `null`/`undefined`/`NaN` become `None`.
- `JsString`: the JavaScript string and number built-ins these functions
  rely on. These are `split` with a one-character separator, `Number`
  and `parseInt` on decimal text, `Math.abs`, `Number.prototype.toString`
  for non-negative integers, `padStart`, `startsWith` and `toUpperCase`
  on a single character.
- `TimeService`: `validateTime`, `calculateMinutes` and
  `minutesToTimeString`, with the round trips between them.
- `DateFormatter`: `formatDateWithTimezone`.
  - The two library functions, `utcToZonedTime` and `format`, are
    parameters, so every property holds whatever the library returns.
  - Lemmas give the suffix for the offsets `-05:00`, `+02:00`, `+05:30`
    and `Z`.

Where the written tests disagree with the code,
the model follows the code:

- **`calculateMinutes('23:59:59')` is 1440, not 1439.** `Math.round(59/60)`
  is 1, so the result is 1440. The test at
  `microservicio3/src/__tests__/timeService.test.js:28` expects 1439. Nothing in the code
  clamps. `TimeService.CalculateMinutesIs1440` states exactly which inputs
  reach 1440. `TimeService.LastSecondOfDay` states that this value is then
  rejected by `minutesToTimeString`.
- **A zero offset gives the suffix `UTC+NaN`.** For a zero offset the
  `XXX` pattern prints the ISO-8601 designator `Z`. `parseInt('Z')` is
  `NaN`, so the suffix is `UTC+NaN` (`DateFormatter.ZeroOffsetDesignator`).
- **The month name is not capitalised.** Only the first character of the
  long date is upper-cased. The month name keeps whatever case the
  locale's rendering gave it (`DateFormatter.DecorateMonday`). The tests
  expect `Agosto`, but the code only produces that if the locale data
  itself capitalises month names.
- **`minutesToTimeString('invalid')` does not throw in the code.** The test
  at `microservicio3/src/__tests__/timeService.test.js:56` expects it to.
  In the code, `'invalid' < 0` and `'invalid' >= 1440` are both false
  (`NaN` comparisons), so the guard lets the string through. The model
  takes an `int` argument, so that input cannot be expressed.

## Model

| member | source | states |
|---|---|---|
| TimeService.ValidateTime | microservicio3/src/services/timeService.js:6-9 | definition: the anchored regular expression of line 7, group by group (hour `[01]` plus a digit or `2[0-3]`, minute and second `[0-5]` plus a digit); characterised by ValidateTimeCharacterization, FormattedTimeIsValid and ValidTimeIsFormatted |
| TimeService.ValidateTimeCharacterization | microservicio3/src/services/timeService.js:6-9 | a string is accepted exactly when it has eight characters, colons at positions 2 and 5, digits elsewhere, and its hour, minute and second fields read as a valid time of day (hour at most 23, minute and second at most 59) |
| TimeService.FormattedTimeIsValid | microservicio3/src/services/timeService.js:6-9 | the zero-padded `HH:MM:SS` rendering of every valid time of day is accepted and reads back as that same time |
| TimeService.ValidTimeIsFormatted | microservicio3/src/services/timeService.js:6-9 | every accepted string is the zero-padded rendering of the time it denotes, so no other spelling (one-digit fields, extra characters) is accepted |
| TimeService.ValidateTimeValue | microservicio3/src/__tests__/timeService.test.js:17-19 | a missing input (`null`/`undefined`) is rejected; a present string is accepted exactly when it is shaped `DD:DD:DD` and its fields read as a valid time of day |
| TimeService.ValidateTimeExamples | microservicio3/src/__tests__/timeService.test.js:5-20 | the accepted and rejected strings of the unit tests (`00:00:00`, `23:59:59`, `24:00:00`, `12:00:0`, `120000`, the empty string and so on) |
| TimeService.SplitTimeFields | microservicio3/src/services/timeService.js:21 | splitting an accepted string on `:` gives exactly three two-character digit fields |
| TimeService.TwoDigitNumber | microservicio3/src/services/timeService.js:21 | `Number` of a two-digit string is ten times its first digit plus its second |
| TimeService.TimeFieldNumbers | microservicio3/src/services/timeService.js:21 | `Number` of each of the three fields of an accepted string is the hour, the minute and the second it denotes |
| TimeService.MathRound | microservicio3/src/services/timeService.js:22 | `Math.round(n / d)` is the integer nearest to n/d, with halves rounded up |
| TimeService.RoundSeconds | microservicio3/src/services/timeService.js:22 | for a second in 0..59, `Math.round(second / 60)` is 1 when the second is at least 30 and 0 otherwise |
| TimeService.CalculateMinutes | microservicio3/src/services/timeService.js:16-23 | fails exactly when the string is not a valid time, and then carries the fixed `Invalid time format` message; otherwise the value is 60·hour + minute, plus one when the second is at least 30, and it never exceeds 1440 |
| TimeService.CalculateMinutesIs1440 | microservicio3/src/services/timeService.js:22 | the result is 1440, one past the last minute of the day, exactly for the times `23:59:30` through `23:59:59` |
| TimeService.LastSecondOfDay | microservicio3/src/__tests__/timeService.test.js:28 | `23:59:59` converts to 1440, not to 1439, and 1440 is rejected by the inverse conversion |
| TimeService.CalculateMinutesExamples | microservicio3/src/__tests__/timeService.test.js:25-27 | `00:00:00` is 0, `01:00:00` is 60 and `12:30:00` is 750 minutes |
| TimeService.CalculateMinutesTiesAtMidnight | microservicio3/src/__tests__/timeService.test.js:32-33 | `00:00:29` rounds down to 0 and `00:00:30` rounds up to 1 |
| TimeService.CalculateMinutesTiesAtNoon | microservicio3/src/__tests__/timeService.test.js:34-35 | `12:30:29` rounds down to 750 and `12:30:30` rounds up to 751 |
| TimeService.CalculateMinutesRejects | microservicio3/src/__tests__/timeService.test.js:39-41 | `24:00:00`, `12:60:00` and `invalid` fail with the invalid-format message |
| TimeService.MinutesToTimeString | microservicio3/src/services/timeService.js:30-38 | fails exactly when the minutes are outside 0..1439, and then carries the fixed range message; otherwise gives an eight-character accepted time string whose hour is minutes / 60, minute is minutes % 60 and second is 0 |
| TimeService.MinutesToTimeStringFormats | microservicio3/src/services/timeService.js:35-37 | for minutes in range, the result is the zero-padded rendering of the time (minutes / 60, minutes % 60, 0) |
| TimeService.MinutesToTimeStringIs | microservicio3/src/services/timeService.js:35-37 | for minutes in range, any well-shaped string that reads as (minutes / 60, minutes % 60, 0) is the result, so the rendering is unique |
| TimeService.MinutesRoundTrip | microservicio3/src/services/timeService.js:16-38 | converting minutes in 0..1439 to a string and back gives the same minutes |
| TimeService.WholeMinuteRoundTrip | microservicio3/src/services/timeService.js:16-38 | a valid time with second 0 converts to minutes and back to the same string |
| TimeService.RoundedRoundTrip | microservicio3/src/services/timeService.js:16-38 | for any valid time below 1440 minutes, the round trip gives second `00`; the time is truncated to its minute when the second is below 30, and otherwise moves to the next minute |
| TimeService.MinutesToTimeStringExamples | microservicio3/src/__tests__/timeService.test.js:47-50 | 0, 60, 750 and 1439 minutes give `00:00:00`, `01:00:00`, `12:30:00` and `23:59:00` |
| TimeService.MinutesToTimeStringRejects | microservicio3/src/__tests__/timeService.test.js:54-55 | -1 and 1440 minutes fail with the range message |
| JsString.Split | microservicio3/src/services/timeService.js:21 | definition of `split` with a one-character separator (also used at microservicio5/dateFormatter.js:26); characterised by SplitJoinsBack and SplitJoin |
| JsString.SplitJoinsBack | microservicio3/src/services/timeService.js:21 | the pieces of `split(sep)` contain no separator, and joining them with the separator gives back the original string |
| JsString.SplitJoin | microservicio3/src/services/timeService.js:21 | splitting pieces that contain no separator, after joining them with it, gives back exactly those pieces |
| JsString.Number | microservicio3/src/services/timeService.js:21 | definition; characterised by NumberOfNatToString, TwoDigitNumber and NumberPad2 |
| JsString.NumberOfNatToString | microservicio3/src/services/timeService.js:21 | `Number` reads back every numeral `toString` prints as the number it came from |
| TimeService.Pad2 | microservicio3/src/services/timeService.js:37 | definition of `n.toString().padStart(2, '0')`; characterised by Pad2Digits and NumberPad2 |
| TimeService.NumberPad2 | microservicio3/src/services/timeService.js:21 | `Number` reads every two-digit field the service prints (`padStart` of `toString` below 100) back as the number it came from |
| JsString.NatToString | microservicio3/src/services/timeService.js:37 | definition of `toString` for non-negative integers (also used at microservicio5/dateFormatter.js:27); characterised by NatToStringDigits and NatToStringOfDigits |
| JsString.NatToStringDigits | microservicio3/src/services/timeService.js:37 | `toString` of a non-negative integer is a non-empty run of digits with no leading zero whose decimal value is the integer |
| JsString.NatToStringOfDigits | microservicio5/dateFormatter.js:27 | a digit string with no leading zero is the `toString` of its own value |
| JsString.Pad2Digits | microservicio3/src/services/timeService.js:37 | `toString().padStart(2, '0')` of a number below 100 is its tens digit followed by its units digit |
| JsString.PadStart | microservicio3/src/services/timeService.js:37 | definition of `padStart` with a one-character fill; characterised by PadStartSpec |
| JsString.PadStartSpec | microservicio3/src/services/timeService.js:37 | `padStart` leaves a string that is long enough unchanged; otherwise it prefixes fill characters up to the target length and keeps the string as the tail |
| JsString.DigitPrefix | microservicio5/dateFormatter.js:26 | the longest prefix made of digits only: the next character, if any, is not a digit |
| JsString.ParseInt | microservicio5/dateFormatter.js:26 | `parseInt` is `NaN` exactly when no digit follows the optional sign; otherwise its magnitude is the value of the longest digit run there, and it is negative only for a leading `-`, and never positive after one |
| JsString.ParseIntSignedDigits | microservicio5/dateFormatter.js:26 | a sign followed by digits and then a non-digit (or nothing) parses to the signed value of those digits |
| JsString.Abs | microservicio5/dateFormatter.js:26 | `Math.abs` is the non-negative one of x and -x |
| JsString.ToUpperChar | microservicio5/dateFormatter.js:30 | lower-case Basic Latin and Latin-1 letters map to their capitals, and the result is never such a lower-case letter |
| JsString.StartsWith | microservicio5/dateFormatter.js:25 | definition of `startsWith`: the text begins with the prefix; its use is characterised by OffsetSuffix |
| DateFormatter.OffsetSign | microservicio5/dateFormatter.js:25 | definition; characterised by OffsetSuffix (`-` exactly for a leading `-`) |
| DateFormatter.OffsetHours | microservicio5/dateFormatter.js:26 | definition of `Math.abs(parseInt(offset.split(':')[0]))`; characterised by NumericOffsetSuffix and ZeroOffsetDesignator |
| DateFormatter.NumberText | microservicio5/dateFormatter.js:27 | definition of how the template literal prints the hour (`NaN` when absent); characterised by NumericOffsetSuffix and ZeroOffsetDesignator |
| DateFormatter.OffsetSuffix | microservicio5/dateFormatter.js:25-27 | the suffix starts with `UTC` and is followed by a sign character (never a digit), which is `-` exactly when the offset text starts with `-` and `+` otherwise |
| DateFormatter.NumericOffsetSuffix | microservicio5/dateFormatter.js:25-27 | for a `±HH:MM` offset the suffix is `UTC`, the offset's own sign, and the hour field without leading zero; its digits read back as that hour |
| DateFormatter.SingleDigitOffsetSuffix | microservicio5/dateFormatter.js:25-27 | an offset `±0H:MM` gives the suffix `UTC±H`: the zero padding of the hour is dropped along with the minutes |
| DateFormatter.OffsetMinutesDropped | microservicio5/dateFormatter.js:26 | two numeric offsets with the same sign and hour field give the same suffix, whatever their minutes |
| DateFormatter.OffsetSuffixGuayaquil | microservicio5/src/__tests__/dateFormatter.test.js:10 | the offset `-05:00` gives `UTC-5` |
| DateFormatter.OffsetSuffixMadrid | microservicio5/src/__tests__/dateFormatter.test.js:18 | the offset `+02:00` gives `UTC+2` |
| DateFormatter.OffsetSuffixHalfHour | microservicio5/dateFormatter.js:26 | the half-hour offset `+05:30` gives `UTC+5` |
| DateFormatter.ZeroOffsetDesignator | microservicio5/dateFormatter.js:22-27 | the zero-offset designator `Z` gives `UTC+NaN` |
| DateFormatter.Capitalize | microservicio5/dateFormatter.js:30 | the length is kept, the first character is upper-cased and every later character is unchanged |
| DateFormatter.CapitalizeIdempotent | microservicio5/dateFormatter.js:30 | capitalising an already capitalised string changes nothing |
| DateFormatter.Decorate | microservicio5/dateFormatter.js:30-32 | the capitalised long date, exactly one space, then the offset suffix, at those positions and with that total length |
| DateFormatter.DecorateMonday | microservicio5/dateFormatter.js:30-32 | a long date starting `lunes` becomes `Lunes`, with the rest of the text (the month name included) unchanged before the suffix |
| DateFormatter.LibrarySteps | microservicio5/dateFormatter.js:13-22 | the three library calls succeed exactly when the zone shift, the long-date format (Spanish locale) and the offset format (`XXX`) all succeed; on success the pair is the long-date text and then the offset text of the shifted date; on failure the message is that of the first call that failed |
| DateFormatter.FormatDateWithTimezone | microservicio5/dateFormatter.js:10-36 | succeeds exactly when the library steps do; the result is then the capitalised long date, a space and the `UTC±H` suffix of the offset; on failure the message is the Spanish prefix followed by the failing step's message |
| DateFormatter.FailureMessagePrefix | microservicio5/dateFormatter.js:33-35 | every failure message starts with `Error al formatear la fecha` |
| DateFormatter.ResultEndsWithSuffix | microservicio5/dateFormatter.js:32 | every successful result ends with the offset suffix, preceded by a space |
| DateFormatter.InvalidDateFails | microservicio5/src/__tests__/dateFormatter.test.js:21-28 | a date the library refuses with `Invalid time value` produces `Error al formatear la fecha: Invalid time value` |

## Left out

- The date-fns-tz library is not part of this model. `utcToZonedTime` and
  `format` are function parameters, so the time-zone database, the locale
  data and the pattern interpreter are not modelled. Apart from the
  `±HH:MM` shape (NumericOffsetSuffix) and `Z`, no offset text is tied to
  a result.
- The routes, Kafka consumers, database access and the other services are
  not part of this model. They are I/O around these functions.
- TimeService.MathRound: computes exactly on integers instead of in binary
  floating point. For the seconds 0..59 divided by 60 both give the same
  result.
- TimeService.MinutesToTimeString: takes an `int`. Three cases cannot be
  expressed:
  - a fractional argument, where `Math.floor` applies;
  - a non-numeric argument, whose `NaN` comparisons let it through the
    guard and print `NaN:NaN:00`;
  - an argument JavaScript would coerce from a string.
- TimeService.ValidateTimeValue: the regular expression is applied only to
  strings or to a missing value. JavaScript's coercion of other types (a
  number or an object) to text before matching is not modelled.
- JsString.Number: only the decimal digit strings the time service passes
  it are modelled. Other text yields `None`, even where JavaScript accepts
  it: surrounding whitespace, a sign, a fraction, an exponent, or hex.
- JsString.ParseInt: models the optional sign and the longest digit
  prefix. Three things are not modelled:
  - skipping leading whitespace;
  - the `0x` hexadecimal prefix;
  - precision loss above 2^53.
- JsString.NatToString: prints every non-negative integer in plain decimal.
  JavaScript switches to exponent notation from 1e21, which is far beyond
  the values used here.
- JsString.ToUpperChar: maps only the Basic Latin and Latin-1 lower-case
  letters whose capital is also Latin-1. It leaves `µ`, `ß` and `ÿ`
  unchanged, and every other script too. JavaScript maps `µ` to `Μ`
  (U+039C), `ß` to `SS` and `ÿ` to `Ÿ` (U+0178), and upper-cases further
  scripts.
- Strings are sequences of Unicode characters, not of UTF-16 code units.
  `charAt(0)` on a character outside the Basic Multilingual Plane would see
  half a surrogate pair.
- Numbers are unbounded integers. No value here comes near the limits of
  a double.
