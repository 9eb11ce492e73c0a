/**
 * The date formatter of the formatting service: the date-fns-tz calls that
 * shift an instant into a zone and render it are injected as parameters; what
 * is modelled is the post-processing of their output (the `UTC±H` suffix built
 * from the numeric offset, the capitalised first letter, the joining space) and
 * the rewrapping of any failure.
 */
module DateFormatter {
  import opened Wrappers
  import opened JsString

  const ERROR_PREFIX: string := "Error al formatear la fecha: "
  /** The date-fns pattern for the Spanish long date, e.g. `lunes 4 de agosto, 18:00`. */
  const LONG_DATE_PATTERN: string := "EEEE d 'de' MMMM, HH:mm"
  /** The date-fns pattern for the ISO-8601 offset, e.g. `-05:00` (or `Z` for a zero offset). */
  const OFFSET_PATTERN: string := "XXX"
  const SPANISH_LOCALE: string := "es"

  /** The options object handed to date-fns-tz `format`. */
  datatype FormatOptions = FormatOptions(locale: Option<string>, timeZone: string)

  /** The sign of the suffix: `-` when the offset text starts with `-`, `+` otherwise. */
  function OffsetSign(offset: string): char
  {
    if StartsWith(offset, "-") then '-' else '+'
  }

  /** `Math.abs(parseInt(offset.split(':')[0]))`: the hour magnitude, or `NaN` (None). */
  function OffsetHours(offset: string): Option<nat>
  {
    match ParseInt(Split(offset, ':')[0])
    case None => None
    case Some(h) => Some(Abs(h))
  }

  /** How a template literal prints a number that may be `NaN`. */
  function NumberText(x: Option<nat>): string
  {
    match x
    case None => "NaN"
    case Some(n) => NatToString(n)
  }

  /** The `UTC±H` suffix rendered from an offset text. */
  function OffsetSuffix(offset: string): (suffix: string)
    ensures |suffix| >= 5 && suffix[..3] == "UTC"
    ensures suffix[3] == '-' <==> StartsWith(offset, "-")
    ensures suffix[3] == '+' <==> !StartsWith(offset, "-")
    ensures !IsDigit(suffix[3])
  {
    var number := NumberText(OffsetHours(offset));
    assert |number| >= 1;
    "UTC" + [OffsetSign(offset)] + number
  }

  /** `s.charAt(0).toUpperCase() + s.slice(1)`. */
  function Capitalize(s: string): (r: string)
    ensures |r| == |s|
    ensures |s| > 0 ==> r[0] == ToUpperChar(s[0])
    ensures forall i :: 1 <= i < |s| ==> r[i] == s[i]
  {
    if |s| == 0 then "" else [ToUpperChar(s[0])] + s[1..]
  }

  /** Capitalising twice is capitalising once. */
  lemma CapitalizeIdempotent(s: string)
    ensures Capitalize(Capitalize(s)) == Capitalize(s)
  {
  }

  /** The three library steps, in order, stopping at the first one that throws. */
  function LibrarySteps<D, Z>(
    utcToZonedTime: (D, string) -> Result<Z>,
    format: (Z, string, FormatOptions) -> Result<string>,
    date: D, timezone: string): (r: Result<(string, string)>)
    ensures r.Ok? <==>
      && utcToZonedTime(date, timezone).Ok?
      && format(utcToZonedTime(date, timezone).value, LONG_DATE_PATTERN, FormatOptions(Some(SPANISH_LOCALE), timezone)).Ok?
      && format(utcToZonedTime(date, timezone).value, OFFSET_PATTERN, FormatOptions(None, timezone)).Ok?
    ensures r.Ok? ==>
      var zoned := utcToZonedTime(date, timezone).value;
      r.value == (format(zoned, LONG_DATE_PATTERN, FormatOptions(Some(SPANISH_LOCALE), timezone)).value,
                  format(zoned, OFFSET_PATTERN, FormatOptions(None, timezone)).value)
    ensures r.Err? ==>
      var zoned := utcToZonedTime(date, timezone);
      r.message ==
        if zoned.Err? then zoned.message
        else if format(zoned.value, LONG_DATE_PATTERN, FormatOptions(Some(SPANISH_LOCALE), timezone)).Err? then
          format(zoned.value, LONG_DATE_PATTERN, FormatOptions(Some(SPANISH_LOCALE), timezone)).message
        else format(zoned.value, OFFSET_PATTERN, FormatOptions(None, timezone)).message
  {
    match utcToZonedTime(date, timezone)
    case Err(e) => Err(e)
    case Ok(zoned) =>
      match format(zoned, LONG_DATE_PATTERN, FormatOptions(Some(SPANISH_LOCALE), timezone))
      case Err(e) => Err(e)
      case Ok(formatted) =>
        match format(zoned, OFFSET_PATTERN, FormatOptions(None, timezone))
        case Err(e) => Err(e)
        case Ok(offset) => Ok((formatted, offset))
  }

  /** The string built from the library's long date and offset texts. */
  function Decorate(formatted: string, offset: string): (r: string)
    ensures |r| == |formatted| + 1 + |OffsetSuffix(offset)|
    ensures r[..|formatted|] == Capitalize(formatted)
    ensures r[|formatted|] == ' '
    ensures r[|formatted| + 1..] == OffsetSuffix(offset)
  {
    Capitalize(formatted) + " " + OffsetSuffix(offset)
  }

  /**
   * `formatDateWithTimezone`: the capitalised long date, one space and the
   * `UTC±H` suffix; when any library step throws, an error whose message is
   * the fixed Spanish prefix followed by that step's message.
   */
  function FormatDateWithTimezone<D, Z>(
    utcToZonedTime: (D, string) -> Result<Z>,
    format: (Z, string, FormatOptions) -> Result<string>,
    date: D, timezone: string): (r: Result<string>)
    ensures r.Ok? <==> LibrarySteps(utcToZonedTime, format, date, timezone).Ok?
    ensures r.Ok? ==>
      var (formatted, offset) := LibrarySteps(utcToZonedTime, format, date, timezone).value;
      && |r.value| > |formatted|
      && r.value[..|formatted|] == Capitalize(formatted)
      && r.value[|formatted|] == ' '
      && r.value[|formatted| + 1..] == OffsetSuffix(offset)
    ensures r.Err? ==>
      r.message == ERROR_PREFIX + LibrarySteps(utcToZonedTime, format, date, timezone).message
  {
    match LibrarySteps(utcToZonedTime, format, date, timezone)
    case Err(e) => Err(ERROR_PREFIX + e)
    case Ok((formatted, offset)) => Ok(Decorate(formatted, offset))
  }

  /** The `±HH:MM` shape date-fns-tz prints for a non-zero offset. */
  predicate NumericOffset(offset: string)
  {
    && |offset| == 6
    && (offset[0] == '+' || offset[0] == '-')
    && IsDigit(offset[1]) && IsDigit(offset[2])
    && offset[3] == ':'
    && IsDigit(offset[4]) && IsDigit(offset[5])
  }

  /** The value of the hour field of a numeric offset. */
  function OffsetHourField(offset: string): nat
    requires NumericOffset(offset)
  {
    10 * DigitValue(offset[1]) + DigitValue(offset[2])
  }

  /**
   * For a numeric offset the suffix is `UTC`, the offset's own sign and the
   * hour field printed without leading zero; its digits read back as that hour.
   */
  lemma {:induction false} NumericOffsetSuffix(offset: string)
    requires NumericOffset(offset)
    ensures OffsetSuffix(offset) == "UTC" + [offset[0]] + NatToString(OffsetHourField(offset))
    ensures var digits := OffsetSuffix(offset)[4..];
      && AllDigits(digits) && DigitsValue(digits) == OffsetHourField(offset)
      && (|digits| > 1 ==> digits[0] != '0')
  {
    var head := offset[..3];
    var hours := offset[1..3];
    assert offset == head + [':'] + offset[4..];
    assert ':' !in head;
    SplitAfterPiece(head, ':', offset[4..]);
    assert Split(offset, ':')[0] == head;
    assert head == [offset[0]] + (hours + "");
    ParseIntSignedDigits(offset[0], hours, "");
    assert hours[..1] == [offset[1]];
    assert DigitsValue(hours) == OffsetHourField(offset);
    NatToStringDigits(OffsetHourField(offset));
    assert StartsWith(offset, "-") <==> offset[0] == '-';
  }

  /** Only the hour field counts: numeric offsets that differ in their minutes give the same suffix. */
  lemma OffsetMinutesDropped(a: string, b: string)
    requires NumericOffset(a) && NumericOffset(b) && a[..3] == b[..3]
    ensures OffsetSuffix(a) == OffsetSuffix(b)
  {
    NumericOffsetSuffix(a);
    NumericOffsetSuffix(b);
    assert a[0] == b[0] && a[1] == b[1] && a[2] == b[2] by {
      assert a[..3][0] == a[0] && a[..3][1] == a[1] && a[..3][2] == a[2];
    }
  }

  /** A zero-padded hour below ten loses its padding: `±0H:MM` gives `UTC±H`. */
  lemma SingleDigitOffsetSuffix(offset: string)
    requires NumericOffset(offset) && offset[1] == '0'
    ensures OffsetSuffix(offset) == "UTC" + [offset[0], offset[2]]
  {
    NumericOffsetSuffix(offset);
    NatToStringOfDigits([offset[2]]);
  }

  /** The offset of America/Guayaquil. */
  lemma OffsetSuffixGuayaquil()
    ensures OffsetSuffix("-05:00") == "UTC-5"
  {
    SingleDigitOffsetSuffix("-05:00");
  }

  /** The summer offset of Europe/Madrid. */
  lemma OffsetSuffixMadrid()
    ensures OffsetSuffix("+02:00") == "UTC+2"
  {
    SingleDigitOffsetSuffix("+02:00");
  }

  /** A half-hour offset loses its minutes. */
  lemma OffsetSuffixHalfHour()
    ensures OffsetSuffix("+05:30") == "UTC+5"
  {
    SingleDigitOffsetSuffix("+05:30");
  }

  /**
   * The ISO-8601 designator `Z` that date-fns prints for a zero offset has no
   * digits, so `parseInt` gives `NaN` and the suffix reads `UTC+NaN`.
   */
  lemma ZeroOffsetDesignator()
    ensures OffsetSuffix("Z") == "UTC+NaN"
  {
  }

  /** Every failure carries the fixed Spanish prefix; no partial string is returned. */
  lemma FailureMessagePrefix<D, Z>(
    utcToZonedTime: (D, string) -> Result<Z>,
    format: (Z, string, FormatOptions) -> Result<string>,
    date: D, timezone: string)
    ensures var r := FormatDateWithTimezone(utcToZonedTime, format, date, timezone);
      r.Err? ==> StartsWith(r.message, "Error al formatear la fecha")
  {
  }

  /** A successful result ends with the `UTC±H` suffix, preceded by one space. */
  lemma ResultEndsWithSuffix<D, Z>(
    utcToZonedTime: (D, string) -> Result<Z>,
    format: (Z, string, FormatOptions) -> Result<string>,
    date: D, timezone: string)
    ensures var r := FormatDateWithTimezone(utcToZonedTime, format, date, timezone);
      r.Ok? ==>
        var suffix := OffsetSuffix(LibrarySteps(utcToZonedTime, format, date, timezone).value.1);
        && |r.value| > |suffix|
        && r.value[|r.value| - |suffix|..] == suffix
        && r.value[|r.value| - |suffix| - 1] == ' '
  {
  }

  /**
   * A Monday rendered by the Spanish locale (`lunes …`) comes out as `Lunes …`
   * with everything after the first letter, the month name included, unchanged.
   */
  lemma DecorateMonday(rest: string, offset: string)
    ensures Decorate("lunes" + rest, offset) == "Lunes" + rest + " " + OffsetSuffix(offset)
  {
  }

  /** A date the library cannot read fails with the prefixed message of the library's own error. */
  lemma InvalidDateFails()
    ensures FormatDateWithTimezone(
      (date: string, timezone: string) => Err("Invalid time value"),
      (zoned: int, pattern: string, options: FormatOptions) => Ok(pattern),
      "no-es-una-fecha", "America/Guayaquil")
      == Err("Error al formatear la fecha: Invalid time value")
  {
  }
}
