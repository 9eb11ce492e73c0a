/**
 * The time-of-day codec of the minutes service: recognising `HH:MM:SS`,
 * converting it to minutes since midnight (seconds rounded half-up), and
 * printing a minute count back as `HH:MM:00`.
 */
module TimeService {
  import opened Wrappers
  import opened JsString

  const INVALID_FORMAT_MESSAGE: string := "Invalid time format. Expected HH:MM:SS"
  const OUT_OF_RANGE_MESSAGE: string := "Minutes must be between 0 and 1439"
  const MINUTES_PER_DAY: nat := 1440

  /** The regular expression's hour group `[01]\d|2[0-3]`. */
  predicate HourGroup(a: char, b: char)
  {
    ((a == '0' || a == '1') && IsDigit(b)) || (a == '2' && '0' <= b <= '3')
  }

  /** The regular expression's minute and second group `[0-5]\d`. */
  predicate SexagesimalGroup(a: char, b: char)
  {
    '0' <= a <= '5' && IsDigit(b)
  }

  /** `validateTime`: the whole string matches `^([01]\d|2[0-3]):([0-5]\d):([0-5]\d)$`. */
  predicate ValidateTime(time: string)
  {
    && |time| == 8
    && HourGroup(time[0], time[1])
    && time[2] == ':'
    && SexagesimalGroup(time[3], time[4])
    && time[5] == ':'
    && SexagesimalGroup(time[6], time[7])
  }

  /** `validateTime` on a value that may be absent (`null` or `undefined`), which is never a match. */
  function ValidateTimeValue(time: Option<string>): (ok: bool)
    ensures ok <==> time.Some? && Shaped(time.value) && ReadTime(time.value).Valid()
  {
    match time
    case None => false
    case Some(s) => ValidateTime(s)
  }

  /** A wall-clock time; valid when each field is in range. */
  datatype TimeOfDay = TimeOfDay(hour: nat, minute: nat, second: nat)
  {
    predicate Valid() { hour < 24 && minute < 60 && second < 60 }
  }

  /** Eight characters: three two-digit fields separated by colons. */
  predicate Shaped(time: string)
  {
    && |time| == 8 && time[2] == ':' && time[5] == ':'
    && IsDigit(time[0]) && IsDigit(time[1])
    && IsDigit(time[3]) && IsDigit(time[4])
    && IsDigit(time[6]) && IsDigit(time[7])
  }

  /** The time a shaped string denotes, read field by field. */
  function ReadTime(time: string): TimeOfDay
    requires Shaped(time)
  {
    TimeOfDay(
      10 * DigitValue(time[0]) + DigitValue(time[1]),
      10 * DigitValue(time[3]) + DigitValue(time[4]),
      10 * DigitValue(time[6]) + DigitValue(time[7]))
  }

  /** `s` is shaped and reads as `t`. */
  predicate Denotes(s: string, t: TimeOfDay)
  {
    Shaped(s) && ReadTime(s) == t
  }

  /** Two shaped strings that read as the same time are the same string. */
  lemma ReadTimeInjective(s: string, u: string)
    requires Shaped(s) && Shaped(u) && ReadTime(s) == ReadTime(u)
    ensures s == u
  {
  }

  /** `n.toString().padStart(2, '0')`. */
  function Pad2(n: nat): string
  {
    PadStart(NatToString(n), 2, '0')
  }

  /** The canonical `HH:MM:SS` rendering of a time of day. */
  function FormatTime(t: TimeOfDay): string
  {
    Pad2(t.hour) + ":" + Pad2(t.minute) + ":" + Pad2(t.second)
  }

  /** The accepted strings are exactly the shaped ones whose fields are in range. */
  lemma ValidateTimeCharacterization(time: string)
    ensures ValidateTime(time) <==> Shaped(time) && ReadTime(time).Valid()
  {
  }

  lemma Pad2Zero()
    ensures Pad2(0) == "00"
  {
  }

  /** The characters of the rendering of a valid time, position by position. */
  lemma FormatTimeChars(t: TimeOfDay)
    requires t.Valid()
    ensures var s := FormatTime(t);
      && |s| == 8 && s[2] == ':' && s[5] == ':'
      && s[0] == DigitChar(t.hour / 10) && s[1] == DigitChar(t.hour % 10)
      && s[3] == DigitChar(t.minute / 10) && s[4] == DigitChar(t.minute % 10)
      && s[6] == DigitChar(t.second / 10) && s[7] == DigitChar(t.second % 10)
  {
    Pad2Digits(t.hour);
    Pad2Digits(t.minute);
    Pad2Digits(t.second);
  }

  /** Every valid time renders to an accepted string that reads back as that time. */
  lemma {:induction false} FormattedTimeIsValid(t: TimeOfDay)
    requires t.Valid()
    ensures ValidateTime(FormatTime(t)) && Denotes(FormatTime(t), t)
  {
    FormatTimeChars(t);
    DigitsOfValidTime(FormatTime(t), t);
  }

  /** A string spelling out the digits of a valid time is accepted and reads back as that time. */
  lemma DigitsOfValidTime(s: string, t: TimeOfDay)
    requires t.Valid()
    requires |s| == 8 && s[2] == ':' && s[5] == ':'
    requires s[0] == DigitChar(t.hour / 10) && s[1] == DigitChar(t.hour % 10)
    requires s[3] == DigitChar(t.minute / 10) && s[4] == DigitChar(t.minute % 10)
    requires s[6] == DigitChar(t.second / 10) && s[7] == DigitChar(t.second % 10)
    ensures ValidateTime(s) && ReadTime(s) == t
  {
  }

  /** Every accepted string is the rendering of the valid time it denotes. */
  lemma {:induction false} ValidTimeIsFormatted(time: string)
    requires ValidateTime(time)
    ensures ReadTime(time).Valid() && FormatTime(ReadTime(time)) == time
  {
    var t := ReadTime(time);
    FormattedTimeIsValid(t);
    ReadTimeInjective(FormatTime(t), time);
  }

  /** `split(':')` cuts an accepted string into its three two-digit fields. */
  lemma SplitTimeFields(time: string)
    requires ValidateTime(time)
    ensures Split(time, ':') == [time[0..2], time[3..5], time[6..8]]
  {
    var parts := [time[0..2], time[3..5], time[6..8]];
    assert parts[1..][1..] == [time[6..8]];
    assert Join(parts[1..], ':') == time[3..5] + [':'] + time[6..8];
    assert Join(parts, ':') == time;
    SplitJoin(parts, ':');
  }

  /** Two digits read as a number. */
  lemma TwoDigitNumber(s: string)
    requires |s| == 2 && AllDigits(s)
    ensures Number(s) == Some(10 * DigitValue(s[0]) + DigitValue(s[1]))
  {
    var first := s[..1];
    assert first[..0] == [];
    assert DigitsValue(first) == DigitValue(s[0]);
    assert DigitsValue(s) == 10 * DigitsValue(first) + DigitValue(s[1]);
  }

  /** `Number` reads back every two-digit field the service prints. */
  lemma NumberPad2(n: nat)
    requires n < 100
    ensures Number(Pad2(n)) == Some(n)
  {
    Pad2Digits(n);
    TwoDigitNumber(Pad2(n));
  }

  /** `time.split(':').map(Number)` on an accepted string gives the hour, minute and second it denotes. */
  lemma TimeFieldNumbers(time: string)
    requires ValidateTime(time)
    ensures |Split(time, ':')| == 3
    ensures Number(Split(time, ':')[0]) == Some(ReadTime(time).hour)
    ensures Number(Split(time, ':')[1]) == Some(ReadTime(time).minute)
    ensures Number(Split(time, ':')[2]) == Some(ReadTime(time).second)
  {
    SplitTimeFields(time);
    TwoDigitNumber(time[0..2]);
    TwoDigitNumber(time[3..5]);
    TwoDigitNumber(time[6..8]);
  }

  /** `Math.round(n / d)` for a non-negative quotient: the nearest integer, halves rounded up. */
  function MathRound(n: nat, d: nat): (r: nat)
    requires d > 0
    ensures 2 * n - d < 2 * r * d <= 2 * n + d
  {
    (2 * n + d) / (2 * d)
  }

  /** `Math.round(seconds / 60)` is one exactly from 30 seconds on. */
  lemma RoundSeconds(seconds: nat)
    requires seconds < 60
    ensures MathRound(seconds, 60) == if seconds >= 30 then 1 else 0
  {
  }

  /**
   * `calculateMinutes`: minutes since midnight of an accepted string, seconds
   * rounded half-up; any other string throws.
   */
  function CalculateMinutes(time: string): (r: Result<nat>)
    ensures r.Err? <==> !ValidateTime(time)
    ensures r.Err? ==> r.message == INVALID_FORMAT_MESSAGE
    ensures r.Ok? ==>
      var t := ReadTime(time);
      r.value == 60 * t.hour + t.minute + (if t.second >= 30 then 1 else 0)
    ensures r.Ok? ==> r.value <= MINUTES_PER_DAY
  {
    if !ValidateTime(time) then Err(INVALID_FORMAT_MESSAGE)
    else
      TimeFieldNumbers(time);
      var fields := Split(time, ':');
      var hours := Number(fields[0]).value;
      var minutes := Number(fields[1]).value;
      var seconds := Number(fields[2]).value;
      RoundSeconds(seconds);
      Ok(hours * 60 + minutes + MathRound(seconds, 60))
  }

  /**
   * `minutesToTimeString`: a minute count within one day rendered as `HH:MM:00`;
   * anything outside `[0, 1439]` throws.
   */
  function MinutesToTimeString(minutes: int): (r: Result<string>)
    ensures r.Err? <==> minutes < 0 || minutes >= MINUTES_PER_DAY
    ensures r.Err? ==> r.message == OUT_OF_RANGE_MESSAGE
    ensures r.Ok? ==>
      && |r.value| == 8
      && ValidateTime(r.value)
      && ReadTime(r.value) == TimeOfDay(minutes / 60, minutes % 60, 0)
  {
    if minutes < 0 || minutes >= MINUTES_PER_DAY then Err(OUT_OF_RANGE_MESSAGE)
    else
      var hours := minutes / 60;
      var mins := minutes % 60;
      var s := Pad2(hours) + ":" + Pad2(mins) + ":00";
      Pad2Zero();
      assert s == FormatTime(TimeOfDay(hours, mins, 0));
      FormattedTimeIsValid(TimeOfDay(hours, mins, 0));
      Ok(s)
  }

  /** A minute count within the day is printed as the canonical rendering of its hour and minute. */
  lemma MinutesToTimeStringFormats(n: int)
    requires 0 <= n < MINUTES_PER_DAY
    ensures MinutesToTimeString(n) == Ok(FormatTime(TimeOfDay(n / 60, n % 60, 0)))
  {
    var prefix := Pad2(n / 60) + ":" + Pad2(n % 60);
    Pad2Zero();
    assert prefix + ":00" == prefix + ":" + Pad2(0);
  }

  /** Minutes to text and back is the identity on `[0, 1439]`. */
  lemma MinutesRoundTrip(n: int)
    requires 0 <= n < MINUTES_PER_DAY
    ensures MinutesToTimeString(n).Ok?
    ensures CalculateMinutes(MinutesToTimeString(n).value) == Ok(n)
  {
  }

  /** From 23:59:30 on, the conversion yields 1440, one past the last minute of the day. */
  lemma CalculateMinutesIs1440(time: string)
    requires ValidateTime(time)
    ensures CalculateMinutes(time) == Ok(MINUTES_PER_DAY) <==>
      var t := ReadTime(time); t.hour == 23 && t.minute == 59 && t.second >= 30
  {
  }

  /**
   * The last second of the day converts to 1440, which `minutesToTimeString`
   * then refuses; the expectation of 1439 for this input does not hold.
   */
  lemma LastSecondOfDay()
    ensures CalculateMinutes("23:59:59") == Ok(1440)
    ensures CalculateMinutes("23:59:59") != Ok(1439)
    ensures MinutesToTimeString(1440).Err?
  {
  }

  /** Text with zero seconds survives the trip to minutes and back unchanged. */
  lemma {:induction false} WholeMinuteRoundTrip(time: string)
    requires ValidateTime(time) && time[6..] == "00"
    ensures CalculateMinutes(time).Ok?
    ensures MinutesToTimeString(CalculateMinutes(time).value) == Ok(time)
  {
    var t := ReadTime(time);
    assert time[6] == '0' && time[7] == '0' by { assert time[6..][0] == time[6] && time[6..][1] == time[7]; }
    var m := 60 * t.hour + t.minute;
    assert CalculateMinutes(time) == Ok(m);
    MinutesToTimeStringFormats(m);
    assert TimeOfDay(m / 60, m % 60, 0) == t;
    ValidTimeIsFormatted(time);
  }

  /**
   * Any accepted text that does not round past midnight comes back as its
   * rounded minute with the seconds set to `00`: unchanged hour and minute below
   * 30 seconds, the next minute from 30 seconds on.
   */
  lemma {:induction false} RoundedRoundTrip(time: string)
    requires ValidateTime(time)
    requires CalculateMinutes(time).value < MINUTES_PER_DAY
    ensures MinutesToTimeString(CalculateMinutes(time).value).Ok?
    ensures var out := MinutesToTimeString(CalculateMinutes(time).value).value;
      && out[6..] == "00"
      && (ReadTime(time).second < 30 ==> out == time[..6] + "00")
      && (ReadTime(time).second >= 30 ==>
            CalculateMinutes(out) == Ok(60 * ReadTime(time).hour + ReadTime(time).minute + 1))
  {
    var m := CalculateMinutes(time).value;
    MinutesRoundTrip(m);
    var out := MinutesToTimeString(m).value;
    SecondsZeroed(out);
    if ReadTime(time).second < 30 {
      TruncatedSeconds(time);
      MinutesToTimeStringIs(m, time[..6] + "00");
    }
  }

  /** Replacing the seconds of an accepted string by `00` keeps its hour and minute. */
  lemma TruncatedSeconds(time: string)
    requires ValidateTime(time)
    ensures Shaped(time[..6] + "00")
    ensures ReadTime(time[..6] + "00") == TimeOfDay(ReadTime(time).hour, ReadTime(time).minute, 0)
  {
  }

  /** An accepted string whose seconds read as zero ends in `00`. */
  lemma SecondsZeroed(s: string)
    requires ValidateTime(s) && ReadTime(s).second == 0
    ensures s[6..] == "00"
  {
  }

  /** The accepted and rejected strings listed with the service. */
  lemma ValidateTimeExamples()
    ensures ValidateTime("00:00:00") && ValidateTime("23:59:59") && ValidateTime("12:30:45")
    ensures !ValidateTime("24:00:00") && !ValidateTime("12:60:00") && !ValidateTime("12:00:60")
    ensures !ValidateTime("12:00:0") && !ValidateTime("120000") && !ValidateTime("")
    ensures !ValidateTimeValue(None)
  {
  }

  /** Whole-minute conversions listed with the service. */
  lemma CalculateMinutesExamples()
    ensures CalculateMinutes("00:00:00") == Ok(0)
    ensures CalculateMinutes("01:00:00") == Ok(60)
    ensures CalculateMinutes("12:30:00") == Ok(750)
  {
    assert ReadTime("01:00:00") == TimeOfDay(1, 0, 0);
    assert ReadTime("12:30:00") == TimeOfDay(12, 30, 0);
  }

  /** The rounding tie at midnight: 29 seconds round down, 30 round up. */
  lemma CalculateMinutesTiesAtMidnight()
    ensures CalculateMinutes("00:00:29") == Ok(0) && CalculateMinutes("00:00:30") == Ok(1)
  {
    assert ReadTime("00:00:29") == TimeOfDay(0, 0, 29);
    assert ReadTime("00:00:30") == TimeOfDay(0, 0, 30);
  }

  /** The rounding tie at half past noon. */
  lemma CalculateMinutesTiesAtNoon()
    ensures CalculateMinutes("12:30:29") == Ok(750) && CalculateMinutes("12:30:30") == Ok(751)
  {
    assert ReadTime("12:30:29") == TimeOfDay(12, 30, 29);
    assert ReadTime("12:30:30") == TimeOfDay(12, 30, 30);
  }

  /** The strings the service must refuse to convert. */
  lemma CalculateMinutesRejects()
    ensures CalculateMinutes("24:00:00") == Err(INVALID_FORMAT_MESSAGE)
    ensures CalculateMinutes("12:60:00") == Err(INVALID_FORMAT_MESSAGE)
    ensures CalculateMinutes("invalid") == Err(INVALID_FORMAT_MESSAGE)
  {
  }

  /** The rendering of a minute count is the one shaped string that reads as its hour and minute with zero seconds. */
  lemma {:induction false} MinutesToTimeStringIs(n: int, s: string)
    requires 0 <= n < MINUTES_PER_DAY
    requires Shaped(s) && ReadTime(s) == TimeOfDay(n / 60, n % 60, 0)
    ensures MinutesToTimeString(n) == Ok(s)
  {
    ReadTimeInjective(MinutesToTimeString(n).value, s);
  }

  /** The renderings listed with the service. */
  lemma MinutesToTimeStringExamples()
    ensures MinutesToTimeString(0) == Ok("00:00:00") && MinutesToTimeString(60) == Ok("01:00:00")
    ensures MinutesToTimeString(750) == Ok("12:30:00") && MinutesToTimeString(1439) == Ok("23:59:00")
  {
    MinutesToTimeStringIs(0, "00:00:00");
    MinutesToTimeStringIs(60, "01:00:00");
    MinutesToTimeStringIs(750, "12:30:00");
    MinutesToTimeStringIs(1439, "23:59:00");
  }

  /** The two minute counts the service must refuse. */
  lemma MinutesToTimeStringRejects()
    ensures MinutesToTimeString(-1) == Err(OUT_OF_RANGE_MESSAGE)
    ensures MinutesToTimeString(1440) == Err(OUT_OF_RANGE_MESSAGE)
  {
  }
}
