/**
 * The JavaScript built-ins that the time and date helpers rely on, stated over
 * `string` (a `seq<char>`): splitting on a separator, reading decimal digits
 * (`Number`, `parseInt`), printing a non-negative integer (`toString`),
 * left padding (`padStart`), `startsWith` and upper-casing one character.
 */
module JsString {
  import opened Wrappers

  predicate IsDigit(c: char) { '0' <= c <= '9' }

  predicate AllDigits(s: string) { forall i :: 0 <= i < |s| ==> IsDigit(s[i]) }

  function DigitValue(c: char): (d: nat)
    requires IsDigit(c)
    ensures d < 10
  {
    (c as int) - ('0' as int)
  }

  function DigitChar(d: nat): (c: char)
    requires d < 10
    ensures IsDigit(c) && DigitValue(c) == d
  {
    (('0' as int) + d) as char
  }

  function Pow10(k: nat): (p: nat)
    ensures p >= 1
  {
    if k == 0 then 1 else 10 * Pow10(k - 1)
  }

  /** The decimal value of a digit string, most significant digit first. */
  function DigitsValue(s: string): (n: nat)
    requires AllDigits(s)
    ensures n < Pow10(|s|)
  {
    if |s| == 0 then 0 else 10 * DigitsValue(s[..|s| - 1]) + DigitValue(s[|s| - 1])
  }

  /** `n.toString()` for a non-negative integer: its shortest decimal numeral. */
  function NatToString(n: nat): (s: string)
    ensures |s| >= 1
  {
    if n < 10 then [DigitChar(n)] else NatToString(n / 10) + [DigitChar(n % 10)]
  }

  /** `toString` prints digits only, with no leading zero, that read back as the number. */
  lemma {:induction false} NatToStringDigits(n: nat)
    ensures AllDigits(NatToString(n)) && DigitsValue(NatToString(n)) == n
    ensures |NatToString(n)| > 1 ==> NatToString(n)[0] != '0'
  {
    if n >= 10 {
      NatToStringDigits(n / 10);
      var s := NatToString(n);
      assert s[..|s| - 1] == NatToString(n / 10);
      assert s[0] == NatToString(n / 10)[0];
    }
  }

  /** A numeral without leading zeros is the one `toString` prints for its value. */
  lemma {:induction false} NatToStringOfDigits(s: string)
    requires |s| >= 1 && AllDigits(s) && (|s| > 1 ==> s[0] != '0')
    ensures NatToString(DigitsValue(s)) == s
  {
    var n := DigitsValue(s);
    if |s| == 1 {
      assert n == DigitValue(s[0]);
      assert [DigitChar(n)] == s;
    } else {
      var init := s[..|s| - 1];
      assert AllDigits(init);
      assert init[0] == s[0];
      NatToStringOfDigits(init);
      LeadingDigitBound(init);
      assert n == 10 * DigitsValue(init) + DigitValue(s[|s| - 1]);
      assert n / 10 == DigitsValue(init) && n % 10 == DigitValue(s[|s| - 1]);
      assert init + [s[|s| - 1]] == s;
    }
  }

  /** A numeral of length at least one whose first digit is not zero has a positive value. */
  lemma {:induction false} LeadingDigitBound(s: string)
    requires |s| >= 1 && AllDigits(s) && s[0] != '0'
    ensures DigitsValue(s) >= 1
  {
    if |s| > 1 {
      var init := s[..|s| - 1];
      assert init[0] == s[0];
      LeadingDigitBound(init);
    }
  }

  /** `s.padStart(targetLength, fill)` with a one-character fill string. */
  function PadStart(s: string, targetLength: nat, fill: char): (r: string)
  {
    if |s| >= targetLength then s else seq(targetLength - |s|, _ => fill) + s
  }

  /** `padStart` reaches the target length, keeps `s` at the end and fills in front of it. */
  lemma PadStartSpec(s: string, targetLength: nat, fill: char)
    ensures var r := PadStart(s, targetLength, fill);
      && |r| == (if |s| >= targetLength then |s| else targetLength)
      && r[|r| - |s|..] == s
      && forall i :: 0 <= i < |r| - |s| ==> r[i] == fill
  {
  }

  /** `n.toString().padStart(2, '0')` for a number below 100 is its two decimal digits. */
  lemma Pad2Digits(n: nat)
    requires n < 100
    ensures PadStart(NatToString(n), 2, '0') == [DigitChar(n / 10), DigitChar(n % 10)]
  {
  }

  /** The inverse of `Split`: the pieces glued back together with the separator between them. */
  function Join(parts: seq<string>, sep: char): string
    requires |parts| >= 1
  {
    if |parts| == 1 then parts[0] else parts[0] + [sep] + Join(parts[1..], sep)
  }

  /** `s.split(sep)` for a one-character separator: the maximal separator-free pieces, in order. */
  function Split(s: string, sep: char): (parts: seq<string>)
    ensures |parts| >= 1
  {
    if |s| == 0 then [""]
    else
      var rest := Split(s[1..], sep);
      if s[0] == sep then [""] + rest
      else [[s[0]] + rest[0]] + rest[1..]
  }

  /** The pieces `Split` returns contain no separator and join back to the input. */
  lemma {:induction false} SplitJoinsBack(s: string, sep: char)
    ensures Join(Split(s, sep), sep) == s
    ensures forall i :: 0 <= i < |Split(s, sep)| ==> sep !in Split(s, sep)[i]
  {
    if |s| > 0 {
      SplitJoinsBack(s[1..], sep);
      var rest := Split(s[1..], sep);
      var parts := Split(s, sep);
      if s[0] == sep {
        assert parts == [""] + rest;
        assert parts[1..] == rest;
      } else {
        assert parts == [[s[0]] + rest[0]] + rest[1..];
        assert parts[1..] == rest[1..];
        assert sep !in rest[0];
      }
      assert s == [s[0]] + s[1..];
    }
  }

  lemma {:induction false} SplitNoSeparator(a: string, sep: char)
    requires sep !in a
    ensures Split(a, sep) == [a]
  {
    if |a| > 0 {
      assert sep !in a[1..];
      SplitNoSeparator(a[1..], sep);
      assert [a[0]] + a[1..] == a;
    }
  }

  lemma {:induction false} SplitAfterPiece(a: string, sep: char, rest: string)
    requires sep !in a
    ensures Split(a + [sep] + rest, sep) == [a] + Split(rest, sep)
  {
    var s := a + [sep] + rest;
    if |a| == 0 {
      assert s[1..] == rest;
    } else {
      assert s[1..] == a[1..] + [sep] + rest;
      assert sep !in a[1..];
      SplitAfterPiece(a[1..], sep, rest);
      assert [a[0]] + a[1..] == a;
    }
  }

  /** Splitting undoes joining separator-free pieces. */
  lemma {:induction false} SplitJoin(parts: seq<string>, sep: char)
    requires |parts| >= 1
    requires forall i :: 0 <= i < |parts| ==> sep !in parts[i]
    ensures Split(Join(parts, sep), sep) == parts
  {
    if |parts| == 1 {
      SplitNoSeparator(parts[0], sep);
    } else {
      assert forall i :: 0 <= i < |parts| - 1 ==> parts[1..][i] == parts[i + 1];
      SplitJoin(parts[1..], sep);
      SplitAfterPiece(parts[0], sep, Join(parts[1..], sep));
      assert [parts[0]] + parts[1..] == parts;
    }
  }

  /**
   * `Number(s)`. Only the forms the helpers can meet are modelled: a string of
   * decimal digits (the empty string reads as 0); anything else is `NaN`.
   */
  function Number(s: string): Option<nat>
  {
    if AllDigits(s) then Some(DigitsValue(s)) else None
  }

  /** `Number` reads back what `toString` prints. */
  lemma NumberOfNatToString(n: nat)
    ensures Number(NatToString(n)) == Some(n)
  {
    NatToStringDigits(n);
  }

  /** The longest prefix of `s` made of decimal digits. */
  function DigitPrefix(s: string): (d: string)
    ensures |d| <= |s| && d == s[..|d|] && AllDigits(d)
    ensures |d| < |s| ==> !IsDigit(s[|d|])
  {
    if |s| == 0 || !IsDigit(s[0]) then ""
    else
      var d := [s[0]] + DigitPrefix(s[1..]);
      assert d[1..] == DigitPrefix(s[1..]);
      d
  }

  /** The text `parseInt` reads digits from: `s` without its sign character, if any. */
  function Unsigned(s: string): string
  {
    if |s| > 0 && (s[0] == '-' || s[0] == '+') then s[1..] else s
  }

  /**
   * `parseInt(s)` with the default radix: an optional sign, then the longest
   * run of decimal digits; `NaN` (None) when there is no digit.
   */
  function ParseInt(s: string): (r: Option<int>)
    ensures r.None? <==> DigitPrefix(Unsigned(s)) == ""
    ensures r.Some? ==> Abs(r.value) == DigitsValue(DigitPrefix(Unsigned(s)))
    ensures r.Some? && r.value < 0 ==> s[0] == '-'
    ensures r.Some? && |s| > 0 && s[0] == '-' ==> r.value <= 0
  {
    var digits := DigitPrefix(Unsigned(s));
    var magnitude: int := if |digits| == 0 then 0 else DigitsValue(digits);
    if |digits| == 0 then None
    else if s[0] == '-' then Some(-magnitude)
    else Some(magnitude)
  }

  /** `parseInt` reads a signed numeral followed by anything that is not a digit. */
  lemma ParseIntSignedDigits(sign: char, digits: string, tail: string)
    requires sign == '-' || sign == '+'
    requires |digits| >= 1 && AllDigits(digits)
    requires |tail| > 0 ==> !IsDigit(tail[0])
    ensures ParseInt([sign] + (digits + tail)) == Some(if sign == '-' then -(DigitsValue(digits) as int) else DigitsValue(digits))
  {
    var body := digits + tail;
    var s := [sign] + body;
    assert s[1..] == body;
    assert Unsigned(s) == body;
    DigitPrefixOfDigits(digits, tail);
    assert DigitPrefix(Unsigned(s)) == digits;
  }

  lemma {:induction false} DigitPrefixOfDigits(digits: string, tail: string)
    requires AllDigits(digits)
    requires |tail| > 0 ==> !IsDigit(tail[0])
    ensures DigitPrefix(digits + tail) == digits
  {
    if |digits| > 0 {
      assert (digits + tail)[1..] == digits[1..] + tail;
      DigitPrefixOfDigits(digits[1..], tail);
      assert [digits[0]] + digits[1..] == digits;
    } else {
      assert digits + tail == tail;
    }
  }

  /** `Math.abs` on an integer. */
  function Abs(x: int): (r: nat)
    ensures r == x || r == -x
  {
    if x < 0 then -x else x
  }

  predicate StartsWith(s: string, prefix: string)
  {
    |prefix| <= |s| && s[..|prefix|] == prefix
  }

  /** Lower-case letters of Basic Latin and Latin-1 that upper-case to a single character. */
  predicate IsLowerLatin(c: char)
  {
    ('a' <= c <= 'z') || ('\U{E0}' <= c <= '\U{FE}' && c != '\U{F7}')
  }

  /**
   * `toUpperCase` on one character, for Basic Latin and Latin-1; every other
   * character is left as it is.
   */
  function ToUpperChar(c: char): (u: char)
    ensures IsLowerLatin(c) ==> u as int == c as int - 32
    ensures !IsLowerLatin(c) ==> u == c
    ensures !IsLowerLatin(u)
  {
    if IsLowerLatin(c) then ((c as int) - 32) as char else c
  }
}
