/**
 Time-of-day strings.  Sleep and wake-up times travel as text and the
 validators accept exactly the strings matched by the regular expression
 `^([0-1]?[0-9]|2[0-3]):[0-5][0-9]$`: a one- or two-character hour, a
 colon and a two-digit minute.
 */
module ClockTime {
  import opened Wrappers

  predicate IsDigit(c: char)
  {
    '0' <= c <= '9'
  }

  function DigitValue(c: char): (d: int)
    requires IsDigit(c)
    ensures 0 <= d < 10
  {
    c as int - '0' as int
  }

  function DigitChar(d: int): (c: char)
    requires 0 <= d < 10
    ensures IsDigit(c) && DigitValue(c) == d
  {
    ('0' as int + d) as char
  }

  /** The hour group `([0-1]?[0-9]|2[0-3])` matched against all of `h`. */
  predicate HourPattern(h: string)
  {
    || (|h| == 1 && IsDigit(h[0]))
    || (|h| == 2 && '0' <= h[0] <= '1' && IsDigit(h[1]))
    || (|h| == 2 && h[0] == '2' && '0' <= h[1] <= '3')
  }

  /** The minute group `[0-5][0-9]` matched against all of `m`. */
  predicate MinutePattern(m: string)
  {
    |m| == 2 && '0' <= m[0] <= '5' && IsDigit(m[1])
  }

  /** The whole anchored pattern: the hour group is one or two characters
      long, so the colon sits at index 1 or 2. */
  predicate MatchesTimePattern(s: string)
  {
    || (|s| == 4 && HourPattern(s[..1]) && s[1] == ':' && MinutePattern(s[2..]))
    || (|s| == 5 && HourPattern(s[..2]) && s[2] == ':' && MinutePattern(s[3..]))
  }

  /** A time of day on a 24-hour clock. */
  datatype Clock = Clock(hour: int, minute: int) {
    predicate Valid()
    {
      0 <= hour < 24 && 0 <= minute < 60
    }
  }

  /** Reads a time string; absent exactly when the pattern rejects it. */
  function ParseTime(s: string): (r: Option<Clock>)
    ensures r.Some? <==> MatchesTimePattern(s)
    ensures r.Some? ==> r.value.Valid()
  {
    if |s| == 4 && HourPattern(s[..1]) && s[1] == ':' && MinutePattern(s[2..]) then
      Some(Clock(DigitValue(s[0]), 10 * DigitValue(s[2]) + DigitValue(s[3])))
    else if |s| == 5 && HourPattern(s[..2]) && s[2] == ':' && MinutePattern(s[3..]) then
      Some(Clock(10 * DigitValue(s[0]) + DigitValue(s[1]), 10 * DigitValue(s[3]) + DigitValue(s[4])))
    else
      None
  }

  /** Two decimal digits of a number below 100. */
  function TwoDigits(n: int): (t: string)
    requires 0 <= n < 100
    ensures |t| == 2
  {
    [DigitChar(n / 10), DigitChar(n % 10)]
  }

  /** Writes a clock time; `padded` selects `07:05` over `7:05`. */
  function Render(c: Clock, padded: bool): (s: string)
    requires c.Valid()
    requires padded || c.hour < 10
  {
    (if padded then TwoDigits(c.hour) else [DigitChar(c.hour)]) + ":" + TwoDigits(c.minute)
  }

  /** Every valid time, padded or (for hours below ten) not, is accepted
      and read back unchanged. */
  lemma ParseRender(c: Clock, padded: bool)
    requires c.Valid()
    requires padded || c.hour < 10
    ensures MatchesTimePattern(Render(c, padded))
    ensures ParseTime(Render(c, padded)) == Some(c)
  {
    var s := Render(c, padded);
    if padded {
      assert s[..2] == TwoDigits(c.hour);
      assert s[3..] == TwoDigits(c.minute);
    } else {
      assert s[..1] == [DigitChar(c.hour)];
      assert s[2..] == TwoDigits(c.minute);
    }
  }

  /** Conversely, every accepted string is the rendering of the time it
      denotes: the pattern admits nothing beyond hours 0-9, 00-19, 20-23
      and minutes 00-59. */
  lemma AcceptedIsRendered(s: string)
    requires MatchesTimePattern(s)
    ensures ParseTime(s).Some?
    ensures |s| == 5 || ParseTime(s).value.hour < 10
    ensures s == Render(ParseTime(s).value, |s| == 5)
  {
    var c := ParseTime(s).value;
    var t := Render(c, |s| == 5);
    assert |t| == |s|;
    forall i | 0 <= i < |s|
      ensures s[i] == t[i]
    {
      if |s| == 4 {
        assert s[..1][0] == s[0];
        assert s[2..][0] == s[2] && s[2..][1] == s[3];
      } else {
        assert s[..2][0] == s[0] && s[..2][1] == s[1];
        assert s[3..][0] == s[3] && s[3..][1] == s[4];
      }
    }
  }
}
