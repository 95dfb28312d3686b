/**
 The client's display helpers: the workout option list and icon table,
 and `formatTime`, which turns a stored 24-hour `HH:MM` string into a
 12-hour reading with an AM/PM suffix.
 */
module ClientHelpers {
  import opened Wrappers
  import opened ClockTime
  import Workouts

  /** The icon components the client attaches to each workout. */
  datatype Icon =
    | HeartIcon | BoltIcon | TrophyIcon | GlobeAltIcon | SparklesIcon
    | UserIcon | FireIcon | PuzzlePieceIcon | BeakerIcon

  const WorkoutIcons: map<string, Icon> := map[
    "Running" := HeartIcon,
    "Cycling" := BoltIcon,
    "Weightlifting" := TrophyIcon,
    "Swimming" := GlobeAltIcon,
    "Yoga" := SparklesIcon,
    "Walking" := UserIcon,
    "Basketball" := FireIcon,
    "Tennis" := PuzzlePieceIcon,
    "Other" := BeakerIcon
  ]

  const WorkoutOptions: seq<string> :=
    ["Running", "Cycling", "Weightlifting", "Swimming", "Yoga",
     "Walking", "Basketball", "Tennis", "Other"]

  /** The option list is the server's enum list: nine names, each once,
      in the same order. */
  lemma OptionsMatchServerEnum()
    ensures WorkoutOptions == Workouts.EnumNames
    ensures |WorkoutOptions| == 9
    ensures forall i, j :: 0 <= i < j < |WorkoutOptions| ==> WorkoutOptions[i] != WorkoutOptions[j]
  {
    Workouts.EnumNamesAreNames();
  }

  /** The icon table has an icon for exactly the listed options. */
  lemma OptionsAreIconKeys()
    ensures forall k :: k in WorkoutIcons <==> k in WorkoutOptions
  {
    assert WorkoutIcons.Keys == set k | k in WorkoutOptions;
  }

  /** No two workouts share an icon. */
  lemma IconsDistinct()
    ensures forall k1, k2 :: k1 in WorkoutIcons && k2 in WorkoutIcons && k1 != k2 ==>
      WorkoutIcons[k1] != WorkoutIcons[k2]
  {
  }

  // ----- the JavaScript pieces `formatTime` is built from -----

  /** Index of the first `:` in `s`, or `|s|` when there is none. */
  function ColonIndex(s: string): (k: nat)
    ensures k <= |s|
    ensures k < |s| ==> s[k] == ':'
    ensures forall i :: 0 <= i < k ==> s[i] != ':'
  {
    if |s| == 0 then 0
    else if s[0] == ':' then 0
    else 1 + ColonIndex(s[1..])
  }

  /** `const [hours, minutes] = s.split(':')`: the piece before the first
      colon, and the piece between the first and the second colon, which
      is `undefined` (None) when there is no colon at all. */
  function SplitColon(s: string): (r: (string, Option<string>))
    ensures r.0 + (if r.1.Some? then ":" + r.1.value else "") <= s
    ensures ':' !in r.0
    ensures r.1.Some? ==> ':' !in r.1.value
    ensures r.1.None? <==> ':' !in s
    ensures r.1.None? ==> r.0 == s
    ensures r.1.Some? ==> |r.0| + 1 + |r.1.value| == |s| || s[|r.0| + 1 + |r.1.value|] == ':'
  {
    var k := ColonIndex(s);
    if k == |s| then (s, None)
    else
      var rest := s[k + 1..];
      var j := ColonIndex(rest);
      assert s[..k] + ":" + rest[..j] == s[..k + 1 + j];
      (s[..k], Some(rest[..j]))
  }

  /** Length of the longest prefix of `s` made of decimal digits. */
  function DigitRun(s: string): (n: nat)
    ensures n <= |s|
    ensures forall i :: 0 <= i < n ==> IsDigit(s[i])
    ensures n < |s| ==> !IsDigit(s[n])
  {
    if |s| == 0 || !IsDigit(s[0]) then 0 else 1 + DigitRun(s[1..])
  }

  /** The value of a string of decimal digits. */
  function DecimalValue(ds: string): (v: nat)
    requires forall i :: 0 <= i < |ds| ==> IsDigit(ds[i])
  {
    if |ds| == 0 then 0
    else 10 * DecimalValue(ds[..|ds| - 1]) + DigitValue(ds[|ds| - 1])
  }

  /** `parseInt(p, 10)`: an optional sign followed by the leading digits;
      None stands for `NaN`, the result when no digit follows the sign. */
  function ParseIntPrefix(p: string): (r: Option<int>)
    ensures r.Some? <==>
      (var body := if |p| > 0 && (p[0] == '+' || p[0] == '-') then p[1..] else p;
       |body| > 0 && IsDigit(body[0]))
    ensures r.Some? ==>
      var body := if p[0] == '+' || p[0] == '-' then p[1..] else p;
      var digits := body[..DigitRun(body)];
      r.value == (if p[0] == '-' then -(DecimalValue(digits) as int) else DecimalValue(digits))
  {
    var negative := |p| > 0 && p[0] == '-';
    var body := if |p| > 0 && (p[0] == '+' || p[0] == '-') then p[1..] else p;
    var n := DigitRun(body);
    if n == 0 then None
    else
      var v: int := DecimalValue(body[..n]);
      Some(if negative then -v else v)
  }

  /** The digit run of a digit string followed by a non-digit (or by
      nothing) is exactly that string. */
  lemma {:induction false} DigitRunOfDigits(t: string, rest: string)
    requires forall i :: 0 <= i < |t| ==> IsDigit(t[i])
    requires rest == [] || !IsDigit(rest[0])
    ensures DigitRun(t + rest) == |t|
    decreases |t|
  {
    if |t| == 0 {
      assert t + rest == rest;
    } else {
      assert (t + rest)[1..] == t[1..] + rest;
      DigitRunOfDigits(t[1..], rest);
    }
  }

  /** `parseInt` reads back the decimal text of a number, with or without
      a minus sign, and stops at the first character that is not a digit. */
  lemma ParseIntOfText(n: nat, rest: string)
    requires rest == [] || !IsDigit(rest[0])
    ensures ParseIntPrefix(NatText(n) + rest) == Some(n)
    ensures ParseIntPrefix("-" + NatText(n) + rest) == Some(-(n as int))
  {
    var t := NatText(n);
    DigitRunOfDigits(t, rest);
    assert (t + rest)[..|t|] == t;
    assert ("-" + t + rest)[1..] == t + rest;
  }

  /** JavaScript's `hour % 12`, whose remainder takes the sign of the
      dividend: it differs from `a` by a multiple of twelve and lies in
      [0, 12) for a non-negative dividend, in (-12, 0] for a negative one. */
  function JsRemTwelve(a: int): (r: int)
    ensures -12 < r < 12
    ensures a >= 0 ==> 0 <= r
    ensures a < 0 ==> r <= 0
    ensures (a - r) % 12 == 0
  {
    if a >= 0 then a % 12 else -((-a) % 12)
  }

  /** The decimal text of a natural number, without leading zeros. */
  function NatText(n: nat): (t: string)
    ensures |t| > 0
    ensures forall i :: 0 <= i < |t| ==> IsDigit(t[i])
    ensures DecimalValue(t) == n
  {
    if n < 10 then [DigitChar(n)]
    else
      var t := NatText(n / 10) + [DigitChar(n % 10)];
      assert t[..|t| - 1] == NatText(n / 10);
      t
  }

  /** The text of an integer as a template literal writes it. */
  function IntText(n: int): string
  {
    if n < 0 then "-" + NatText(-n) else NatText(n)
  }

  /** `hour % 12 || 12` for a parsed hour, where `NaN` and `0` are falsy. */
  function DisplayHour(hour: Option<int>): int
  {
    if hour.None? then 12
    else
      var r := JsRemTwelve(hour.value);
      if r == 0 then 12 else r
  }

  /** `formatTime`: the 12-hour reading of a time string.  It is total,
      like the source: a string without digits before its colon shows as
      hour 12 (the `NaN` path), and one without a colon shows the minutes
      as `undefined`. */
  function FormatTime(timeString: string): (r: string)
    ensures |r| >= 3 && (r[|r| - 3..] == " AM" || r[|r| - 3..] == " PM")
    ensures ParseIntPrefix(SplitColon(timeString).0).None? ==> r[..3] == "12:" && r[|r| - 3..] == " AM"
  {
    var (hours, minutes) := SplitColon(timeString);
    var hour := ParseIntPrefix(hours);
    var ampm := if hour.Some? && hour.value >= 12 then "PM" else "AM";
    var head := IntText(DisplayHour(hour)) + ":";
    ReadingShape(head, minutes.GetOr("undefined"), ampm);
    TwelveHead();
    head + minutes.GetOr("undefined") + " " + ampm
  }

  /** A reading ends in its space and suffix and starts with its head. */
  lemma ReadingShape(head: string, mid: string, ampm: string)
    requires ampm == "AM" || ampm == "PM"
    ensures var r := head + mid + " " + ampm;
      && |r| >= 3 && |r| >= |head|
      && (r[|r| - 3..] == " AM" || r[|r| - 3..] == " PM")
      && (ampm == "AM" ==> r[|r| - 3..] == " AM")
      && r[..|head|] == head
  {
    var r := head + mid + " " + ampm;
    assert r[|r| - 3..] == " " + ampm;
  }

  /** The head of a reading at display hour twelve. */
  lemma TwelveHead()
    ensures IntText(12) + ":" == "12:"
  {
    assert NatText(12) == "12";
  }

  /** Reading a 12-hour display back onto the 24-hour clock. */
  function To24(displayHour: int, pm: bool): int
  {
    displayHour % 12 + (if pm then 12 else 0)
  }

  /** For every accepted time string the output is `h:mm AM` or `h:mm PM`
      with `h` in 1..12, the minute digits copied unchanged, PM exactly for
      hours 12 and later, and the 24-hour hour recoverable from `h` and the
      suffix. */
  lemma FormatTimeOfValid(s: string)
    requires MatchesTimePattern(s)
    ensures var c := ParseTime(s).value;
      var h := DisplayHour(Some(c.hour));
      && 1 <= h <= 12
      && To24(h, c.hour >= 12) == c.hour
      && FormatTime(s) == NatText(h) + ":" + s[|s| - 2..] + " " + (if c.hour >= 12 then "PM" else "AM")
  {
    var c := ParseTime(s).value;
    var k := if |s| == 4 then 1 else 2;
    assert ColonIndex(s) == k by {
      assert s[k] == ':' && s[0] != ':';
      assert k == 2 ==> s[1] != ':';
    }
    var rest := s[k + 1..];
    assert rest == s[|s| - 2..];
    assert ColonIndex(rest) == 2 by {
      assert rest[0] != ':' && rest[1] != ':';
    }
    assert rest[..2] == rest;
    assert SplitColon(s) == (s[..k], Some(s[|s| - 2..]));
    var hs := s[..k];
    assert DigitRun(hs) == k;
    assert hs[..k] == hs;
    assert DecimalValue(hs) == c.hour by {
      var one := [s[0]];
      assert one[..0] == [];
      assert DecimalValue(one) == DigitValue(s[0]);
      if k == 2 {
        assert hs[..1] == one;
      } else {
        assert hs == one;
      }
    }
    assert ParseIntPrefix(hs) == Some(c.hour);
    var h := DisplayHour(Some(c.hour));
    assert 1 <= h <= 12;
    assert To24(h, c.hour >= 12) == c.hour;
    assert FormatTime(s) == NatText(h) + ":" + s[|s| - 2..] + " " + (if c.hour >= 12 then "PM" else "AM");
  }

  /** Midnight and noon both display as hour 12: `00:mm` reads
      `12:mm AM` and `12:mm PM` reads `12:mm PM`. */
  lemma FormatTimeTwelve(s: string)
    requires MatchesTimePattern(s)
    requires ParseTime(s).value.hour % 12 == 0
    ensures FormatTime(s) == "12:" + s[|s| - 2..] + (if ParseTime(s).value.hour == 0 then " AM" else " PM")
  {
    var c := ParseTime(s).value;
    FormatTimeOfValid(s);
    DisplayHourOfMultiple(c.hour);
    TwelveReading(s[|s| - 2..], c.hour >= 12);
  }

  /** A non-negative multiple of twelve displays as hour 12. */
  lemma DisplayHourOfMultiple(hour: int)
    requires hour >= 0 && hour % 12 == 0
    ensures DisplayHour(Some(hour)) == 12
  {
    assert JsRemTwelve(hour) == 0;
  }

  /** The text of the reading at display hour twelve. */
  lemma TwelveReading(mm: string, pm: bool)
    ensures NatText(12) + ":" + mm + " " + (if pm then "PM" else "AM")
      == "12:" + mm + (if pm then " PM" else " AM")
  {
    assert NatText(1) == ['1'];
    assert NatText(12) == NatText(1) + [DigitChar(2)];
    if pm {
      assert " " + "PM" == " PM";
    } else {
      assert " " + "AM" == " AM";
    }
  }

  /** A string with no colon that does not start with a number shows
      the fallback reading: hour 12 from `NaN`, minutes `undefined`,
      suffix AM. */
  lemma FormatTimeMalformed(s: string)
    requires ':' !in s
    requires ParseIntPrefix(s).None?
    ensures FormatTime(s) == "12:undefined AM"
  {
    assert SplitColon(s) == (s, None);
    assert DisplayHour(None) == 12;
    TwelveHead();
    FallbackText();
  }

  /** The text of the fallback reading. */
  lemma FallbackText()
    ensures "12:" + "undefined" + " " + "AM" == "12:undefined AM"
  {
  }
}
