/** Wall-clock times of day at minute precision: `parse_time` and `add_minutes`. */
module Clock {
  import opened Wrappers

  const MinutesPerDay: int := 1440

  /** A time of day as the number of minutes since midnight. */
  type MinuteOfDay = m: int | 0 <= m < MinutesPerDay

  predicate IsDigit(c: char) {
    '0' <= c <= '9'
  }

  function DigitValue(c: char): (d: nat)
    requires IsDigit(c)
    ensures d < 10
  {
    (c as int) - ('0' as int)
  }

  function DigitChar(d: nat): (c: char)
    requires d < 10
    ensures IsDigit(c) && DigitValue(c) == d
  {
    ((('0' as int) + d) as char)
  }

  /** Parse an "HH:MM" string with two-digit fields, hours 00-23 and minutes 00-59;
      anything else is rejected (`None`). */
  function ParseTime(s: string): (r: Option<MinuteOfDay>)
  {
    if |s| == 5 && IsDigit(s[0]) && IsDigit(s[1]) && s[2] == ':' && IsDigit(s[3]) && IsDigit(s[4]) then
      var hours := 10 * DigitValue(s[0]) + DigitValue(s[1]);
      var minutes := 10 * DigitValue(s[3]) + DigitValue(s[4]);
      if hours < 24 && minutes < 60 then Some(60 * hours + minutes) else None
    else
      None
  }

  /** The "HH:MM" spelling of a time of day. */
  function FormatTime(t: MinuteOfDay): (s: string)
    ensures |s| == 5 && s[2] == ':'
  {
    var hours, minutes := t / 60, t % 60;
    [DigitChar(hours / 10), DigitChar(hours % 10), ':', DigitChar(minutes / 10), DigitChar(minutes % 10)]
  }

  /** Every time of day has a spelling that parses back to it. */
  lemma ParseFormat(t: MinuteOfDay)
    ensures ParseTime(FormatTime(t)) == Some(t)
  {
    var s := FormatTime(t);
    var hours, minutes := t / 60, t % 60;
    assert 10 * DigitValue(s[0]) + DigitValue(s[1]) == hours;
    assert 10 * DigitValue(s[3]) + DigitValue(s[4]) == minutes;
  }

  /** A string that parses is the canonical spelling of its value; so the parse is injective. */
  lemma FormatParse(s: string)
    requires ParseTime(s).Some?
    ensures FormatTime(ParseTime(s).value) == s
  {
    var t := ParseTime(s).value;
    var h1, h0, m1, m0 := DigitValue(s[0]), DigitValue(s[1]), DigitValue(s[3]), DigitValue(s[4]);
    assert t == 60 * (10 * h1 + h0) + (10 * m1 + m0);
    assert t / 60 == 10 * h1 + h0 && t % 60 == 10 * m1 + m0;
    var f := FormatTime(t);
    assert f[0] == s[0] && f[1] == s[1] && f[3] == s[3] && f[4] == s[4];
  }

  /** Add a (possibly negative) number of minutes to a time of day, wrapping around midnight
      as `datetime.combine(...) + timedelta(...)` followed by `.time()` does. */
  function AddMinutes(t: MinuteOfDay, minutes: int): (r: MinuteOfDay)
    ensures (t + minutes - r) % MinutesPerDay == 0
  {
    (t + minutes) % MinutesPerDay
  }

  /** Without crossing midnight the sum is plain addition; crossing it once drops one day. */
  lemma AddMinutesWraps(t: MinuteOfDay, minutes: nat)
    requires minutes < MinutesPerDay
    ensures t + minutes < MinutesPerDay ==> AddMinutes(t, minutes) == t + minutes
    ensures t + minutes >= MinutesPerDay ==> AddMinutes(t, minutes) == t + minutes - MinutesPerDay
  {
  }

  /** 23:50 plus 15 minutes is 00:05. */
  lemma GraceEndPastMidnight()
    ensures ParseTime("23:50") == Some(1430)
    ensures AddMinutes(1430, 15) == 5 && FormatTime(5) == "00:05"
  {
  }
}
