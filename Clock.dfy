/** `time.Parse("15:04", s)`, reduced to what scoring reads from it: the
    layout element `15` takes one or two digits for an hour below 24, the
    literal `:` must follow, the element `04` takes exactly two digits for
    a minute below 60, and no text may remain. */
module Clock {
  import opened Wrappers
  import opened Digits

  datatype HourMinute = HourMinute(hour: nat, minute: nat)

  predicate Valid(t: HourMinute) {
    t.hour < 24 && t.minute < 60
  }

  function ParseClock(s: string): (r: Option<HourMinute>)
    ensures r.Some? ==> Valid(r.value)
  {
    if s == [] || !IsDigit(s[0]) then None
    else
      var twoDigits := |s| >= 2 && IsDigit(s[1]);
      var hour := if twoDigits then DigitValue(s[0]) * 10 + DigitValue(s[1]) else DigitValue(s[0]);
      var rest := if twoDigits then s[2..] else s[1..];
      if hour >= 24 || |rest| != 3 || rest[0] != ':' || !IsDigit(rest[1]) || !IsDigit(rest[2]) then None
      else
        var minute := DigitValue(rest[1]) * 10 + DigitValue(rest[2]);
        if minute >= 60 then None else Some(HourMinute(hour, minute))
  }

  /** The text of a two-digit number. */
  function TwoDigits(n: nat): (s: string)
    requires n < 100
    ensures |s| == 2 && IsDigit(s[0]) && IsDigit(s[1])
    ensures DigitValue(s[0]) * 10 + DigitValue(s[1]) == n
  {
    [DigitChar(n / 10), DigitChar(n % 10)]
  }

  /** A time written in the layout `15:04` itself: `HH:MM`. */
  function FormatClock(t: HourMinute): (s: string)
    requires Valid(t)
    ensures |s| == 5
  {
    TwoDigits(t.hour) + ":" + TwoDigits(t.minute)
  }

  /** The same time with a one-digit hour, which the `15` element also accepts. */
  function FormatShortClock(t: HourMinute): (s: string)
    requires Valid(t) && t.hour < 10
    ensures |s| == 4
  {
    [DigitChar(t.hour)] + ":" + TwoDigits(t.minute)
  }

  lemma ParseFormatClock(t: HourMinute)
    requires Valid(t)
    ensures ParseClock(FormatClock(t)) == Some(t)
  {
    var s := FormatClock(t);
    assert s[2..] == ":" + TwoDigits(t.minute);
  }

  lemma ParseFormatShortClock(t: HourMinute)
    requires Valid(t) && t.hour < 10
    ensures ParseClock(FormatShortClock(t)) == Some(t)
  {
    var s := FormatShortClock(t);
    assert s[1..] == ":" + TwoDigits(t.minute);
  }

  /** The parser accepts nothing else: every accepted text is one of the
      two spellings of the time it returns. */
  lemma ParseClockOnlyFormats(s: string)
    requires ParseClock(s).Some?
    ensures var t := ParseClock(s).value;
      s == FormatClock(t) || (t.hour < 10 && s == FormatShortClock(t))
  {
    var t := ParseClock(s).value;
    if |s| >= 2 && IsDigit(s[1]) {
      var h := TwoDigits(t.hour);
      DigitsDetermined(s[0], s[1], h[0], h[1]);
      var m := TwoDigits(t.minute);
      DigitsDetermined(s[3], s[4], m[0], m[1]);
      assert s == h + ":" + m;
    } else {
      var m := TwoDigits(t.minute);
      DigitsDetermined(s[2], s[3], m[0], m[1]);
      assert s[0] == DigitChar(t.hour);
      assert s == [DigitChar(t.hour)] + ":" + m;
    }
  }

  lemma DigitsDetermined(a: char, b: char, c: char, d: char)
    requires IsDigit(a) && IsDigit(b) && IsDigit(c) && IsDigit(d)
    requires DigitValue(a) * 10 + DigitValue(b) == DigitValue(c) * 10 + DigitValue(d)
    ensures a == c && b == d
  {
  }
}
