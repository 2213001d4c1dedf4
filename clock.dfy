/** Calendar days and wall-clock times as the pages handle them.

    A date (the pages' `YYYY-MM-DD` strings and `Date` objects) is a day number:
    consecutive calendar days differ by one. A time (`HH:MM` strings) is kept
    parsed, as an hour and a minute; both are unbounded integers because the
    attendance page does unchecked arithmetic on them (`m + 15`, `h - 1`). */
module Clock {
  import opened Optional
  import opened Text

  type Day = int

  datatype Time = Time(hour: int, minute: int)

  /** `${String(h).padStart(2, '0')}:${String(m).padStart(2, '0')}`. */
  function Format(t: Time): (r: string)
    ensures 5 <= |r|
  {
    var hh, mm := PadStart2(IntToString(t.hour)), PadStart2(IntToString(t.minute));
    assert 2 <= |hh| && 2 <= |mm|;
    hh + ":" + mm
  }

  /** The first position of `c` in `s`, if any. */
  function IndexOf(s: string, c: char): (r: Option<nat>)
    ensures r.Some? ==> r.value < |s| && s[r.value] == c && c !in s[..r.value]
    ensures r.None? ==> c !in s
  {
    if s == [] then None
    else if s[0] == c then Some(0)
    else
      match IndexOf(s[1..], c)
      case None => None
      case Some(k) =>
        assert s[..k + 1] == [s[0]] + s[1..][..k];
        Some(k + 1)
  }

  /** `s.split(':').map(Number)` on text of the form `digits:digits`; any other
      text is rejected (JavaScript would produce NaN). */
  function Parse(s: string): (r: Option<Time>)
    ensures r.Some? ==> 0 <= r.value.hour && 0 <= r.value.minute
  {
    match IndexOf(s, ':')
    case None => None
    case Some(k) =>
      var hh, mm := s[..k], s[k + 1..];
      if hh != [] && mm != [] && AllDigits(hh) && AllDigits(mm)
      then Some(Time(DigitsValue(hh), DigitsValue(mm)))
      else None
  }

  /** Formatting a time of non-negative fields and parsing the text back gives the time. */
  lemma FormatParseRoundTrip(t: Time)
    requires 0 <= t.hour && 0 <= t.minute
    ensures Parse(Format(t)) == Some(t)
  {
    var hh, mm := PadStart2(NatToString(t.hour)), PadStart2(NatToString(t.minute));
    FormatNonNegative(t);
    PadStart2Value(NatToString(t.hour));
    PadStart2Value(NatToString(t.minute));
    NatToStringRoundTrip(t.hour);
    NatToStringRoundTrip(t.minute);
    ParseJoined(hh, mm);
  }

  /** For non-negative fields the text is the two zero-padded unsigned numbers. */
  lemma FormatNonNegative(t: Time)
    requires 0 <= t.hour && 0 <= t.minute
    ensures Format(t) == PadStart2(NatToString(t.hour)) + ":" + PadStart2(NatToString(t.minute))
  {
    assert IntToString(t.hour) == NatToString(t.hour);
    assert IntToString(t.minute) == NatToString(t.minute);
  }

  /** Two non-empty digit strings joined by a colon parse to their values. */
  lemma ParseJoined(hh: string, mm: string)
    requires hh != [] && mm != [] && AllDigits(hh) && AllDigits(mm)
    ensures Parse(hh + ":" + mm) == Some(Time(DigitsValue(hh), DigitsValue(mm)))
  {
    var s := hh + ":" + mm;
    ColonAfterDigits(hh, mm);
    assert s[..|hh|] == hh;
    assert s[|hh| + 1..] == mm;
  }

  /** In `digits + ":" + rest` the first colon is the one after the digits. */
  lemma {:induction false} ColonAfterDigits(hh: string, mm: string)
    requires AllDigits(hh)
    ensures IndexOf(hh + ":" + mm, ':') == Some(|hh|)
  {
    if hh != [] {
      assert (hh + ":" + mm)[1..] == hh[1..] + ":" + mm;
      ColonAfterDigits(hh[1..], mm);
    }
  }

  /** Distinct times of non-negative fields are written differently. */
  lemma FormatInjective(t: Time, u: Time)
    requires 0 <= t.hour && 0 <= t.minute && 0 <= u.hour && 0 <= u.minute
    requires Format(t) == Format(u)
    ensures t == u
  {
    FormatParseRoundTrip(t);
    FormatParseRoundTrip(u);
  }

  /** A time with both fields below 100 is written as exactly five characters `HH:MM`. */
  lemma FormatTwoDigits(t: Time)
    requires 0 <= t.hour < 100 && 0 <= t.minute < 100
    ensures Format(t) == [DigitChar(t.hour / 10), DigitChar(t.hour % 10), ':',
                          DigitChar(t.minute / 10), DigitChar(t.minute % 10)]
  {
    FormatNonNegative(t);
    TwoDigits(t.hour);
    TwoDigits(t.minute);
    JoinPairs(PadStart2(NatToString(t.hour)), PadStart2(NatToString(t.minute)));
  }

  lemma JoinPairs(h: string, m: string)
    requires |h| == 2 && |m| == 2
    ensures h + ":" + m == [h[0], h[1], ':', m[0], m[1]]
  {
  }
}
