/**
 Text the time converter renders, typed back into the same field.

 The application formats with `%#I:%M %p` (`%-I:%M %p` off Windows), so a
 value comes back as e.g. `1:30 PM`. Parsing that text yields the hour,
 minute and meridiem it shows; resolving them reproduces the hour of the
 day and the minute for every hour except 0 and 12. At those two hours the
 literal-hour candidate (hour 12 is noon) plus the twelve hours for `PM`
 put the result in the other half of the day.
 */
module RoundTrip {

  import opened Wrappers
  import opened Text
  import opened Clock
  import opened TimePattern
  import opened Strftime
  import opened Converters

  /** A one-digit hour cannot start a string whose second character is a
      digit followed by a colon. */
  lemma OneDigitHourFails(s: string, sp: Split)
    requires |s| >= 3 && IsDigit(s[1]) && s[2] == ':'
    ensures ValidSplit(s, sp) ==> sp.hourLen == 2
  {
  }

  /** The rendered clock text matches the time pattern with its hour,
      minute and meridiem as the three groups. */
  lemma ClockTextMatches(t: DateTime)
    ensures Match(ClockText(t)) == Some(Groups(Unpadded(Hour12(t)), Some(Padded2(t.minute)), Some(AmPm(t))))
  {
    var ht, mt, pt := Unpadded(Hour12(t)), Padded2(t.minute), AmPm(t);
    var s := ClockText(t);
    var n := |ht|;
    assert s == ht + ":" + mt + " " + pt;
    assert s[..n] == ht;
    assert s[n] == ':' && s[n + 3] == ' ';
    assert s[n + 1..n + 3] == mt;
    assert s[n + 4..n + 6] == pt;
    var sp := Split(n, true, 2, 1, 2);
    assert ValidSplit(s, sp);
    MatchSplitFirst(s, sp);
    MatchSplitSound(s);
    var r := MatchSplit(s).value;
    if n == 2 {
      OneDigitHourFails(s, r);
    }
    assert r.hourLen == sp.hourLen && r.minuteLen == sp.minuteLen;
    SplitDeterminedByLengths(s, r, sp);
  }

  lemma AppFormatOffWindows()
    ensures ReplaceHash(AppFormat) == "%-I:%M %p"
  {
    var r := ReplaceHash(AppFormat);
    assert forall i :: 0 <= i < |r| ==> r[i] == "%-I:%M %p"[i];
  }

  /** Both spellings of the application's format, after the constructor's
      platform substitution, render the clock text. */
  lemma AppConverterRendersClock(t: DateTime, onWindows: bool)
    ensures ToString(NewTimeConverter(AppFormat, onWindows), t) == ClockText(t)
  {
    FormatClock(t);
    AppFormatOffWindows();
  }

  /** Typed into any time converter, the clock text of `t` resolves
      through the meridiem branch with the 12-hour reading of `t` as the
      typed hour. */
  lemma ClockTextReadsBack(c: TimeConverter, t: DateTime, now: DateTime)
    ensures ToValue(c, ClockText(t), now)
              == Conversion(Some(RollMeridiem(ReplaceTime(now, Hour12(t), t.minute), IsPm(t), now)), c.(error := None))
  {
    var s := ClockText(t);
    ClockTextMatches(t);
    var g := Groups(Unpadded(Hour12(t)), Some(Padded2(t.minute)), Some(AmPm(t)));
    assert Match(s) == Some(g);
    assert HourValue(g) == Hour12(t) && MinuteValue(g) == t.minute;
    assert IsAfternoon(AmPm(t)) == IsPm(t);
    var v := RollMeridiem(ReplaceTime(now, Hour12(t), t.minute), IsPm(t), now);
    assert Resolve(g, now) == Resolved(v);
    assert s != "";
  }

  /** The application's converter reads its own rendering of `t` back
      through the meridiem branch. */
  lemma ClockTextResolves(t: DateTime, now: DateTime, onWindows: bool)
    ensures var c := NewTimeConverter(AppFormat, onWindows);
            ToValue(c, ToString(c, t), now)
              == Conversion(Some(RollMeridiem(ReplaceTime(now, Hour12(t), t.minute), IsPm(t), now)), c)
  {
    var c := NewTimeConverter(AppFormat, onWindows);
    AppConverterRendersClock(t, onWindows);
    ClockTextReadsBack(c, t, now);
  }

  /** The meridiem branch fed with the 12-hour reading of `t` lands on
      the hour of `t`, except at hours 0 and 12, where it lands twelve
      hours round the dial. */
  lemma ReadingResolvesToHour(t: DateTime, now: DateTime)
    ensures var v := RollMeridiem(ReplaceTime(now, Hour12(t), t.minute), IsPm(t), now);
            && v.minute == t.minute
            && (t.hour % 12 != 0 ==> v.hour == t.hour)
            && (t.hour % 12 == 0 ==> v.hour == (t.hour + 12) % 24)
  {
    MeridiemResolution(now, Hour12(t), t.minute, IsPm(t));
    var v := RollMeridiem(ReplaceTime(now, Hour12(t), t.minute), IsPm(t), now);
    HourFromReading(v);
    HourFromReading(t);
  }

  /** Rendering a value and typing the text back gives a value at the same
      minute; at the same hour of the day unless that hour is 0 or 12, and
      twelve hours round the dial from it when it is. */
  lemma ToStringToValue(t: DateTime, now: DateTime, onWindows: bool)
    ensures var c := NewTimeConverter(AppFormat, onWindows);
            var r := ToValue(c, ToString(c, t), now);
            && r.value.Some? && r.converter.error == None
            && r.value.value.minute == t.minute
            && (t.hour % 12 != 0 ==> r.value.value.hour == t.hour)
            && (t.hour % 12 == 0 ==> r.value.value.hour == (t.hour + 12) % 24)
  {
    ClockTextResolves(t, now, onWindows);
    ReadingResolvesToHour(t, now);
  }

  /** A value less than a day ahead of `now`, whose hour of the day is
      neither 0 nor 12, comes back exactly. */
  lemma ToStringToValueExact(t: DateTime, now: DateTime, onWindows: bool)
    requires OnTheMinute(t) && Micros(now) <= Micros(t) < Micros(now) + MicrosPerDay
    requires t.hour % 12 != 0
    ensures var c := NewTimeConverter(AppFormat, onWindows);
            ToValue(c, ToString(c, t), now).value == Some(t)
  {
    var c := NewTimeConverter(AppFormat, onWindows);
    ToStringToValue(t, now, onWindows);
    ClockTextResolves(t, now, onWindows);
    var h, m := Hour12(t), t.minute;
    MeridiemResolution(now, h, m, IsPm(t));
    var r := ToValue(c, ToString(c, t), now).value.value;
    var cand := ReplaceTime(now, h, m);
    var first := if IsPm(t) then AddHalfDay(cand) else cand;
    WithinDay(now);
    assert Micros(first) < now.day * MicrosPerDay + MicrosPerDay;
    assert Micros(r) < Micros(now) + MicrosPerDay;
    SameClockWithinADay(r, t);
  }
}
