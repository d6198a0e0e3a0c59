/**
 The resolution the time converter evidently intends: `h am`/`h pm` on a
 12-hour clock, where 12 am is midnight and 12 pm is noon. It differs from
 `Converters.Resolve` in one place: the candidate is built at `hour % 12`
 instead of the literal hour. Parsing, range checks, messages and the
 rollover are shared.
 */
module IntendedHour {

  import opened Wrappers
  import opened Clock
  import opened TimePattern
  import opened Strftime
  import opened Converters
  import RoundTrip

  /** The candidate at `hour % 12` lies within today. */
  lemma IntendedCandidateBounds(now: DateTime, hour: int, minute: int)
    requires 1 <= hour <= 12 && 0 <= minute <= 59
    ensures var c := ReplaceTime(now, hour % 12, minute);
            && Micros(now) - MicrosPerDay < Micros(c) < Micros(now) + HalfDay
            && Micros(c) < now.day * MicrosPerDay + HalfDay
            && now.day * MicrosPerDay <= Micros(c)
  {
    WithinDay(now);
  }

  /** With a meridiem, the candidate at `hour % 12` lands in the typed half
      of the day, less than a day ahead of `now`. */
  lemma IntendedMeridiem(now: DateTime, hour: int, minute: int, afternoon: bool)
    requires 1 <= hour <= 12 && 0 <= minute <= 59
    ensures var c := ReplaceTime(now, hour % 12, minute);
            var t := if afternoon then AddHalfDay(c) else c;
            var r := RollMeridiem(c, afternoon, now);
            && (r == t || r == AddDay(t))
            && (r == t <==> !Before(t, now))
            && Micros(now) <= Micros(r) < Micros(now) + MicrosPerDay
            && OnTheMinute(r) && r.minute == minute
            && r.hour == hour % 12 + (if afternoon then 12 else 0)
            && Hour12(r) == hour && (IsPm(r) <==> afternoon)
  {
    IntendedCandidateBounds(now, hour, minute);
    WithinDay(now);
  }

  /** Without a meridiem, the first of the candidate, twelve hours later
      and a day later that is not before `now`; it is less than twelve
      hours ahead and shows the typed hour and minute on a 12-hour clock. */
  lemma IntendedBare(now: DateTime, hour: int, minute: int)
    requires 1 <= hour <= 12 && 0 <= minute <= 59
    ensures var c := ReplaceTime(now, hour % 12, minute);
            var r := RollHalfDays(c, now, 2);
            && (r == c || r == AddHalfDay(c) || r == AddHalfDay(AddHalfDay(c)))
            && !Before(r, now) && Micros(r) < Micros(now) + HalfDay
            && OnTheMinute(r) && Hour12(r) == hour && r.minute == minute
  {
    var c := ReplaceTime(now, hour % 12, minute);
    IntendedCandidateBounds(now, hour, minute);
    RollTwice(c, now);
  }

  /** `Converters.Resolve` with the candidate at `hour % 12`. */
  function ResolveIntended(g: Groups, now: DateTime): (r: Resolution)
    requires WellFormed(g)
    ensures r.Rejected? <==> Resolve(g, now).Rejected?
    ensures r.Rejected? ==> r == Resolve(g, now)
    ensures r.Resolved? ==> Micros(now) <= Micros(r.time) < Micros(now) + MicrosPerDay
    ensures r.Resolved? && g.p.None? ==> Micros(r.time) < Micros(now) + HalfDay
    ensures r.Resolved? ==> OnTheMinute(r.time)
    ensures r.Resolved? ==> Hour12(r.time) == HourValue(g) && r.time.minute == MinuteValue(g)
    ensures r.Resolved? && g.p.Some? ==> (IsPm(r.time) <==> IsAfternoon(g.p.value))
  {
    var hour := HourValue(g);
    if hour < 1 || hour > 12 then Rejected(HourRangeMessage)
    else
      var minute := MinuteValue(g);
      if minute < 0 || minute > 59 then Rejected(MinuteRangeMessage)
      else
        var candidate := ReplaceTime(now, hour % 12, minute);
        if g.p.None? then
          IntendedBare(now, hour, minute);
          Resolved(RollHalfDays(candidate, now, 2))
        else
          IntendedMeridiem(now, hour, minute, IsAfternoon(g.p.value));
          Resolved(RollMeridiem(candidate, IsAfternoon(g.p.value), now))
  }

  /** The correction touches hour 12 only: every other typed hour resolves
      exactly as the code does. */
  lemma IntendedAgreesOffTwelve(g: Groups, now: DateTime)
    requires WellFormed(g) && HourValue(g) != 12
    ensures ResolveIntended(g, now) == Resolve(g, now)
  {
  }

  /** `to_value` with the intended resolution. */
  function ToValueIntended(c: TimeConverter, s: string, now: DateTime): (r: Conversion)
    ensures s == "" ==> r == ToValue(c, s, now)
    ensures Match(s).None? ==> r == ToValue(c, s, now)
    ensures r.converter == ToValue(c, s, now).converter
    ensures r.value.Some? <==> ToValue(c, s, now).value.Some?
    ensures r.value.Some? && Match(s).Some? && Match(s).value.p.Some? ==>
              (IsPm(r.value.value) <==> IsAfternoon(Match(s).value.p.value))
    ensures r.value.Some? ==>
              && Match(s).Some?
              && Hour12(r.value.value) == HourValue(Match(s).value)
              && r.value.value.minute == MinuteValue(Match(s).value)
              && Micros(now) <= Micros(r.value.value) < Micros(now) + MicrosPerDay
              && OnTheMinute(r.value.value)
  {
    if s == "" then
      Conversion(None, c.(failure := Some("")))
    else
      var c := c.(error := None);
      match Match(s)
      case None => Conversion(None, c.(error := Some(UnparseableMessage)))
      case Some(g) =>
        match ResolveIntended(g, now)
        case Rejected(message) => Conversion(None, c.(error := Some(message)))
        case Resolved(t) => Conversion(Some(t), c)
  }

  /** The groups the rendered text of `t` matches with. */
  lemma RenderedGroups(t: DateTime, onWindows: bool) returns (g: Groups)
    ensures Match(ToString(NewTimeConverter(AppFormat, onWindows), t)) == Some(g)
    ensures WellFormed(g) && g.p.Some?
    ensures HourValue(g) == Hour12(t) && MinuteValue(g) == t.minute
    ensures IsAfternoon(g.p.value) == IsPm(t)
  {
    RoundTrip.AppConverterRendersClock(t, onWindows);
    RoundTrip.ClockTextMatches(t);
    g := Groups(Unpadded(Hour12(t)), Some(Padded2(t.minute)), Some(AmPm(t)));
  }

  /** With the intended resolution every rendered value types back to its
      own hour of the day and minute, hours 0 and 12 included, and exactly
      to itself when it lies less than a day ahead of `now`. */
  lemma ToStringToValueIntended(t: DateTime, now: DateTime, onWindows: bool)
    ensures var c := NewTimeConverter(AppFormat, onWindows);
            var r := ToValueIntended(c, ToString(c, t), now);
            && r.value.Some? && r.converter.error == None
            && r.value.value.hour == t.hour
            && r.value.value.minute == t.minute
            && (OnTheMinute(t) && Micros(now) <= Micros(t) < Micros(now) + MicrosPerDay ==> r.value == Some(t))
  {
    var c := NewTimeConverter(AppFormat, onWindows);
    var s := ToString(c, t);
    var g := RenderedGroups(t, onWindows);
    var h, m := Hour12(t), t.minute;
    IntendedMeridiem(now, h, m, IsPm(t));
    var v := RollMeridiem(ReplaceTime(now, h % 12, m), IsPm(t), now);
    assert ResolveIntended(g, now) == Resolved(v);
    assert s != "" by {
      RoundTrip.AppConverterRendersClock(t, onWindows);
    }
    assert ToValueIntended(c, s, now) == Conversion(Some(v), c);
    HourFromReading(t);
    if OnTheMinute(t) && Micros(now) <= Micros(t) < Micros(now) + MicrosPerDay {
      SameClockWithinADay(v, t);
    }
  }
}
