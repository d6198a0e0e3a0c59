/**
 The converters an entry field uses to turn its text into a value and a
 value back into text. A converter object carries an `error` attribute
 that `to_value` overwrites as a side effect; here `to_value` returns the
 value together with the converter's attributes afterwards, and the
 current time `now` is a parameter instead of a call to the clock.
 */
module Converters {

  import opened Wrappers
  import opened Text
  import opened Clock
  import opened TimePattern
  import Strftime

  const HourRangeMessage: string := "Hour must be 1-12"
  const MinuteRangeMessage: string := "Minute must be 0-59"
  const UnparseableMessage: string := "Could not parse as time"

  /** `StringConverter.to_value`: the text with surrounding whitespace
      removed. It never sets `error`, which keeps its initial `None`. */
  function StringToValue(s: string): (r: string)
    ensures r == Strip(s)
  {
    Strip(s)
  }

  /** `StringConverter.to_string`: the value stripped as well, so its text
      is a fixed point of `to_value`. */
  function StringToString(v: string): (r: string)
    ensures r == Strip(v)
    ensures StringToValue(r) == r
  {
    StripIdempotent(v);
    Strip(v)
  }

  /** Text rendered by the string converter reads back as the same text. */
  lemma StringRoundTrip(v: string)
    ensures StringToValue(StringToString(v)) == StringToString(v)
  {
    StripIdempotent(v);
  }

  /** A value read from text renders back as the same text. */
  lemma StringRoundTripBack(s: string)
    ensures StringToString(StringToValue(s)) == StringToValue(s)
  {
    StripIdempotent(s);
  }

  /** The attributes of a `TimeToNextDatetimeConverter`. `failure` is
      `None` while that attribute has never been assigned. */
  datatype TimeConverter = TimeConverter(format: string, error: Option<string>, failure: Option<string>)

  /** What `to_value` returned, and the converter's attributes after the call. */
  datatype Conversion = Conversion(value: Option<DateTime>, converter: TimeConverter)

  /** Every `#` of a format replaced by `-`. */
  function ReplaceHash(fmt: string): (r: string)
    ensures |r| == |fmt|
    ensures forall i :: 0 <= i < |fmt| ==> r[i] == (if fmt[i] == '#' then '-' else fmt[i])
  {
    if |fmt| == 0 then "" else [if fmt[0] == '#' then '-' else fmt[0]] + ReplaceHash(fmt[1..])
  }

  /** The constructor: off Windows the Windows-only `#` flag of the format
      becomes the glibc `-` flag; the error starts out `None`. */
  function NewTimeConverter(fmt: string, onWindows: bool): (c: TimeConverter)
    ensures c.error == None && c.failure == None
    ensures onWindows ==> c.format == fmt
    ensures !onWindows ==> '#' !in c.format && |c.format| == |fmt|
    ensures !onWindows ==> forall i :: 0 <= i < |fmt| && fmt[i] == '#' ==> c.format[i] == '-'
    ensures forall i :: 0 <= i < |fmt| && fmt[i] != '#' ==> c.format[i] == fmt[i]
  {
    TimeConverter(if onWindows then fmt else ReplaceHash(fmt), None, None)
  }

  /** The format the application builds its time converters with. */
  const AppFormat: string := "%#I:%M %p"

  /** `to_string`: the value rendered with the converter's format. With
      the application's format, on either platform, that is the 12-hour
      clock text. */
  function ToString(c: TimeConverter, t: DateTime): (r: string)
    ensures c.format == "%-I:%M %p" || c.format == "%#I:%M %p" ==> r == Strftime.ClockText(t)
  {
    Strftime.FormatClock(t);
    Strftime.Format(c.format, t)
  }

  /** The no-meridiem loop `for _ in range(2)`: each pass moves `t` on by
      twelve hours while it is before `now`. The result is the first of
      `t`, `t + 12h`, ..., `t + steps * 12h` that is not before `now`, or
      the last of them; it shows the same 12-hour clock reading as `t`. */
  function RollHalfDays(t: DateTime, now: DateTime, steps: nat): (r: DateTime)
    ensures Micros(t) <= Micros(r) <= Micros(t) + steps * HalfDay
    ensures !Before(r, now) || Micros(r) == Micros(t) + steps * HalfDay
    ensures r == t || Micros(r) - HalfDay < Micros(now)
    ensures r.hour % 12 == t.hour % 12 && r.minute == t.minute
    ensures OnTheMinute(r) == OnTheMinute(t)
    ensures r.second == t.second && r.micro == t.micro
    decreases steps
  {
    if steps == 0 then t
    else RollHalfDays(if Before(t, now) then AddHalfDay(t) else t, now, steps - 1)
  }

  /** The meridiem branch: twelve hours on for `p`/`pm`, then one day on
      if that is still before `now`. */
  function RollMeridiem(candidate: DateTime, afternoon: bool, now: DateTime): (r: DateTime)
    ensures var shifted := Micros(candidate) + (if afternoon then HalfDay else 0);
            && (Micros(r) == shifted || Micros(r) == shifted + MicrosPerDay)
            && (Micros(r) == shifted <==> Micros(now) <= shifted)
    ensures r.hour % 12 == candidate.hour % 12 && r.minute == candidate.minute
    ensures OnTheMinute(r) == OnTheMinute(candidate)
    ensures IsPm(r) <==> (IsPm(candidate) != afternoon)
  {
    var t := if afternoon then AddHalfDay(candidate) else candidate;
    if Before(t, now) then AddDay(t) else t
  }

  datatype Resolution = Resolved(time: DateTime) | Rejected(message: string)

  /** The resolution steps of `to_value` once the pattern has matched: the
      range checks, in order, and then the next time at or after `now` that
      shows the typed hour and minute. */
  function Resolve(g: Groups, now: DateTime): (r: Resolution)
    requires WellFormed(g)
    ensures r.Rejected? <==> !(1 <= HourValue(g) <= 12) || MinuteValue(g) > 59
    ensures r.Rejected? ==> (r.message == HourRangeMessage <==> !(1 <= HourValue(g) <= 12))
    ensures r.Rejected? ==> r.message == HourRangeMessage || r.message == MinuteRangeMessage
    ensures r.Resolved? ==> Micros(now) <= Micros(r.time) < Micros(now) + MicrosPerDay + MicrosPerHour
    ensures r.Resolved? ==> OnTheMinute(r.time)
    ensures r.Resolved? ==> Hour12(r.time) == HourValue(g) && r.time.minute == MinuteValue(g)
    ensures r.Resolved? && g.p.None? ==> Micros(r.time) < Micros(now) + HalfDay + MicrosPerHour
    ensures r.Resolved? && g.p.Some? ==> (IsPm(r.time) <==> (IsAfternoon(g.p.value) != (HourValue(g) == 12)))
  {
    var hour := HourValue(g);
    if hour < 1 || hour > 12 then Rejected(HourRangeMessage)
    else
      var minute := MinuteValue(g);
      if minute < 0 || minute > 59 then Rejected(MinuteRangeMessage)
      else
        var candidate := ReplaceTime(now, hour, minute);
        if g.p.None? then
          BareResolution(now, hour, minute);
          Resolved(RollHalfDays(candidate, now, 2))
        else
          MeridiemResolution(now, hour, minute, IsAfternoon(g.p.value));
          Resolved(RollMeridiem(candidate, IsAfternoon(g.p.value), now))
  }

  /** The candidate `now.replace(...)` at the typed hour, read literally,
      lies between the start of today plus one hour and the end of today. */
  lemma CandidateBounds(now: DateTime, hour: int, minute: int)
    requires 1 <= hour <= 12 && 0 <= minute <= 59
    ensures var c := ReplaceTime(now, hour, minute);
            && Micros(now) - MicrosPerDay + MicrosPerHour < Micros(c)
            && Micros(c) < Micros(now) + HalfDay + MicrosPerHour
  {
    WithinDay(now);
  }

  /** Two passes of the loop: on by twelve hours while before `now`, twice. */
  lemma RollTwice(t: DateTime, now: DateTime)
    ensures var t1 := if Before(t, now) then AddHalfDay(t) else t;
            RollHalfDays(t, now, 2) == if Before(t1, now) then AddHalfDay(t1) else t1
  {
    var t1 := if Before(t, now) then AddHalfDay(t) else t;
    var t2 := if Before(t1, now) then AddHalfDay(t1) else t1;
    assert RollHalfDays(t1, now, 1) == RollHalfDays(t2, now, 0) == t2;
  }

  /** With no meridiem the result is the first of the candidate, twelve
      hours later, and a day later that is not before `now`; it is less
      than thirteen hours ahead and shows the typed hour and minute on a
      12-hour clock. */
  lemma BareResolution(now: DateTime, hour: int, minute: int)
    requires 1 <= hour <= 12 && 0 <= minute <= 59
    ensures var c := ReplaceTime(now, hour, minute);
            var r := RollHalfDays(c, now, 2);
            && (r == c || r == AddHalfDay(c) || r == AddHalfDay(AddHalfDay(c)))
            && !Before(r, now)
            && (r == c || Micros(r) - HalfDay < Micros(now))
            && Micros(r) < Micros(now) + HalfDay + MicrosPerHour
            && OnTheMinute(r) && Hour12(r) == hour && r.minute == minute
  {
    var c := ReplaceTime(now, hour, minute);
    CandidateBounds(now, hour, minute);
    RollTwice(c, now);
  }

  /** With a meridiem the result is the candidate, twelve hours on for the
      afternoon, and one more day on exactly when that is before `now`. It
      shows the typed hour and minute, and its half of the day is the typed
      one except at hour 12, where it is the other one. */
  lemma MeridiemResolution(now: DateTime, hour: int, minute: int, afternoon: bool)
    requires 1 <= hour <= 12 && 0 <= minute <= 59
    ensures var c := ReplaceTime(now, hour, minute);
            var t := if afternoon then AddHalfDay(c) else c;
            var r := RollMeridiem(c, afternoon, now);
            && (r == t || r == AddDay(t))
            && (r == t <==> !Before(t, now))
            && Micros(now) <= Micros(r) < Micros(now) + MicrosPerDay + MicrosPerHour
            && OnTheMinute(r) && Hour12(r) == hour && r.minute == minute
            && (IsPm(r) <==> (afternoon != (hour == 12)))
  {
    CandidateBounds(now, hour, minute);
  }

  /** `TimeToNextDatetimeConverter.to_value`. Empty text records a failure
      and leaves `error` as it was; otherwise `error` is cleared and then
      set to the message of the first check that fails, and a value comes
      back exactly when no check failed. */
  function ToValue(c: TimeConverter, s: string, now: DateTime): (r: Conversion)
    ensures r.converter.format == c.format
    ensures s == "" ==> r.value == None && r.converter.error == c.error && r.converter.failure == Some("")
    ensures s != "" ==> r.converter.failure == c.failure
    ensures s != "" ==> (r.value.Some? <==> r.converter.error == None)
    ensures s != "" ==> (r.converter.error == Some(UnparseableMessage) <==> Match(s).None?)
    ensures s != "" && Match(s).Some? ==>
              (r.converter.error == Some(HourRangeMessage) <==> !(1 <= HourValue(Match(s).value) <= 12))
    ensures s != "" && Match(s).Some? ==>
              (r.value.None? <==> !(1 <= HourValue(Match(s).value) <= 12) || MinuteValue(Match(s).value) > 59)
    ensures s != "" && Match(s).Some? && 1 <= HourValue(Match(s).value) <= 12 ==>
              (r.converter.error == Some(MinuteRangeMessage) <==> MinuteValue(Match(s).value) > 59)
    ensures r.value.Some? && Match(s).value.p.Some? ==>
              (IsPm(r.value.value) <==> (IsAfternoon(Match(s).value.p.value) != (HourValue(Match(s).value) == 12)))
    ensures r.value.Some? ==>
              && Match(s).Some?
              && Hour12(r.value.value) == HourValue(Match(s).value)
              && r.value.value.minute == MinuteValue(Match(s).value)
              && Micros(now) <= Micros(r.value.value) < Micros(now) + MicrosPerDay + MicrosPerHour
              && OnTheMinute(r.value.value)
  {
    if s == "" then
      Conversion(None, c.(failure := Some("")))
    else
      var c := c.(error := None);
      match Match(s)
      case None => Conversion(None, c.(error := Some(UnparseableMessage)))
      case Some(g) =>
        match Resolve(g, now)
        case Rejected(message) => Conversion(None, c.(error := Some(message)))
        case Resolved(t) => Conversion(Some(t), c)
  }
}
