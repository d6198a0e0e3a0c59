/**
 Concrete inputs that pin down how the time converter reads text: the lazy
 one-digit hour, the defaulted minute, the order of the range checks, the
 `$` that accepts a final newline, the empty field, and hour 12 with a
 meridiem.
 */
module Quirks {

  import opened Wrappers
  import opened Text
  import opened Clock
  import opened TimePattern
  import opened Converters

  /** `"130"` is 1:30: the hour takes one digit because the rest then fits. */
  lemma OneThirty()
    ensures Match("130") == Some(Groups("1", Some("30"), None))
  {
    var s := "130";
    assert SpaceRun(s, 3) == 0;
    assert MatchSuffix(s, 3) == Some(Tail(0, 0));
    assert MatchMinute(s, 1) == Some(Rest(2, Tail(0, 0)));
    assert MatchColon(s, 1) == Some(Split(1, false, 2, 0, 0));
    assert MatchSplit(s) == Some(Split(1, false, 2, 0, 0));
    assert s[..1] == "1" && s[1..3] == "30";
  }

  /** Any two digits alone read as a one-digit hour and a one-digit
      minute: the lazy hour stops after one digit. */
  lemma TwoDigitsSplitAfterOne(s: string)
    requires |s| == 2 && IsDigit(s[0]) && IsDigit(s[1])
    ensures Match(s) == Some(Groups(s[..1], Some(s[1..]), None))
  {
    assert SpaceRun(s, 2) == 0;
    assert MatchSuffix(s, 2) == Some(Tail(0, 0));
    assert MatchMinute(s, 1) == Some(Rest(1, Tail(0, 0)));
    assert MatchColon(s, 1) == Some(Split(1, false, 1, 0, 0));
    assert MatchSplit(s) == Some(Split(1, false, 1, 0, 0));
    assert s[1..2] == s[1..];
  }

  /** `"12"` is 1:02 and `"13"` is 1:03, not 12:00 and a rejected 13. */
  lemma TwelveAndThirteenReadAsOneOh(c: TimeConverter, now: DateTime)
    ensures var r := ToValue(c, "12", now).value;
            r.Some? && Hour12(r.value) == 1 && r.value.minute == 2
    ensures var r := ToValue(c, "13", now).value;
            r.Some? && Hour12(r.value) == 1 && r.value.minute == 3
  {
    TwoDigitsSplitAfterOne("12");
    assert "12"[..1] == "1" && "12"[1..] == "2";
    TwoDigitsSplitAfterOne("13");
    assert "13"[..1] == "1" && "13"[1..] == "3";
    assert DecimalValue("1") == 1 && DecimalValue("2") == 2 && DecimalValue("3") == 3;
  }

  /** `"1230"` is 12:30: no cut with a one-digit hour fits four digits. */
  lemma TwelveThirty()
    ensures Match("1230") == Some(Groups("12", Some("30"), None))
  {
    var s := "1230";
    assert SpaceRun(s, 1) == 0 && SpaceRun(s, 2) == 0;
    assert SpaceRun(s, 3) == 0 && SpaceRun(s, 4) == 0;
    assert MatchSuffix(s, 1) == None && MatchSuffix(s, 2) == None && MatchSuffix(s, 3) == None;
    assert MatchMinute(s, 1) == None;
    assert MatchColon(s, 1) == None;
    assert MatchSuffix(s, 4) == Some(Tail(0, 0));
    assert MatchMinute(s, 2) == Some(Rest(2, Tail(0, 0)));
    assert MatchColon(s, 2) == Some(Split(2, false, 2, 0, 0));
    assert MatchSplit(s) == Some(Split(2, false, 2, 0, 0));
    assert s[..2] == "12" && s[2..4] == "30";
  }

  /** Text starting with two digits and a colon leaves nothing a one-digit
      hour can be followed by. */
  lemma NoOneDigitHour(s: string)
    requires |s| >= 3 && IsDigit(s[0]) && IsDigit(s[1]) && s[2] == ':'
    ensures MatchColon(s, 1) == None
  {
    assert SpaceRun(s, 1) == 0 && SpaceRun(s, 2) == 0;
    assert MatchSuffix(s, 1) == None && MatchSuffix(s, 2) == None;
    assert MatchMinute(s, 1) == None;
  }

  /** `"13:00"` matches with hour 13: a one-digit hour leaves `3:00`,
      which no minute and suffix fit. */
  lemma ThirteenMatches()
    ensures Match("13:00") == Some(Groups("13", Some("00"), None))
  {
    var s := "13:00";
    NoOneDigitHour(s);
    assert SpaceRun(s, 5) == 0;
    assert MatchSuffix(s, 5) == Some(Tail(0, 0));
    assert MatchMinute(s, 3) == Some(Rest(2, Tail(0, 0)));
    assert MatchColon(s, 2) == Some(Split(2, true, 2, 0, 0));
    assert MatchSplit(s) == Some(Split(2, true, 2, 0, 0));
    assert s[..2] == "13" && s[3..5] == "00";
  }

  /** Hour 13 is rejected by the hour check, before the minute is looked at. */
  lemma ThirteenRejected(c: TimeConverter, now: DateTime)
    ensures ToValue(c, "13:00", now) == Conversion(None, c.(error := Some(HourRangeMessage)))
  {
    ThirteenMatches();
    assert DecimalValue("13") == 13;
  }

  /** `"0"` matches and fails the hour check. */
  lemma ZeroHourRejected(c: TimeConverter, now: DateTime)
    ensures ToValue(c, "0", now) == Conversion(None, c.(error := Some(HourRangeMessage)))
  {
    var s := "0";
    assert SpaceRun(s, 1) == 0;
    assert MatchSuffix(s, 1) == Some(Tail(0, 0));
    assert MatchMinute(s, 1) == Some(Rest(0, Tail(0, 0)));
    assert MatchSplit(s) == Some(Split(1, false, 0, 0, 0));
    assert s[..1] == "0";
  }

  /** `"1:60"` and `"160"` both read as hour 1, minute 60, and fail the
      minute check. */
  lemma MinuteSixtyRejected(c: TimeConverter, now: DateTime)
    ensures ToValue(c, "1:60", now) == Conversion(None, c.(error := Some(MinuteRangeMessage)))
    ensures ToValue(c, "160", now) == Conversion(None, c.(error := Some(MinuteRangeMessage)))
  {
    var s := "1:60";
    assert SpaceRun(s, 4) == 0;
    assert MatchSuffix(s, 4) == Some(Tail(0, 0));
    assert MatchMinute(s, 2) == Some(Rest(2, Tail(0, 0)));
    assert MatchSplit(s) == Some(Split(1, true, 2, 0, 0));
    assert s[..1] == "1" && s[2..4] == "60";
    var u := "160";
    assert SpaceRun(u, 3) == 0;
    assert MatchSuffix(u, 3) == Some(Tail(0, 0));
    assert MatchMinute(u, 1) == Some(Rest(2, Tail(0, 0)));
    assert MatchSplit(u) == Some(Split(1, false, 2, 0, 0));
    assert u[..1] == "1" && u[1..3] == "60";
    assert DecimalValue("1") == 1 && DecimalValue("60") == 60;
  }

  /** `"5 a"`: whitespace before a one-letter meridiem, no minute. */
  lemma FiveA(c: TimeConverter, now: DateTime)
    ensures Match("5 a") == Some(Groups("5", None, Some("a")))
    ensures var r := ToValue(c, "5 a", now).value;
            r.Some? && r.value.hour == 5 && r.value.minute == 0
  {
    var s := "5 a";
    assert SpaceRun(s, 2) == 0;
    assert SpaceRun(s, 1) == 1;
    assert MatchSuffix(s, 1) == Some(Tail(1, 1));
    assert MatchMinute(s, 1) == Some(Rest(0, Tail(1, 1)));
    assert MatchSplit(s) == Some(Split(1, false, 0, 1, 1));
    assert s[..1] == "5" && s[2..3] == "a";
    assert DecimalValue("5") == 5;
    MeridiemResolution(now, 5, 0, false);
  }

  /** `$` also matches just before a final newline, so `"1:30\n"` is 1:30. */
  lemma TrailingNewline()
    ensures Match("1:30\n") == Some(Groups("1", Some("30"), None))
  {
    var s := "1:30\n";
    assert SpaceRun(s, 5) == 0;
    assert SpaceRun(s, 4) == 1;
    assert MatchSuffix(s, 4) == Some(Tail(0, 0));
    assert MatchMinute(s, 2) == Some(Rest(2, Tail(0, 0)));
    assert MatchSplit(s) == Some(Split(1, true, 2, 0, 0));
    assert s[..1] == "1" && s[2..4] == "30";
  }

  /** Text that does not fit the pattern is reported as such. */
  lemma NotATime(c: TimeConverter, now: DateTime)
    ensures ToValue(c, "noon", now) == Conversion(None, c.(error := Some(UnparseableMessage)))
  {
    assert MatchSplit("noon") == None;
  }

  /** Clearing the field after a failure leaves the failure's message in
      `error`: the empty branch assigns `failure` instead. */
  lemma ClearedFieldKeepsStaleError(c: TimeConverter, now: DateTime)
    ensures var failed := ToValue(c, "13:00", now).converter;
            var cleared := ToValue(failed, "", now);
            cleared.value == None && cleared.converter.error == Some(HourRangeMessage)
  {
    ThirteenRejected(c, now);
  }

  /** Two digits and a two-letter meridiem read as a one-digit hour, a
      one-digit minute and the meridiem. */
  lemma TwoDigitsMeridiemSplitAfterOne(s: string)
    requires |s| == 4 && IsDigit(s[0]) && IsDigit(s[1]) && IsMeridiemLetter(s[2]) && IsM(s[3])
    ensures Match(s) == Some(Groups(s[..1], Some(s[1..2]), Some(s[2..])))
  {
    assert SpaceRun(s, 2) == 0;
    assert MatchSuffix(s, 2) == Some(Tail(0, 2));
    assert MatchMinute(s, 1) == Some(Rest(1, Tail(0, 2)));
    assert MatchColon(s, 1) == Some(Split(1, false, 1, 0, 2));
    assert MatchSplit(s) == Some(Split(1, false, 1, 0, 2));
    assert s[2..4] == s[2..];
  }

  /** `"12am"` and `"12pm"` are 1:02 with a meridiem: the lazy hour again. */
  lemma TwelveAmIsOneOhTwo()
    ensures Match("12am") == Some(Groups("1", Some("2"), Some("am")))
    ensures Match("12pm") == Some(Groups("1", Some("2"), Some("pm")))
  {
    TwoDigitsMeridiemSplitAfterOne("12am");
    assert "12am"[..1] == "1" && "12am"[1..2] == "2" && "12am"[2..] == "am";
    TwoDigitsMeridiemSplitAfterOne("12pm");
    assert "12pm"[..1] == "1" && "12pm"[1..2] == "2" && "12pm"[2..] == "pm";
  }

  /** `"12:00am"` and `"12:00pm"` match with hour 12, minute 00. */
  lemma TwelveWithMinuteMatches()
    ensures Match("12:00am") == Some(Groups("12", Some("00"), Some("am")))
    ensures Match("12:00pm") == Some(Groups("12", Some("00"), Some("pm")))
  {
    TwelveWithMinuteMatchesAt("12:00am");
    TwelveWithMinuteMatchesAt("12:00pm");
  }

  lemma TwelveWithMinuteMatchesAt(s: string)
    requires s == "12:00am" || s == "12:00pm"
    ensures Match(s) == Some(Groups("12", Some("00"), Some(s[5..])))
  {
    NoOneDigitHour(s);
    assert SpaceRun(s, 5) == 0;
    assert MatchSuffix(s, 5) == Some(Tail(0, 2));
    assert MatchMinute(s, 3) == Some(Rest(2, Tail(0, 2)));
    assert MatchColon(s, 2) == Some(Split(2, true, 2, 0, 2));
    assert MatchSplit(s) == Some(Split(2, true, 2, 0, 2));
    assert s[..2] == "12" && s[3..5] == "00" && s[5..7] == s[5..];
  }

  /** A colon after `12` is enough for the two-digit hour: `12:am` and
      `12:` read as hour 12 with no minute. */
  lemma TwelveColonMatches()
    ensures Match("12:am") == Some(Groups("12", None, Some("am")))
    ensures Match("12:") == Some(Groups("12", None, None))
  {
    var s := "12:am";
    NoOneDigitHour(s);
    assert SpaceRun(s, 3) == 0;
    assert MatchSuffix(s, 3) == Some(Tail(0, 2));
    assert MatchMinute(s, 3) == Some(Rest(0, Tail(0, 2)));
    assert MatchSplit(s) == Some(Split(2, true, 0, 0, 2));
    assert s[..2] == "12" && s[3..5] == "am";
    var e := "12:";
    NoOneDigitHour(e);
    assert SpaceRun(e, 3) == 0;
    assert MatchSuffix(e, 3) == Some(Tail(0, 0));
    assert MatchMinute(e, 3) == Some(Rest(0, Tail(0, 0)));
    assert MatchSplit(e) == Some(Split(2, true, 0, 0, 0));
    assert e[..2] == "12";
  }

  /** Hour 12 read literally with `am` is noon, today or tomorrow. */
  lemma TwelveAmResolves(now: DateTime)
    ensures var noon := ReplaceTime(now, 12, 0);
            Resolve(Groups("12", Some("00"), Some("am")), now)
              == Resolved(if Before(noon, now) then AddDay(noon) else noon)
  {
    var g := Groups("12", Some("00"), Some("am"));
    assert HourValue(g) == 12 && MinuteValue(g) == 0 && !IsAfternoon("am");
  }

  /** Hour 12 read literally with `pm` is the coming midnight. */
  lemma TwelvePmResolves(now: DateTime)
    ensures Resolve(Groups("12", Some("00"), Some("pm")), now) == Resolved(ReplaceTime(AddDay(now), 0, 0))
  {
    var g := Groups("12", Some("00"), Some("pm"));
    assert HourValue(g) == 12 && MinuteValue(g) == 0 && IsAfternoon("pm");
    var noon := ReplaceTime(now, 12, 0);
    WithinDay(now);
    assert !Before(AddHalfDay(noon), now);
    assert RollMeridiem(noon, true, now) == ReplaceTime(AddDay(now), 0, 0);
  }

  /** With the minute written out, `"12:00am"` lands at noon, today or
      tomorrow, whichever is not past. */
  lemma TwelveAmIsNoon(c: TimeConverter, now: DateTime)
    ensures var noon := ReplaceTime(now, 12, 0);
            ToValue(c, "12:00am", now).value == Some(if Before(noon, now) then AddDay(noon) else noon)
  {
    TwelveWithMinuteMatches();
    TwelveAmResolves(now);
  }

  /** `"12:00pm"` lands at the coming midnight, never at noon. */
  lemma TwelvePmIsMidnight(c: TimeConverter, now: DateTime)
    ensures ToValue(c, "12:00pm", now).value == Some(ReplaceTime(AddDay(now), 0, 0))
  {
    TwelveWithMinuteMatches();
    TwelvePmResolves(now);
  }
}
