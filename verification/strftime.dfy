/**
 The part of `datetime.strftime` the time converter is used with: `%-I`
 and `%#I` (12-hour hour without padding, the glibc and Windows
 spellings), `%M` (minute, zero-padded) and `%p` (`AM`/`PM` in the C
 locale), which the application's format uses, and besides those `%I`
 (12-hour hour, zero-padded) and `%%`. Every other character is copied
 as it stands.
 */
module Strftime {

  import opened Text
  import opened Clock

  /** Decimal text of `n` with no leading zero. */
  function Unpadded(n: nat): (r: string)
    requires 1 <= n <= 99
    ensures AllDigits(r) && |r| == (if n < 10 then 1 else 2)
    ensures DecimalValue(r) == n
  {
    if n < 10 then [DigitChar(n)] else [DigitChar(n / 10), DigitChar(n % 10)]
  }

  /** Two-digit decimal text of `n`, with a leading zero below 10. */
  function Padded2(n: nat): (r: string)
    requires n <= 99
    ensures AllDigits(r) && |r| == 2
    ensures DecimalValue(r) == n
  {
    [DigitChar(n / 10), DigitChar(n % 10)]
  }

  function AmPm(t: DateTime): (r: string)
    ensures |r| == 2 && r[1] == 'M'
    ensures r[0] == 'P' <==> IsPm(t)
    ensures r[0] == 'A' <==> !IsPm(t)
  {
    if IsPm(t) then "PM" else "AM"
  }

  /** `datetime.strftime(t, fmt)` for the directives above. No directive
      renders longer than it is written, and a format without `%` is
      copied unchanged. */
  function Format(fmt: string, t: DateTime): (r: string)
    ensures |r| <= |fmt|
    ensures (forall i :: 0 <= i < |fmt| ==> fmt[i] != '%') ==> r == fmt
    decreases |fmt|
  {
    if |fmt| == 0 then ""
    else if fmt[0] == '%' && |fmt| >= 3 && (fmt[1] == '-' || fmt[1] == '#') && fmt[2] == 'I' then
      Unpadded(Hour12(t)) + Format(fmt[3..], t)
    else if fmt[0] == '%' && |fmt| >= 2 && fmt[1] == 'I' then
      Padded2(Hour12(t)) + Format(fmt[2..], t)
    else if fmt[0] == '%' && |fmt| >= 2 && fmt[1] == 'M' then
      Padded2(t.minute) + Format(fmt[2..], t)
    else if fmt[0] == '%' && |fmt| >= 2 && fmt[1] == 'p' then
      AmPm(t) + Format(fmt[2..], t)
    else if fmt[0] == '%' && |fmt| >= 2 && fmt[1] == '%' then
      "%" + Format(fmt[2..], t)
    else
      [fmt[0]] + Format(fmt[1..], t)
  }

  /** The editable-field rendering `1:30 PM`: hour without padding, colon,
      two-digit minute, a space, and the meridiem. */
  function ClockText(t: DateTime): string {
    Unpadded(Hour12(t)) + ":" + Padded2(t.minute) + " " + AmPm(t)
  }

  lemma FormatLiteral(fmt: string, t: DateTime)
    requires |fmt| >= 1 && fmt[0] != '%'
    ensures Format(fmt, t) == [fmt[0]] + Format(fmt[1..], t)
  {
  }

  lemma FormatUnpaddedHour(fmt: string, t: DateTime)
    requires |fmt| >= 3 && fmt[0] == '%' && (fmt[1] == '-' || fmt[1] == '#') && fmt[2] == 'I'
    ensures Format(fmt, t) == Unpadded(Hour12(t)) + Format(fmt[3..], t)
  {
  }

  lemma FormatMinute(fmt: string, t: DateTime)
    requires |fmt| >= 2 && fmt[0] == '%' && fmt[1] == 'M'
    ensures Format(fmt, t) == Padded2(t.minute) + Format(fmt[2..], t)
  {
  }

  lemma FormatMeridiem(fmt: string, t: DateTime)
    requires |fmt| >= 2 && fmt[0] == '%' && fmt[1] == 'p'
    ensures Format(fmt, t) == AmPm(t) + Format(fmt[2..], t)
  {
  }

  /** `%I` renders two digits reading the 12-hour hour, `%%` a single `%`. */
  lemma FormatOtherDirectives(t: DateTime)
    ensures var h := Format("%I", t); AllDigits(h) && |h| == 2 && DecimalValue(h) == Hour12(t)
    ensures Format("%%", t) == "%"
  {
    assert "%I"[2..] == [] && "%%"[2..] == [];
  }

  /** Both platform spellings of the application's format render the
      12-hour clock text. */
  lemma FormatClock(t: DateTime)
    ensures Format("%-I:%M %p", t) == ClockText(t)
    ensures Format("%#I:%M %p", t) == ClockText(t)
  {
    var tail := ":%M %p";
    FormatMeridiem("%p", t);
    assert "%p"[2..] == [];
    FormatLiteral(" %p", t);
    assert " %p"[1..] == "%p";
    FormatMinute("%M %p", t);
    assert "%M %p"[2..] == " %p";
    FormatLiteral(tail, t);
    assert tail[1..] == "%M %p";
    FormatUnpaddedHour("%-I:%M %p", t);
    FormatUnpaddedHour("%#I:%M %p", t);
    assert "%-I:%M %p"[3..] == tail && "%#I:%M %p"[3..] == tail;
  }
}
