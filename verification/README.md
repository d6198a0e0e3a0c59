# xtimer time-entry converter in Dafny

xtimer is a small scheduling assistant whose editable fields turn what the
user types into values and back. This project models its converters: the
time pattern that reads text such as `130pm`, `1:30` or `5 a`, the resolver
that turns the hour and minute read into the next matching datetime at or
after the current time, the formatter that renders a datetime back into an
editable field, the plain string converter, and the `error` attribute
through which a converter reports why text was rejected.

The model is functional. The current time is a parameter `now` instead of a
call to the clock. `to_value` returns the value together with the
converter's attributes after the call, instead of assigning them.

Modules:

- `Wrappers`: `Option`.
- `Text`: ASCII digits, `int()` on a digit string, Python's whitespace
  class (the set `str.isspace` accepts, which `\s` and `str.strip` use) and
  `str.strip`.
- `Clock`: a naive `datetime` with day number, hour, minute, second and
  microsecond fields. It provides the `replace(...)` the resolver uses,
  `relativedelta(hours=12)` and `relativedelta(days=1)` as fixed offsets,
  and comparison.
- `TimePattern`: the pattern `^(?P<hour>\d\d??):?(?P<minute>\d\d?)?(?:\s*(?P<p>pm?|am?))?$`,
  case-insensitive, applied with `re.match`. `ValidSplit` says which ways of
  cutting a string fit the pattern. `MatchSplit` tries the alternatives in
  the order of Python's backtracking matcher. Lemmas show that the two agree
  and that the matcher returns the first valid cut.
- `Strftime`: the directives the application formats with, `%-I`, `%#I`,
  `%M` and `%p`, and besides those `%I` and `%%`.
- `Converters`: `StringConverter`, the constructor, `to_string` and
  `to_value` of `TimeToNextDatetimeConverter`, and the resolver steps.
- `RoundTrip`: text rendered with the application's format `%#I:%M %p`,
  typed back into the same kind of field.
- `Quirks`: concrete inputs that pin down the behaviour.
- `IntendedHour`: the corrected resolver described under Findings.

Behaviour of the code worth knowing before reading the contracts:

- The hour group is lazy, so two digits alone split after the first: `12`
  reads as 1:02 and `13` as 1:03 (Quirks.TwoDigitsSplitAfterOne,
  Quirks.TwelveAndThirteenReadAsOneOh). In the same way `12am` and `12pm`
  read as 1:02 AM and 1:02 PM (Quirks.TwelveAmIsOneOhTwo). Hour 12 reaches
  the resolver only when a colon or two more digits follow the `12`:
  `12:`, `12:am`, `12:00am`, `1230` (Quirks.TwelveColonMatches,
  Quirks.TwelveWithMinuteMatches, Quirks.TwelveThirty).
- The candidate is `now.replace(hour=hour, ...)` with the typed hour as it
  stands, so hour 12 is noon before any meridiem is applied: `12:00am` lands
  at noon and `12:00pm` at the coming midnight (Quirks.TwelveAmIsNoon,
  Quirks.TwelvePmIsMidnight; see Findings).
- Empty text assigns `failure` and leaves `error` as the previous call set
  it (Quirks.ClearedFieldKeepsStaleError).

## Model

| member | source | states |
|---|---|---|
| Text.Strip | converters.py:25-29 | `strip()` returns a slice of its input with only whitespace cut off either end, and the result neither starts nor ends with whitespace |
| Text.StripIdempotent | converters.py:24-29 | stripping an already stripped string changes nothing |
| Converters.StringToValue | converters.py:28-29 | `to_value` is `strip()` of the text, characterised by Text.Strip |
| Converters.StringToString | converters.py:25-26 | `to_string` is `strip()` of the value, and the text it renders is a fixed point of `to_value` |
| Converters.StringRoundTrip | converters.py:24-29 | text rendered by the string converter reads back unchanged |
| Converters.StringRoundTripBack | converters.py:24-29 | a value read by the string converter renders back as the same text |
| TimePattern.GroupsOf | converters.py:9 | the groups of any cut along the pattern are a one- or two-digit hour, an optional one- or two-digit minute, and an optional one- or two-letter meridiem starting with `a` or `p` |
| TimePattern.Match | converters.py:9 | every match has groups of that shape |
| TimePattern.MatchSplitSound | converters.py:9 | the cut the matcher returns fits the pattern |
| TimePattern.MatchIffSplit | converters.py:9 | the pattern matches exactly when some cut along it exists |
| TimePattern.MatchSplitFirst | converters.py:9 | whenever a cut exists the matcher returns one, and it is the first in backtracking order: fewest hour digits, then most minute digits |
| TimePattern.FirstSplitMatches | converters.py:9 | conversely, a valid cut that no other valid cut precedes is the match, with its groups |
| TimePattern.SplitDeterminedByLengths | converters.py:9 | the hour and minute lengths fix a cut, so the backtracking order ranks the valid cuts strictly |
| TimePattern.MeridiemHalves | converters.py:65 | every meridiem group the pattern admits reads as the afternoon exactly when it does not start with `a` or `A` |
| TimePattern.HourValue | converters.py:49 | the parsed hour is at most 99 |
| TimePattern.MinuteValue | converters.py:53 | the parsed minute is at most 99 and is 0 when the minute group is absent |
| Clock.ReplaceTime | converters.py:58 | `replace` keeps the day, sets hour and minute, and zeroes seconds and microseconds |
| Clock.AddHalfDay | converters.py:63 | twelve hours on keeps the 12-hour reading and the minute, and switches AM and PM |
| Clock.AddDay | converters.py:68 | one day on keeps hour and minute |
| Converters.ReplaceHash | converters.py:36 | `str.replace("#", "-")` keeps the length, turns every `#` into `-` and keeps every other character |
| Converters.NewTimeConverter | converters.py:33-37 | a new converter has no error; off Windows every `#` of the format becomes `-` and nothing else changes; on Windows the format is kept |
| Strftime.Format | converters.py:40 | `strftime` over the modelled directives never renders longer than the format, and copies a format without `%` unchanged |
| Strftime.FormatOtherDirectives | converters.py:40 | `%I` renders two digits reading the 12-hour hour, and `%%` a single `%` |
| Converters.ToString | converters.py:39-40 | with the application's format, on either platform, `to_string` renders `H:MM AM`/`H:MM PM` |
| Strftime.FormatClock | converters.py:39-40 | both spellings of the application's format render `H:MM AM`/`H:MM PM` with an unpadded hour |
| Converters.RollHalfDays | converters.py:60-63 | the no-meridiem loop yields the first of the candidate and its twelve-hour steps that is not before `now`, or the last step, with the same 12-hour reading, second and microsecond |
| Converters.RollMeridiem | converters.py:64-68 | the meridiem branch moves the candidate on by 12 h for `p`, then by one more day exactly when that is still before `now`; the 12-hour reading and minute are kept and the half of the day flips exactly for `p` |
| Converters.BareResolution | converters.py:57-63 | with no meridiem the result is the candidate, 12 h or 24 h after it, is not before `now`, is the first such step, and is less than 13 h ahead |
| Converters.MeridiemResolution | converters.py:57-68 | with a meridiem the result is the candidate plus 12 h for `p`, plus one day exactly when that is before `now`; its half of the day is the typed one except at hour 12, where it is the other one |
| Converters.Resolve | converters.py:49-68 | an hour outside 1..12 is rejected with the hour message before the minute is checked; a minute above 59 is rejected with the minute message; otherwise the result is at or after `now`, less than 25 h ahead (13 h with no meridiem), on the minute, and shows the typed hour and minute; with a meridiem it lies in the typed half of the day, except at hour 12, where it lies in the other |
| Converters.ToValue | converters.py:42-71 | empty text gives no value, sets `failure` and keeps `error`; other text clears `error`, and a value comes back exactly when no message is set; the parse message is set exactly when the pattern does not match; matched text gives a value exactly when the hour is in 1..12 and the minute at most 59, the hour message is set exactly for an hour outside 1..12, and otherwise the minute message exactly for a minute above 59; a value shows the typed hour and minute, and its half of the day follows the meridiem as in `Converters.Resolve` |
| RoundTrip.ClockTextMatches | converters.py:9 | rendered clock text matches with its hour, minute and meridiem as the groups |
| RoundTrip.AppConverterRendersClock | gui.py:80 | the application's converter renders the clock text on either platform |
| RoundTrip.ClockTextReadsBack | converters.py:42-68 | rendered clock text goes through the meridiem branch with the 12-hour reading as the typed hour |
| RoundTrip.ToStringToValue | converters.py:35-68 | rendering a value and reading the text back keeps the minute and the hour of the day, except that hours 0 and 12 come back twelve hours round the dial |
| RoundTrip.ToStringToValueExact | converters.py:35-68 | a value less than a day ahead of `now`, not at hour 0 or 12, comes back exactly |
| Quirks.OneThirty | converters.py:9 | `130` is 1:30 |
| Quirks.TwoDigitsSplitAfterOne | converters.py:9 | any two digits alone read as a one-digit hour and a one-digit minute |
| Quirks.TwelveAndThirteenReadAsOneOh | converters.py:42-63 | `12` resolves to 1:02 and `13` to 1:03 |
| Quirks.TwelveThirty | converters.py:9 | `1230` is 12:30 |
| Quirks.ThirteenMatches | converters.py:9 | `13:00` matches with hour 13 |
| Quirks.ThirteenRejected | converters.py:49-52 | `13:00` is rejected with the hour message |
| Quirks.ZeroHourRejected | converters.py:49-52 | `0` is rejected with the hour message |
| Quirks.MinuteSixtyRejected | converters.py:53-56 | `1:60` and `160` are rejected with the minute message |
| Quirks.FiveA | converters.py:64-68 | `5 a` is 5:00 in the morning |
| Quirks.TrailingNewline | converters.py:9 | `$` accepts a final newline, so `1:30\n` is 1:30 |
| Quirks.NotATime | converters.py:70-71 | `noon` is rejected with the parse message |
| Quirks.ClearedFieldKeepsStaleError | converters.py:43-46 | clearing the field after a rejection leaves the rejection's message in `error` |
| Quirks.TwoDigitsMeridiemSplitAfterOne | converters.py:9 | any two digits followed by a two-letter meridiem read as a one-digit hour, a one-digit minute and the meridiem |
| Quirks.TwelveAmIsOneOhTwo | converters.py:9 | `12am` and `12pm` read as hour 1, minute 2 with a meridiem |
| Quirks.TwelveColonMatches | converters.py:9 | `12:am` and `12:` read as hour 12 with no minute, because a colon rules out the one-digit hour |
| Quirks.TwelveWithMinuteMatches | converters.py:9 | `12:00am` and `12:00pm` read as hour 12, minute 00 |
| Quirks.TwelveAmResolves | converters.py:58-68 | hour 12 with `am` resolves to noon, today or tomorrow |
| Quirks.TwelvePmResolves | converters.py:58-68 | hour 12 with `pm` resolves to the coming midnight |
| Quirks.TwelveAmIsNoon | converters.py:42-68 | `12:00am` lands at noon, today or tomorrow, whichever is not past |
| Quirks.TwelvePmIsMidnight | converters.py:42-68 | `12:00pm` lands at the coming midnight |
| IntendedHour.IntendedMeridiem | converters.py:64-68 | with the candidate at `hour % 12`, a meridiem always lands in its own half of the day, less than a day ahead |
| IntendedHour.IntendedBare | converters.py:60-63 | with the candidate at `hour % 12` and no meridiem, the result is less than 12 h ahead |
| IntendedHour.ResolveIntended | converters.py:49-68 | the corrected resolver rejects exactly what the code rejects, with the same messages, and honours the typed meridiem |
| IntendedHour.IntendedAgreesOffTwelve | converters.py:58 | the correction changes nothing for hours other than 12 |
| IntendedHour.ToValueIntended | converters.py:42-71 | corrected `to_value` agrees with the code on errors and on whether a value comes back; a value is at or after `now`, less than a day ahead, on the minute, shows the typed hour and minute, and lies in the typed half of the day |
| IntendedHour.ToStringToValueIntended | converters.py:35-68 | with the correction every rendered value reads back to its own hour and minute, hours 0 and 12 included, and exactly to itself within a day of `now` |

## Left out

- `gui.py` and `widgets.py`: the tkinter application, its callbacks, the
  pickle persistence and the layout widgets. `Entry.get` strips the text
  before calling `to_value`; the model applies `to_value` to any text.
- `datetime.now()`: `now` is a parameter.
- Time zones and daylight saving: datetimes are naive and every day is 24
  hours long, so `relativedelta` is a fixed offset.
- Calendar limits: days are unbounded integers, so the `OverflowError` that
  Python raises past year 9999 is not modelled.
- Unicode digits: `\d` and `int()` accept every Unicode decimal digit; the
  model accepts ASCII `0`-`9` only.
- `strftime` beyond `%I`, `%-I`, `%#I`, `%M`, `%p` and `%%`: other
  characters are copied literally. Locale and platform behaviour are not
  modelled: `%p` is `AM`/`PM` as in the C locale, and both `%-I` and `%#I`
  render the unpadded hour on every platform.
- `to_string(None)`: `Entry.set(None)` would make `strftime` raise. The
  model's `to_string` takes a datetime.
- The abstract `Converter.to_string`/`to_value`, which raise
  `NotImplementedError`, and the generic type parameter.
- `StringConverter`'s `error` attribute: it is set to `None` once and never
  changed, so the model's string converter is a pure function.
- Converters.ToValue: does not state the exact datetime returned; that is
  stated by Converters.BareResolution and Converters.MeridiemResolution,
  which Converters.Resolve calls.
- Converters.Resolve: bounds the result and fixes its 12-hour reading,
  minute and half of the day, but not which of the twelve-hour steps is
  taken; Converters.BareResolution and Converters.MeridiemResolution state
  that.

## Findings

| source | as written | input that shows it | evidently intended | confidence | as-written member | corrected member |
|---|---|---|---|---|---|---|
| converters.py:58-66 | the candidate is built at the typed hour, so hour 12 is noon and `pm` then adds twelve hours | a value at 12:30 PM renders as `12:30 PM` and reads back as 00:30 the next day; a value at 00:30 renders as `12:30 AM` and reads back as 12:30 PM | the candidate at `hour % 12`, so that 12 am is midnight and 12 pm is noon | high, not executed | RoundTrip.ToStringToValue | IntendedHour.ToStringToValueIntended |
