/**
 A naive `datetime`: a day number and the time-of-day fields, with no time
 zone. Days are exactly 24 hours long (no daylight saving), so
 `relativedelta(hours=12)` and `relativedelta(days=1)` are fixed offsets,
 and two datetimes compare by the microseconds they lie from the start of
 day 0.
 */
module Clock {

  datatype Fields = Fields(day: int, hour: int, minute: int, second: int, micro: int)

  type DateTime = f: Fields
    | 0 <= f.hour < 24 && 0 <= f.minute < 60 && 0 <= f.second < 60 && 0 <= f.micro < 1_000_000
    witness Fields(0, 0, 0, 0, 0)

  const MicrosPerSecond: int := 1_000_000
  const MicrosPerMinute: int := 60_000_000
  const MicrosPerHour: int := 3_600_000_000
  const HalfDay: int := 43_200_000_000
  const MicrosPerDay: int := 86_400_000_000

  /** Microseconds from the start of day 0. */
  function Micros(t: DateTime): int {
    t.day * MicrosPerDay + t.hour * MicrosPerHour + t.minute * MicrosPerMinute
      + t.second * MicrosPerSecond + t.micro
  }

  /** `a < b` on datetimes. */
  predicate Before(a: DateTime, b: DateTime) {
    Micros(a) < Micros(b)
  }

  /** A datetime lies within its own day. */
  lemma WithinDay(t: DateTime)
    ensures t.day * MicrosPerDay <= Micros(t) < t.day * MicrosPerDay + MicrosPerDay
  {
  }

  /** `t + relativedelta(hours=12)`. */
  function AddHalfDay(t: DateTime): (r: DateTime)
    ensures Micros(r) == Micros(t) + HalfDay
    ensures r.hour % 12 == t.hour % 12 && r.minute == t.minute
    ensures OnTheMinute(r) == OnTheMinute(t)
    ensures IsPm(r) == !IsPm(t)
  {
    if t.hour < 12 then t.(hour := t.hour + 12) else t.(day := t.day + 1, hour := t.hour - 12)
  }

  /** `t + relativedelta(days=1)`. */
  function AddDay(t: DateTime): (r: DateTime)
    ensures Micros(r) == Micros(t) + MicrosPerDay
    ensures r.hour == t.hour && r.minute == t.minute
    ensures OnTheMinute(r) == OnTheMinute(t)
  {
    t.(day := t.day + 1)
  }

  /** `t.replace(hour=hour, minute=minute, second=0, microsecond=0)`. */
  function ReplaceTime(t: DateTime, hour: int, minute: int): (r: DateTime)
    requires 0 <= hour < 24 && 0 <= minute < 60
    ensures r.day == t.day && r.hour == hour && r.minute == minute
    ensures OnTheMinute(r)
  {
    t.(hour := hour, minute := minute, second := 0, micro := 0)
  }

  /** Seconds and microseconds are both zero. */
  predicate OnTheMinute(t: DateTime) {
    t.second == 0 && t.micro == 0
  }

  /** The hour as a 12-hour clock shows it, 1 to 12 (`%I`). */
  function Hour12(t: DateTime): (h: int)
    ensures 1 <= h <= 12
    ensures h % 12 == t.hour % 12
  {
    if t.hour % 12 == 0 then 12 else t.hour % 12
  }

  /** `%p` reads PM. */
  predicate IsPm(t: DateTime) {
    t.hour >= 12
  }

  /** The 12-hour reading and the half of the day give back the hour. */
  lemma HourFromReading(t: DateTime)
    ensures t.hour == Hour12(t) % 12 + (if IsPm(t) then 12 else 0)
  {
  }

  /** Two on-the-minute datetimes less than a day apart that show the same
      hour and minute are the same datetime. */
  lemma SameClockWithinADay(a: DateTime, b: DateTime)
    requires OnTheMinute(a) && OnTheMinute(b)
    requires a.hour == b.hour && a.minute == b.minute
    requires Micros(a) - MicrosPerDay < Micros(b) < Micros(a) + MicrosPerDay
    ensures a == b
  {
    assert Micros(a) - Micros(b) == (a.day - b.day) * MicrosPerDay;
  }
}
