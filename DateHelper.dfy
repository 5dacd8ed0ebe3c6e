/**
 * `getTodayString` and `getFutureDateString`: the current instant, optionally shifted by
 * whole days, written with `toISOString` and cut at the `T` that starts the time of day.
 * The clock is a parameter: `now` is the instant `new Date()` would read.
 */
module DateHelper {
  import opened JsString
  import opened Calendar

  const MsPerDay: nat := 86400000

  /** Milliseconds since 1970-01-01T00:00:00.000Z. */
  type Instant = nat

  /** The day number of an instant (UTC). */
  function DayOf(t: Instant): Day {
    t / MsPerDay
  }

  /** `HH:MM:SS.sss` for a time of day given in milliseconds. */
  function TimeText(ms: nat): string {
    Digits(ms / 3600000, 2) + ":" + Digits(ms / 60000 % 60, 2) + ":" +
    Digits(ms / 1000 % 60, 2) + "." + Digits(ms % 1000, 3)
  }

  /** `Date.prototype.toISOString`: `YYYY-MM-DDTHH:MM:SS.sssZ`. */
  function IsoTimestamp(t: Instant): string {
    IsoDay(DayOf(t)) + "T" + TimeText(t % MsPerDay) + "Z"
  }

  lemma NoTimeSeparatorInDate(n: Day)
    ensures 'T' !in IsoDay(n)
  {
  }

  /** `getTodayString()`: the calendar date of `now`. */
  function TodayString(now: Instant): (s: string)
    ensures 'T' !in s
    ensures FourDigitYear(DayOf(now)) ==> |s| == 10
  {
    NoTimeSeparatorInDate(DayOf(now));
    IsoDay(DayOf(now))
  }

  /** `getTodayString()` is `toISOString().split('T')[0]`: the timestamp cut before its time of day. */
  lemma TodayStringIsDatePart(now: Instant)
    ensures TodayString(now) == BeforeFirst(IsoTimestamp(now), 'T')
    ensures IsoTimestamp(now) == TodayString(now) + "T" + TimeText(now % MsPerDay) + "Z"
  {
    var rest := TimeText(now % MsPerDay) + "Z";
    NoTimeSeparatorInDate(DayOf(now));
    assert IsoTimestamp(now) == IsoDay(DayOf(now)) + ['T'] + rest;
    BeforeFirstOfJoin(IsoDay(DayOf(now)), 'T', rest);
  }

  /** Shifting an instant by whole days shifts its day number by as many days. */
  lemma ShiftDay(now: Instant, days: nat)
    ensures DayOf(now + days * MsPerDay) == DayOf(now) + days
  {
    var q, r := now / MsPerDay, now % MsPerDay;
    assert now + days * MsPerDay == (q + days) * MsPerDay + r;
  }

  /** `getFutureDateString(daysToAdd)`: the calendar date `daysToAdd` days after `now`. */
  function FutureDateString(now: Instant, daysToAdd: nat): (s: string)
    ensures 'T' !in s
    ensures FourDigitYear(DayOf(now) + daysToAdd) ==> |s| == 10
  {
    NoTimeSeparatorInDate(DayOf(now) + daysToAdd);
    IsoDay(DayOf(now) + daysToAdd)
  }

  /** The source moves the clock `daysToAdd` days forward (`setDate(getDate() + daysToAdd)`)
      and reads the date part of `toISOString()`: that is today's text at the shifted instant. */
  lemma FutureDateIsShiftedToday(now: Instant, daysToAdd: nat)
    ensures FutureDateString(now, daysToAdd) == TodayString(now + daysToAdd * MsPerDay)
  {
    var later := now + daysToAdd * MsPerDay;
    ShiftDay(now, daysToAdd);
    assert DayOf(later) == DayOf(now) + daysToAdd;
  }

  /** Shifting by no days gives today's date. */
  lemma FutureZeroIsToday(now: Instant)
    ensures FutureDateString(now, 0) == TodayString(now)
  {
  }

  /** Further offsets give dates that compare no lower under JavaScript's `<=`. */
  lemma FutureDateMonotone(now: Instant, d1: nat, d2: nat)
    requires d1 <= d2 && FourDigitYear(DayOf(now) + d2)
    ensures StringAtMost(FutureDateString(now, d1), FutureDateString(now, d2))
  {
    IsoDayMonotone(DayOf(now) + d1, DayOf(now) + d2);
  }
}
