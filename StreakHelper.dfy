/**
 * The daily streak: a persisted record `{count, lastCompletedDate}` that `updateStreak`
 * advances at most once per calendar day, and `getStreak` reads back as the streak to
 * display, 0 once a whole day has been missed.
 */
module StreakHelper {
  import opened Wrappers
  import opened JsString
  import opened Calendar
  import opened DateHelper

  datatype StreakData = StreakData(count: int, lastCompletedDate: string)

  /** The record `updateStreak` starts from when nothing is stored. */
  const Fresh := StreakData(0, "")

  /** The date text of the day before `today`. */
  function YesterdayString(today: Day): (s: string)
    ensures today >= 1 ==> s == IsoDay(today - 1)
  {
    PrevOfDateOfDay(today);
    IsoDate(Prev(DateOfDay(today)))
  }

  /** The streak `getStreak` displays for the stored record on day `today`. */
  function Shown(stored: Option<StreakData>, today: Day): (n: int)
    ensures stored.None? ==> n == 0
    ensures n != 0 ==> stored.Some? && n == stored.value.count
    ensures n != 0 ==> stored.value.lastCompletedDate in {YesterdayString(today), IsoDay(today)}
  {
    match stored
    case None => 0
    case Some(s) =>
      if s.lastCompletedDate != YesterdayString(today) && s.lastCompletedDate != IsoDay(today) then 0
      else s.count
  }

  /** The record after `updateStreak` on day `today`; its count is what the call returns. */
  function Completed(stored: Option<StreakData>, today: Day): (r: StreakData)
    ensures r.lastCompletedDate == IsoDay(today)
    ensures var s := stored.GetOr(Fresh);
      s.lastCompletedDate == IsoDay(today) ==> r == s
  {
    var s := stored.GetOr(Fresh);
    if s.lastCompletedDate == IsoDay(today) then s
    else if s.lastCompletedDate == YesterdayString(today) then StreakData(s.count + 1, IsoDay(today))
    else StreakData(1, IsoDay(today))
  }

  /** Every record `updateStreak` writes has a count of at least 1. */
  predicate WellFormed(stored: Option<StreakData>) {
    stored.None? || stored.value.count >= 1
  }

  /** Completing from a well-formed record leaves a well-formed record stamped with today. */
  lemma CompletedKeepsWellFormed(stored: Option<StreakData>, today: Day)
    requires WellFormed(stored)
    ensures WellFormed(Some(Completed(stored, today)))
  {
    if stored.None? {
      assert |IsoDay(today)| > 0 by {
        assert IsoDay(today) == YearText(DateOfDay(today).year) + "-" + Digits(DateOfDay(today).month, 2) + "-" + Digits(DateOfDay(today).day, 2);
      }
    }
  }

  /** With nothing stored, the first completion starts a streak of 1, and nothing is displayed before it. */
  lemma FirstCompletion(today: Day)
    ensures Shown(None, today) == 0
    ensures Completed(None, today) == StreakData(1, IsoDay(today))
  {
    assert |IsoDay(today)| > 0 by {
      assert IsoDay(today) == YearText(DateOfDay(today).year) + "-" + Digits(DateOfDay(today).month, 2) + "-" + Digits(DateOfDay(today).day, 2);
    }
    assert |YesterdayString(today)| > 0 by {
      var p := Prev(DateOfDay(today));
      assert YesterdayString(today) == YearText(p.year) + "-" + Digits(p.month, 2) + "-" + Digits(p.day, 2);
    }
  }

  /** A second completion on the same day changes nothing. */
  lemma SameDayIsIdempotent(stored: Option<StreakData>, today: Day)
    ensures Completed(Some(Completed(stored, today)), today) == Completed(stored, today)
  {
  }

  /** After a completion, the streak shows its count on the same day and on the next day,
      the next day's completion adds exactly 1, and after a missed day the streak shows 0
      and the next completion restarts it at 1. */
  lemma AfterCompletion(stored: Option<StreakData>, today: Day, later: Day)
    requires today < later && FourDigitYear(later)
    ensures var c := Completed(stored, today);
      Shown(Some(c), today) == c.count &&
      (later == today + 1 ==> Shown(Some(c), later) == c.count && Completed(Some(c), later).count == c.count + 1) &&
      (later > today + 1 ==> Shown(Some(c), later) == 0 && Completed(Some(c), later).count == 1)
  {
    FourDigitYearDownward(today, later);
    FourDigitYearDownward(later - 1, later);
    IsoDayOrder(today, later);
    IsoDayOrder(today, later - 1);
  }

  /** The persisted streak record and the two operations on it. */
  class StreakTracker {
    /** The record stored under the key `streakData`, if any. */
    var stored: Option<StreakData>

    constructor (saved: Option<StreakData>)
      ensures stored == saved
    {
      stored := saved;
    }

    /** `getStreak()`: reads the record and changes nothing. */
    method GetStreak(now: Instant) returns (n: int)
      ensures n == Shown(stored, DayOf(now))
    {
      if stored.None? {
        return 0;
      }
      var streak := stored.value;
      var today := DayOf(now);
      if streak.lastCompletedDate != YesterdayString(today) && streak.lastCompletedDate != TodayString(now) {
        return 0;
      }
      return streak.count;
    }

    /** `updateStreak()`: advances the record to today, writing it only when today was not already counted. */
    method UpdateStreak(now: Instant) returns (count: int)
      modifies this
      ensures count == Completed(old(stored), DayOf(now)).count
      ensures old(stored).GetOr(Fresh).lastCompletedDate == IsoDay(DayOf(now)) ==> stored == old(stored)
      ensures old(stored).GetOr(Fresh).lastCompletedDate != IsoDay(DayOf(now)) ==>
        stored == Some(Completed(old(stored), DayOf(now)))
      ensures stored.Some? ==> stored.value.lastCompletedDate == IsoDay(DayOf(now)) || stored == old(stored)
      ensures WellFormed(old(stored)) ==> WellFormed(stored)
    {
      var todayStr := TodayString(now);
      var streak := if stored.Some? then stored.value else StreakData(0, "");
      if streak.lastCompletedDate == todayStr {
        return streak.count;
      }
      var yesterdayStr := YesterdayString(DayOf(now));
      if streak.lastCompletedDate == yesterdayStr {
        streak := streak.(count := streak.count + 1);
      } else {
        streak := streak.(count := 1);
      }
      streak := streak.(lastCompletedDate := todayStr);
      stored := Some(streak);
      return streak.count;
    }
  }

  /** The records of one completion per listed day: day 1, day 1 again, day 2, then day 4. */
  lemma StreakSequence(d: Day)
    requires FourDigitYear(d + 3)
    ensures Completed(None, d) == StreakData(1, IsoDay(d))
    ensures Completed(Some(Completed(None, d)), d) == Completed(None, d)
    ensures Completed(Some(Completed(None, d)), d + 1) == StreakData(2, IsoDay(d + 1))
    ensures Shown(Some(StreakData(2, IsoDay(d + 1))), d + 3) == 0
    ensures Completed(Some(StreakData(2, IsoDay(d + 1))), d + 3) == StreakData(1, IsoDay(d + 3))
  {
    FirstCompletion(d);
    FourDigitYearDownward(d + 1, d + 3);
    AfterCompletion(None, d, d + 1);
    AfterCompletion(Some(Completed(None, d)), d + 1, d + 3);
  }

  /** The same sequence through the tracker: day 1 gives 1, day 1 again 1, day 2 gives 2; on
      day 4 the streak shows 0 before completing although 2 is stored, and completing gives 1. */
  method StreakScenario(day1: Instant, day2: Instant, day4: Instant)
    returns (first: int, again: int, second: int, shownOnFourth: int, storedOnFourth: int, fourth: int)
    requires DayOf(day2) == DayOf(day1) + 1 && DayOf(day4) == DayOf(day1) + 3
    requires FourDigitYear(DayOf(day4))
    ensures first == 1 && again == 1 && second == 2
    ensures shownOnFourth == 0 && storedOnFourth == 2
    ensures fourth == 1
  {
    StreakSequence(DayOf(day1));
    var tracker := new StreakTracker(None);
    first := tracker.UpdateStreak(day1);
    again := tracker.UpdateStreak(day1);
    second := tracker.UpdateStreak(day2);
    shownOnFourth := tracker.GetStreak(day4);
    storedOnFourth := tracker.stored.value.count;
    fourth := tracker.UpdateStreak(day4);
  }
}
