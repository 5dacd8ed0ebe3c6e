/**
 * The proleptic Gregorian calendar that JavaScript's `Date` uses, with days numbered
 * from 1970-01-01 (day 0), and the ISO 8601 calendar-date text (`YYYY-MM-DD`,
 * complete representation, extended format) that `toISOString` starts with.
 */
module Calendar {
  import opened JsString

  datatype CalendarDate = CalendarDate(year: nat, month: nat, day: nat)

  /** A day number: whole days since 1970-01-01. */
  type Day = nat

  predicate IsLeapYear(y: nat) {
    y % 4 == 0 && (y % 100 != 0 || y % 400 == 0)
  }

  function DaysInMonth(y: nat, m: nat): (n: nat)
    ensures 28 <= n <= 31
    ensures m == 2 ==> (n == 29 <==> IsLeapYear(y))
  {
    if m == 2 then (if IsLeapYear(y) then 29 else 28)
    else if m == 4 || m == 6 || m == 9 || m == 11 then 30
    else 31
  }

  predicate ValidDate(d: CalendarDate) {
    1 <= d.month <= 12 && 1 <= d.day <= DaysInMonth(d.year, d.month)
  }

  /** Chronological order of calendar dates: by year, then month, then day. */
  predicate Before(a: CalendarDate, b: CalendarDate) {
    a.year < b.year ||
    (a.year == b.year && (a.month < b.month || (a.month == b.month && a.day < b.day)))
  }

  /** The day after `d`. */
  function Next(d: CalendarDate): (r: CalendarDate)
    requires ValidDate(d)
    ensures ValidDate(r) && Before(d, r)
  {
    if d.day < DaysInMonth(d.year, d.month) then d.(day := d.day + 1)
    else if d.month < 12 then CalendarDate(d.year, d.month + 1, 1)
    else CalendarDate(d.year + 1, 1, 1)
  }

  /** No valid date lies strictly between a date and the day after it. */
  lemma NextIsSuccessor(d: CalendarDate, e: CalendarDate)
    requires ValidDate(d) && ValidDate(e) && Before(d, e)
    ensures Next(d) == e || Before(Next(d), e)
  {
  }

  /** The day before `d`; 0000-01-01 has none with a non-negative year. */
  function Prev(d: CalendarDate): (r: CalendarDate)
    requires ValidDate(d) && d != CalendarDate(0, 1, 1)
    ensures ValidDate(r) && Next(r) == d
  {
    if d.day > 1 then d.(day := d.day - 1)
    else if d.month > 1 then CalendarDate(d.year, d.month - 1, DaysInMonth(d.year, d.month - 1))
    else CalendarDate(d.year - 1, 12, 31)
  }

  /** Stepping forward a day and back again returns to the same date. */
  lemma PrevOfNext(d: CalendarDate)
    requires ValidDate(d)
    ensures Next(d) != CalendarDate(0, 1, 1) && Prev(Next(d)) == d
  {
  }

  const Epoch := CalendarDate(1970, 1, 1)

  /** The calendar date of day number `n`. */
  function DateOfDay(n: Day): (r: CalendarDate)
    ensures ValidDate(r)
    ensures r.year >= 1970
    decreases n
  {
    if n == 0 then Epoch else Next(DateOfDay(n - 1))
  }

  /** The day before the date of day `n` is the date of day `n - 1`. */
  lemma PrevOfDateOfDay(n: Day)
    ensures n >= 1 ==> Prev(DateOfDay(n)) == DateOfDay(n - 1)
  {
    if n >= 1 {
      PrevOfNext(DateOfDay(n - 1));
    }
  }

  /** Later day numbers have later calendar dates. */
  lemma {:induction false} DateOfDayIncreasing(i: Day, j: Day)
    requires i < j
    ensures Before(DateOfDay(i), DateOfDay(j))
    decreases j
  {
    if i < j - 1 {
      DateOfDayIncreasing(i, j - 1);
    }
  }

  /** Day numbers and their dates are in the same order, and distinct days have distinct dates. */
  lemma DateOfDayOrder(i: Day, j: Day)
    ensures Before(DateOfDay(i), DateOfDay(j)) <==> i < j
    ensures DateOfDay(i) == DateOfDay(j) <==> i == j
  {
    if i < j {
      DateOfDayIncreasing(i, j);
    } else if j < i {
      DateOfDayIncreasing(j, i);
    }
  }

  /** The year field of `toISOString`: four digits for years 0 to 9999, otherwise the
      expanded form of a sign and six digits. */
  function YearText(y: nat): (s: string)
    ensures y <= 9999 ==> |s| == 4
    ensures y > 9999 ==> |s| == 7 && s[0] == '+'
    ensures forall i :: 0 <= i < |s| ==> IsDigitChar(s[i]) || s[i] == '+'
  {
    if y <= 9999 then Digits(y, 4) else "+" + Digits(y, 6)
  }

  /** The calendar-date part of `toISOString`: `YYYY-MM-DD`. */
  function IsoDate(d: CalendarDate): (s: string)
    ensures d.year <= 9999 ==> |s| == 10 && s[4] == '-' && s[7] == '-'
    ensures forall i :: 0 <= i < |s| ==> IsDigitChar(s[i]) || s[i] == '-' || s[i] == '+'
  {
    YearText(d.year) + "-" + Digits(d.month, 2) + "-" + Digits(d.day, 2)
  }

  /** The text after the year: `-MM-DD`. */
  function MonthDayText(d: CalendarDate): string {
    "-" + (Digits(d.month, 2) + ("-" + Digits(d.day, 2)))
  }

  /** For valid dates the `-MM-DD` texts compare as the (month, day) pairs do. */
  lemma MonthDayTextOrder(a: CalendarDate, b: CalendarDate)
    requires ValidDate(a) && ValidDate(b)
    ensures StringLess(MonthDayText(a), MonthDayText(b)) <==> a.month < b.month || (a.month == b.month && a.day < b.day)
    ensures MonthDayText(a) == MonthDayText(b) <==> a.month == b.month && a.day == b.day
  {
    var ma, da, mb, db := Digits(a.month, 2), Digits(a.day, 2), Digits(b.month, 2), Digits(b.day, 2);
    DigitsOrder(a.month, b.month, 2);
    DigitsOrder(a.day, b.day, 2);
    StringLessCommonPrefix("-", ma + ("-" + da), mb + ("-" + db));
    StringLessAppend(ma, "-" + da, mb, "-" + db);
    StringLessCommonPrefix("-", da, db);
    if MonthDayText(a) == MonthDayText(b) {
      assert ma == MonthDayText(a)[1..3] && mb == MonthDayText(b)[1..3];
      assert da == MonthDayText(a)[4..] && db == MonthDayText(b)[4..];
    }
  }

  /** For four-digit years, the lexical order of the date texts is the chronological
      order of the dates, and equal texts name the same date. */
  lemma IsoDateOrder(a: CalendarDate, b: CalendarDate)
    requires ValidDate(a) && ValidDate(b) && a.year <= 9999 && b.year <= 9999
    ensures StringLess(IsoDate(a), IsoDate(b)) <==> Before(a, b)
    ensures IsoDate(a) == IsoDate(b) <==> a == b
  {
    var ya, yb := Digits(a.year, 4), Digits(b.year, 4);
    assert IsoDate(a) == ya + MonthDayText(a) && IsoDate(b) == yb + MonthDayText(b);
    DigitsOrder(a.year, b.year, 4);
    MonthDayTextOrder(a, b);
    StringLessAppend(ya, MonthDayText(a), yb, MonthDayText(b));
    if IsoDate(a) == IsoDate(b) {
      assert ya == IsoDate(a)[..4] && yb == IsoDate(b)[..4];
      assert MonthDayText(a) == IsoDate(a)[4..] && MonthDayText(b) == IsoDate(b)[4..];
    }
  }

  /** The ISO calendar-date text of day number `n`. */
  function IsoDay(n: Day): string {
    IsoDate(DateOfDay(n))
  }

  /** Whether day `n` falls in a year that `toISOString` writes with four digits (up to 9999-12-31). */
  predicate FourDigitYear(n: Day) {
    DateOfDay(n).year <= 9999
  }

  lemma FourDigitYearDownward(i: Day, j: Day)
    requires i <= j && FourDigitYear(j)
    ensures FourDigitYear(i)
  {
    DateOfDayOrder(i, j);
  }

  /** Lexical comparison of day texts, as JavaScript's `<` and `<=` do it, agrees with
      the order of the day numbers. */
  lemma IsoDayOrder(i: Day, j: Day)
    requires FourDigitYear(i) && FourDigitYear(j)
    ensures StringLess(IsoDay(i), IsoDay(j)) <==> i < j
    ensures StringAtMost(IsoDay(i), IsoDay(j)) <==> i <= j
    ensures IsoDay(i) == IsoDay(j) <==> i == j
  {
    DateOfDayOrder(i, j);
    IsoDateOrder(DateOfDay(i), DateOfDay(j));
    IsoDateOrder(DateOfDay(j), DateOfDay(i));
  }

  /** A later day's text never compares below an earlier day's. */
  lemma IsoDayMonotone(i: Day, j: Day)
    requires i <= j && FourDigitYear(j)
    ensures StringAtMost(IsoDay(i), IsoDay(j))
  {
    FourDigitYearDownward(i, j);
    IsoDayOrder(i, j);
  }

  /** Past year 9999 the expanded year form breaks the agreement: 10000-01-01 is written
      `+010000-01-01`, which compares below `9999-12-31`. */
  lemma ExpandedYearSortsFirst()
    ensures Before(CalendarDate(9999, 12, 31), CalendarDate(10000, 1, 1))
    ensures StringLess(IsoDate(CalendarDate(10000, 1, 1)), IsoDate(CalendarDate(9999, 12, 31)))
  {
    var s, t := IsoDate(CalendarDate(10000, 1, 1)), IsoDate(CalendarDate(9999, 12, 31));
    assert s[0] == '+';
    assert t[0] == Digits(9999, 4)[0] == '9';
  }
}
