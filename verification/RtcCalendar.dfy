/** The calendar step of the MC146818 emulation, against an absolute count of seconds. */
module RtcCalendar {

  /** Months count from 0, days from 1 and years from 1900. */
  datatype Tm = Tm(second: int, minute: int, hour: int, day: int, month: int, year: int) {
    predicate ValidTime() {
      0 <= second < 60 && 0 <= minute < 60 && 0 <= hour < 24
    }

    predicate Valid() {
      ValidTime() && 0 <= month < 12 && 1 <= day <= DaysInMonth(month, year + 1900)
    }
  }

  predicate Leap(year: int) {
    year % 4 == 0 && (year % 100 != 0 || year % 400 == 0)
  }

  const DAYS_TAB: seq<int> := [31, 28, 31, 30, 31, 30, 31, 31, 30, 31, 30, 31]

  function DaysInMonth(month: int, year: int): int {
    if month < 0 || month >= 12 then 31
    else if month == 1 && Leap(year) then DAYS_TAB[month] + 1
    else DAYS_TAB[month]
  }

  function NextDay(tm: Tm): Tm {
    var day := tm.day + 1;
    if day < 1 then tm.(day := 1)
    else if day > DaysInMonth(tm.month, tm.year + 1900) then
      if tm.month + 1 >= 12 then tm.(day := 1, month := 0, year := tm.year + 1)
      else tm.(day := 1, month := tm.month + 1)
    else tm.(day := day)
  }

  /** The fields are compared as unsigned numbers, so a negative one wraps like one past its limit. */
  predicate Wraps(field: int, limit: int) {
    field < 0 || field >= limit
  }

  function NextSecond(tm: Tm): Tm {
    if !Wraps(tm.second + 1, 60) then tm.(second := tm.second + 1)
    else if !Wraps(tm.minute + 1, 60) then tm.(second := 0, minute := tm.minute + 1)
    else if !Wraps(tm.hour + 1, 24) then tm.(second := 0, minute := 0, hour := tm.hour + 1)
    else NextDay(tm.(second := 0, minute := 0, hour := 0))
  }

  /** Whatever the fields hold, a step leaves a second of the minute, and a new day is a day of some month. */
  lemma StepRepairs(tm: Tm)
    ensures 0 <= NextSecond(tm).second < 60
    ensures !(0 <= tm.second + 1 < 60) ==> NextSecond(tm).second == 0 && 0 <= NextSecond(tm).minute < 60
    ensures !(0 <= tm.second + 1 < 60) && !(0 <= tm.minute + 1 < 60) ==>
              NextSecond(tm).minute == 0 && 0 <= NextSecond(tm).hour < 24
    ensures 1 <= NextDay(tm).day <= 31 && (tm.day < 0 ==> NextDay(tm).day == 1)
  {
  }

  // ---- The absolute second number ----------------------------------------------------------------------

  /** Days from 1 January of year 1 to 1 January of the given year, in the Gregorian calendar. */
  function DaysBeforeYear(year: int): int {
    365 * (year - 1) + (year - 1) / 4 - (year - 1) / 100 + (year - 1) / 400
  }

  /** Days before the month in a common year. */
  const DAYS_BEFORE: seq<int> := [0, 31, 59, 90, 120, 151, 181, 212, 243, 273, 304, 334, 365]

  function DaysBeforeMonth(month: int, year: int): int
    requires 0 <= month <= 12
  {
    DAYS_BEFORE[month] + if month > 1 && Leap(year) then 1 else 0
  }

  function DayNumber(tm: Tm): int
    requires tm.Valid()
  {
    DaysBeforeYear(tm.year + 1900) + DaysBeforeMonth(tm.month, tm.year + 1900) + tm.day - 1
  }

  function AbsoluteSecond(tm: Tm): int
    requires tm.Valid()
  {
    86400 * DayNumber(tm) + 3600 * tm.hour + 60 * tm.minute + tm.second
  }

  lemma YearLength(year: int)
    ensures DaysBeforeYear(year + 1) - DaysBeforeYear(year) == DaysBeforeMonth(12, year)
  {
    Quotient(year, 4);
    Quotient(year, 100);
    Quotient(year, 400);
  }

  lemma Quotient(n: int, d: int)
    requires d == 4 || d == 100 || d == 400
    ensures n / d - (n - 1) / d == if n % d == 0 then 1 else 0
  {
  }

  lemma MonthLength(month: int, year: int)
    requires 0 <= month < 12
    ensures DaysBeforeMonth(month + 1, year) - DaysBeforeMonth(month, year) == DaysInMonth(month, year)
  {
  }

  lemma NextDayCounts(tm: Tm)
    requires tm.Valid()
    ensures NextDay(tm).Valid() && DayNumber(NextDay(tm)) == DayNumber(tm) + 1
  {
    if tm.day == DaysInMonth(tm.month, tm.year + 1900) {
      LastOfMonth(tm);
      if tm.month == 11 {
        YearLength(tm.year + 1900);
      }
    }
  }

  lemma LastOfMonth(tm: Tm)
    requires tm.Valid() && tm.day == DaysInMonth(tm.month, tm.year + 1900)
    ensures DayNumber(tm) + 1 == DaysBeforeYear(tm.year + 1900) + DaysBeforeMonth(tm.month + 1, tm.year + 1900)
  {
    MonthLength(tm.month, tm.year + 1900);
  }

  /** One step is one second later, across every carry, month length and leap year. */
  lemma NextSecondCounts(tm: Tm)
    requires tm.Valid()
    ensures NextSecond(tm).Valid() && AbsoluteSecond(NextSecond(tm)) == AbsoluteSecond(tm) + 1
  {
    if tm.second == 59 && tm.minute == 59 && tm.hour == 23 {
      var midnight := tm.(second := 0, minute := 0, hour := 0);
      assert NextSecond(tm) == NextDay(midnight);
      NextDayCounts(midnight);
      assert AbsoluteSecond(tm) == AbsoluteSecond(midnight) + 86399;
    } else {
      WithinDay(tm);
    }
  }

  lemma WithinDay(tm: Tm)
    requires tm.Valid() && !(tm.second == 59 && tm.minute == 59 && tm.hour == 23)
    ensures NextSecond(tm).Valid() && AbsoluteSecond(NextSecond(tm)) == AbsoluteSecond(tm) + 1
  {
    assert DayNumber(NextSecond(tm)) == DayNumber(tm);
  }

  function Advance(tm: Tm, seconds: nat): Tm {
    if seconds == 0 then tm else NextSecond(Advance(tm, seconds - 1))
  }

  /** N steps are N seconds later, for every N. */
  lemma {:induction false} AdvanceCounts(tm: Tm, seconds: nat)
    requires tm.Valid()
    ensures Advance(tm, seconds).Valid()
    ensures AbsoluteSecond(Advance(tm, seconds)) == AbsoluteSecond(tm) + seconds
  {
    if seconds > 0 {
      AdvanceCounts(tm, seconds - 1);
      NextSecondCounts(Advance(tm, seconds - 1));
    }
  }

  lemma {:induction false} YearsApart(a: int, b: int)
    requires a < b
    ensures DaysBeforeYear(a) + DaysBeforeMonth(12, a) <= DaysBeforeYear(b)
    decreases b - a
  {
    YearLength(a);
    if a + 1 < b {
      YearsApart(a + 1, b);
    }
  }

  lemma DayInYear(tm: Tm)
    requires tm.Valid()
    ensures 0 <= DayNumber(tm) - DaysBeforeYear(tm.year + 1900) < DaysBeforeMonth(12, tm.year + 1900)
  {
    MonthLength(tm.month, tm.year + 1900);
    MonthsApart(tm.month + 1, 12, tm.year + 1900);
  }

  lemma MonthsApart(a: int, b: int, year: int)
    requires 0 <= a <= b <= 12
    ensures DaysBeforeMonth(a, year) <= DaysBeforeMonth(b, year)
  {
  }

  /** A valid date and time is determined by its absolute second, so Advance has only one right answer. */
  lemma AbsoluteSecondInjective(s: Tm, t: Tm)
    requires s.Valid() && t.Valid() && AbsoluteSecond(s) == AbsoluteSecond(t)
    ensures s == t
  {
    SplitSecond(s, DayNumber(s), t, DayNumber(t));
    SameDay(s, t);
  }

  lemma SplitSecond(s: Tm, day: int, t: Tm, otherDay: int)
    requires s.ValidTime() && t.ValidTime()
    requires 86400 * day + 3600 * s.hour + 60 * s.minute + s.second ==
             86400 * otherDay + 3600 * t.hour + 60 * t.minute + t.second
    ensures day == otherDay && s.hour == t.hour && s.minute == t.minute && s.second == t.second
  {
  }

  lemma SameDay(s: Tm, t: Tm)
    requires s.Valid() && t.Valid() && DayNumber(s) == DayNumber(t)
    ensures s.year == t.year && s.month == t.month && s.day == t.day
  {
    if s.year < t.year {
      EarlierYear(s, t);
    } else if t.year < s.year {
      EarlierYear(t, s);
    } else {
      SameMonth(s, t);
    }
  }

  lemma EarlierYear(s: Tm, t: Tm)
    requires s.Valid() && t.Valid() && s.year < t.year
    ensures DayNumber(s) < DayNumber(t)
  {
    DayInYear(s);
    DayInYear(t);
    YearsApart(s.year + 1900, t.year + 1900);
  }

  lemma SameMonth(s: Tm, t: Tm)
    requires s.Valid() && t.Valid() && s.year == t.year && DayNumber(s) == DayNumber(t)
    ensures s.month == t.month && s.day == t.day
  {
    MonthLength(s.month, s.year + 1900);
    MonthLength(t.month, s.year + 1900);
    if s.month < t.month {
      MonthsApart(s.month + 1, t.month, s.year + 1900);
    } else if t.month < s.month {
      MonthsApart(t.month + 1, s.month, s.year + 1900);
    }
  }

  /** The date and time N seconds later is the only one the N steps can end in. */
  lemma AdvanceIsUnique(tm: Tm, seconds: nat, later: Tm)
    requires tm.Valid() && later.Valid()
    ensures later == Advance(tm, seconds) <==> AbsoluteSecond(later) == AbsoluteSecond(tm) + seconds
  {
    AdvanceCounts(tm, seconds);
    if AbsoluteSecond(later) == AbsoluteSecond(tm) + seconds {
      AbsoluteSecondInjective(later, Advance(tm, seconds));
    }
  }
}
