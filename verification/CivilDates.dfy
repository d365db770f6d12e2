/** The civil calendar said without day counts: how long each month is, which day comes first, which comes next. */
module CivilDates {
  import opened Calendar

  /** Thirty days have April, June, September and November; February has 29 in a leap year. */
  ghost predicate MonthHas(year: int, month: int, days: int) {
    || (month in {0, 2, 4, 6, 7, 9, 11} && days == 31)
    || (month in {3, 5, 8, 10} && days == 30)
    || (month == 1 && days == if year % 400 == 0 || (year % 4 == 0 && year % 100 != 0) then 29 else 28)
  }

  lemma {:induction false} MonthLengths(year: int, month: int, days: int)
    requires 0 <= month < 12
    ensures MonthHas(year, month, days) <==> days == DaysInMonth(year, month)
  {
  }

  /** e is the day after d. */
  ghost predicate Follows(d: Date, e: Date) {
    || (e == Date(d.year, d.month, d.day + 1) && !MonthHas(d.year, d.month, d.day))
    || (e == Date(d.year, d.month + 1, 1) && d.month < 11 && MonthHas(d.year, d.month, d.day))
    || (e == Date(d.year + 1, 0, 1) && d.month == 11 && MonthHas(d.year, d.month, d.day))
  }

  /** Days are counted from 1 January 1970, and each day number is read as the date after the one before it. */
  lemma {:induction false} DaysAreCounted(day: int)
    ensures day == 0 ==> DateOf(day) == Date(1970, 0, 1)
    ensures Follows(DateOf(day), DateOf(day + 1))
  {
    if day == 0 { FirstOfYear(1970, day); }
    DateOfIsValid(day);
    NextDate(DateOf(day), day, DateOf(day + 1));
  }

  lemma {:induction false} FirstOfYear(year: int, n: int)
    requires n == YearStart(year)
    ensures DateOf(n) == Date(year, 0, 1)
  {
    FirstStarts(year);
    DayNumberInYear(year, 0, 1);
    DateOfNumber(Date(year, 0, 1), n);
  }

  lemma {:induction false} NextDate(d: Date, day: int, e: Date)
    requires ValidDate(d) && day == DayNumber(d.year, d.month, d.day) && e == DateOf(day + 1)
    ensures Follows(d, e)
  {
    MonthLengths(d.year, d.month, d.day);
    if d.day < DaysInMonth(d.year, d.month) {
      NextInMonth(d, day, Date(d.year, d.month, d.day + 1));
    } else if d.month < 11 {
      NextInYear(d, day, Date(d.year, d.month + 1, 1));
    } else {
      NextYear(d, day, Date(d.year + 1, 0, 1));
    }
  }

  lemma {:induction false} NextInMonth(d: Date, day: int, e: Date)
    requires ValidDate(d) && day == DayNumber(d.year, d.month, d.day)
    requires e == Date(d.year, d.month, d.day + 1) && ValidDate(e)
    ensures DateOf(day + 1) == e
  {
    DateOfNumber(e, day + 1);
  }

  lemma {:induction false} NextInYear(d: Date, day: int, e: Date)
    requires ValidDate(d) && day == DayNumber(d.year, d.month, d.day) && d.day == DaysInMonth(d.year, d.month)
    requires e == Date(d.year, d.month + 1, 1) && d.month < 11
    ensures DateOf(day + 1) == e
  {
    LastOfMonth(d.year, d.month, d.day, day);
    FirstOfMonthOf(d.year, d.month + 1, day + 1);
  }

  lemma {:induction false} LastOfMonth(year: int, month: int, last: int, day: int)
    requires 0 <= month < 12 && last == DaysInMonth(year, month) && day == DayNumber(year, month, last)
    ensures day + 1 == YearStart(year) + MonthStart(year, month + 1)
  {
    DayNumberInYear(year, month, last);
    MonthEnds(year, month, last);
  }

  lemma {:induction false} MonthEnds(year: int, month: int, day: int)
    requires 0 <= month < 12 && day == DaysInMonth(year, month)
    ensures MonthStart(year, month) + day == MonthStart(year, month + 1)
  {
  }

  lemma {:induction false} FirstOfMonthOf(year: int, month: int, n: int)
    requires 0 <= month < 12 && n == YearStart(year) + MonthStart(year, month)
    ensures DateOf(n) == Date(year, month, 1)
  {
    DayNumberInYear(year, month, 1);
    DateOfNumber(Date(year, month, 1), n);
  }

  lemma {:induction false} NextYear(d: Date, day: int, e: Date)
    requires ValidDate(d) && day == DayNumber(d.year, d.month, d.day) && d.day == DaysInMonth(d.year, d.month)
    requires e == Date(d.year + 1, 0, 1) && d.month == 11
    ensures DateOf(day + 1) == e
  {
    DayNumberInYear(d.year, 11, d.day);
    DayNumberInYear(d.year + 1, 0, 1);
    FirstStarts(d.year + 1);
    YearLength(d.year);
    DateOfNumber(e, day + 1);
  }

  lemma {:induction false} FirstStarts(year: int)
    ensures MonthStart(year, 0) == 0
  {
  }

  /** A day number is read as a date that its month has. */
  lemma {:induction false} DatesAreCivil(day: int)
    ensures var d := DateOf(day); 0 <= d.month < 12 && exists n :: MonthHas(d.year, d.month, n) && 1 <= d.day <= n
  {
    var d := DateOf(day);
    DateOfIsValid(day);
    MonthLengths(d.year, d.month, DaysInMonth(d.year, d.month));
  }
}
