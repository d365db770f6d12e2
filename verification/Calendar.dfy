/** Civil dates in UTC, as the host's Date computes them: days and milliseconds since 1 January 1970. */
module Calendar {

  const MS_PER_DAY := 86_400_000

  /** A civil date. Months run from 0 to 11, as in the host's Date. */
  datatype Date = Date(year: int, month: int, day: int)

  predicate Leap(year: int) {
    year % 4 == 0 && (year % 100 != 0 || year % 400 == 0)
  }

  /** Days from 1 January 1970 to 1 January of the year. */
  function YearStart(year: int): int {
    365 * (year - 1970) + (year - 1969) / 4 - (year - 1901) / 100 + (year - 1601) / 400
  }

  /** Days of the year before the month; month 12 stands for the next January. */
  function MonthStart(year: int, month: int): int
    requires 0 <= month <= 12
  {
    var commonYear := [0, 31, 59, 90, 120, 151, 181, 212, 243, 273, 304, 334, 365];
    commonYear[month] + if Leap(year) && month >= 2 then 1 else 0
  }

  function DaysInMonth(year: int, month: int): (n: int)
    requires 0 <= month < 12
    ensures 28 <= n <= 31
  {
    MonthStart(year, month + 1) - MonthStart(year, month)
  }

  predicate ValidDate(d: Date) {
    0 <= d.month < 12 && 1 <= d.day <= DaysInMonth(d.year, d.month)
  }

  /** Day number of a date; a month or a day outside its range carries over, as in Date.UTC. */
  function DayNumber(year: int, month: int, day: int): int {
    YearStart(year + month / 12) + MonthStart(year + month / 12, month % 12) + day - 1
  }

  /** The year that contains a day number: a close guess, then one step either way. */
  function YearOf(day: int): int {
    var guess := 1970 + 400 * day / 146097;
    if day < YearStart(guess) then guess - 1
    else if day >= YearStart(guess + 1) then guess + 1
    else guess
  }

  /** The last month, counting back from `month`, that starts on or before the day of the year. */
  function MonthOf(year: int, dayOfYear: int, month: nat): (m: nat)
    requires month < 12
    ensures m <= month
  {
    if month == 0 || MonthStart(year, month) <= dayOfYear then month else MonthOf(year, dayOfYear, month - 1)
  }

  function DateOf(day: int): Date {
    var year := YearOf(day);
    var month := MonthOf(year, day - YearStart(year), 11);
    Date(year, month, day - YearStart(year) - MonthStart(year, month) + 1)
  }

  // ---- the two directions are inverse ----

  /** Counting multiples: one more up to n than up to n - 1 exactly when n is one. */
  lemma {:induction false} OneMore(n: int, k: int)
    requires k > 0
    ensures n / k == (n - 1) / k + if n % k == 0 then 1 else 0
  {
    var q, r := (n - 1) / k, (n - 1) % k;
    assert n - 1 == q * k + r;
    if r == k - 1 {
      Quotient(n, k, q + 1, 0);
    } else {
      Quotient(n, k, q, r + 1);
    }
  }

  lemma {:induction false} Quotient(n: int, k: int, q: int, r: int)
    requires k > 0 && n == q * k + r && 0 <= r < k
    ensures n / k == q && n % k == r
  {
    var d := n / k - q;
    assert d * k == r - n % k;
    assert -k < d * k < k;
    if d >= 1 {
      AtLeast(d, k);
    } else if d <= -1 {
      AtLeast(-d, k);
    }
  }

  lemma {:induction false} AtLeast(d: int, k: int)
    requires d >= 1 && k > 0
    ensures d * k >= k && (-d) * k <= -k
  {
  }

  /** The terms of YearStart count the years before it that have a leap day, one divisor at a time. */
  lemma {:induction false} YearLength(year: int)
    ensures YearStart(year + 1) == YearStart(year) + MonthStart(year, 12)
  {
    LeapTerm(year, 4, 492);
    LeapTerm(year, 100, 19);
    LeapTerm(year, 400, 4);
    if year % 100 == 0 { Multiple(year, 100, 4, 25); }
    if year % 400 == 0 { Multiple(year, 400, 100, 4); }
  }

  /** From the year to the next, a divisor's count grows by one exactly when it divides the year. */
  lemma {:induction false} LeapTerm(year: int, k: int, skipped: int)
    requires k > 0
    ensures (year - k * skipped) / k == (year - k * skipped - 1) / k + if year % k == 0 then 1 else 0
  {
    OneMore(year - k * skipped, k);
    Shift(year / k, skipped, k);
    Quotient(year - k * skipped, k, year / k - skipped, year % k);
  }

  lemma {:induction false} Shift(q: int, t: int, k: int)
    ensures q * k - k * t == (q - t) * k
  {
  }

  lemma {:induction false} Multiple(n: int, k: int, j: int, t: int)
    requires k > 0 && j > 0 && k == j * t && n % k == 0
    ensures n % j == 0
  {
    assert n == (n / k) * k;
    assert (n / k) * (j * t) == ((n / k) * t) * j;
    Quotient(n, j, (n / k) * t, 0);
  }

  lemma {:induction false} YearBracket(day: int)
    ensures var y := YearOf(day); YearStart(y) <= day < YearStart(y + 1)
  {
    var guess := 1970 + 400 * day / 146097;
    YearBounds(guess - 1);
    YearBounds(guess);
    YearBounds(guess + 1);
    YearBounds(guess + 2);
  }

  /** The start of a year is within a few days of the mean of 146097 days to 400 years. */
  lemma {:induction false} YearBounds(year: int)
    ensures 146097 * (year - 1970) - 600 <= 400 * YearStart(year) <= 146097 * (year - 1970) + 600
  {
  }

  lemma {:induction false} YearStartGrows(y: int, z: int)
    requires y < z
    ensures YearStart(y + 1) <= YearStart(z)
    decreases z - y
  {
    if y + 1 < z {
      YearStartGrows(y, z - 1);
      YearLength(z - 1);
    }
  }

  lemma {:induction false} YearIsUnique(day: int, year: int)
    requires YearStart(year) <= day < YearStart(year + 1)
    ensures YearOf(day) == year
  {
    YearBracket(day);
    if YearOf(day) < year { YearStartGrows(YearOf(day), year); }
    if year < YearOf(day) { YearStartGrows(year, YearOf(day)); }
  }

  lemma {:induction false} MonthBracket(year: int, dayOfYear: int, month: nat)
    requires month < 12 && 0 <= dayOfYear < MonthStart(year, month + 1)
    ensures var m := MonthOf(year, dayOfYear, month); MonthStart(year, m) <= dayOfYear < MonthStart(year, m + 1)
  {
    if month != 0 && dayOfYear < MonthStart(year, month) {
      MonthBracket(year, dayOfYear, month - 1);
    }
  }

  lemma {:induction false} MonthStartsGrow(year: int, m: int, n: int)
    requires 0 <= m < n <= 12
    ensures MonthStart(year, m + 1) <= MonthStart(year, n)
  {
  }

  lemma {:induction false} MonthIsUnique(year: int, dayOfYear: int, month: nat)
    requires month < 12 && MonthStart(year, month) <= dayOfYear < MonthStart(year, month + 1)
    ensures MonthOf(year, dayOfYear, 11) == month
    ensures 0 <= dayOfYear < MonthStart(year, 12)
  {
    assert MonthStart(year, 0) <= MonthStart(year, month);
    if month < 11 { MonthStartsGrow(year, month, 12); }
    MonthBracket(year, dayOfYear, 11);
    var m := MonthOf(year, dayOfYear, 11);
    if m < month { MonthStartsGrow(year, m, month); }
    if month < m { MonthStartsGrow(year, month, m); }
  }

  /** Reading a date takes its year, then the month within that year. */
  lemma {:induction false} DateOfParts(n: int, year: int, dayOfYear: int, month: int)
    requires year == YearOf(n) && dayOfYear == n - YearStart(year) && month == MonthOf(year, dayOfYear, 11)
    ensures DateOf(n) == Date(year, month, dayOfYear - MonthStart(year, month) + 1)
  {
  }

  /** Every day number is the number of the date it is read as. */
  lemma {:induction false} DateOfIsValid(day: int)
    ensures var d := DateOf(day); ValidDate(d) && DayNumber(d.year, d.month, d.day) == day
  {
    var year := YearOf(day);
    var dayOfYear := day - YearStart(year);
    var month := MonthOf(year, dayOfYear, 11);
    DayOfYearInRange(day);
    DateOfParts(day, year, dayOfYear, month);
    DateInYear(year, dayOfYear, month, dayOfYear - MonthStart(year, month) + 1);
  }

  lemma {:induction false} DayOfYearInRange(day: int)
    ensures 0 <= day - YearStart(YearOf(day)) < MonthStart(YearOf(day), 12)
  {
    YearBracket(day);
    YearLength(YearOf(day));
  }

  lemma {:induction false} DateInYear(year: int, dayOfYear: int, month: int, day: int)
    requires 0 <= dayOfYear < MonthStart(year, 12)
    requires month == MonthOf(year, dayOfYear, 11) && day == dayOfYear - MonthStart(year, month) + 1
    ensures ValidDate(Date(year, month, day)) && DayNumber(year, month, day) == YearStart(year) + dayOfYear
  {
    MonthBracket(year, dayOfYear, 11);
    DayNumberInYear(year, month, day);
  }

  /** Twelve months on is the same month of the next year. */
  lemma {:induction false} MonthsCarry(year: int, month: int, day: int)
    ensures DayNumber(year, month + 12, day) == DayNumber(year + 1, month, day)
  {
    assert (month + 12) / 12 == month / 12 + 1 && (month + 12) % 12 == month % 12;
  }

  lemma {:induction false} DayNumberInYear(year: int, month: int, day: int)
    requires 0 <= month < 12
    ensures DayNumber(year, month, day) == YearStart(year) + MonthStart(year, month) + day - 1
  {
    assert month / 12 == 0 && month % 12 == month;
  }

  /** Every date is read back from its day number. */
  lemma {:induction false} DateOfDayNumber(d: Date)
    requires ValidDate(d)
    ensures DateOf(DayNumber(d.year, d.month, d.day)) == d
  {
    DayNumberInYear(d.year, d.month, d.day);
    ReadsBack(d, DayNumber(d.year, d.month, d.day), MonthStart(d.year, d.month) + d.day - 1, YearStart(d.year));
  }

  lemma {:induction false} ReadsBack(d: Date, n: int, dayOfYear: int, start: int)
    requires ValidDate(d) && start == YearStart(d.year) && dayOfYear == MonthStart(d.year, d.month) + d.day - 1
    requires n == start + dayOfYear
    ensures DateOf(n) == d
  {
    InsideMonth(d, dayOfYear);
    MonthIsUnique(d.year, dayOfYear, d.month);
    YearLength(d.year);
    YearIsUnique(n, d.year);
    DateOfParts(n, d.year, dayOfYear, d.month);
  }

  lemma {:induction false} InsideMonth(d: Date, dayOfYear: int)
    requires ValidDate(d) && dayOfYear == MonthStart(d.year, d.month) + d.day - 1
    ensures MonthStart(d.year, d.month) <= dayOfYear < MonthStart(d.year, d.month + 1)
  {
  }

  // ---- months counted from January of year 0 ----

  function MonthDays(m: int): (n: int)
    ensures 28 <= n <= 31
  {
    DaysInMonth(m / 12, m % 12)
  }

  /** The day number of the first of the month, by counting months from January 1970. */
  function FirstOfMonth(m: int): int
    decreases if m < 23640 then 23640 - m else m - 23640
  {
    if m == 23640 then 0
    else if m > 23640 then FirstOfMonth(m - 1) + MonthDays(m - 1)
    else FirstOfMonth(m + 1) - MonthDays(m)
  }

  lemma {:induction false} NextMonthStarts(m: int)
    ensures FirstOfMonth(m + 1) == FirstOfMonth(m) + MonthDays(m)
  {
  }

  lemma {:induction false} YearMonthStep(m: int)
    ensures YearStart((m + 1) / 12) + MonthStart((m + 1) / 12, (m + 1) % 12)
         == YearStart(m / 12) + MonthStart(m / 12, m % 12) + MonthDays(m)
  {
    var year, month := m / 12, m % 12;
    if month == 11 {
      assert (m + 1) / 12 == year + 1 && (m + 1) % 12 == 0;
      YearLength(year);
    } else {
      assert (m + 1) / 12 == year && (m + 1) % 12 == month + 1;
    }
  }

  /** The host's year and month tables agree with the count. */
  lemma {:induction false} FirstOfMonthInYear(m: int)
    ensures FirstOfMonth(m) == YearStart(m / 12) + MonthStart(m / 12, m % 12)
    decreases if m < 23640 then 23640 - m else m - 23640
  {
    if m > 23640 {
      FirstOfMonthInYear(m - 1);
      YearMonthStep(m - 1);
    } else if m < 23640 {
      FirstOfMonthInYear(m + 1);
      YearMonthStep(m);
    } else {
      assert YearStart(1970) == 0;
    }
  }

  /** The month a day number falls in. */
  function MonthIndex(day: int): int {
    DateOf(day).year * 12 + DateOf(day).month
  }

  lemma {:induction false} DayInMonth(day: int)
    ensures FirstOfMonth(MonthIndex(day)) <= day < FirstOfMonth(MonthIndex(day) + 1)
  {
    DateOfIsValid(day);
    DateInMonth(DateOf(day), day);
  }

  lemma {:induction false} DateInMonth(d: Date, day: int)
    requires ValidDate(d) && day == DayNumber(d.year, d.month, d.day)
    ensures var m := d.year * 12 + d.month;
      m / 12 == d.year && m % 12 == d.month && FirstOfMonth(m) + d.day - 1 == day && d.day <= MonthDays(m)
      && FirstOfMonth(m) <= day < FirstOfMonth(m + 1)
  {
    var m := d.year * 12 + d.month;
    assert m / 12 == d.year && m % 12 == d.month;
    DayNumberInYear(d.year, d.month, d.day);
    FirstOfMonthInYear(m);
    NextMonthStarts(m);
  }

  /** Day number n, the day-th day of month m, is read as that date. */
  lemma {:induction false} DateInMonthIs(m: int, day: int, n: int, d: Date)
    requires 1 <= day <= MonthDays(m) && n == FirstOfMonth(m) + day - 1 && d == Date(m / 12, m % 12, day)
    ensures DateOf(n) == d
  {
    NumberInMonth(m, day, d);
    DateOfNumber(d, n);
  }

  lemma {:induction false} NumberInMonth(m: int, day: int, d: Date)
    requires d == Date(m / 12, m % 12, day)
    ensures DayNumber(d.year, d.month, d.day) == FirstOfMonth(m) + day - 1
  {
    FirstOfMonthInYear(m);
    DayNumberInYear(m / 12, m % 12, day);
  }

  lemma {:induction false} DateOfNumber(d: Date, n: int)
    requires ValidDate(d) && n == DayNumber(d.year, d.month, d.day)
    ensures DateOf(n) == d
  {
    DateOfDayNumber(d);
  }
}
