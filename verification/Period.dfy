/** The allowance period key: which billing period an instant belongs to. */
module Period {
  import opened Text
  import opened Calendar
  import opened CivilDates

  datatype PeriodError =
    | NotAnInstant      // the instant given does not parse
    | NotAPeriodEnd     // the period end given does not parse
    | NotAKey           // the date is not of the form YYYY-MM-DD
    | BoundaryNotFound  // the bounded search gave up

  const MAX_BOUNDARY_STEPS := 1200

  // ---- instants as text ----

  /** The last `width` decimal digits of n. */
  function Pad(n: int, width: nat): (s: string)
    ensures |s| == width && AllDigits(s)
    decreases width
  {
    if width == 0 then "" else Pad(n / 10, width - 1) + [DigitChar(n % 10)]
  }

  function DateKey(d: Date): string {
    Pad(d.year, 4) + "-" + Pad(d.month + 1, 2) + "-" + Pad(d.day, 2)
  }

  /** Years outside 0..9999 carry a sign and six digits. */
  function IsoDate(d: Date): string {
    if 0 <= d.year <= 9999 then DateKey(d)
    else (if d.year < 0 then "-" + Pad(-d.year, 6) else "+" + Pad(d.year, 6)) + DateKey(d)[4..]
  }

  function IsoTime(t: int): string {
    "T" + Pad(t / 3_600_000, 2) + ":" + Pad(t / 60_000 % 60, 2) + ":" + Pad(t / 1000 % 60, 2) + "." + Pad(t % 1000, 3) + "Z"
  }

  /** toISOString() */
  function Iso(ms: int): string {
    IsoDate(DateOf(ms / MS_PER_DAY)) + IsoTime(ms % MS_PER_DAY)
  }

  /** /^\d{4}-\d{2}-\d{2}$/ */
  predicate IsAllowancePeriodKey(s: string) {
    |s| == 10 && s[4] == '-' && s[7] == '-' && AllDigits(s[..4]) && AllDigits(s[5..7]) && AllDigits(s[8..])
  }

  function AllowancePeriodKey(periodEndIso: string): (r: Result<string, PeriodError>)
    ensures r.Ok? ==> IsAllowancePeriodKey(r.value)
  {
    var day := if |periodEndIso| < 10 then periodEndIso else periodEndIso[..10];
    if IsAllowancePeriodKey(day) then Ok(day) else Err(NotAKey)
  }

  /** The key of the period that ends at an instant. */
  function KeyOf(end: int): Result<string, PeriodError> {
    AllowancePeriodKey(Iso(end))
  }

  // ---- boundaries ----

  /** Date.UTC reads the years 0 to 99 as 1900 to 1999. */
  function UtcYear(year: int): int {
    if 0 <= year <= 99 then 1900 + year else year
  }

  function DateUtc(year: int, month: int, day: int): int {
    DayNumber(UtcYear(year), month, day) * MS_PER_DAY
  }

  /** The billing anchor: the day of the month and the time of day a period ends. */
  datatype Anchor = Anchor(year: int, month: int, day: int, ms: int)

  function AnchorOf(end: int): Anchor {
    var d := DateOf(end / MS_PER_DAY);
    Anchor(d.year, d.month, d.day, end % MS_PER_DAY)
  }

  /** new Date(Date.UTC(year, month + 1, 0)).getUTCDate() */
  function LastDate(year: int, month: int): int {
    DateOf(DateUtc(year, month + 1, 0) / MS_PER_DAY).day
  }

  /** A day the month lacks becomes its last day. */
  function ClampedUtc(year: int, month: int, day: int): int {
    var daysInMonth := LastDate(year, month);
    DateUtc(year, month, if day < daysInMonth then day else daysInMonth)
  }

  /** The k-th boundary from the anchor. */
  function BoundaryAt(anchor: Anchor, k: int): int {
    var absolute := anchor.year * 12 + anchor.month + k;
    ClampedUtc(absolute / 12, absolute % 12, anchor.day) + anchor.ms
  }

  // ---- boundaries without the two-digit years ----

  function Clamp(day: int, m: int): int {
    if day < MonthDays(m) then day else MonthDays(m)
  }

  /** The boundary of anchor day `day` and time of day `ms` in month m, months counted from year 0. */
  function Boundary(day: int, ms: int, m: int): int {
    (FirstOfMonth(m) + Clamp(day, m) - 1) * MS_PER_DAY + ms
  }

  predicate ValidAnchor(day: int, ms: int) {
    1 <= day <= 31 && 0 <= ms < MS_PER_DAY
  }

  predicate PlainMonth(m: int) {
    !(0 <= m / 12 <= 99)
  }

  lemma {:induction false} DateUtcIsPlain(m: int, day: int)
    requires PlainMonth(m)
    ensures DateUtc(m / 12, m % 12, day) == (FirstOfMonth(m) + day - 1) * MS_PER_DAY
    ensures DateUtc(m / 12, m % 12 + 1, day) == (FirstOfMonth(m) + MonthDays(m) + day - 1) * MS_PER_DAY
  {
    FirstOfMonthInYear(m);
    DayNumberInYear(m / 12, m % 12, day);
    NextMonthInYear(m / 12, m % 12, day);
  }

  /** A day counted from the month after, which for December is the next January. */
  lemma {:induction false} NextMonthInYear(year: int, month: int, day: int)
    requires 0 <= month < 12
    ensures DayNumber(year, month + 1, day) == YearStart(year) + MonthStart(year, month + 1) + day - 1
  {
    if month == 11 {
      assert (month + 1) / 12 == 1 && (month + 1) % 12 == 0;
      YearLength(year);
    } else {
      DayNumberInYear(year, month + 1, day);
    }
  }

  /** Day 0 of the next month is the last day of this one. */
  lemma {:induction false} LastDateIsMonthDays(m: int)
    requires PlainMonth(m)
    ensures LastDate(m / 12, m % 12) == MonthDays(m)
  {
    DateUtcIsPlain(m, 0);
    var n := DateUtc(m / 12, m % 12 + 1, 0) / MS_PER_DAY;
    DateInMonthIs(m, MonthDays(m), n, Date(m / 12, m % 12, MonthDays(m)));
  }

  lemma {:induction false} ClampedUtcIsPlain(m: int, day: int, ms: int)
    requires PlainMonth(m)
    ensures ClampedUtc(m / 12, m % 12, day) + ms == Boundary(day, ms, m)
  {
    LastDateIsMonthDays(m);
    DateUtcIsPlain(m, Clamp(day, m));
  }

  lemma {:induction false} BoundaryIsPlain(anchor: Anchor, k: int, m: int)
    requires m == anchor.year * 12 + anchor.month + k && PlainMonth(m)
    ensures BoundaryAt(anchor, k) == Boundary(anchor.day, anchor.ms, m)
  {
    ClampedUtcIsPlain(m, anchor.day, anchor.ms);
  }

  /** In the years 0 to 99, which Date.UTC takes for 1900 to 1999, a boundary is the one 1900 years later. */
  lemma {:induction false} BoundaryOfEarlyYear(anchor: Anchor, k: int, m: int)
    requires m == anchor.year * 12 + anchor.month + k && !PlainMonth(m)
    ensures BoundaryAt(anchor, k) == Boundary(anchor.day, anchor.ms, m + 12 * 1900)
  {
    var late := m + 12 * 1900;
    assert late / 12 == m / 12 + 1900 && late % 12 == m % 12;
    SameUtc(m / 12, late / 12, m % 12, anchor.day);
    ClampedUtcIsPlain(late, anchor.day, anchor.ms);
  }

  lemma {:induction false} SameUtc(year: int, late: int, month: int, day: int)
    requires 0 <= year <= 99 && late == year + 1900
    ensures ClampedUtc(year, month, day) == ClampedUtc(late, month, day)
  {
  }

  /** Consecutive boundaries are 28 to 31 days apart. */
  lemma {:induction false} BoundaryGap(day: int, ms: int, m: int)
    requires ValidAnchor(day, ms)
    ensures 28 * MS_PER_DAY <= Boundary(day, ms, m + 1) - Boundary(day, ms, m) <= 31 * MS_PER_DAY
  {
    NextMonthStarts(m);
  }

  lemma {:induction false} StepsGrow(f: int -> int, gap: nat, m: int, n: int)
    requires m < n && forall k :: f(k) + gap <= f(k + 1)
    ensures f(m) + gap <= f(n)
    decreases n - m
  {
    assert f(n - 1) + gap <= f(n - 1 + 1);
    if m < n - 1 {
      StepsGrow(f, gap, m, n - 1);
    }
  }

  /** Later boundaries come later, by at least 28 days. */
  lemma {:induction false} BoundaryGrows(day: int, ms: int, m: int, n: int)
    requires ValidAnchor(day, ms) && m < n
    ensures Boundary(day, ms, m) + 28 * MS_PER_DAY <= Boundary(day, ms, n)
  {
    var f := k => Boundary(day, ms, k);
    forall k
      ensures f(k) + 28 * MS_PER_DAY <= f(k + 1)
    {
      BoundaryGap(day, ms, k);
    }
    StepsGrow(f, 28 * MS_PER_DAY, m, n);
  }

  // ---- the period of an instant ----

  /** The month of the first boundary strictly after an instant of month m. */
  function PeriodMonth(day: int, ms: int, at: int, m: int): int {
    if Boundary(day, ms, m) > at then m else m + 1
  }

  predicate InMonth(at: int, m: int) {
    FirstOfMonth(m) * MS_PER_DAY <= at < FirstOfMonth(m + 1) * MS_PER_DAY
  }

  lemma {:induction false} InstantInMonth(at: int, day: int)
    requires day == at / MS_PER_DAY
    ensures InMonth(at, MonthIndex(day))
  {
    DayInMonth(day);
    InstantOfDay(at, day, FirstOfMonth(MonthIndex(day)), FirstOfMonth(MonthIndex(day) + 1));
  }

  lemma {:induction false} InstantOfDay(at: int, day: int, lo: int, hi: int)
    requires day == at / MS_PER_DAY && lo <= day < hi
    ensures lo * MS_PER_DAY <= at < hi * MS_PER_DAY
  {
  }

  /** The previous month's boundary is never after the instant, the next month's always is. */
  lemma {:induction false} NeighbourBoundaries(day: int, ms: int, at: int, m: int)
    requires ValidAnchor(day, ms) && InMonth(at, m)
    ensures Boundary(day, ms, m - 1) <= at < Boundary(day, ms, m + 1)
  {
    NextMonthStarts(m - 1);
  }

  lemma {:induction false} PeriodBrackets(day: int, ms: int, at: int, m: int)
    requires ValidAnchor(day, ms) && InMonth(at, m)
    ensures var p := PeriodMonth(day, ms, at, m); Boundary(day, ms, p - 1) <= at < Boundary(day, ms, p)
  {
    NeighbourBoundaries(day, ms, at, m);
  }

  /** Only one period holds an instant. */
  lemma {:induction false} PeriodIsUnique(day: int, ms: int, at: int, p: int, q: int)
    requires ValidAnchor(day, ms)
    requires Boundary(day, ms, p - 1) <= at < Boundary(day, ms, p)
    requires Boundary(day, ms, q - 1) <= at < Boundary(day, ms, q)
    ensures p == q
  {
    if p < q - 1 { BoundaryGrows(day, ms, p, q - 1); }
    if q < p - 1 { BoundaryGrows(day, ms, q, p - 1); }
  }

  // ---- keys ----

  lemma {:induction false} PadIsInjective(a: int, b: int, width: nat, bound: int)
    requires 0 <= a < bound && 0 <= b < bound && bound == Power10(width)
    requires Pad(a, width) == Pad(b, width)
    ensures a == b
    decreases width
  {
    if width > 0 {
      var s := Pad(a, width);
      assert s[..width - 1] == Pad(a / 10, width - 1) && s[..width - 1] == Pad(b / 10, width - 1);
      assert DigitValue(s[width - 1]) == a % 10 && DigitValue(s[width - 1]) == b % 10;
      PadIsInjective(a / 10, b / 10, width - 1, Power10(width - 1));
    }
  }

  lemma {:induction false} DateKeyShape(d: Date)
    ensures var s := DateKey(d);
      && IsAllowancePeriodKey(s)
      && s[..4] == Pad(d.year, 4) && s[5..7] == Pad(d.month + 1, 2) && s[8..] == Pad(d.day, 2)
  {
    var s, y, m, a := DateKey(d), Pad(d.year, 4), Pad(d.month + 1, 2), Pad(d.day, 2);
    assert s == y + "-" + m + "-" + a;
    assert s[..4] == y && s[5..7] == m && s[8..] == a;
  }

  predicate FourDigitYear(d: Date) {
    0 <= d.year <= 9999 && 0 <= d.month < 12 && 1 <= d.day <= 31
  }

  /** Distinct dates have distinct keys. */
  lemma {:induction false} DateKeyIsInjective(c: Date, d: Date)
    requires FourDigitYear(c) && FourDigitYear(d) && DateKey(c) == DateKey(d)
    ensures c == d
  {
    assert Power10(2) == 100 && Power10(4) == 10_000;
    DateKeyShape(c);
    DateKeyShape(d);
    PadIsInjective(c.year, d.year, 4, 10_000);
    PadIsInjective(c.month + 1, d.month + 1, 2, 100);
    PadIsInjective(c.day, d.day, 2, 100);
  }

  /** An instant of a four-digit year has its date as key. */
  lemma {:induction false} KeyOfDate(ms: int, d: Date)
    requires d == DateOf(ms / MS_PER_DAY) && 0 <= d.year <= 9999
    ensures KeyOf(ms) == Ok(DateKey(d))
  {
    DateKeyShape(d);
    assert (DateKey(d) + IsoTime(ms % MS_PER_DAY))[..10] == DateKey(d);
  }

  lemma {:induction false} BoundaryDate(day: int, ms: int, m: int, n: int, d: Date)
    requires ValidAnchor(day, ms)
    requires n == Boundary(day, ms, m) / MS_PER_DAY && d == Date(m / 12, m % 12, Clamp(day, m))
    ensures DateOf(n) == d && Boundary(day, ms, m) % MS_PER_DAY == ms
  {
    assert n == FirstOfMonth(m) + Clamp(day, m) - 1;
    DateInMonthIs(m, Clamp(day, m), n, d);
  }

  lemma {:induction false} KeyOfBoundary(day: int, ms: int, m: int, d: Date)
    requires ValidAnchor(day, ms) && d == Date(m / 12, m % 12, Clamp(day, m)) && 0 <= d.year <= 9999
    ensures KeyOf(Boundary(day, ms, m)) == Ok(DateKey(d))
  {
    var b := Boundary(day, ms, m);
    BoundaryDate(day, ms, m, b / MS_PER_DAY, d);
    KeyOfDate(b, d);
  }

  /** The key writes the date as year, month from 01 and day, most significant digit first. */
  ghost predicate KeyNames(key: string, d: Date) {
    && |key| == 10 && key[4] == '-' && key[7] == '-'
    && (forall i | 0 <= i < 10 && i != 4 && i != 7 :: '0' <= key[i] <= '9')
    && d.year == 1000 * Digit(key[0]) + 100 * Digit(key[1]) + 10 * Digit(key[2]) + Digit(key[3])
    && d.month + 1 == 10 * Digit(key[5]) + Digit(key[6])
    && d.day == 10 * Digit(key[8]) + Digit(key[9])
  }

  ghost function Digit(c: char): int {
    c as int - '0' as int
  }

  lemma {:induction false} PadTwo(n: int, s: string)
    requires 0 <= n < 100 && s == Pad(n, 2)
    ensures '0' <= s[0] <= '9' && '0' <= s[1] <= '9' && n == 10 * Digit(s[0]) + Digit(s[1])
  {
    assert Pad(n, 2) == Pad(n / 10, 1) + [DigitChar(n % 10)];
    assert Pad(n / 10, 1) == Pad(n / 10 / 10, 0) + [DigitChar(n / 10 % 10)];
  }

  lemma {:induction false} PadFour(n: int, s: string)
    requires 0 <= n < 10_000 && s == Pad(n, 4)
    ensures forall i | 0 <= i < 4 :: '0' <= s[i] <= '9'
    ensures n == 1000 * Digit(s[0]) + 100 * Digit(s[1]) + 10 * Digit(s[2]) + Digit(s[3])
  {
    assert s == Pad(n / 10, 3) + [DigitChar(n % 10)];
    assert Pad(n / 10, 3) == Pad(n / 10 / 10, 2) + [DigitChar(n / 10 % 10)];
    PadTwo(n / 10 / 10, Pad(n / 10 / 10, 2));
  }

  lemma {:induction false} DateKeyNames(d: Date)
    requires FourDigitYear(d)
    ensures KeyNames(DateKey(d), d)
  {
    DateKeyShape(d);
    var s := DateKey(d);
    PadFour(d.year, s[..4]);
    PadTwo(d.month + 1, s[5..7]);
    PadTwo(d.day, s[8..]);
    assert forall i | 0 <= i < 4 :: s[i] == s[..4][i];
    assert s[5] == s[5..7][0] && s[6] == s[5..7][1] && s[8] == s[8..][0] && s[9] == s[8..][1];
  }

  /** An instant has a key exactly in the years 0 to 9999, and there it names the instant's UTC date. */
  lemma {:induction false} KeyNamesDate(end: int)
    ensures var d := DateOf(end / MS_PER_DAY);
      && (KeyOf(end).Ok? <==> 0 <= d.year <= 9999)
      && (KeyOf(end).Ok? ==> KeyNames(KeyOf(end).value, d))
      && (KeyOf(end).Err? ==> KeyOf(end).error == NotAKey)
  {
    var d := DateOf(end / MS_PER_DAY);
    DateOfIsValid(end / MS_PER_DAY);
    if 0 <= d.year <= 9999 {
      KeyOfDate(end, d);
      DateKeyNames(d);
    } else {
      SignedIsNoKey(Iso(end), if d.year < 0 then '-' else '+');
    }
  }

  lemma {:induction false} SignedIsNoKey(iso: string, sign: char)
    requires |iso| >= 10 && iso[0] == sign && !IsDigit(sign)
    ensures AllowancePeriodKey(iso) == Err(NotAKey)
  {
    assert iso[..10][..4][0] == sign;
  }

  /** The time of day in hours, minutes, seconds and milliseconds. */
  lemma {:induction false} IsoTimeReads(t: int)
    requires 0 <= t < MS_PER_DAY
    ensures var s := IsoTime(t);
      && |s| == 14 && s[0] == 'T' && s[3] == ':' && s[6] == ':' && s[9] == '.' && s[13] == 'Z'
      && (forall i | 0 <= i < 14 && i !in {0, 3, 6, 9, 13} :: '0' <= s[i] <= '9')
      && Clock(t, 10 * Digit(s[1]) + Digit(s[2]), 10 * Digit(s[4]) + Digit(s[5]), 10 * Digit(s[7]) + Digit(s[8]),
               100 * Digit(s[10]) + 10 * Digit(s[11]) + Digit(s[12]))
  {
    var h, m, sec, ms := t / 3_600_000, t / 60_000 % 60, t / 1000 % 60, t % 1000;
    Clocked(t, h, m, sec, ms);
    PadTwo(h, Pad(h, 2));
    PadTwo(m, Pad(m, 2));
    PadTwo(sec, Pad(sec, 2));
    PadThree(ms, Pad(ms, 3));
    TimeParts(Pad(h, 2), Pad(m, 2), Pad(sec, 2), Pad(ms, 3), IsoTime(t));
  }

  lemma {:induction false} Clocked(t: int, h: int, m: int, s: int, ms: int)
    requires 0 <= t < MS_PER_DAY
    requires h == t / 3_600_000 && m == t / 60_000 % 60 && s == t / 1000 % 60 && ms == t % 1000
    ensures Clock(t, h, m, s, ms)
  {
    var seconds := t / 1000;
    var minutes := seconds / 60;
    Quotient(t, 60_000, minutes, seconds % 60 * 1000 + ms);
    Quotient(t, 3_600_000, minutes / 60, minutes % 60 * 60_000 + seconds % 60 * 1000 + ms);
  }

  lemma {:induction false} TimeParts(h: string, m: string, s: string, ms: string, time: string)
    requires |h| == |m| == |s| == 2 && |ms| == 3 && time == "T" + h + ":" + m + ":" + s + "." + ms + "Z"
    ensures |time| == 14 && time[0] == 'T' && time[3] == ':' && time[6] == ':' && time[9] == '.' && time[13] == 'Z'
    ensures time[1] == h[0] && time[2] == h[1] && time[4] == m[0] && time[5] == m[1] && time[7] == s[0] && time[8] == s[1]
    ensures time[10] == ms[0] && time[11] == ms[1] && time[12] == ms[2]
  {
  }

  lemma {:induction false} PadThree(n: int, s: string)
    requires 0 <= n < 1000 && s == Pad(n, 3)
    ensures forall i | 0 <= i < 3 :: '0' <= s[i] <= '9'
    ensures n == 100 * Digit(s[0]) + 10 * Digit(s[1]) + Digit(s[2])
  {
    assert s == Pad(n / 10, 2) + [DigitChar(n % 10)];
    PadTwo(n / 10, Pad(n / 10, 2));
  }

  ghost predicate Clock(t: int, h: int, m: int, s: int, ms: int) {
    0 <= h < 24 && 0 <= m < 60 && 0 <= s < 60 && 0 <= ms < 1000 && t == ((h * 60 + m) * 60 + s) * 1000 + ms
  }

  // ---- renewals ----

  /** t is an instant at which a subscription with this period end renews: at the same time of day, on the same day of
      its month, or on the last day of a month that lacks it. */
  ghost predicate Renews(end: int, t: int) {
    var d, e := DateOf(t / MS_PER_DAY), DateOf(end / MS_PER_DAY);
    && t % MS_PER_DAY == end % MS_PER_DAY
    && exists n | MonthHas(d.year, d.month, n) :: d.day == if e.day <= n then e.day else n
  }

  /** t is the first renewal strictly after the instant. */
  ghost predicate NextRenewal(end: int, at: int, t: int) {
    Renews(end, t) && at < t && forall s | Renews(end, s) && at < s :: t <= s
  }

  lemma {:induction false} RenewsOnBoundary(end: int, t: int, m: int)
    requires m == MonthIndex(t / MS_PER_DAY)
    ensures Renews(end, t) <==> t == Boundary(AnchorOf(end).day, AnchorOf(end).ms, m)
  {
    var day := t / MS_PER_DAY;
    var d, n := DateOf(day), MonthDays(m);
    DateOfIsValid(day);
    DateInMonth(d, day);
    RenewsOn(end, t, d, DateOf(end / MS_PER_DAY), n);
    OnBoundary(t, day, FirstOfMonth(m), d.day, Clamp(AnchorOf(end).day, m), end % MS_PER_DAY);
  }

  lemma {:induction false} RenewsOn(end: int, t: int, d: Date, e: Date, n: int)
    requires d == DateOf(t / MS_PER_DAY) && e == DateOf(end / MS_PER_DAY) && 0 <= d.month < 12
    requires n == DaysInMonth(d.year, d.month)
    ensures Renews(end, t) <==> t % MS_PER_DAY == end % MS_PER_DAY && d.day == if e.day <= n then e.day else n
  {
    MonthLengths(d.year, d.month, n);
    if k :| MonthHas(d.year, d.month, k) {
      MonthLengths(d.year, d.month, k);
    }
  }

  lemma {:induction false} OnBoundary(t: int, day: int, first: int, date: int, clamped: int, ms: int)
    requires day == t / MS_PER_DAY && day == first + date - 1 && 0 <= ms < MS_PER_DAY
    ensures t % MS_PER_DAY == ms && date == clamped <==> t == (first + clamped - 1) * MS_PER_DAY + ms
  {
  }

  lemma {:induction false} BoundaryRenews(end: int, m: int)
    ensures Renews(end, Boundary(AnchorOf(end).day, AnchorOf(end).ms, m))
  {
    var a := AnchorOf(end);
    var b := Boundary(a.day, a.ms, m);
    AnchorIsValid(end);
    BoundaryDate(a.day, a.ms, m, b / MS_PER_DAY, Date(m / 12, m % 12, Clamp(a.day, m)));
    RenewsOnBoundary(end, b, m);
  }

  /** The first boundary after an instant is the next renewal. */
  lemma {:induction false} BoundaryIsNextRenewal(end: int, at: int, p: int)
    requires Boundary(AnchorOf(end).day, AnchorOf(end).ms, p - 1) <= at < Boundary(AnchorOf(end).day, AnchorOf(end).ms, p)
    ensures NextRenewal(end, at, Boundary(AnchorOf(end).day, AnchorOf(end).ms, p))
  {
    var a := AnchorOf(end);
    AnchorIsValid(end);
    BoundaryRenews(end, p);
    forall s | Renews(end, s) && at < s
      ensures Boundary(a.day, a.ms, p) <= s
    {
      var q := MonthIndex(s / MS_PER_DAY);
      RenewsOnBoundary(end, s, q);
      NotBefore(a.day, a.ms, at, p, q);
    }
  }

  lemma {:induction false} NotBefore(day: int, ms: int, at: int, p: int, q: int)
    requires ValidAnchor(day, ms) && Boundary(day, ms, p - 1) <= at < Boundary(day, ms, q)
    ensures Boundary(day, ms, p) <= Boundary(day, ms, q)
  {
    if q < p - 1 { BoundaryGrows(day, ms, q, p - 1); }
    if p < q { BoundaryGrows(day, ms, p, q); }
  }

  lemma {:induction false} KeyAtNextRenewal(at: int, end: int)
    requires Ordinary(at)
    ensures KeyAt(at, end).Ok?
    ensures exists t | NextRenewal(end, at, t) :: KeyNames(KeyAt(at, end).value, DateOf(t / MS_PER_DAY))
  {
    KeyAtNamesRenewal(at, end, PeriodOf(at, end), Boundary(AnchorOf(end).day, AnchorOf(end).ms, PeriodOf(at, end)));
  }

  /** The key of an instant in an ordinary year names the UTC date of the next renewal. */
  lemma {:induction false} KeyAtNamesRenewal(at: int, end: int, p: int, t: int)
    requires Ordinary(at) && p == PeriodOf(at, end) && t == Boundary(AnchorOf(end).day, AnchorOf(end).ms, p)
    ensures NextRenewal(end, at, t)
    ensures KeyAt(at, end).Ok? && KeyNames(KeyAt(at, end).value, DateOf(t / MS_PER_DAY))
  {
    var a := AnchorOf(end);
    AnchorIsValid(end);
    PeriodOfBrackets(at, end, a, p);
    BoundaryIsNextRenewal(end, at, p);
    var d := Date(p / 12, p % 12, Clamp(a.day, p));
    KeyAtIsDate(at, end, p, d);
    BoundaryDate(a.day, a.ms, p, t / MS_PER_DAY, d);
    DateKeyNames(d);
  }

  // ---- the search ----

  /** Years that Date.UTC takes as they are, whose neighbours do too and print as four digits. */
  predicate Ordinary(at: int) {
    101 <= DateOf(at / MS_PER_DAY).year <= 9998
  }

  /** Up, then down, from an estimate, each walk bounded. Whatever it returns is bracketed; from an
      estimate whose next boundary but one is past the instant, the answer is one or two steps up. */
  method FirstBoundaryAfter(boundary: int -> int, at: int, estimate: int) returns (r: Option<int>)
    ensures r.Some? ==> boundary(r.value - 1) <= at < boundary(r.value)
    ensures boundary(estimate) <= at < boundary(estimate + 2) ==>
              r == Some(if boundary(estimate + 1) > at then estimate + 1 else estimate + 2)
  {
    ghost var close := boundary(estimate) <= at < boundary(estimate + 2);
    ghost var answer := if boundary(estimate + 1) > at then estimate + 1 else estimate + 2;
    var k := estimate;
    var steps := 0;
    while boundary(k) <= at
      invariant steps <= MAX_BOUNDARY_STEPS && k == estimate + steps
      invariant close ==> k <= answer
      invariant k > estimate ==> boundary(k - 1) <= at
      decreases MAX_BOUNDARY_STEPS - steps
    {
      k := k + 1;
      steps := steps + 1;
      if steps > MAX_BOUNDARY_STEPS { return None; }
    }
    assert close ==> 1 <= steps <= 2;
    steps := 0;
    while boundary(k - 1) > at
      invariant steps <= MAX_BOUNDARY_STEPS && boundary(k) > at
      invariant close ==> k == answer && boundary(k - 1) <= at
      decreases MAX_BOUNDARY_STEPS - steps
    {
      k := k - 1;
      steps := steps + 1;
      if steps > MAX_BOUNDARY_STEPS { return None; }
    }
    r := Some(k);
  }

  /** The key of the period that holds an instant: the date of the first boundary after it. */
  function KeyAt(at: int, end: int): Result<string, PeriodError> {
    var a := AnchorOf(end);
    KeyOf(Boundary(a.day, a.ms, PeriodMonth(a.day, a.ms, at, MonthIndex(at / MS_PER_DAY))))
  }

  /** In whatever year: the key of the first boundary after the instant. */
  ghost predicate Bracketed(boundary: int -> int, key: int -> Result<string, PeriodError>, at: int, r: Result<string, PeriodError>) {
    exists k :: boundary(k - 1) <= at < boundary(k) && r == key(boundary(k))
  }

  function BoundariesOf(end: int): int -> int {
    var anchor := AnchorOf(end);
    k => BoundaryAt(anchor, k)
  }

  method SearchKey(boundary: int -> int, key: int -> Result<string, PeriodError>, at: int, estimate: int)
    returns (r: Result<string, PeriodError>)
    ensures r == Err(BoundaryNotFound) || Bracketed(boundary, key, at, r)
    ensures boundary(estimate) <= at < boundary(estimate + 2) ==>
              r == key(boundary(if boundary(estimate + 1) > at then estimate + 1 else estimate + 2))
  {
    var found := FirstBoundaryAfter(boundary, at, estimate);
    if found.None? { return Err(BoundaryNotFound); }
    r := key(boundary(found.value));
  }

  method AllowancePeriodKeyAt(atIso: Option<int>, currentPeriodEnd: Option<int>)
    returns (r: Result<string, PeriodError>)
    ensures atIso.None? ==> r == Err(NotAnInstant)
    ensures atIso.Some? && currentPeriodEnd.None? ==> r == Err(NotAPeriodEnd)
    ensures atIso.Some? && currentPeriodEnd.Some? && Ordinary(atIso.value) ==>
              r == KeyAt(atIso.value, currentPeriodEnd.value)
    ensures atIso.Some? && currentPeriodEnd.Some? && Ordinary(atIso.value) ==>
              r.Ok? && exists t | NextRenewal(currentPeriodEnd.value, atIso.value, t) ::
                         KeyNames(r.value, DateOf(t / MS_PER_DAY))
    ensures atIso.Some? && currentPeriodEnd.Some? ==>
              r == Err(BoundaryNotFound) || Bracketed(BoundariesOf(currentPeriodEnd.value), KeyOf, atIso.value, r)
  {
    if atIso.None? { return Err(NotAnInstant); }
    if currentPeriodEnd.None? { return Err(NotAPeriodEnd); }
    var at := atIso.value;
    var anchor := AnchorOf(currentPeriodEnd.value);
    var atDate := DateOf(at / MS_PER_DAY);
    var k := (atDate.year - anchor.year) * 12 + (atDate.month - anchor.month) - 1;
    var boundary := BoundariesOf(currentPeriodEnd.value);
    if Ordinary(at) {
      EstimateIsClose(at, anchor, currentPeriodEnd.value, k, boundary);
      KeyAtNextRenewal(at, currentPeriodEnd.value);
    }
    r := SearchKey(boundary, KeyOf, at, k);
  }

  lemma {:induction false} AnchorIsValid(end: int)
    ensures ValidAnchor(AnchorOf(end).day, AnchorOf(end).ms)
  {
    DateOfIsValid(end / MS_PER_DAY);
  }

  lemma {:induction false} OrdinaryMonths(at: int, m: int)
    requires Ordinary(at) && m == MonthIndex(at / MS_PER_DAY)
    ensures PlainMonth(m - 1) && PlainMonth(m) && PlainMonth(m + 1)
    ensures 100 <= (m - 1) / 12 && (m + 1) / 12 <= 9999
  {
    DateOfIsValid(at / MS_PER_DAY);
  }

  lemma {:induction false} EstimateIsClose(at: int, anchor: Anchor, end: int, k: int, boundary: int -> int)
    requires Ordinary(at) && anchor == AnchorOf(end)
    requires k == MonthIndex(at / MS_PER_DAY) - anchor.year * 12 - anchor.month - 1
    requires forall j :: boundary(j) == BoundaryAt(anchor, j)
    ensures boundary(k) <= at < boundary(k + 2)
    ensures KeyAt(at, end) == KeyOf(boundary(if boundary(k + 1) > at then k + 1 else k + 2))
  {
    var m := MonthIndex(at / MS_PER_DAY);
    AnchorIsValid(end);
    OrdinaryMonths(at, m);
    InstantInMonth(at, at / MS_PER_DAY);
    EstimateInMonth(at, anchor, m, k, boundary(k), boundary(k + 1), boundary(k + 2));
  }

  lemma {:induction false} EstimateInMonth(at: int, anchor: Anchor, m: int, k: int, b0: int, b1: int, b2: int)
    requires ValidAnchor(anchor.day, anchor.ms) && InMonth(at, m)
    requires PlainMonth(m - 1) && PlainMonth(m) && PlainMonth(m + 1)
    requires k == m - anchor.year * 12 - anchor.month - 1
    requires b0 == BoundaryAt(anchor, k) && b1 == BoundaryAt(anchor, k + 1) && b2 == BoundaryAt(anchor, k + 2)
    ensures b0 <= at < b2
    ensures Boundary(anchor.day, anchor.ms, PeriodMonth(anchor.day, anchor.ms, at, m)) == if b1 > at then b1 else b2
  {
    BoundaryHere(anchor, k, m - 1, b0);
    BoundaryHere(anchor, k + 1, m, b1);
    BoundaryHere(anchor, k + 2, m + 1, b2);
    PlainEstimate(at, anchor.day, anchor.ms, m, b0, b1, b2);
  }

  lemma {:induction false} BoundaryHere(anchor: Anchor, k: int, m: int, b: int)
    requires m == anchor.year * 12 + anchor.month + k && PlainMonth(m)
    requires b == BoundaryAt(anchor, k)
    ensures b == Boundary(anchor.day, anchor.ms, m)
  {
    BoundaryIsPlain(anchor, k, m);
  }

  lemma {:induction false} PlainEstimate(at: int, day: int, ms: int, m: int, b0: int, b1: int, b2: int)
    requires ValidAnchor(day, ms) && InMonth(at, m)
    requires b0 == Boundary(day, ms, m - 1) && b1 == Boundary(day, ms, m) && b2 == Boundary(day, ms, m + 1)
    ensures b0 <= at < b2
    ensures Boundary(day, ms, PeriodMonth(day, ms, at, m)) == if b1 > at then b1 else b2
  {
    NeighbourBoundaries(day, ms, at, m);
  }

  // ---- what the key tells apart ----

  lemma {:induction false} KeyAtIsDate(at: int, end: int, p: int, d: Date)
    requires Ordinary(at) && p == PeriodOf(at, end)
    requires d == Date(p / 12, p % 12, Clamp(AnchorOf(end).day, p))
    ensures FourDigitYear(d) && KeyAt(at, end) == Ok(DateKey(d))
  {
    var a := AnchorOf(end);
    AnchorIsValid(end);
    OrdinaryMonths(at, MonthIndex(at / MS_PER_DAY));
    KeyOfBoundary(a.day, a.ms, p, d);
  }

  /** The month in which the period of an instant ends. */
  function PeriodOf(at: int, end: int): int {
    PeriodMonth(AnchorOf(end).day, AnchorOf(end).ms, at, MonthIndex(at / MS_PER_DAY))
  }

  lemma {:induction false} PeriodOfBrackets(at: int, end: int, a: Anchor, p: int)
    requires a == AnchorOf(end) && p == PeriodOf(at, end)
    ensures Boundary(a.day, a.ms, p - 1) <= at < Boundary(a.day, a.ms, p)
  {
    AnchorIsValid(end);
    InstantInMonth(at, at / MS_PER_DAY);
    PeriodBrackets(a.day, a.ms, at, MonthIndex(at / MS_PER_DAY));
  }

  lemma {:induction false} SameKeySameMonth(at: int, other: int, end: int, p: int, q: int)
    requires Ordinary(at) && Ordinary(other) && p == PeriodOf(at, end) && q == PeriodOf(other, end)
    ensures KeyAt(at, end) == KeyAt(other, end) <==> p == q
  {
    var day := AnchorOf(end).day;
    var d, e := Date(p / 12, p % 12, Clamp(day, p)), Date(q / 12, q % 12, Clamp(day, q));
    KeyAtIsDate(at, end, p, d);
    KeyAtIsDate(other, end, q, e);
    if KeyAt(at, end) == KeyAt(other, end) {
      DateKeyIsInjective(d, e);
      assert p == 12 * d.year + d.month && q == 12 * e.year + e.month;
    }
  }

  /** Two instants have the same key exactly when the same two boundaries enclose them. */
  lemma {:induction false} SameKeySamePeriod(at: int, other: int, end: int, a: Anchor, p: int)
    requires Ordinary(at) && Ordinary(other) && a == AnchorOf(end) && p == PeriodOf(at, end)
    ensures KeyAt(at, end) == KeyAt(other, end) <==> Boundary(a.day, a.ms, p - 1) <= other < Boundary(a.day, a.ms, p)
  {
    var q := PeriodOf(other, end);
    AnchorIsValid(end);
    PeriodOfBrackets(other, end, a, q);
    InPeriod(a.day, a.ms, other, p, q, Boundary(a.day, a.ms, p - 1), Boundary(a.day, a.ms, p));
    SameKeySameMonth(at, other, end, p, q);
  }

  lemma {:induction false} InPeriod(day: int, ms: int, at: int, p: int, q: int, from: int, to: int)
    requires ValidAnchor(day, ms) && Boundary(day, ms, q - 1) <= at < Boundary(day, ms, q)
    requires from == Boundary(day, ms, p - 1) && to == Boundary(day, ms, p)
    ensures p == q <==> from <= at < to
  {
    if from <= at < to {
      PeriodIsUnique(day, ms, at, p, q);
    }
  }

  /** The period end is itself a boundary, the one of its own month. */
  lemma {:induction false} EndIsBoundary(end: int, a: Anchor, m: int)
    requires a == AnchorOf(end) && m == MonthIndex(end / MS_PER_DAY)
    ensures end == Boundary(a.day, a.ms, m)
  {
    var day := end / MS_PER_DAY;
    DateOfIsValid(day);
    DateInMonth(DateOf(day), day);
  }

  /** Boundary 0 is the period end it was computed from. */
  lemma {:induction false} BoundaryZero(end: int, a: Anchor)
    requires a == AnchorOf(end) && PlainMonth(a.year * 12 + a.month)
    ensures BoundaryAt(a, 0) == end
  {
    AnchorMonth(end, a);
    ZeroOf(end, a, a.year * 12 + a.month, BoundaryAt(a, 0));
  }

  lemma {:induction false} AnchorMonth(end: int, a: Anchor)
    requires a == AnchorOf(end)
    ensures a.year * 12 + a.month == MonthIndex(end / MS_PER_DAY)
  {
  }

  lemma {:induction false} ZeroOf(end: int, a: Anchor, m: int, b: int)
    requires a == AnchorOf(end) && m == a.year * 12 + a.month && m == MonthIndex(end / MS_PER_DAY) && PlainMonth(m)
    requires b == BoundaryAt(a, 0)
    ensures b == end
  {
    EndIsBoundary(end, a, m);
    BoundaryHere(a, 0, m, b);
  }

  /** Inside the current period both entry points give the same key. */
  lemma {:induction false} EntryPointsAgree(at: int, end: int, m: int)
    requires Ordinary(at) && m == MonthIndex(end / MS_PER_DAY)
    requires Boundary(AnchorOf(end).day, AnchorOf(end).ms, m - 1) <= at < end
    ensures KeyAt(at, end) == KeyOf(end)
  {
    var a := AnchorOf(end);
    var p := PeriodOf(at, end);
    EndIsBoundary(end, a, m);
    AnchorIsValid(end);
    PeriodOfBrackets(at, end, a, p);
    PeriodIsUnique(a.day, a.ms, at, m, p);
  }

  // ---- renewal ----

  lemma {:induction false} RenewalAnchor(day: int, ms: int, m: int, later: int)
    requires ValidAnchor(day, ms) && later == Boundary(day, ms, m)
    ensures AnchorOf(later).day == Clamp(day, m) && AnchorOf(later).ms == ms
  {
    BoundaryDate(day, ms, m, later / MS_PER_DAY, Date(m / 12, m % 12, Clamp(day, m)));
  }

  /** An instant on the given day of January 2000. */
  lemma {:induction false} JanuaryWitness(day: int, ms: int, jan: int, at: int)
    requires ValidAnchor(day, ms) && jan == 24000 && at == Boundary(day, ms, jan)
    ensures Ordinary(at) && MonthIndex(at / MS_PER_DAY) == jan
  {
    assert MonthDays(jan) == 31;
    BoundaryDate(day, ms, jan, at / MS_PER_DAY, Date(2000, 0, day));
  }

  lemma {:induction false} EarlierDayEarlierBoundary(day: int, short: int, ms: int, m: int)
    requires ValidAnchor(day, ms) && 1 <= short < day <= MonthDays(m)
    ensures Boundary(short, ms, m) < Boundary(day, ms, m)
  {
  }

  lemma {:induction false} ShortDaySplits(end: int, later: int, short: int, jan: int, at: int)
    requires AnchorOf(later).day == short < AnchorOf(end).day && AnchorOf(later).ms == AnchorOf(end).ms
    requires jan == 24000 && at == Boundary(short, AnchorOf(end).ms, jan)
    ensures Ordinary(at) && KeyAt(at, end) != KeyAt(at, later)
  {
    var day, ms := AnchorOf(end).day, AnchorOf(end).ms;
    AnchorIsValid(end);
    AnchorIsValid(later);
    JanuaryWitness(short, ms, jan, at);
    assert MonthDays(jan) == 31;
    EarlierDayEarlierBoundary(day, short, ms, jan);
    assert PeriodOf(at, end) == jan && PeriodOf(at, later) == jan + 1;
    var d, e := Date(2000, 0, Clamp(day, jan)), Date(2000, 1, Clamp(short, jan + 1));
    KeyAtIsDate(at, end, jan, d);
    KeyAtIsDate(at, later, jan + 1, e);
    if KeyAt(at, end) == KeyAt(at, later) {
      DateKeyIsInjective(d, e);
    }
  }

  /** After a renewal to the boundary of month m, every instant keeps its key exactly when month m
      is long enough to keep the anchor's day of the month. */
  lemma {:induction false} RenewalKeepsKeys(end: int, later: int, m: int)
    requires later == Boundary(AnchorOf(end).day, AnchorOf(end).ms, m)
    ensures (forall at | Ordinary(at) :: KeyAt(at, later) == KeyAt(at, end)) <==> AnchorOf(end).day <= MonthDays(m)
  {
    var day, ms := AnchorOf(end).day, AnchorOf(end).ms;
    AnchorIsValid(end);
    RenewalAnchor(day, ms, m, later);
    if MonthDays(m) < day {
      var jan := 24000;
      var at := Boundary(MonthDays(m), ms, jan);
      ShortDaySplits(end, later, MonthDays(m), jan, at);
    }
  }

  /** A subscription anchored on 31 January, renewed to the end of February of a common year: the
      key of the 29th of January is the 31st of January before the renewal, 28 February after it. */
  lemma {:induction false} EndOfJanuarySplits(year: int, end: int, later: int, at: int, jan: int)
    requires 101 <= year <= 9998 && !Leap(year) && jan == 12 * year
    requires end == Boundary(31, 0, jan) && later == Boundary(31, 0, jan + 1) && at == Boundary(29, 0, jan)
    ensures KeyAt(at, end) == Ok(DateKey(Date(year, 0, 31)))
    ensures KeyAt(at, later) == Ok(DateKey(Date(year, 1, 28)))
  {
    JanuaryAndFebruary(year, jan);
    RenewalAnchor(31, 0, jan, end);
    RenewalAnchor(31, 0, jan + 1, later);
    JanuaryPeriods(year, jan, at);
    KeyInMonth(at, end, jan, 31, jan, Date(year, 0, 31));
    KeyInMonth(at, later, jan, 28, jan + 1, Date(year, 1, 28));
  }

  lemma {:induction false} JanuaryAndFebruary(year: int, jan: int)
    requires jan == 12 * year && !Leap(year)
    ensures MonthDays(jan) == 31 && MonthDays(jan + 1) == 28
    ensures jan / 12 == year && jan % 12 == 0 && (jan + 1) / 12 == year && (jan + 1) % 12 == 1
  {
  }

  lemma {:induction false} JanuaryPeriods(year: int, jan: int, at: int)
    requires 101 <= year <= 9998 && jan == 12 * year && MonthDays(jan) == 31 && at == Boundary(29, 0, jan)
    ensures Ordinary(at) && MonthIndex(at / MS_PER_DAY) == jan
    ensures PeriodMonth(31, 0, at, jan) == jan && PeriodMonth(28, 0, at, jan) == jan + 1
  {
    BoundaryDate(29, 0, jan, at / MS_PER_DAY, Date(year, 0, 29));
    EarlierDayEarlierBoundary(31, 29, 0, jan);
    EarlierDayEarlierBoundary(29, 28, 0, jan);
  }

  lemma {:induction false} KeyInMonth(at: int, end: int, m: int, day: int, p: int, d: Date)
    requires Ordinary(at) && m == MonthIndex(at / MS_PER_DAY)
    requires AnchorOf(end).day == day && AnchorOf(end).ms == 0
    requires p == PeriodMonth(day, 0, at, m) && d == Date(p / 12, p % 12, Clamp(day, p))
    ensures KeyAt(at, end) == Ok(DateKey(d))
  {
    KeyAtIsDate(at, end, p, d);
  }
}
