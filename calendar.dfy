// Proleptic Gregorian calendar arithmetic behind the date-only value:
// month lengths, leap years, a day number counted from 1970-01-01,
// stepping by days and ISO-8601 weekdays.

module Calendar {
  import Arith

  /** A calendar day, year-month-day. */
  datatype CivilDate = CivilDate(year: int, month: int, day: int)

  predicate IsLeapYear(y: int) {
    y % 4 == 0 && (y % 100 != 0 || y % 400 == 0)
  }

  function DaysInYear(y: int): int {
    if IsLeapYear(y) then 366 else 365
  }

  function DaysInMonth(y: int, m: int): (n: int)
    requires 1 <= m <= 12
    ensures 28 <= n <= 31
    ensures n == 29 <==> m == 2 && IsLeapYear(y)
  {
    if m == 2 then (if IsLeapYear(y) then 29 else 28)
    else if m == 4 || m == 6 || m == 9 || m == 11 then 30
    else 31
  }

  predicate Valid(d: CivilDate) {
    1 <= d.month <= 12 && 1 <= d.day <= DaysInMonth(d.year, d.month)
  }

  /** Days of the year that precede the first of month m (m == 13 gives the whole year). */
  function DaysBeforeMonth(y: int, m: int): (n: int)
    requires 1 <= m <= 13
    ensures 0 <= n <= DaysInYear(y)
    ensures m == 1 ==> n == 0
    ensures m == 13 ==> n == DaysInYear(y)
  {
    var cumulative := [0, 31, 59, 90, 120, 151, 181, 212, 243, 273, 304, 334, 365];
    cumulative[m - 1] + (if m > 2 && IsLeapYear(y) then 1 else 0)
  }

  /** Each month's days separate the offsets of consecutive months. */
  lemma DaysBeforeMonthStep(y: int, m: int)
    requires 1 <= m <= 12
    ensures DaysBeforeMonth(y, m + 1) == DaysBeforeMonth(y, m) + DaysInMonth(y, m)
  {
  }

  /** Leap years in [0, y) for y >= 0, negated count of those in [y, 0) otherwise. */
  function LeapYearsBefore(y: int): int {
    (y + 3) / 4 - (y + 99) / 100 + (y + 399) / 400
  }

  /** Days from 0000-01-01 to the first of January of year y. */
  function DaysBeforeYear(y: int): int {
    365 * y + LeapYearsBefore(y)
  }

  /** Stepping the floor quotient: it grows by one exactly when a + 1 is a multiple of k. */
  lemma DivStep(a: int, k: int)
    requires k > 0
    ensures (a + 1) / k == a / k + (if (a + 1) % k == 0 then 1 else 0)
  {
    var q, r := a / k, a % k;
    if r == k - 1 {
      Arith.DivModUnique(a + 1, k, q + 1, 0);
    } else {
      Arith.DivModUnique(a + 1, k, q, r + 1);
    }
  }

  lemma DaysBeforeYearStep(y: int)
    ensures DaysBeforeYear(y + 1) == DaysBeforeYear(y) + DaysInYear(y)
  {
    QuotientStep(y, 4, 3);
    QuotientStep(y, 100, 99);
    QuotientStep(y, 400, 399);
    MultipleOfMultiple(y, 100, 25);
    MultipleOfMultiple(y, 400, 4);
  }

  /** A multiple of n is a multiple of each divisor n / k of n. */
  lemma MultipleOfMultiple(y: int, n: int, k: int)
    requires k > 0 && n > 0 && n % k == 0
    ensures y % n == 0 ==> y % (n / k) == 0
  {
    if y % n == 0 {
      var q := y / n;
      assert y == (q * k) * (n / k);
      Arith.ModShift(0, q * k, n / k);
    }
  }

  /** (y + k) / k passes (y + k - 1) / k exactly when k divides y. */
  lemma QuotientStep(y: int, k: int, j: int)
    requires k > 0 && j == k - 1
    ensures (y + j + 1) / k == (y + j) / k + (if y % k == 0 then 1 else 0)
  {
    DivStep(y + j, k);
    Arith.ModShift(y, 1, k);
  }

  lemma {:induction false} DaysBeforeYearMonotone(y1: int, y2: int)
    requires y1 <= y2
    ensures DaysBeforeYear(y1) + 365 * (y2 - y1) <= DaysBeforeYear(y2)
    decreases y2 - y1
  {
    if y1 < y2 {
      DaysBeforeYearMonotone(y1, y2 - 1);
      DaysBeforeYearStep(y2 - 1);
    }
  }

  /** 1970-01-01, the origin of day numbers and timestamps. */
  const EPOCH: CivilDate := CivilDate(1970, 1, 1)
  const EPOCH_DAYS: int := 719528

  /** Days since 1970-01-01, negative before it. */
  function DayNumber(d: CivilDate): int
    requires Valid(d)
  {
    DaysBeforeYear(d.year) + DaysBeforeMonth(d.year, d.month) + d.day - 1 - EPOCH_DAYS
  }

  lemma EpochIsDayZero()
    ensures Valid(EPOCH) && DayNumber(EPOCH) == 0
  {
  }

  /** The following calendar day. */
  function NextDay(d: CivilDate): (r: CivilDate)
    requires Valid(d)
    ensures Valid(r) && DayNumber(r) == DayNumber(d) + 1
  {
    if d.day < DaysInMonth(d.year, d.month) then CivilDate(d.year, d.month, d.day + 1)
    else if d.month < 12 then
      DaysBeforeMonthStep(d.year, d.month);
      CivilDate(d.year, d.month + 1, 1)
    else
      DaysBeforeYearStep(d.year);
      CivilDate(d.year + 1, 1, 1)
  }

  /** The preceding calendar day. */
  function PrevDay(d: CivilDate): (r: CivilDate)
    requires Valid(d)
    ensures Valid(r) && DayNumber(r) == DayNumber(d) - 1
  {
    if d.day > 1 then CivilDate(d.year, d.month, d.day - 1)
    else if d.month > 1 then
      DaysBeforeMonthStep(d.year, d.month - 1);
      CivilDate(d.year, d.month - 1, DaysInMonth(d.year, d.month - 1))
    else
      DaysBeforeYearStep(d.year - 1);
      CivilDate(d.year - 1, 12, 31)
  }

  /** The day n days after d (before it when n is negative), stepping one day at a time. */
  function AddDays(d: CivilDate, n: int): (r: CivilDate)
    requires Valid(d)
    ensures Valid(r) && DayNumber(r) == DayNumber(d) + n
    decreases if n >= 0 then n else -n
  {
    if n == 0 then d
    else if n > 0 then AddDays(NextDay(d), n - 1)
    else AddDays(PrevDay(d), n + 1)
  }

  /** The day with day number n. */
  function FromDayNumber(n: int): (r: CivilDate)
    ensures Valid(r) && DayNumber(r) == n
  {
    EpochIsDayZero();
    AddDays(EPOCH, n)
  }

  predicate Before(a: CivilDate, b: CivilDate) {
    || a.year < b.year
    || (a.year == b.year && a.month < b.month)
    || (a.year == b.year && a.month == b.month && a.day < b.day)
  }

  /** Day numbers follow calendar order. */
  lemma DayNumberOrder(a: CivilDate, b: CivilDate)
    requires Valid(a) && Valid(b) && Before(a, b)
    ensures DayNumber(a) < DayNumber(b)
  {
    if a.year < b.year {
      DaysBeforeYearStep(a.year);
      DaysBeforeYearMonotone(a.year + 1, b.year);
      assert DaysBeforeMonth(a.year, a.month) + a.day <= DaysInYear(a.year) by {
        MonthsBeforeEnd(a.year, a.month);
      }
    } else if a.month < b.month {
      DaysBeforeMonthStep(a.year, a.month);
      MonthsMonotone(a.year, a.month + 1, b.month);
    }
  }

  lemma MonthsBeforeEnd(y: int, m: int)
    requires 1 <= m <= 12
    ensures DaysBeforeMonth(y, m) + DaysInMonth(y, m) <= DaysInYear(y)
  {
    DaysBeforeMonthStep(y, m);
    assert DaysBeforeMonth(y, m + 1) <= DaysInYear(y);
  }

  lemma {:induction false} MonthsMonotone(y: int, m1: int, m2: int)
    requires 1 <= m1 <= m2 <= 13
    ensures DaysBeforeMonth(y, m1) <= DaysBeforeMonth(y, m2)
    decreases m2 - m1
  {
    if m1 < m2 {
      MonthsMonotone(y, m1, m2 - 1);
      DaysBeforeMonthStep(y, m2 - 1);
    }
  }

  /** A valid day is determined by its day number. */
  lemma DayNumberInjective(a: CivilDate, b: CivilDate)
    requires Valid(a) && Valid(b)
    ensures DayNumber(a) == DayNumber(b) <==> a == b
  {
    if Before(a, b) {
      DayNumberOrder(a, b);
    }
    if Before(b, a) {
      DayNumberOrder(b, a);
    }
  }

  lemma FromDayNumberOfDayNumber(d: CivilDate)
    requires Valid(d)
    ensures FromDayNumber(DayNumber(d)) == d
  {
    DayNumberInjective(FromDayNumber(DayNumber(d)), d);
  }

  /** ISO-8601 day of the week of a day number: 1 is Monday, 7 is Sunday (1970-01-01 was a Thursday). */
  function WeekdayOf(n: int): (w: int)
    ensures 1 <= w <= 7
  {
    (n + 3) % 7 + 1
  }

  function IsoWeekday(d: CivilDate): (w: int)
    requires Valid(d)
    ensures 1 <= w <= 7
  {
    WeekdayOf(DayNumber(d))
  }

  /** Moving n days moves the weekday n places round the week. */
  lemma WeekdayOfShift(x: int, n: int)
    ensures WeekdayOf(x + n) == (WeekdayOf(x) - 1 + n) % 7 + 1
  {
    WeekShift(x + 3, n);
  }

  lemma IsoWeekdayAddDays(d: CivilDate, n: int)
    requires Valid(d)
    ensures IsoWeekday(AddDays(d, n)) == (IsoWeekday(d) - 1 + n) % 7 + 1
  {
    var x, y := DayNumber(d), DayNumber(AddDays(d, n));
    WeekdayOfShift(x, n);
    assert y == x + n;
  }

  /** A week on or a week back is the same weekday. */
  lemma WeekdayOfWeekAway(x: int)
    ensures WeekdayOf(x + 7) == WeekdayOf(x) && WeekdayOf(x - 7) == WeekdayOf(x)
  {
    Arith.ModShift(x + 3, 1, 7);
    Arith.ModShift(x - 4, 1, 7);
  }

  lemma WeekShift(x: int, n: int)
    ensures (x + n) % 7 == (x % 7 + n) % 7
  {
    assert x + n == (x % 7 + n) + (x / 7) * 7;
    Arith.ModShift(x % 7 + n, x / 7, 7);
  }

  lemma EpochIsThursday()
    ensures IsoWeekday(EPOCH) == 4
  {
  }
}
