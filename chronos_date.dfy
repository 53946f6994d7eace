// Date: a calendar day whose time of day is frozen at 00:00:00.000000.
//
// The library's Date is a full date-time value that overrides every
// operation able to move the clock: the time setters, setTime,
// setTimestamp and relative modifications naming hours, minutes or seconds
// all leave the time at midnight. Every operation returns a new value and
// never alters its receiver. The invariant "time is midnight" is Valid
// below; every operation preserves it.

module ChronosDate {
  import opened Wrappers
  import opened Calendar
  import Arith
  import Decimal
  import ChronosTime
  import ChronosTimeText

  datatype Date = Date(date: CivilDate, time: ChronosTime.Time)

  predicate Valid(d: Date) {
    Calendar.Valid(d.date) && d.time == ChronosTime.Midnight()
  }

  datatype DateError = UnknownWeekday(weekday: int)

  /** The value at midnight of a calendar day. */
  function AtMidnight(c: CivilDate): (d: Date)
    requires Calendar.Valid(c)
    ensures Valid(d) && d.date == c
  {
    Date(c, ChronosTime.Midnight())
  }

  /**
   * Date::create(year, month, day). Month and day overflow the way PHP's
   * date arithmetic does: month 13 is January of the next year, day 0 is
   * the last day of the previous month.
   */
  function Create(year: int, month: int, day: int): (d: Date)
    ensures Valid(d)
    ensures Calendar.Valid(CivilDate(year, month, day)) <==> d.date == CivilDate(year, month, day)
    ensures DayNumber(d.date) == DayNumber(CivilDate(year + (month - 1) / 12, (month - 1) % 12 + 1, 1)) + day - 1
  {
    var first := CivilDate(year + (month - 1) / 12, (month - 1) % 12 + 1, 1);
    var c := AddDays(first, day - 1);
    CreateExact(year, month, day, c);
    AtMidnight(c)
  }

  /** Within range, stepping day - 1 days from the first of the month reaches exactly that day. */
  lemma CreateExact(year: int, month: int, day: int, c: CivilDate)
    requires Calendar.Valid(c)
    requires DayNumber(c) == DayNumber(CivilDate(year + (month - 1) / 12, (month - 1) % 12 + 1, 1)) + day - 1
    ensures Calendar.Valid(CivilDate(year, month, day)) <==> c == CivilDate(year, month, day)
  {
    if Calendar.Valid(CivilDate(year, month, day)) {
      assert CivilDate(year + (month - 1) / 12, (month - 1) % 12 + 1, 1) == CivilDate(year, month, 1);
      DayNumberInjective(c, CivilDate(year, month, day));
    }
  }

  // ---- time setters: all keep the day and the time at midnight ----

  /** setTime(h, m, s, us): the arguments are ignored and the time stays at midnight. */
  function SetTime(d: Date, hours: int, minutes: int, seconds: int := 0, microseconds: int := 0): (r: Date)
    requires Valid(d)
    ensures Valid(r) && r.date == d.date
  {
    AtMidnight(d.date)
  }

  /** hour(v): setTime(v, minute, second). */
  function Hour(d: Date, value: int): (r: Date)
    requires Valid(d)
    ensures Valid(r) && r.date == d.date
  {
    SetTime(d, value, d.time.minutes, d.time.seconds)
  }

  /** minute(v): setTime(hour, v, second). */
  function Minute(d: Date, value: int): (r: Date)
    requires Valid(d)
    ensures Valid(r) && r.date == d.date
  {
    SetTime(d, d.time.hours, value, d.time.seconds)
  }

  /** second(v): setTime(hour, minute, v). */
  function Second(d: Date, value: int): (r: Date)
    requires Valid(d)
    ensures Valid(r) && r.date == d.date
  {
    SetTime(d, d.time.hours, d.time.minutes, value)
  }

  // ---- relative modification ----

  /** The units of a relative modifier this model covers. */
  datatype Unit = Days | Weeks | Hours | Minutes | Seconds

  predicate IsTimeUnit(u: Unit) {
    u == Hours || u == Minutes || u == Seconds
  }

  /** One term of a relative modifier such as "+1 hour" or "-3 days". */
  datatype Term = Term(amount: int, unit: Unit)

  predicate NamesTimeUnit(terms: seq<Term>) {
    exists i :: 0 <= i < |terms| && IsTimeUnit(terms[i].unit)
  }

  /** The whole-day shift of the day and week terms. */
  function DayShift(terms: seq<Term>): int {
    if terms == [] then 0
    else
      var t := terms[0];
      (match t.unit case Days => t.amount case Weeks => 7 * t.amount case _ => 0) + DayShift(terms[1..])
  }

  /**
   * modify(terms): a modifier naming hours, minutes or seconds returns the
   * receiver unchanged; any other is applied to the day and the time is
   * reset to midnight.
   */
  function Modify(d: Date, terms: seq<Term>): (r: Date)
    requires Valid(d)
    ensures Valid(r)
    ensures NamesTimeUnit(terms) ==> r == d
    ensures !NamesTimeUnit(terms) ==> DayNumber(r.date) == DayNumber(d.date) + DayShift(terms)
  {
    if NamesTimeUnit(terms) then d else AtMidnight(AddDays(d.date, DayShift(terms)))
  }

  function AddHours(d: Date, value: int): (r: Date)
    requires Valid(d)
    ensures Valid(r) && r == d
  {
    assert IsTimeUnit([Term(value, Hours)][0].unit);
    Modify(d, [Term(value, Hours)])
  }

  function SubHours(d: Date, value: int): (r: Date)
    requires Valid(d)
    ensures Valid(r) && r == d
  {
    assert IsTimeUnit([Term(-value, Hours)][0].unit);
    Modify(d, [Term(-value, Hours)])
  }

  function AddMinutes(d: Date, value: int): (r: Date)
    requires Valid(d)
    ensures Valid(r) && r == d
  {
    assert IsTimeUnit([Term(value, Minutes)][0].unit);
    Modify(d, [Term(value, Minutes)])
  }

  function SubMinutes(d: Date, value: int): (r: Date)
    requires Valid(d)
    ensures Valid(r) && r == d
  {
    assert IsTimeUnit([Term(-value, Minutes)][0].unit);
    Modify(d, [Term(-value, Minutes)])
  }

  function AddSeconds(d: Date, value: int): (r: Date)
    requires Valid(d)
    ensures Valid(r) && r == d
  {
    assert IsTimeUnit([Term(value, Seconds)][0].unit);
    Modify(d, [Term(value, Seconds)])
  }

  function SubSeconds(d: Date, value: int): (r: Date)
    requires Valid(d)
    ensures Valid(r) && r == d
  {
    assert IsTimeUnit([Term(-value, Seconds)][0].unit);
    Modify(d, [Term(-value, Seconds)])
  }

  // ---- timestamps ----

  const SECONDS_PER_DAY: int := 86400

  /**
   * setTimestamp(ts) (and its alias timestamp(ts)): the UTC day holding
   * the Unix timestamp ts, at midnight.
   */
  function SetTimestamp(d: Date, ts: int): (r: Date)
    requires Valid(d)
    ensures Valid(r)
    ensures DayNumber(r.date) * SECONDS_PER_DAY <= ts < (DayNumber(r.date) + 1) * SECONDS_PER_DAY
  {
    AtMidnight(FromDayNumber(ts / SECONDS_PER_DAY))
  }

  // ---- day boundaries ----

  /** startOfDay(): the day at midnight, which a Date already is. */
  function StartOfDay(d: Date): (r: Date)
    requires Valid(d)
    ensures r == d
  {
    AtMidnight(d.date)
  }

  /** endOfDay(): the time 23:59:59.999999 is discarded, leaving the same day at midnight. */
  function EndOfDay(d: Date): (r: Date)
    requires Valid(d)
    ensures r == d
  {
    SetTime(d, 23, 59, 59, 999999)
  }

  // ---- ends of periods ----

  /** endOfMonth(): the last day of the month. */
  function EndOfMonth(d: Date): (r: Date)
    requires Valid(d)
    ensures Valid(r)
    ensures r.date.year == d.date.year && r.date.month == d.date.month && r.date.day >= d.date.day
    ensures NextDay(r.date).month != r.date.month
  {
    AtMidnight(CivilDate(d.date.year, d.date.month, DaysInMonth(d.date.year, d.date.month)))
  }

  /** endOfYear(): 31 December of the year. */
  function EndOfYear(d: Date): (r: Date)
    requires Valid(d)
    ensures Valid(r)
    ensures r.date.year == d.date.year && DayNumber(d.date) <= DayNumber(r.date)
    ensures NextDay(r.date).year == d.date.year + 1
  {
    var c := CivilDate(d.date.year, 12, 31);
    EndOfYearAfter(d.date);
    AtMidnight(c)
  }

  lemma EndOfYearAfter(c: CivilDate)
    requires Calendar.Valid(c)
    ensures DayNumber(c) <= DayNumber(CivilDate(c.year, 12, 31))
  {
    if c != CivilDate(c.year, 12, 31) {
      DayNumberOrder(c, CivilDate(c.year, 12, 31));
    }
  }

  /**
   * endOfDecade(): 31 December of year y - y % 10 + 9, with PHP's
   * truncating `%`; for years from 0 on, the last year of the decade
   * 10k .. 10k + 9 holding y.
   */
  function EndOfDecade(d: Date): (r: Date)
    requires Valid(d)
    ensures Valid(r) && r.date.month == 12 && r.date.day == 31
    ensures d.date.year >= 0 ==> r.date.year % 10 == 9 && d.date.year <= r.date.year <= d.date.year + 9
    ensures r.date.year == d.date.year - Arith.PhpRem(d.date.year, 10) + 9
  {
    var y := d.date.year;
    AtMidnight(CivilDate(y - Arith.PhpRem(y, 10) + 9, 12, 31))
  }

  /**
   * endOfCentury(): 31 December of year (y - 1) - (y - 1) % 100 + 100, with
   * PHP's truncating `%`; for years from 1 on, centuries run 100k + 1 ..
   * 100k + 100, so 2001 gives 2100 and 2000 gives 2000.
   */
  function EndOfCentury(d: Date): (r: Date)
    requires Valid(d)
    ensures Valid(r) && r.date.month == 12 && r.date.day == 31
    ensures d.date.year >= 1 ==> r.date.year % 100 == 0 && d.date.year <= r.date.year <= d.date.year + 99
    ensures r.date.year == d.date.year - 1 - Arith.PhpRem(d.date.year - 1, 100) + 100
  {
    var y := d.date.year - 1;
    AtMidnight(CivilDate(y - Arith.PhpRem(y, 100) + 100, 12, 31))
  }

  // ---- weekday navigation ----

  /** The weekday asked for: the receiver's own when none is given. */
  function TargetWeekday(d: Date, weekday: Option<int>): int
    requires Valid(d)
  {
    if weekday.None? then IsoWeekday(d.date) else weekday.value
  }

  /**
   * next(weekday): the first day strictly after d that falls on the ISO
   * weekday (1 = Monday .. 7 = Sunday); without an argument, the same
   * weekday one week on. A number outside 1..7 names no weekday.
   */
  function Next(d: Date, weekday: Option<int>): (r: Result<Date, DateError>)
    requires Valid(d)
    ensures r.Success? <==> 1 <= TargetWeekday(d, weekday) <= 7
    ensures r.Success? ==> Valid(r.value)
    ensures r.Success? ==>
      var k := DayNumber(r.value.date) - DayNumber(d.date);
      && 1 <= k <= 7
      && IsoWeekday(r.value.date) == TargetWeekday(d, weekday)
      && (forall m :: DayNumber(d.date) < m < DayNumber(r.value.date) ==> WeekdayOf(m) != TargetWeekday(d, weekday))
  {
    var w := TargetWeekday(d, weekday);
    if !(1 <= w <= 7) then Failure(UnknownWeekday(w))
    else
      var k := (w - IsoWeekday(d.date) - 1) % 7 + 1;
      NextGap(DayNumber(d.date), w, k);
      Success(AtMidnight(AddDays(d.date, k)))
  }

  /**
   * previous(weekday): the last day strictly before d that falls on the
   * ISO weekday; without an argument, the same weekday one week back.
   */
  function Previous(d: Date, weekday: Option<int>): (r: Result<Date, DateError>)
    requires Valid(d)
    ensures r.Success? <==> 1 <= TargetWeekday(d, weekday) <= 7
    ensures r.Success? ==> Valid(r.value)
    ensures r.Success? ==>
      var k := DayNumber(d.date) - DayNumber(r.value.date);
      && 1 <= k <= 7
      && IsoWeekday(r.value.date) == TargetWeekday(d, weekday)
      && (forall m :: DayNumber(r.value.date) < m < DayNumber(d.date) ==> WeekdayOf(m) != TargetWeekday(d, weekday))
  {
    var w := TargetWeekday(d, weekday);
    if !(1 <= w <= 7) then Failure(UnknownWeekday(w))
    else
      var k := (IsoWeekday(d.date) - w - 1) % 7 + 1;
      PreviousGap(DayNumber(d.date), w, k);
      Success(AtMidnight(AddDays(d.date, -k)))
  }

  /** Day n + k falls on weekday w, and no day strictly between n and n + k does. */
  lemma NextGap(n: int, w: int, k: int)
    requires 1 <= w <= 7
    requires k == (w - WeekdayOf(n) - 1) % 7 + 1
    ensures WeekdayOf(n + k) == w
    ensures forall m :: n < m < n + k ==> WeekdayOf(m) != w
  {
    WeekdayOfShift(n, k);
    WeekForward(WeekdayOf(n), w, k, k);
    forall m | n < m < n + k
      ensures WeekdayOf(m) != w
    {
      WeekdayOfShift(n, m - n);
      WeekForward(WeekdayOf(n), w, k, m - n);
    }
  }

  /** Day n - k falls on weekday w, and no day strictly between n - k and n does. */
  lemma PreviousGap(n: int, w: int, k: int)
    requires 1 <= w <= 7
    requires k == (WeekdayOf(n) - w - 1) % 7 + 1
    ensures WeekdayOf(n - k) == w
    ensures forall m :: n - k < m < n ==> WeekdayOf(m) != w
  {
    WeekdayOfShift(n, -k);
    WeekBackward(WeekdayOf(n), w, k, -k);
    forall m | n - k < m < n
      ensures WeekdayOf(m) != w
    {
      WeekdayOfShift(n, m - n);
      WeekBackward(WeekdayOf(n), w, k, m - n);
    }
  }

  /** The next day on the target weekday is the one k days on, for the only k in 1..7 that lands on it. */
  lemma NextIsAt(d: Date, weekday: Option<int>, k: int)
    requires Valid(d) && 1 <= TargetWeekday(d, weekday) <= 7 && 1 <= k <= 7
    requires WeekdayOf(DayNumber(d.date) + k) == TargetWeekday(d, weekday)
    ensures Next(d, weekday) == Success(AtMidnight(AddDays(d.date, k)))
  {
    var n, r := DayNumber(d.date), Next(d, weekday).value;
    WeekdayWithinWeek(DayNumber(r.date), n + k);
    DayNumberInjective(r.date, AddDays(d.date, k));
  }

  /** The previous day on the target weekday is the one k days back, for the only k in 1..7 that lands on it. */
  lemma PreviousIsAt(d: Date, weekday: Option<int>, k: int)
    requires Valid(d) && 1 <= TargetWeekday(d, weekday) <= 7 && 1 <= k <= 7
    requires WeekdayOf(DayNumber(d.date) - k) == TargetWeekday(d, weekday)
    ensures Previous(d, weekday) == Success(AtMidnight(AddDays(d.date, -k)))
  {
    var n, r := DayNumber(d.date), Previous(d, weekday).value;
    WeekdayWithinWeek(DayNumber(r.date), n - k);
    DayNumberInjective(r.date, AddDays(d.date, -k));
  }

  /** Two different days less than a week apart fall on different weekdays. */
  lemma WeekdayWithinWeek(a: int, b: int)
    requires -7 < a - b < 7 && WeekdayOf(a) == WeekdayOf(b)
    ensures a == b
  {
    WeekdayOfShift(b, a - b);
  }

  /** Without an argument, next moves exactly one week on. */
  lemma NextWithoutWeekday(d: Date)
    requires Valid(d)
    ensures Next(d, None) == Success(AtMidnight(AddDays(d.date, 7)))
  {
    assert TargetWeekday(d, None) == IsoWeekday(d.date);
    WeekdayOfWeekAway(DayNumber(d.date));
    NextIsAt(d, None, 7);
  }

  /** Naming d's own weekday, next moves exactly one week on. */
  lemma NextOwnWeekday(d: Date)
    requires Valid(d)
    ensures Next(d, Some(IsoWeekday(d.date))) == Success(AtMidnight(AddDays(d.date, 7)))
  {
    WeekdayOfWeekAway(DayNumber(d.date));
    NextIsAt(d, Some(IsoWeekday(d.date)), 7);
  }

  /** Without an argument, previous moves exactly one week back. */
  lemma PreviousWithoutWeekday(d: Date)
    requires Valid(d)
    ensures Previous(d, None) == Success(AtMidnight(AddDays(d.date, -7)))
  {
    assert TargetWeekday(d, None) == IsoWeekday(d.date);
    WeekdayOfWeekAway(DayNumber(d.date));
    PreviousIsAt(d, None, 7);
  }

  /** Naming d's own weekday, previous moves exactly one week back. */
  lemma PreviousOwnWeekday(d: Date)
    requires Valid(d)
    ensures Previous(d, Some(IsoWeekday(d.date))) == Success(AtMidnight(AddDays(d.date, -7)))
  {
    WeekdayOfWeekAway(DayNumber(d.date));
    PreviousIsAt(d, Some(IsoWeekday(d.date)), 7);
  }

  /**
   * Counting forward from ISO weekday `from`, step k == (to - from - 1) % 7 + 1
   * is the first of 1..7 to reach weekday `to`.
   */
  lemma WeekForward(from: int, to: int, k: int, j: int)
    requires 1 <= from <= 7 && 1 <= to <= 7 && k == (to - from - 1) % 7 + 1
    ensures 1 <= k <= 7
    ensures j == k ==> (from - 1 + j) % 7 + 1 == to
    ensures 1 <= j < k ==> (from - 1 + j) % 7 + 1 != to
  {
  }

  /** Counting back from ISO weekday `from`, step k == (from - to - 1) % 7 + 1 is the first to reach `to`. */
  lemma WeekBackward(from: int, to: int, k: int, n: int)
    requires 1 <= from <= 7 && 1 <= to <= 7 && k == (from - to - 1) % 7 + 1
    ensures 1 <= k <= 7
    ensures n == -k ==> (from - 1 + n) % 7 + 1 == to
    ensures -k < n < 0 ==> (from - 1 + n) % 7 + 1 != to
  {
  }

  // ---- formatting ----

  /** A year as PHP's `Y` renders it: at least four digits, a minus sign before the year 0. */
  function FormatYear(y: int): (r: string)
    ensures |r| >= 4
    ensures y >= 0 ==> Decimal.AllDigits(r) && Decimal.Value(r) == y
    ensures y < 0 ==> r[0] == '-' && Decimal.AllDigits(r[1..]) && Decimal.Value(r[1..]) == -y
    ensures -10000 < y < 10000 ==> |r| == (if y >= 0 then 4 else 5)
  {
    assert Decimal.Pow10(4) == 10000;
    if y >= 0 then Decimal.PadLeft(y, 4) else "-" + Decimal.PadLeft(-y, 4)
  }

  /** What one pattern character renders as: Y, m, d for the day, H, i, s, u for the time, anything else itself. */
  function Piece(d: Date, c: char): string
    requires Valid(d)
  {
    if c == 'Y' then FormatYear(d.date.year)
    else if c == 'm' then Decimal.PadLeft(d.date.month, 2)
    else if c == 'd' then Decimal.PadLeft(d.date.day, 2)
    else ChronosTimeText.FormatChar(d.time, c)
  }

  /** format(pattern): the pieces of the pattern's characters, in order. */
  function Format(d: Date, pattern: string): (r: string)
    requires Valid(d)
    ensures (forall i :: 0 <= i < |pattern| ==> pattern[i] == '-') ==> r == pattern
    decreases |pattern|
  {
    if pattern == [] then [] else Piece(d, pattern[0]) + Format(d, pattern[1..])
  }

  lemma FormatStep(d: Date, c: char, rest: string)
    requires Valid(d)
    ensures Format(d, [c] + rest) == Piece(d, c) + Format(d, rest)
  {
    assert ([c] + rest)[1..] == rest;
  }

  /** Whatever the day, a Date's clock renders as zeros. */
  lemma FormatClockIsZero(d: Date)
    requires Valid(d)
    ensures Format(d, "H:i:s") == "00:00:00"
  {
    Decimal.PadLeftZero(2);
    assert Decimal.Zeros(2) == "00";
    FormatFive(d, 'H', ':', 'i', ':', 's');
  }

  /** Whatever the day, a Date's microseconds render as zeros. */
  lemma FormatMicrosecondsIsZero(d: Date)
    requires Valid(d)
    ensures Format(d, "u") == "000000"
  {
    Decimal.PadLeftZero(6);
    assert Decimal.Zeros(6) == "000000";
    FormatStep(d, 'u', []);
  }

  /**
   * For years 0..9999, "Y-m-d" renders four year digits, two month digits
   * and two day digits, separated by '-', whose values are the day's fields.
   */
  lemma FormatCalendarDay(d: Date)
    requires Valid(d) && 0 <= d.date.year <= 9999
    ensures var s := Format(d, "Y-m-d");
      && |s| == 10 && s[4] == '-' && s[7] == '-'
      && Decimal.AllDigits(s[..4]) && Decimal.Value(s[..4]) == d.date.year
      && Decimal.AllDigits(s[5..7]) && Decimal.Value(s[5..7]) == d.date.month
      && Decimal.AllDigits(s[8..]) && Decimal.Value(s[8..]) == d.date.day
  {
    var y := Decimal.PadLeft(d.date.year, 4);
    var m := Decimal.PadLeft(d.date.month, 2);
    var dd := Decimal.PadLeft(d.date.day, 2);
    assert Decimal.Pow10(2) == 100;
    assert Decimal.Pow10(4) == 10000;
    FormatYmd(d);
    DashedFields(y, m, dd);
  }

  lemma FormatYmd(d: Date)
    requires Valid(d)
    ensures Format(d, "Y-m-d")
      == FormatYear(d.date.year) + ("-" + (Decimal.PadLeft(d.date.month, 2) + ("-" + Decimal.PadLeft(d.date.day, 2))))
  {
    FormatFive(d, 'Y', '-', 'm', '-', 'd');
  }

  /** A five-character pattern renders as its five pieces. */
  lemma FormatFive(d: Date, a: char, b: char, c: char, e: char, f: char)
    requires Valid(d)
    ensures Format(d, [a, b, c, e, f]) == Piece(d, a) + (Piece(d, b) + (Piece(d, c) + (Piece(d, e) + Piece(d, f))))
  {
    var p := [a, b, c, e, f];
    var p1, p2, p3, p4 := p[1..], p[2..], p[3..], p[4..];
    assert p1[1..] == p2 && p2[1..] == p3 && p3[1..] == p4 && p4[1..] == [];
    assert Format(d, p4) == Piece(d, f);
    assert Format(d, p3) == Piece(d, e) + Format(d, p4);
    assert Format(d, p2) == Piece(d, c) + Format(d, p3);
    assert Format(d, p1) == Piece(d, b) + Format(d, p2);
  }

  lemma DashedFields(y: string, m: string, dd: string)
    requires |y| == 4 && |m| == 2 && |dd| == 2
    ensures var s := y + ("-" + (m + ("-" + dd)));
      |s| == 10 && s[4] == '-' && s[7] == '-' && s[..4] == y && s[5..7] == m && s[8..] == dd
  {
  }
}
