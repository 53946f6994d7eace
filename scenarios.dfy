// The concrete scenarios the library's own test suite asserts, each stated
// as a lemma about the model.

module Scenarios {
  import opened Wrappers
  import opened Decimal
  import opened ChronosTime
  import opened ChronosTimeText
  import Calendar
  import ChronosDate
  import ChronosInterval

  // ---- digit strings written out ----

  lemma OneDigit(a: char)
    requires IsDigit(a)
    ensures AllDigits([a]) && Value([a]) == DigitValue(a)
  {
    assert [a][..0] == [];
  }

  lemma TwoDigits(a: char, b: char)
    requires IsDigit(a) && IsDigit(b)
    ensures AllDigits([a, b]) && Value([a, b]) == DigitValue(a) * 10 + DigitValue(b)
  {
    assert [a, b][..1] == [a];
    OneDigit(a);
  }

  lemma ThreeDigits(a: char, b: char, c: char)
    requires IsDigit(a) && IsDigit(b) && IsDigit(c)
    ensures AllDigits([a, b, c]) && Value([a, b, c]) == DigitValue(a) * 100 + DigitValue(b) * 10 + DigitValue(c)
  {
    assert [a, b, c][..2] == [a, b];
    TwoDigits(a, b);
  }

  /** Six digits as two groups of three. */
  lemma SixDigits(x: string, y: string)
    requires |x| == 3 && |y| == 3 && AllDigits(x) && AllDigits(y)
    ensures AllDigits(x + y) && Value(x + y) == Value(x) * 1000 + Value(y)
  {
    ValueAppend(x, y);
    assert Pow10(3) == 1000;
  }

  lemma SixZeros()
    ensures AllDigits("000000") && Value("000000") == 0
  {
    ThreeDigits('0', '0', '0');
    SixDigits("000", "000");
    assert "000" + "000" == "000000";
  }

  lemma SixNines()
    ensures AllDigits("999999") && Value("999999") == 999999
  {
    ThreeDigits('9', '9', '9');
    SixDigits("999", "999");
    assert "999" + "999" == "999999";
  }

  lemma JoinTwo(a: string, b: string, x: char)
    ensures Join([a, b], [x]) == a + ([x] + b)
  {
    assert [a, b][1..] == [b];
    assert [x][1..] == [];
  }

  lemma JoinThree(a: string, b: string, c: string, x: char, y: char)
    ensures Join([a, b, c], [x, y]) == a + ([x] + (b + ([y] + c)))
  {
    assert [a, b, c][1..] == [b, c];
    assert [x, y][1..] == [y];
    JoinTwo(b, c, y);
  }

  // ---- ChronosTime: parsing ----

  lemma ParseAllZeros()
    ensures Parse("0.0.0.0") == Success(Time(0, 0, 0, 0))
  {
    var g := ["0", "0", "0", "0"];
    JoinFour("0", "0", "0", "0", '.', '.', '.');
    assert Join(g, "...") == "0.0.0.0";
    OneDigit('0');
    ParseAccepts(g, "...");
    assert Fraction("0") == 0;
  }

  // The literal is a parameter fixed by `requires`, so the solver does not unfold
  // Parse or Format on it character by character; the proof goes through the groups.
  lemma ParseShortGroups(s: string)
    requires s == "1:01:1.000001"
    ensures Parse(s) == Success(Time(1, 1, 1, 1))
  {
    var g := ["1", "01", "1", "000001"];
    JoinFour("1", "01", "1", "000001", ':', ':', '.');
    assert Join(g, "::.") == s;
    OneDigit('1');
    TwoDigits('0', '1');
    ThreeDigits('0', '0', '0');
    ThreeDigits('0', '0', '1');
    SixDigits("000", "001");
    assert "000" + "001" == "000001";
    assert "000001"[..6] == "000001";
    ParseAccepts(g, "::.");
  }

  lemma ParseMixedSeparators()
    ensures Parse("23:59.59.999999") == Success(Time(23, 59, 59, 999999))
  {
    var g := ["23", "59", "59", "999999"];
    JoinFour("23", "59", "59", "999999", ':', '.', '.');
    assert Join(g, ":..") == "23:59.59.999999";
    TwoDigits('2', '3');
    TwoDigits('5', '9');
    SixNines();
    assert "999999"[..6] == "999999";
    ParseAccepts(g, ":..");
  }

  /** A seventh fraction digit is cut off, not rounded. */
  lemma ParseTruncatesFraction()
    ensures Parse("23:59.59.9999991") == Success(Time(23, 59, 59, 999999))
  {
    var g := ["23", "59", "59", "9999991"];
    JoinFour("23", "59", "59", "9999991", ':', '.', '.');
    assert Join(g, ":..") == "23:59.59.9999991";
    TwoDigits('2', '3');
    TwoDigits('5', '9');
    assert "9999991"[..6] == "999999";
    SixNines();
    ParseAccepts(g, ":..");
  }

  /** Missing seconds and fraction are zero. */
  lemma ParseHourMinute()
    ensures Parse("12:13") == Success(Time(12, 13, 0, 0))
  {
    var g := ["12", "13"];
    JoinTwo("12", "13", ':');
    assert Join(g, ":") == "12:13";
    TwoDigits('1', '2');
    TwoDigits('1', '3');
    ParseAccepts(g, ":");
  }

  lemma ParseRejectsWord()
    ensures Parse("now").Failure?
  {
    assert Join(["now"], []) == "now";
    ParseRejectsShape(["now"], []);
  }

  lemma ParseRejectsLoneHour()
    ensures Parse("23").Failure?
  {
    assert Join(["23"], []) == "23";
    ParseRejectsShape(["23"], []);
  }

  lemma ParseRejectsHour24()
    ensures Parse("24:00:00").Failure?
  {
    var g := ["24", "00", "00"];
    JoinThree("24", "00", "00", ':', ':');
    assert Join(g, "::") == "24:00:00";
    TwoDigits('2', '4');
    TwoDigits('0', '0');
    ParseRejectsRange(g, "::");
  }

  lemma ParseRejectsMinute60()
    ensures Parse("23:60:00").Failure?
  {
    var g := ["23", "60", "00"];
    JoinThree("23", "60", "00", ':', ':');
    assert Join(g, "::") == "23:60:00";
    TwoDigits('2', '3');
    TwoDigits('6', '0');
    TwoDigits('0', '0');
    ParseRejectsRange(g, "::");
  }

  lemma ParseRejectsSecond60()
    ensures Parse("23:59:60").Failure?
  {
    var g := ["23", "59", "60"];
    JoinThree("23", "59", "60", ':', ':');
    assert Join(g, "::") == "23:59:60";
    TwoDigits('2', '3');
    TwoDigits('5', '9');
    TwoDigits('6', '0');
    ParseRejectsRange(g, "::");
  }

  // ---- ChronosTime: rendering ----

  /** The canonical text of four digit groups, written out. */
  function Canonical4(hh: string, mm: string, ss: string, ff: string): string {
    hh + ([':'] + (mm + ([':'] + (ss + (['.'] + ff)))))
  }

  lemma Canonical4Slices(hh: string, mm: string, ss: string, ff: string)
    requires |hh| == 2 && |mm| == 2 && |ss| == 2 && |ff| == 6
    ensures var s := Canonical4(hh, mm, ss, ff);
      && |s| == 15 && s[2] == ':' && s[5] == ':' && s[8] == '.'
      && s[..2] == hh && s[3..5] == mm && s[6..8] == ss && s[9..] == ff
  {
  }

  /** The canonical text character by character. */
  lemma Canonical4Chars(hh: string, mm: string, ss: string, ff: string)
    requires |hh| == 2 && |mm| == 2 && |ss| == 2 && |ff| == 6
    ensures Canonical4(hh, mm, ss, ff)
         == [hh[0], hh[1], ':', mm[0], mm[1], ':', ss[0], ss[1], '.', ff[0], ff[1], ff[2], ff[3], ff[4], ff[5]]
  {
  }

  /**
   * Four digit groups holding t's fields, joined by "::.", parse to t, and
   * t renders back as that text.
   */
  lemma RendersAs(t: Time, hh: string, mm: string, ss: string, ff: string)
    requires Valid(t)
    requires AllDigits(hh) && AllDigits(mm) && AllDigits(ss) && AllDigits(ff)
    requires |hh| == 2 && |mm| == 2 && |ss| == 2 && |ff| == 6
    requires Value(hh) == t.hours && Value(mm) == t.minutes && Value(ss) == t.seconds && Value(ff) == t.microseconds
    ensures Parse(Canonical4(hh, mm, ss, ff)) == Success(t)
    ensures Format(t, "H:i:s.u") == Canonical4(hh, mm, ss, ff)
  {
    var s := Canonical4(hh, mm, ss, ff);
    Canonical4Slices(hh, mm, ss, ff);
    assert Canonical(s);
    assert Parse(s) == Success(t) by {
      JoinFour(hh, mm, ss, ff, ':', ':', '.');
      assert ff[..6] == ff;
      ParseAccepts([hh, mm, ss, ff], "::.");
    }
    FormatParse(s);
  }

  // The literal is a parameter fixed by `requires`, so the solver does not unfold
  // Parse or Format on it character by character; the proof goes through the groups.
  lemma MidnightFormat(pattern: string)
    requires pattern == "H:i:s.u"
    ensures Format(Midnight(), pattern) == "00:00:00.000000"
  {
    TwoDigits('0', '0');
    SixZeros();
    RendersAs(Midnight(), "00", "00", "00", "000000");
    Canonical4Chars("00", "00", "00", "000000");
  }

  // The literal is a parameter fixed by `requires`, so the solver does not unfold
  // Parse or Format on it character by character; the proof goes through the groups.
  lemma NoonFormat(pattern: string)
    requires pattern == "H:i:s.u"
    ensures Format(Noon(), pattern) == "12:00:00.000000"
  {
    TwoDigits('1', '2');
    TwoDigits('0', '0');
    SixZeros();
    RendersAs(Noon(), "12", "00", "00", "000000");
    Canonical4Chars("12", "00", "00", "000000");
  }

  /** "1:01:1.000001" parses to 01:01:01.000001, which renders with every group padded. */
  // The literal is a parameter fixed by `requires`, so the solver does not unfold
  // Parse or Format on it character by character; the proof goes through the groups.
  lemma ShortGroupsRender(pattern: string)
    requires pattern == "H:i:s.u"
    ensures Format(Time(1, 1, 1, 1), pattern) == "01:01:01.000001"
  {
    TwoDigits('0', '1');
    ThreeDigits('0', '0', '0');
    ThreeDigits('0', '0', '1');
    SixDigits("000", "001");
    assert "000" + "001" == "000001";
    RendersAs(Time(1, 1, 1, 1), "01", "01", "01", "000001");
    Canonical4Chars("01", "01", "01", "000001");
  }

  /** "12:13" parses to 12:13:00.000000. */
  // The literal is a parameter fixed by `requires`, so the solver does not unfold
  // Parse or Format on it character by character; the proof goes through the groups.
  lemma HourMinuteRender(pattern: string)
    requires pattern == "H:i:s.u"
    ensures Format(Time(12, 13, 0, 0), pattern) == "12:13:00.000000"
  {
    TwoDigits('1', '2');
    TwoDigits('1', '3');
    TwoDigits('0', '0');
    SixZeros();
    RendersAs(Time(12, 13, 0, 0), "12", "13", "00", "000000");
    Canonical4Chars("12", "13", "00", "000000");
  }

  lemma RoundTripLatest()
    ensures Parse("23:59:59.999999") == Success(Time(23, 59, 59, 999999))
    ensures Format(Time(23, 59, 59, 999999), "H:i:s.u") == "23:59:59.999999"
  {
    TwoDigits('2', '3');
    TwoDigits('5', '9');
    SixNines();
    RendersAs(Time(23, 59, 59, 999999), "23", "59", "59", "999999");
    Canonical4Chars("23", "59", "59", "999999");
  }

  // ---- ChronosTime: setters and setTime ----

  lemma SingleSetters()
    ensures SetHours(Midnight(), 24) == Time(0, 0, 0, 0)
    ensures SetHours(Midnight(), -1) == Time(23, 0, 0, 0)
    ensures SetMinutes(Midnight(), 60) == Time(1, 0, 0, 0)
    ensures SetMinutes(Midnight(), -1) == Time(23, 59, 0, 0)
    ensures SetSeconds(Midnight(), 60) == Time(0, 1, 0, 0)
    ensures SetSeconds(Midnight(), -1) == Time(23, 59, 59, 0)
    ensures SetMicroseconds(Midnight(), 1_000_000) == Time(0, 0, 1, 0)
    ensures SetMicroseconds(Midnight(), -1) == Time(23, 59, 59, 999999)
  {
  }

  lemma ChainedSetters()
    ensures SetMicroseconds(SetSeconds(SetMinutes(SetHours(Midnight(), 25), 120), 120), 2_000_001)
         == Time(3, 2, 2, 1)
  {
    var h := SetHours(Midnight(), 25);
    assert h == Time(1, 0, 0, 0);
    var m := SetMinutes(h, 120);
    assert m == Time(3, 0, 0, 0);
    var s := SetSeconds(m, 120);
    assert s == Time(3, 2, 0, 0);
  }

  lemma SetTimeNoArguments()
    ensures SetTime(Midnight()) == Time(0, 0, 0, 0)
  {
  }

  lemma SetTimeOverflow()
    ensures SetTime(Midnight(), 24, 120, 120, 1_000_000) == Time(2, 2, 1, 0)
  {
    TicksInjective(SetTime(Midnight(), 24, 120, 120, 1_000_000), Time(2, 2, 1, 0));
  }

  /** The same values the getters report after setTime(-1, -1, -1, -1). */
  lemma SetTimeAllNegative()
    ensures SetTime(Midnight(), -1, -1, -1, -1) == Time(22, 58, 58, 999999)
  {
    TicksInjective(SetTime(Midnight(), -1, -1, -1, -1), Time(22, 58, 58, 999999));
  }

  lemma SetTimeMixedSigns()
    ensures SetTime(Midnight(), -1, 120, -1, 1_000_001) == Time(1, 0, 0, 1)
  {
    TicksInjective(SetTime(Midnight(), -1, 120, -1, 1_000_001), Time(1, 0, 0, 1));
  }

  // ---- Date ----

  lemma NewYear2001()
    ensures ChronosDate.Create(2001, 1, 1).date == Calendar.CivilDate(2001, 1, 1)
  {
  }

  lemma EndsOfPeriods()
    ensures ChronosDate.EndOfMonth(ChronosDate.Create(2001, 1, 1)).date == Calendar.CivilDate(2001, 1, 31)
    ensures ChronosDate.EndOfYear(ChronosDate.Create(2001, 1, 1)).date == Calendar.CivilDate(2001, 12, 31)
    ensures ChronosDate.EndOfDecade(ChronosDate.Create(2001, 1, 1)).date == Calendar.CivilDate(2009, 12, 31)
    ensures ChronosDate.EndOfCentury(ChronosDate.Create(2001, 1, 1)).date == Calendar.CivilDate(2100, 12, 31)
  {
    NewYear2001();
  }

  lemma MondayNewYear()
    ensures Calendar.Valid(Calendar.CivilDate(2001, 1, 1))
    ensures Calendar.IsoWeekday(Calendar.CivilDate(2001, 1, 1)) == 1
  {
  }

  lemma ThirdOfJanuary2001()
    ensures Calendar.Valid(Calendar.CivilDate(2001, 1, 3))
    ensures Calendar.DayNumber(Calendar.CivilDate(2001, 1, 3)) == Calendar.DayNumber(Calendar.CivilDate(2001, 1, 1)) + 2
  {
  }

  lemma ChristmasDay2000()
    ensures Calendar.Valid(Calendar.CivilDate(2000, 12, 25))
    ensures Calendar.DayNumber(Calendar.CivilDate(2000, 12, 25)) == Calendar.DayNumber(Calendar.CivilDate(2001, 1, 1)) - 7
  {
  }

  lemma NextWednesday()
    ensures ChronosDate.Next(ChronosDate.Create(2001, 1, 1), Some(3))
         == Success(ChronosDate.AtMidnight(Calendar.CivilDate(2001, 1, 3)))
  {
    NewYear2001();
    NextFromNewYear(ChronosDate.Create(2001, 1, 1));
  }

  lemma NextFromNewYear(d: ChronosDate.Date)
    requires ChronosDate.Valid(d) && d.date == Calendar.CivilDate(2001, 1, 1)
    ensures ChronosDate.Next(d, Some(3)) == Success(ChronosDate.AtMidnight(Calendar.CivilDate(2001, 1, 3)))
  {
    MondayNewYear();
    var n := Calendar.DayNumber(d.date);
    Calendar.WeekdayOfShift(n, 2);
    ChronosDate.NextIsAt(d, Some(3), 2);
    ThirdOfJanuary2001();
    Calendar.DayNumberInjective(Calendar.AddDays(d.date, 2), Calendar.CivilDate(2001, 1, 3));
  }

  /** The step is strict: from a Monday, the previous Monday is a week back. */
  lemma PreviousMonday()
    ensures ChronosDate.Previous(ChronosDate.Create(2001, 1, 1), Some(1))
         == Success(ChronosDate.AtMidnight(Calendar.CivilDate(2000, 12, 25)))
  {
    NewYear2001();
    PreviousFromNewYear(ChronosDate.Create(2001, 1, 1));
  }

  lemma PreviousFromNewYear(d: ChronosDate.Date)
    requires ChronosDate.Valid(d) && d.date == Calendar.CivilDate(2001, 1, 1)
    ensures ChronosDate.Previous(d, Some(1)) == Success(ChronosDate.AtMidnight(Calendar.CivilDate(2000, 12, 25)))
  {
    MondayNewYear();
    ChronosDate.PreviousOwnWeekday(d);
    ChristmasDay2000();
    Calendar.DayNumberInjective(Calendar.AddDays(d.date, -7), Calendar.CivilDate(2000, 12, 25));
  }

  lemma DateTimeStaysZero(d: ChronosDate.Date)
    requires ChronosDate.Valid(d)
    ensures ChronosDate.SetTime(d, 1, 2, 3, 4).time == Midnight()
    ensures ChronosDate.Hour(d, 11) == d && ChronosDate.Minute(d, 40) == d && ChronosDate.Second(d, 10) == d
    ensures ChronosDate.AddHours(d, 11) == d && ChronosDate.SubMinutes(d, 40) == d
  {
  }

  // ---- ChronosInterval ----

  lemma IntervalGetters()
    ensures var iv := ChronosInterval.Create(4, 5, 6, 5, 8, 9, 10, 123);
      && ChronosInterval.Get(iv, "years") == Success(4)
      && ChronosInterval.Get(iv, "months") == Success(5)
      && ChronosInterval.Get(iv, "weeks") == Success(6)
      && ChronosInterval.Get(iv, "daysExcludeWeeks") == Success(5)
      && ChronosInterval.Get(iv, "dayzExcludeWeeks") == Success(5)
      && ChronosInterval.Get(iv, "dayz") == Success(6 * 7 + 5)
      && ChronosInterval.Get(iv, "hours") == Success(8)
      && ChronosInterval.Get(iv, "minutes") == Success(9)
      && ChronosInterval.Get(iv, "seconds") == Success(10)
      && ChronosInterval.Get(iv, "microseconds") == Success(123)
  {
    ChronosInterval.CreateGettersEcho(4, 5, 6, 5, 8, 9, 10, 123);
  }

  lemma UnknownIntervalGetter()
    ensures ChronosInterval.Get(ChronosInterval.Year(), "sdfsdfss").Failure?
  {
  }
}
