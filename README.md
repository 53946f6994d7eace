# Chronos value types in Dafny

This project models three immutable value types of the Chronos PHP date/time
library: the behaviour its test suite asserts, stated and proved in Dafny.

- **ChronosTime** is a time of day: hours, minutes, seconds and
  microseconds.
  - It is built by a strict text parser. The parser accepts `H[:.]M[:.]S[:.]F`.
    It pads the fraction to six digits and truncates it after six. Missing
    trailing groups are zero. It rejects anything else, including an hour
    above 23 or a minute or second above 59.
  - Four permissive single-field setters take any integer. Each one
    renormalises the whole value modulo one day, with a non-negative
    remainder.
  - `setTime` reduces all four arguments in one combined pass.
  - `midnight`, `noon` and a formatter for the `H`, `i`, `s` and `u`
    tokens complete the type.
- **Date** is a calendar day whose time of day is always 00:00:00.000000.
  - Every time setter and every hour, minute or second modification leaves
    the time at midnight. So do `setTime`, `setTimestamp`, `startOfDay` and
    `endOfDay`.
  - The ends of month, year, decade and century, and `next` and `previous`
    to an ISO-8601 weekday, move the day in the proleptic Gregorian
    calendar.
- **ChronosInterval** is a duration built by `create(years, months, weeks,
  days, hours, minutes, seconds, microseconds)`.
  - Weeks are folded into the total day count.
  - Named getters read the parts back: `weeks`, `daysExcludeWeeks` and its
    alias `dayzExcludeWeeks` are derived from the day count.
  - An unknown getter name is an error.

Modules:

- `Wrappers`: `Option` and `Result`.
- `Arith`: integer facts, and PHP's truncating `%` (`PhpRem`).
- `Decimal`: digit strings, their values and zero padding.
- `ChronosTime`: the time value, its tick count and the setters.
- `ChronosTimeText`: the parser and the formatter.
- `Calendar`: day numbers, day stepping and weekdays.
- `ChronosDate`: the date value.
- `ChronosInterval`: the interval value.
- `Scenarios`: the concrete cases from the test suite, as lemmas.

Everything is a datatype, a function or a lemma. Every operation returns a
new value, and no value is ever updated in place.

Two behaviours worth stating directly:

- The parser accepts a fraction of any length of one or more digits.
  `ChronosTimeTest.php` lines 46-47 expect `'23:59.59.9999991'` to parse,
  with the seventh digit dropped.
- `setTime(h, m, s, us)` always equals `setHours`, `setMinutes`,
  `setSeconds` and `setMicroseconds` applied in that order, from any
  receiver (`ChronosTime.SetTimeIsChainedSetters`).

Some members are helpers without a row in the table below:

- The interval's named getters `ChronosInterval.Years`, `Months`, `Dayz`,
  `Hours`, `Minutes`, `Seconds` and `Microseconds` are plain accessors.
  `ChronosInterval.Get`, `ChronosInterval.Create` and
  `ChronosInterval.CreateGettersEcho` describe them.
- `ChronosInterval.Part` stores one constructor argument. Its rule is listed
  under "Left out", and `ChronosInterval.CreateGettersEcho` states its
  effect.
- `ChronosDate.Piece` renders one date-format character.
  `ChronosDate.Format` and its lemmas describe it.

`dayOfWeek` is `Calendar.IsoWeekday`, which has its own row.

## Model

| member | source | states |
|---|---|---|
| ChronosTime.FromTicksOfTicks | tests/TestCase/ChronosTimeTest.php:151-158 | a valid time is recovered from its microsecond count, so the four getters are a faithful view of one count within a day |
| ChronosTime.TicksInjective | tests/TestCase/ChronosTimeTest.php:151-158 | two valid times with the same microsecond count are equal |
| ChronosTime.Normalize | tests/TestCase/ChronosTimeTest.php:121-145 | any integer count gives a valid time whose count is the count modulo one day (non-negative remainder) |
| ChronosTime.NormalizeShift | tests/TestCase/ChronosTimeTest.php:121-145 | counts that differ by whole days normalise to the same time |
| ChronosTime.Midnight | tests/TestCase/ChronosTimeTest.php:109-113 | midnight is valid and is count 0 |
| ChronosTime.Noon | tests/TestCase/ChronosTimeTest.php:115-119 | noon is valid and is half a day |
| ChronosTime.SetHours | tests/TestCase/ChronosTimeTest.php:123-127 | hours become n mod 24; the other fields are kept; the count is n hours plus the receiver's finer fields, modulo one day |
| ChronosTime.SetMinutes | tests/TestCase/ChronosTimeTest.php:129-133 | minutes become n mod 60; whole hours of n carry into the hours mod 24; seconds and microseconds are kept |
| ChronosTime.SetSeconds | tests/TestCase/ChronosTimeTest.php:135-139 | seconds become n mod 60 and carry through the minutes into the hours; microseconds are kept |
| ChronosTime.SetMicroseconds | tests/TestCase/ChronosTimeTest.php:141-145 | microseconds become n mod 1000000 and carry through the seconds, minutes and hours |
| ChronosTime.SetTime | tests/TestCase/ChronosTimeTest.php:160-175 | the result is valid and its count is the four arguments combined, reduced once modulo one day |
| ChronosTime.SetTimeInRange | tests/TestCase/ChronosTimeTest.php:160-175 | setTime with in-range arguments gives exactly those fields, whatever the receiver; the test itself uses only out-of-range or default arguments, and this is the base case their wrap-around reduces to |
| ChronosTime.SetTimeIsChainedSetters | tests/TestCase/ChronosTimeTest.php:147-148 | setTime equals setHours, then setMinutes, then setSeconds, then setMicroseconds, from any receiver and for any integers |
| ChronosTime.SetTimeDefaults | tests/TestCase/ChronosTimeTest.php:160-165 | setTime with no arguments is midnight, and the result never depends on the receiver |
| ChronosTimeText.SplitJoin | tests/TestCase/ChronosTimeTest.php:35-51 | separator-free groups joined by separators split back into the same groups |
| ChronosTimeText.JoinSplit | tests/TestCase/ChronosTimeTest.php:35-51 | any text is its groups re-joined by its own separators |
| ChronosTimeText.Fraction | tests/TestCase/ChronosTimeTest.php:40-47 | the fraction is below one second; at most six digits are scaled up by padding, and longer fractions keep only their first six digits |
| ChronosTimeText.Parse | tests/TestCase/ChronosTimeTest.php:35-93 | success exactly when the groups are well formed and in range; on success the fields are the group values, with missing seconds and fraction zero |
| ChronosTimeText.ParseAccepts | tests/TestCase/ChronosTimeTest.php:35-51 | joined digit groups of an accepted shape and in range parse to those exact fields |
| ChronosTimeText.ParseRejectsShape | tests/TestCase/ChronosTimeTest.php:65-75 | a text whose groups are not two to four non-empty digit groups (first three at most two digits) is rejected as malformed |
| ChronosTimeText.ParseRejectsRange | tests/TestCase/ChronosTimeTest.php:77-93 | a well-shaped text with hour above 23 or minute or second above 59 is rejected, never clamped |
| ChronosTimeText.SeparatorsInterchangeable | tests/TestCase/ChronosTimeTest.php:43-47 | replacing any ':' by '.' or back changes neither success nor the parsed value |
| ChronosTimeText.FormatChar | tests/TestCase/ChronosTimeTest.php:177-181 | H, i and s render as two digits denoting hours, minutes and seconds, and u as six digits denoting microseconds; any other character renders as itself |
| ChronosTimeText.Format | tests/TestCase/ChronosTimeTest.php:177-181 | a pattern without tokens renders as itself |
| ChronosTimeText.FormatAppend | tests/TestCase/ChronosTimeTest.php:177-181 | formatting distributes over concatenation of patterns |
| ChronosTimeText.FormatCanonical | tests/TestCase/ChronosTimeTest.php:177-181 | `H:i:s.u` renders the four zero-padded fields joined by ':', ':' and '.' |
| ChronosTimeText.CanonicalGroups | tests/TestCase/ChronosTimeTest.php:177-181 | the rendered fields are well-formed, in-range digit groups whose values are the time's fields |
| ChronosTimeText.ParseFormat | tests/TestCase/ChronosTimeTest.php:177-181 | parsing the `H:i:s.u` rendering of any valid time gives back that time |
| ChronosTimeText.FormatParse | tests/TestCase/ChronosTimeTest.php:95-99 | a canonical `HH:MM:SS.ffffff` text parses, and formatting the result reproduces the text |
| ChronosTimeText.FromInstance | tests/TestCase/ChronosTimeTest.php:53-63 | constructing from another time-bearing value copies its four fields |
| ChronosTimeText.Now | tests/TestCase/ChronosTimeTest.php:101-107 | the current time is the clock value's time of day |
| Decimal.PadLeft | tests/TestCase/ChronosTimeTest.php:37-41 | zero padding gives a digit string of the number's value, at least as wide as asked and exactly that wide when the number fits |
| Decimal.PadLeftOfValue | tests/TestCase/ChronosTimeTest.php:95-99 | re-padding the value of a digit string to its own width gives the string back |
| Decimal.ValueInjective | tests/TestCase/ChronosTimeTest.php:95-99 | digit strings of equal length and equal value are equal |
| Arith.PhpRem | tests/TestCase/Date/TimeMutateTest.php:157-171 | PHP's `%`: the remainder takes the dividend's sign, is smaller than the divisor in magnitude, and differs from the dividend by a multiple of the divisor |
| Calendar.DaysInMonth | tests/TestCase/Date/TimeMutateTest.php:141-147 | months have 28 to 31 days, and 29 exactly for February of a leap year |
| Calendar.DaysBeforeYearStep | tests/TestCase/Date/TimeMutateTest.php:149-155 | consecutive years' first days are a year's length apart |
| Calendar.NextDay | tests/TestCase/Date/TimeMutateTest.php:173-178 | the following day is valid and one day number later |
| Calendar.PrevDay | tests/TestCase/Date/TimeMutateTest.php:180-182 | the preceding day is valid and one day number earlier |
| Calendar.AddDays | tests/TestCase/Date/TimeMutateTest.php:173-183 | stepping n days gives a valid day n day numbers on |
| Calendar.FromDayNumber | tests/TestCase/Date/TimeMutateTest.php:112-125 | every integer is the day number of a valid day |
| Calendar.DayNumberOrder | tests/TestCase/Date/TimeMutateTest.php:149-155 | day numbers follow calendar order |
| Calendar.DayNumberInjective | tests/TestCase/Date/TimeMutateTest.php:173-183 | two valid days are equal exactly when their day numbers are |
| Calendar.FromDayNumberOfDayNumber | tests/TestCase/Date/TimeMutateTest.php:112-125 | going to a day number and back gives the same day |
| Calendar.IsoWeekday | tests/TestCase/Date/TimeMutateTest.php:175-182 | the ISO weekday that next() and previous() count from lies in 1..7; Calendar.EpochIsThursday and Calendar.WeekdayOfShift fix which day is which |
| Calendar.WeekdayOfShift | tests/TestCase/Date/TimeMutateTest.php:173-183 | moving n days moves the ISO weekday n places round the week |
| Calendar.IsoWeekdayAddDays | tests/TestCase/Date/TimeMutateTest.php:173-183 | the weekday of the day n days on is the weekday moved n places |
| Calendar.WeekdayOfWeekAway | tests/TestCase/Date/TimeMutateTest.php:180-182 | a week on or back is the same weekday |
| Calendar.EpochIsThursday | tests/TestCase/Date/TimeMutateTest.php:173-183 | 1970-01-01 is day 0 and falls on ISO weekday 4 |
| ChronosDate.AtMidnight | tests/TestCase/Date/TimeMutateTest.php:127-131 | a calendar day as a Date has time midnight |
| ChronosDate.Create | tests/TestCase/Date/TimeMutateTest.php:133-139 | create(y, m, d) is valid; it is exactly y-m-d when that day exists, and otherwise overflows day by day from the first of the month |
| ChronosDate.SetTime | tests/TestCase/Date/TimeMutateTest.php:93-105 | setTime keeps the day and leaves the time at midnight, whatever the arguments |
| ChronosDate.Hour | tests/TestCase/Date/TimeMutateTest.php:67 | hour(v) keeps the day at midnight |
| ChronosDate.Minute | tests/TestCase/Date/TimeMutateTest.php:64 | minute(v) keeps the day at midnight |
| ChronosDate.Second | tests/TestCase/Date/TimeMutateTest.php:61 | second(v) keeps the day at midnight |
| ChronosDate.Modify | tests/TestCase/Date/TimeMutateTest.php:24-51 | a modifier naming hours, minutes or seconds returns the receiver unchanged; day and week terms move the day number by their sum |
| ChronosDate.AddHours | tests/TestCase/Date/TimeMutateTest.php:68 | addHours returns the receiver unchanged |
| ChronosDate.SubHours | tests/TestCase/Date/TimeMutateTest.php:69 | subHours returns the receiver unchanged |
| ChronosDate.AddMinutes | tests/TestCase/Date/TimeMutateTest.php:65 | addMinutes returns the receiver unchanged |
| ChronosDate.SubMinutes | tests/TestCase/Date/TimeMutateTest.php:66 | subMinutes returns the receiver unchanged |
| ChronosDate.AddSeconds | tests/TestCase/Date/TimeMutateTest.php:62 | addSeconds returns the receiver unchanged |
| ChronosDate.SubSeconds | tests/TestCase/Date/TimeMutateTest.php:63 | subSeconds returns the receiver unchanged |
| ChronosDate.SetTimestamp | tests/TestCase/Date/TimeMutateTest.php:112-125 | the result is at midnight of the UTC day whose 86400 seconds hold the timestamp |
| ChronosDate.StartOfDay | tests/TestCase/Date/TimeMutateTest.php:127-131 | startOfDay returns the same Date |
| ChronosDate.EndOfDay | tests/TestCase/Date/TimeMutateTest.php:133-139 | endOfDay returns the same Date: day kept, time still midnight |
| ChronosDate.EndOfMonth | tests/TestCase/Date/TimeMutateTest.php:141-147 | same year and month, not before the receiver, and the next day is in another month |
| ChronosDate.EndOfYear | tests/TestCase/Date/TimeMutateTest.php:149-155 | same year, not before the receiver, and the next day is in the following year |
| ChronosDate.EndOfYearAfter | tests/TestCase/Date/TimeMutateTest.php:149-155 | every day of a year is on or before its 31 December |
| ChronosDate.EndOfDecade | tests/TestCase/Date/TimeMutateTest.php:157-163 | 31 December of y - y % 10 + 9 with PHP's `%`; for y >= 0 a year ending in 9, within nine years after y |
| ChronosDate.EndOfCentury | tests/TestCase/Date/TimeMutateTest.php:165-171 | 31 December of (y-1) - (y-1) % 100 + 100; for y >= 1 a multiple of 100, within 99 years after y |
| ChronosDate.Next | tests/TestCase/Date/TimeMutateTest.php:173-178 | succeeds exactly for a weekday in 1..7; the result is 1 to 7 days later, falls on that weekday, and no day in between does |
| ChronosDate.Previous | tests/TestCase/Date/TimeMutateTest.php:180-182 | succeeds exactly for a weekday in 1..7; the result is 1 to 7 days earlier, falls on that weekday, and no day in between does |
| ChronosDate.NextGap | tests/TestCase/Date/TimeMutateTest.php:173-178 | the step next() takes lands on the weekday with no such day before it |
| ChronosDate.PreviousGap | tests/TestCase/Date/TimeMutateTest.php:180-182 | the step previous() takes lands on the weekday with no such day after it |
| ChronosDate.NextIsAt | tests/TestCase/Date/TimeMutateTest.php:173-178 | if day n + k (1 <= k <= 7) falls on the weekday, next() returns exactly that day |
| ChronosDate.PreviousIsAt | tests/TestCase/Date/TimeMutateTest.php:180-182 | if day n - k (1 <= k <= 7) falls on the weekday, previous() returns exactly that day |
| ChronosDate.WeekdayWithinWeek | tests/TestCase/Date/TimeMutateTest.php:173-183 | distinct days less than a week apart have distinct weekdays |
| ChronosDate.NextWithoutWeekday | tests/TestCase/Date/TimeMutateTest.php:173-178 | next() without an argument is one week on |
| ChronosDate.NextOwnWeekday | tests/TestCase/Date/TimeMutateTest.php:173-178 | next() to the receiver's own weekday is one week on (strict step) |
| ChronosDate.PreviousWithoutWeekday | tests/TestCase/Date/TimeMutateTest.php:180-182 | previous() without an argument is one week back |
| ChronosDate.PreviousOwnWeekday | tests/TestCase/Date/TimeMutateTest.php:180-182 | previous() to the receiver's own weekday is one week back (strict step) |
| ChronosDate.FormatYear | tests/TestCase/Date/TimeMutateTest.php:138 | a year from 0 on renders as digits denoting it, and a negative year as '-' followed by digits denoting its magnitude; at least four characters, exactly four digits when the magnitude is below 10000 |
| ChronosDate.Format | tests/TestCase/Date/TimeMutateTest.php:138 | a pattern made only of '-' renders as itself |
| ChronosDate.FormatClockIsZero | tests/TestCase/Date/TimeMutateTest.php:127-139 | every Date renders `H:i:s` as "00:00:00" |
| ChronosDate.FormatMicrosecondsIsZero | tests/TestCase/Date/TimeMutateTest.php:83-87 | every Date renders `u` as "000000" |
| ChronosDate.FormatCalendarDay | tests/TestCase/Date/TimeMutateTest.php:138 | for years 0..9999, `Y-m-d` is ten characters with dashes at 4 and 7 and digit fields whose values are year, month and day |
| ChronosInterval.Create | tests/TestCase/Interval/IntervalGettersTest.php:30-83 | each getter returns its stored part, and the day count is seven per week plus the days |
| ChronosInterval.Year | tests/TestCase/Interval/IntervalGettersTest.php:23-28 | year() has years 1 and every other known getter 0 |
| ChronosInterval.Weeks | tests/TestCase/Interval/IntervalGettersTest.php:42-46 | weeks is the number of whole weeks in the day count |
| ChronosInterval.DaysExcludeWeeks | tests/TestCase/Interval/IntervalGettersTest.php:48-53 | the leftover days are below seven and with the whole weeks make up the day count |
| ChronosInterval.Get | tests/TestCase/Interval/IntervalGettersTest.php:23-28 | a getter name succeeds exactly when it is one of the ten known names; otherwise the error names it |
| ChronosInterval.DayAliases | tests/TestCase/Interval/IntervalGettersTest.php:48-53 | daysExcludeWeeks and dayzExcludeWeeks always agree |
| ChronosInterval.DayzIsWeeksAndDays | tests/TestCase/Interval/IntervalGettersTest.php:55-59 | dayz is seven times weeks plus daysExcludeWeeks |
| ChronosInterval.CreateGettersEcho | tests/TestCase/Interval/IntervalGettersTest.php:30-83 | with non-negative arguments and under seven days, every getter returns the argument it names |
| ChronosInterval.CreateCarriesDays | tests/TestCase/Interval/IntervalGettersTest.php:42-59 | seven or more days carry into the weeks getter |
| Scenarios.ParseAllZeros | tests/TestCase/ChronosTimeTest.php:37-38 | "0.0.0.0" parses to 00:00:00.000000 |
| Scenarios.ParseShortGroups | tests/TestCase/ChronosTimeTest.php:40-41 | "1:01:1.000001" parses to 01:01:01.000001 |
| Scenarios.ShortGroupsRender | tests/TestCase/ChronosTimeTest.php:40-41 | 01:01:01.000001 renders as "01:01:01.000001" |
| Scenarios.ParseMixedSeparators | tests/TestCase/ChronosTimeTest.php:43-44 | "23:59.59.999999" parses to 23:59:59.999999 |
| Scenarios.ParseTruncatesFraction | tests/TestCase/ChronosTimeTest.php:46-47 | "23:59.59.9999991" parses to 23:59:59.999999 |
| Scenarios.ParseHourMinute | tests/TestCase/ChronosTimeTest.php:49-50 | "12:13" parses to 12:13:00.000000 |
| Scenarios.HourMinuteRender | tests/TestCase/ChronosTimeTest.php:49-50 | 12:13:00.000000 renders as "12:13:00.000000" |
| Scenarios.ParseRejectsWord | tests/TestCase/ChronosTimeTest.php:65-69 | "now" is rejected |
| Scenarios.ParseRejectsLoneHour | tests/TestCase/ChronosTimeTest.php:71-75 | "23" is rejected |
| Scenarios.ParseRejectsHour24 | tests/TestCase/ChronosTimeTest.php:77-81 | "24:00:00" is rejected |
| Scenarios.ParseRejectsMinute60 | tests/TestCase/ChronosTimeTest.php:83-87 | "23:60:00" is rejected |
| Scenarios.ParseRejectsSecond60 | tests/TestCase/ChronosTimeTest.php:89-93 | "23:59:60" is rejected |
| Scenarios.RendersAs | tests/TestCase/ChronosTimeTest.php:95-99 | two-, two-, two- and six-digit groups holding a time's fields, joined by "::.", parse to it and are its rendering |
| Scenarios.RoundTripLatest | tests/TestCase/ChronosTimeTest.php:95-99 | "23:59:59.999999" parses to 23:59:59.999999 and renders back to the same text |
| Scenarios.MidnightFormat | tests/TestCase/ChronosTimeTest.php:109-113 | midnight renders as "00:00:00.000000" |
| Scenarios.NoonFormat | tests/TestCase/ChronosTimeTest.php:115-119 | noon renders as "12:00:00.000000" |
| Scenarios.SingleSetters | tests/TestCase/ChronosTimeTest.php:121-145 | the eight single-setter cases from midnight give the expected times |
| Scenarios.ChainedSetters | tests/TestCase/ChronosTimeTest.php:147-148 | setHours(25), setMinutes(120), setSeconds(120), setMicroseconds(2000001) from midnight give 03:02:02.000001 |
| Scenarios.SetTimeNoArguments | tests/TestCase/ChronosTimeTest.php:162-165 | setTime() is 00:00:00.000000 |
| Scenarios.SetTimeOverflow | tests/TestCase/ChronosTimeTest.php:167-168 | setTime(24, 120, 120, 1000000) is 02:02:01.000000 |
| Scenarios.SetTimeAllNegative | tests/TestCase/ChronosTimeTest.php:151-158 | setTime(-1, -1, -1, -1) is 22:58:58.999999 |
| Scenarios.SetTimeMixedSigns | tests/TestCase/ChronosTimeTest.php:173-174 | setTime(-1, 120, -1, 1000001) is 01:00:00.000001 |
| Scenarios.NewYear2001 | tests/TestCase/Date/TimeMutateTest.php:135 | Date::create(2001, 1, 1) is 2001-01-01 |
| Scenarios.EndsOfPeriods | tests/TestCase/Date/TimeMutateTest.php:141-171 | from 2001-01-01 the ends of month, year, decade and century are 2001-01-31, 2001-12-31, 2009-12-31 and 2100-12-31 |
| Scenarios.MondayNewYear | tests/TestCase/Date/TimeMutateTest.php:175 | 2001-01-01 is a Monday |
| Scenarios.NextWednesday | tests/TestCase/Date/TimeMutateTest.php:175-178 | next(3) from 2001-01-01 is 2001-01-03 at midnight |
| Scenarios.PreviousMonday | tests/TestCase/Date/TimeMutateTest.php:180-182 | previous(1) from Monday 2001-01-01 is 2000-12-25 at midnight |
| Scenarios.DateTimeStaysZero | tests/TestCase/Date/TimeMutateTest.php:58-105 | setTime(1, 2, 3, 4) leaves the time at midnight, and hour, minute, second, addHours and subMinutes return the receiver |
| Scenarios.IntervalGetters | tests/TestCase/Interval/IntervalGettersTest.php:30-83 | create(4, 5, 6, 5, 8, 9, 10, 123) reads back 4, 5, 6, 5, 5, 47, 8, 9, 10, 123 |
| Scenarios.UnknownIntervalGetter | tests/TestCase/Interval/IntervalGettersTest.php:23-28 | the getter "sdfsdfss" fails on year() |

## Left out

- The library's own source files (`src/ChronosTime.php`, `src/Date.php`,
  `src/ChronosInterval.php` and the traits they use) are not part of this
  model. Most behaviour follows the test suite. Where the tests are
  silent, some rules follow the PHP base classes `DateTimeImmutable` and
  `DateInterval`. The four rules below follow the library's implementation
  and go beyond what the tests assert.
- `ChronosDate.EndOfDecade` and `ChronosDate.EndOfCentury` use PHP's
  truncating `%`. Under it year 2000 ends its century in 2000, and year -5
  ends its decade in year 9. The tests check only 2001.
- `ChronosDate.Modify` returns the receiver whenever any term names a time
  unit, even when the list also holds day terms. The tests use time-unit
  terms only.
- `ChronosInterval.Part` stores a negative or zero argument as 0. The tests
  pass only positive arguments.
- `ChronosDate.Next` and `ChronosDate.Previous` give a `Failure` for a
  weekday outside 1..7, where the library reads an undefined array index.
  The tests pass only weekdays in range.
- The wall clock and the process-wide test clock (`Chronos::setTestNow`,
  `new ChronosTime()`, `ChronosTime::now()`, `new Date()` for today).
  `ChronosTimeText.Now` takes the clock's time of day as a parameter.
- PHP's free-form relative-date parser (`modify('+1 hours, +9 minutes')`,
  `strtotime`). `ChronosDate.Modify` takes a parsed list of terms. Its
  units cover days, weeks, hours, minutes and seconds; month and year terms
  are not modelled.
- `ChronosDate.SetTimestamp`: timestamps are read in UTC; timezones are
  not modelled anywhere.
- Construction from `DateTimeImmutable` or `Chronos` objects.
  `ChronosTimeText.FromInstance` takes the source's time of day as a
  ChronosTime value.
- Format tokens other than `H`, `i`, `s`, `u` (and `Y`, `m`, `d` for Date),
  locale-aware formatting, interval-to-string and human-readable
  differences.
- `ChronosDate.FormatCalendarDay` only describes years 0..9999. Other years
  render through `FormatYear` with more digits or a minus sign.
- `ChronosInterval.Create`: a negative or zero argument is stored as 0.
  Microseconds are held as a whole number, where `DateInterval` keeps a
  floating-point fraction of a second. The interval's sign (`invert`) and
  `DateInterval`'s other native properties are not modelled.
- Object identity (`assertNotSame`). Values here are immutable, so "a new
  object" and "the receiver unchanged" both become value equalities.
- PHP's 64-bit integer limits. Arguments are unbounded integers; the
  tests stay far from overflow.
