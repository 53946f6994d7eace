// ChronosInterval: a duration in the shape of PHP's DateInterval. Weeks are
// not stored: create() folds them into the day count d, and the named
// getters recover weeks and the remaining days from d.

module ChronosInterval {
  import opened Wrappers

  const DAYS_PER_WEEK: int := 7

  /** The stored parts: years, months, total days, hours, minutes, seconds, microseconds. */
  datatype Interval = Interval(y: nat, m: nat, d: nat, h: nat, i: nat, s: nat, f: nat)

  datatype GetterError = UnknownGetter(name: string)

  /** A part that create() writes into the period only when positive; otherwise it stays 0. */
  function Part(n: int): (p: nat)
    ensures n > 0 ==> p == n
    ensures n <= 0 ==> p == 0
  {
    if n > 0 then n else 0
  }

  /**
   * create(years = 1, months, weeks, days, hours, minutes, seconds,
   * microseconds): the weeks are stored as 7 days each, added to the days.
   */
  function Create(years: int := 1, months: int := 0, weeks: int := 0, days: int := 0,
                  hours: int := 0, minutes: int := 0, seconds: int := 0, microseconds: int := 0): (iv: Interval)
    ensures Years(iv) == Part(years) && Months(iv) == Part(months)
    ensures Dayz(iv) == DAYS_PER_WEEK * Part(weeks) + Part(days)
    ensures Hours(iv) == Part(hours) && Minutes(iv) == Part(minutes)
    ensures Seconds(iv) == Part(seconds) && Microseconds(iv) == Part(microseconds)
  {
    Interval(Part(years), Part(months), DAYS_PER_WEEK * Part(weeks) + Part(days),
             Part(hours), Part(minutes), Part(seconds), Part(microseconds))
  }

  /** year(): an interval of one year. */
  function Year(): (iv: Interval)
    ensures Get(iv, "years") == Success(1)
    ensures forall name :: name in GETTER_NAMES && name != "years" ==> Get(iv, name) == Success(0)
  {
    Create(1)
  }

  function Years(iv: Interval): nat { iv.y }
  function Months(iv: Interval): nat { iv.m }
  function Dayz(iv: Interval): nat { iv.d }
  function Hours(iv: Interval): nat { iv.h }
  function Minutes(iv: Interval): nat { iv.i }
  function Seconds(iv: Interval): nat { iv.s }
  function Microseconds(iv: Interval): nat { iv.f }

  /** weeks: the whole weeks in the day count. */
  function Weeks(iv: Interval): (w: nat)
    ensures DAYS_PER_WEEK * w <= Dayz(iv) < DAYS_PER_WEEK * (w + 1)
  {
    iv.d / DAYS_PER_WEEK
  }

  /** daysExcludeWeeks (alias dayzExcludeWeeks): the days left over after the whole weeks. */
  function DaysExcludeWeeks(iv: Interval): (r: nat)
    ensures r < DAYS_PER_WEEK
    ensures Dayz(iv) == DAYS_PER_WEEK * Weeks(iv) + r
  {
    iv.d % DAYS_PER_WEEK
  }

  const GETTER_NAMES: set<string> :=
    {"years", "months", "weeks", "daysExcludeWeeks", "dayzExcludeWeeks", "dayz",
     "hours", "minutes", "seconds", "microseconds"}

  /** The magic property read: a known getter name, or an error naming what was asked for. */
  function Get(iv: Interval, name: string): (r: Result<int, GetterError>)
    ensures r.Success? <==> name in GETTER_NAMES
    ensures r.Failure? ==> r.error == UnknownGetter(name)
    ensures r.Success? ==> r.value >= 0
  {
    match name
    case "years" => Success(Years(iv))
    case "months" => Success(Months(iv))
    case "weeks" => Success(Weeks(iv))
    case "daysExcludeWeeks" => Success(DaysExcludeWeeks(iv))
    case "dayzExcludeWeeks" => Success(DaysExcludeWeeks(iv))
    case "dayz" => Success(Dayz(iv))
    case "hours" => Success(Hours(iv))
    case "minutes" => Success(Minutes(iv))
    case "seconds" => Success(Seconds(iv))
    case "microseconds" => Success(Microseconds(iv))
    case _ => Failure(UnknownGetter(name))
  }

  /** The two spellings of the leftover days always agree. */
  lemma DayAliases(iv: Interval)
    ensures Get(iv, "daysExcludeWeeks") == Get(iv, "dayzExcludeWeeks")
  {
  }

  /** Total days are the weeks and the leftover days put back together. */
  lemma DayzIsWeeksAndDays(iv: Interval)
    ensures Get(iv, "dayz").value == DAYS_PER_WEEK * Get(iv, "weeks").value + Get(iv, "daysExcludeWeeks").value
  {
  }

  /**
   * With non-negative arguments and fewer than seven days, every getter
   * returns the argument it names.
   */
  lemma CreateGettersEcho(years: int, months: int, weeks: int, days: int,
                          hours: int, minutes: int, seconds: int, microseconds: int)
    requires years >= 0 && months >= 0 && weeks >= 0 && 0 <= days < DAYS_PER_WEEK
    requires hours >= 0 && minutes >= 0 && seconds >= 0 && microseconds >= 0
    ensures var iv := Create(years, months, weeks, days, hours, minutes, seconds, microseconds);
      && Get(iv, "years") == Success(years)
      && Get(iv, "months") == Success(months)
      && Get(iv, "weeks") == Success(weeks)
      && Get(iv, "daysExcludeWeeks") == Success(days)
      && Get(iv, "dayzExcludeWeeks") == Success(days)
      && Get(iv, "dayz") == Success(DAYS_PER_WEEK * weeks + days)
      && Get(iv, "hours") == Success(hours)
      && Get(iv, "minutes") == Success(minutes)
      && Get(iv, "seconds") == Success(seconds)
      && Get(iv, "microseconds") == Success(microseconds)
  {
    var iv := Create(years, months, weeks, days, hours, minutes, seconds, microseconds);
    WeeksOfDays(weeks, days);
  }

  /** Days beyond a week carry into the weeks getter. */
  lemma CreateCarriesDays(weeks: int, days: int)
    requires weeks >= 0 && days >= 0
    ensures var iv := Create(0, 0, weeks, days);
      Weeks(iv) == weeks + days / DAYS_PER_WEEK && DaysExcludeWeeks(iv) == days % DAYS_PER_WEEK
  {
    var q, r := days / DAYS_PER_WEEK, days % DAYS_PER_WEEK;
    assert DAYS_PER_WEEK * weeks + days == DAYS_PER_WEEK * (weeks + q) + r;
    WeeksOfDays(weeks + q, r);
  }

  lemma WeeksOfDays(weeks: int, days: int)
    requires weeks >= 0 && 0 <= days < DAYS_PER_WEEK
    ensures (DAYS_PER_WEEK * weeks + days) / DAYS_PER_WEEK == weeks
    ensures (DAYS_PER_WEEK * weeks + days) % DAYS_PER_WEEK == days
  {
  }
}
