// ChronosTime: an immutable time of day made of hours, minutes, seconds and
// microseconds. Every operation returns a new value; the fields of a value
// are always in their canonical ranges. Out-of-range numeric arguments to
// the setters are never an error: the whole time is reduced modulo one day.

module ChronosTime {
  import Arith

  const MICROS_PER_SECOND: int := 1_000_000
  const MICROS_PER_MINUTE: int := 60 * MICROS_PER_SECOND
  const MICROS_PER_HOUR: int := 60 * MICROS_PER_MINUTE
  const MICROS_PER_DAY: int := 24 * MICROS_PER_HOUR

  /** The four fields; getHours, getMinutes, getSeconds and getMicroseconds read them directly. */
  datatype Time = Time(hours: int, minutes: int, seconds: int, microseconds: int)

  /** Every field within its canonical range. */
  predicate Valid(t: Time) {
    && 0 <= t.hours < 24
    && 0 <= t.minutes < 60
    && 0 <= t.seconds < 60
    && 0 <= t.microseconds < MICROS_PER_SECOND
  }

  /** Microseconds since midnight. */
  function Ticks(t: Time): (n: int)
    requires Valid(t)
    ensures 0 <= n < MICROS_PER_DAY
  {
    t.hours * MICROS_PER_HOUR + t.minutes * MICROS_PER_MINUTE + t.seconds * MICROS_PER_SECOND + t.microseconds
  }

  /** The time that lies n microseconds after midnight. */
  function FromTicks(n: int): (t: Time)
    requires 0 <= n < MICROS_PER_DAY
    ensures Valid(t) && Ticks(t) == n
  {
    var us, totalSeconds := n % MICROS_PER_SECOND, n / MICROS_PER_SECOND;
    var s, totalMinutes := totalSeconds % 60, totalSeconds / 60;
    var m, h := totalMinutes % 60, totalMinutes / 60;
    Time(h, m, s, us)
  }

  /** A valid time is determined by its tick count. */
  lemma FromTicksOfTicks(t: Time)
    requires Valid(t)
    ensures FromTicks(Ticks(t)) == t
  {
    var rest := t.minutes * MICROS_PER_MINUTE + t.seconds * MICROS_PER_SECOND + t.microseconds;
    var totalMinutes := t.hours * 60 + t.minutes;
    var totalSeconds := totalMinutes * 60 + t.seconds;
    assert Ticks(t) == totalSeconds * MICROS_PER_SECOND + t.microseconds;
    Arith.ModUnits(totalSeconds, MICROS_PER_SECOND, 1, t.microseconds);
    Arith.ModUnits(totalMinutes, 60, 1, t.seconds);
    Arith.ModUnits(t.hours, 60, 1, t.minutes);
  }

  lemma TicksInjective(a: Time, b: Time)
    requires Valid(a) && Valid(b) && Ticks(a) == Ticks(b)
    ensures a == b
  {
    FromTicksOfTicks(a);
    FromTicksOfTicks(b);
  }

  /** The time whose tick count is congruent to `total` modulo one day (non-negative remainder). */
  function Normalize(total: int): (t: Time)
    ensures Valid(t) && Ticks(t) == total % MICROS_PER_DAY
  {
    FromTicks(total % MICROS_PER_DAY)
  }

  /** Two totals that differ by whole days normalise to the same time. */
  lemma NormalizeShift(total: int, days: int)
    ensures Normalize(total + days * MICROS_PER_DAY) == Normalize(total)
  {
    Arith.ModShift(total, days, MICROS_PER_DAY);
  }

  // ---- named constructors ----

  function Midnight(): (t: Time)
    ensures Valid(t) && Ticks(t) == 0
  {
    Time(0, 0, 0, 0)
  }

  function Noon(): (t: Time)
    ensures Valid(t) && Ticks(t) == MICROS_PER_DAY / 2
  {
    Time(12, 0, 0, 0)
  }

  // ---- single-field setters ----

  /** Replace the hours with n, keep the other fields, reduce modulo one day. */
  function SetHours(t: Time, n: int): (r: Time)
    requires Valid(t)
    ensures Valid(r)
    ensures r.hours == n % 24
    ensures r.minutes == t.minutes && r.seconds == t.seconds && r.microseconds == t.microseconds
    ensures Ticks(r) == (n * MICROS_PER_HOUR + Ticks(t) % MICROS_PER_HOUR) % MICROS_PER_DAY
  {
    var rest := t.minutes * MICROS_PER_MINUTE + t.seconds * MICROS_PER_SECOND + t.microseconds;
    var r := Normalize(n * MICROS_PER_HOUR + rest);
    Arith.ModUnits(n, MICROS_PER_HOUR, 24, rest);
    Arith.ModUnits(t.hours, MICROS_PER_HOUR, 1, rest);
    TicksInjective(r, Time(n % 24, t.minutes, t.seconds, t.microseconds));
    r
  }

  /** Replace the minutes with n: whole hours in n carry into the hours, which wrap modulo 24. */
  function SetMinutes(t: Time, n: int): (r: Time)
    requires Valid(t)
    ensures Valid(r)
    ensures r.minutes == n % 60
    ensures r.hours == (t.hours + n / 60) % 24
    ensures r.seconds == t.seconds && r.microseconds == t.microseconds
    ensures Ticks(r) == (Ticks(t) - t.minutes * MICROS_PER_MINUTE + n * MICROS_PER_MINUTE) % MICROS_PER_DAY
  {
    var rest := t.seconds * MICROS_PER_SECOND + t.microseconds;
    var r := Normalize(t.hours * MICROS_PER_HOUR + n * MICROS_PER_MINUTE + rest);
    CarryMinutes(t.hours, n, rest);
    TicksInjective(r, Time((t.hours + n / 60) % 24, n % 60, t.seconds, t.microseconds));
    r
  }

  /** Replace the seconds with n: whole minutes in n carry into the minutes and on into the hours. */
  function SetSeconds(t: Time, n: int): (r: Time)
    requires Valid(t)
    ensures Valid(r)
    ensures r.seconds == n % 60
    ensures r.minutes == (t.minutes + n / 60) % 60
    ensures r.hours == (t.hours + (t.minutes + n / 60) / 60) % 24
    ensures r.microseconds == t.microseconds
    ensures Ticks(r) == (Ticks(t) - t.seconds * MICROS_PER_SECOND + n * MICROS_PER_SECOND) % MICROS_PER_DAY
  {
    var r := Normalize(t.hours * MICROS_PER_HOUR + t.minutes * MICROS_PER_MINUTE + n * MICROS_PER_SECOND + t.microseconds);
    var m := t.minutes + n / 60;
    CarrySeconds(t.hours, t.minutes, n, t.microseconds);
    TicksInjective(r, Time((t.hours + m / 60) % 24, m % 60, n % 60, t.microseconds));
    r
  }

  /** Replace the microseconds with n: whole seconds in n carry into the seconds, minutes and hours. */
  function SetMicroseconds(t: Time, n: int): (r: Time)
    requires Valid(t)
    ensures Valid(r)
    ensures r.microseconds == n % MICROS_PER_SECOND
    ensures r.seconds == (t.seconds + n / MICROS_PER_SECOND) % 60
    ensures r.minutes == (t.minutes + (t.seconds + n / MICROS_PER_SECOND) / 60) % 60
    ensures r.hours == (t.hours + (t.minutes + (t.seconds + n / MICROS_PER_SECOND) / 60) / 60) % 24
    ensures Ticks(r) == (Ticks(t) - t.microseconds + n) % MICROS_PER_DAY
  {
    var r := Normalize(t.hours * MICROS_PER_HOUR + t.minutes * MICROS_PER_MINUTE + t.seconds * MICROS_PER_SECOND + n);
    var s := t.seconds + n / MICROS_PER_SECOND;
    var m := t.minutes + s / 60;
    CarryMicroseconds(t.hours, t.minutes, t.seconds, n);
    TicksInjective(r, Time((t.hours + m / 60) % 24, m % 60, s % 60, n % MICROS_PER_SECOND));
    r
  }

  /**
   * Replace all four fields at once and reduce the combined count once.
   * Arguments left out default to zero; the receiver's fields play no part.
   */
  function SetTime(t: Time, hours: int := 0, minutes: int := 0, seconds: int := 0, microseconds: int := 0): (r: Time)
    requires Valid(t)
    ensures Valid(r)
    ensures Ticks(r) == (hours * MICROS_PER_HOUR + minutes * MICROS_PER_MINUTE + seconds * MICROS_PER_SECOND + microseconds) % MICROS_PER_DAY
  {
    Normalize(hours * MICROS_PER_HOUR + minutes * MICROS_PER_MINUTE + seconds * MICROS_PER_SECOND + microseconds)
  }

  // ---- carry arithmetic behind the setters ----

  lemma CarryMinutes(h: int, n: int, rest: int)
    requires 0 <= h < 24 && 0 <= rest < MICROS_PER_MINUTE
    ensures (h * MICROS_PER_HOUR + n * MICROS_PER_MINUTE + rest) % MICROS_PER_DAY
         == ((h + n / 60) % 24) * MICROS_PER_HOUR + (n % 60) * MICROS_PER_MINUTE + rest
  {
    var total := h * 60 + n;
    assert h * MICROS_PER_HOUR + n * MICROS_PER_MINUTE + rest == total * MICROS_PER_MINUTE + rest;
    Arith.ModUnits(total, MICROS_PER_MINUTE, 24 * 60, rest);
    assert total == (h + n / 60) * 60 + n % 60;
    Arith.ModUnits(h + n / 60, 60, 24, n % 60);
  }

  lemma CarrySeconds(h: int, m: int, n: int, us: int)
    requires 0 <= h < 24 && 0 <= m < 60 && 0 <= us < MICROS_PER_SECOND
    ensures (h * MICROS_PER_HOUR + m * MICROS_PER_MINUTE + n * MICROS_PER_SECOND + us) % MICROS_PER_DAY
         == ((h + (m + n / 60) / 60) % 24) * MICROS_PER_HOUR + ((m + n / 60) % 60) * MICROS_PER_MINUTE
            + (n % 60) * MICROS_PER_SECOND + us
  {
    var m' := m + n / 60;
    assert m * MICROS_PER_MINUTE + n * MICROS_PER_SECOND == m' * MICROS_PER_MINUTE + (n % 60) * MICROS_PER_SECOND;
    assert h * MICROS_PER_HOUR + m' * MICROS_PER_MINUTE == (h * 60 + m') * MICROS_PER_MINUTE;
    CarryMinutes(h, m', (n % 60) * MICROS_PER_SECOND + us);
  }

  lemma CarryMicroseconds(h: int, m: int, s: int, n: int)
    requires 0 <= h < 24 && 0 <= m < 60 && 0 <= s < 60
    ensures (h * MICROS_PER_HOUR + m * MICROS_PER_MINUTE + s * MICROS_PER_SECOND + n) % MICROS_PER_DAY
         == ((h + (m + (s + n / MICROS_PER_SECOND) / 60) / 60) % 24) * MICROS_PER_HOUR
            + ((m + (s + n / MICROS_PER_SECOND) / 60) % 60) * MICROS_PER_MINUTE
            + ((s + n / MICROS_PER_SECOND) % 60) * MICROS_PER_SECOND
            + n % MICROS_PER_SECOND
  {
    var s' := s + n / MICROS_PER_SECOND;
    assert s * MICROS_PER_SECOND + n == s' * MICROS_PER_SECOND + n % MICROS_PER_SECOND;
    CarrySeconds(h, m, s', n % MICROS_PER_SECOND);
  }

  // ---- properties relating the operations ----

  /** Setting every field to an in-range value yields exactly those fields, whatever the receiver. */
  lemma SetTimeInRange(t: Time, hours: int, minutes: int, seconds: int, microseconds: int)
    requires Valid(t) && Valid(Time(hours, minutes, seconds, microseconds))
    ensures SetTime(t, hours, minutes, seconds, microseconds) == Time(hours, minutes, seconds, microseconds)
  {
    var e := Time(hours, minutes, seconds, microseconds);
    Arith.DivModUnique(Ticks(e), MICROS_PER_DAY, 0, Ticks(e));
    TicksInjective(SetTime(t, hours, minutes, seconds, microseconds), e);
  }

  /**
   * The single combined reduction of SetTime agrees with applying the four
   * single-field setters in turn (hours, minutes, seconds, microseconds),
   * from any receiver: each setter replaces a field that no earlier step
   * has carried into.
   */
  lemma SetTimeIsChainedSetters(t: Time, hours: int, minutes: int, seconds: int, microseconds: int)
    requires Valid(t)
    ensures SetTime(t, hours, minutes, seconds, microseconds)
         == SetMicroseconds(SetSeconds(SetMinutes(SetHours(t, hours), minutes), seconds), microseconds)
  {
    var c := SetSeconds(SetMinutes(SetHours(t, hours), minutes), seconds);
    var e := SetMicroseconds(c, microseconds);
    ChainSeconds(t, hours, minutes, seconds);
    var pc := hours * MICROS_PER_HOUR + minutes * MICROS_PER_MINUTE + seconds * MICROS_PER_SECOND + t.microseconds;
    assert Ticks(e) == (Ticks(c) + (microseconds - t.microseconds)) % MICROS_PER_DAY;
    ModReplace(Ticks(c), pc, microseconds - t.microseconds);
    TicksInjective(e, SetTime(t, hours, minutes, seconds, microseconds));
  }

  /** After setting the hours, the count is the new hours over the receiver's finer fields. */
  lemma ChainHours(t: Time, hours: int)
    requires Valid(t)
    ensures Ticks(SetHours(t, hours))
         == (hours * MICROS_PER_HOUR + t.minutes * MICROS_PER_MINUTE + t.seconds * MICROS_PER_SECOND + t.microseconds) % MICROS_PER_DAY
  {
    var rest := t.minutes * MICROS_PER_MINUTE + t.seconds * MICROS_PER_SECOND + t.microseconds;
    Arith.ModUnits(t.hours, MICROS_PER_HOUR, 1, rest);
  }

  lemma ChainMinutes(t: Time, hours: int, minutes: int)
    requires Valid(t)
    ensures Ticks(SetMinutes(SetHours(t, hours), minutes))
         == (hours * MICROS_PER_HOUR + minutes * MICROS_PER_MINUTE + t.seconds * MICROS_PER_SECOND + t.microseconds) % MICROS_PER_DAY
  {
    var a := SetHours(t, hours);
    ChainHours(t, hours);
    var pa := hours * MICROS_PER_HOUR + t.minutes * MICROS_PER_MINUTE + t.seconds * MICROS_PER_SECOND + t.microseconds;
    assert Ticks(SetMinutes(a, minutes)) == (Ticks(a) + (minutes - t.minutes) * MICROS_PER_MINUTE) % MICROS_PER_DAY;
    ModReplace(Ticks(a), pa, (minutes - t.minutes) * MICROS_PER_MINUTE);
  }

  lemma ChainSeconds(t: Time, hours: int, minutes: int, seconds: int)
    requires Valid(t)
    ensures Ticks(SetSeconds(SetMinutes(SetHours(t, hours), minutes), seconds))
         == (hours * MICROS_PER_HOUR + minutes * MICROS_PER_MINUTE + seconds * MICROS_PER_SECOND + t.microseconds) % MICROS_PER_DAY
  {
    var b := SetMinutes(SetHours(t, hours), minutes);
    ChainMinutes(t, hours, minutes);
    var pb := hours * MICROS_PER_HOUR + minutes * MICROS_PER_MINUTE + t.seconds * MICROS_PER_SECOND + t.microseconds;
    assert Ticks(SetSeconds(b, seconds)) == (Ticks(b) + (seconds - t.seconds) * MICROS_PER_SECOND) % MICROS_PER_DAY;
    ModReplace(Ticks(b), pb, (seconds - t.seconds) * MICROS_PER_SECOND);
  }

  lemma ModReplace(x: int, p: int, delta: int)
    requires x == p % MICROS_PER_DAY
    ensures (x + delta) % MICROS_PER_DAY == (p + delta) % MICROS_PER_DAY
  {
    Arith.ModShift(p + delta, -(p / MICROS_PER_DAY), MICROS_PER_DAY);
  }

  /** SetTime does not depend on the receiver, and with no arguments gives midnight. */
  lemma SetTimeDefaults(t: Time, u: Time)
    requires Valid(t) && Valid(u)
    ensures SetTime(t) == Midnight()
    ensures forall h, m, s, us :: SetTime(t, h, m, s, us) == SetTime(u, h, m, s, us)
  {
    TicksInjective(SetTime(t), Midnight());
  }
}
