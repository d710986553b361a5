/** Splitting a local instant into calendar day number, hour, minute and the ticks
    left over, with floor division so that instants before 1970 split the same way.
    The unit is the number of ticks per second: 1 for the generator's Unix seconds,
    1000 for the dashboard's milliseconds. */
module Clock {

  /** The two tick units in use: seconds and milliseconds. */
  predicate IsUnit(unit: int)
  {
    unit == 1 || unit == 1000
  }

  function PerMinute(unit: int): int
  {
    60 * unit
  }

  function PerHour(unit: int): int
  {
    3600 * unit
  }

  function PerDay(unit: int): int
  {
    86400 * unit
  }

  /** A local instant as a wall clock shows it: day number (0 = 1970-01-01), hour,
      minute, and the ticks into the minute. */
  datatype Reading = Reading(day: int, hour: int, minute: int, rest: int)

  /** Quotient and remainder are determined by any decomposition with the remainder
      in range. */
  lemma DivisionUnique(x: int, k: int, n: int, q: int)
    requires k == 86400 || k == 3600 || k == 60 || k == 86400000 || k == 3600000 || k == 60000
    requires 0 <= q < k && x == k * n + q
    ensures n == x / k && q == x % k
  {
  }

  /** The floor split of an instant in seconds is in range and recomposes to it. */
  lemma SplitSeconds(local: int)
    ensures var r := Reading(local / 86400, (local % 86400) / 3600, (local % 3600) / 60, local % 60);
      && 0 <= r.hour < 24 && 0 <= r.minute < 60 && 0 <= r.rest < 60
      && local == r.day * 86400 + r.hour * 3600 + r.minute * 60 + r.rest
  {
    var d, x := local / 86400, local % 86400;
    var h, q := x / 3600, x % 3600;
    var m, s := q / 60, q % 60;
    assert local == 86400 * d + x && 0 <= x < 86400;
    assert x == 3600 * h + q && 0 <= q < 3600;
    assert q == 60 * m + s && 0 <= s < 60;
    DivisionUnique(local, 3600, 24 * d + h, q);
    DivisionUnique(local, 60, 1440 * d + 60 * h + m, s);
  }

  /** The floor split of an instant in milliseconds is in range and recomposes to it. */
  lemma SplitMillis(local: int)
    ensures var r := Reading(local / 86400000, (local % 86400000) / 3600000, (local % 3600000) / 60000, local % 60000);
      && 0 <= r.hour < 24 && 0 <= r.minute < 60 && 0 <= r.rest < 60000
      && local == r.day * 86400000 + r.hour * 3600000 + r.minute * 60000 + r.rest
  {
    var d, x := local / 86400000, local % 86400000;
    var h, q := x / 3600000, x % 3600000;
    var m, s := q / 60000, q % 60000;
    assert local == 86400000 * d + x && 0 <= x < 86400000;
    assert x == 3600000 * h + q && 0 <= q < 3600000;
    assert q == 60000 * m + s && 0 <= s < 60000;
    DivisionUnique(local, 3600000, 24 * d + h, q);
    DivisionUnique(local, 60000, 1440 * d + 60 * h + m, s);
  }

  /** The wall-clock reading of a local instant (Python's `.dt.date` and `.dt.hour`,
      JavaScript's `getHours()` and `getMinutes()`): every field in range, and the
      fields recompose exactly to the instant. */
  function ReadingOf(local: int, unit: int): (t: Reading)
    requires IsUnit(unit)
    ensures 0 <= t.hour < 24 && 0 <= t.minute < 60 && 0 <= t.rest < PerMinute(unit)
    ensures local == t.day * PerDay(unit) + t.hour * PerHour(unit) + t.minute * PerMinute(unit) + t.rest
  {
    if unit == 1 then
      SplitSeconds(local);
      Reading(local / 86400, (local % 86400) / 3600, (local % 3600) / 60, local % 60)
    else
      SplitMillis(local);
      Reading(local / 86400000, (local % 86400000) / 3600000, (local % 3600000) / 60000, local % 60000)
  }

  /** An in-range split of an instant in seconds is its floor split. */
  lemma UniqueSeconds(local: int, t: Reading)
    requires 0 <= t.hour < 24 && 0 <= t.minute < 60 && 0 <= t.rest < 60
    requires local == t.day * 86400 + t.hour * 3600 + t.minute * 60 + t.rest
    ensures t == Reading(local / 86400, (local % 86400) / 3600, (local % 3600) / 60, local % 60)
  {
    var tm := 60 * t.minute + t.rest;
    var th := 3600 * t.hour + tm;
    assert 0 <= tm < 3600 && 0 <= th < 86400;
    assert local == 86400 * t.day + th;
    DivisionUnique(local, 86400, t.day, th);
    DivisionUnique(th, 3600, t.hour, tm);
    DivisionUnique(tm, 60, t.minute, t.rest);
    assert local == 3600 * (24 * t.day + t.hour) + tm;
    DivisionUnique(local, 3600, 24 * t.day + t.hour, tm);
    assert local == 60 * (1440 * t.day + 60 * t.hour + t.minute) + t.rest;
    DivisionUnique(local, 60, 1440 * t.day + 60 * t.hour + t.minute, t.rest);
  }

  /** An in-range split of an instant in milliseconds is its floor split. */
  lemma UniqueMillis(local: int, t: Reading)
    requires 0 <= t.hour < 24 && 0 <= t.minute < 60 && 0 <= t.rest < 60000
    requires local == t.day * 86400000 + t.hour * 3600000 + t.minute * 60000 + t.rest
    ensures t == Reading(local / 86400000, (local % 86400000) / 3600000, (local % 3600000) / 60000, local % 60000)
  {
    var tm := 60000 * t.minute + t.rest;
    var th := 3600000 * t.hour + tm;
    assert 0 <= tm < 3600000 && 0 <= th < 86400000;
    assert local == 86400000 * t.day + th;
    DivisionUnique(local, 86400000, t.day, th);
    DivisionUnique(th, 3600000, t.hour, tm);
    DivisionUnique(tm, 60000, t.minute, t.rest);
    assert local == 3600000 * (24 * t.day + t.hour) + tm;
    DivisionUnique(local, 3600000, 24 * t.day + t.hour, tm);
    assert local == 60000 * (1440 * t.day + 60 * t.hour + t.minute) + t.rest;
    DivisionUnique(local, 60000, 1440 * t.day + 60 * t.hour + t.minute, t.rest);
  }

  /** The reading is the only in-range split of a local instant, so day and hour
      are determined by the instant. */
  lemma ReadingUnique(local: int, unit: int, t: Reading)
    requires IsUnit(unit)
    requires 0 <= t.hour < 24 && 0 <= t.minute < 60 && 0 <= t.rest < PerMinute(unit)
    requires local == t.day * PerDay(unit) + t.hour * PerHour(unit) + t.minute * PerMinute(unit) + t.rest
    ensures t == ReadingOf(local, unit)
  {
    if unit == 1 {
      UniqueSeconds(local, t);
    } else {
      UniqueMillis(local, t);
    }
  }
}
