/** The proleptic Gregorian calendar on day numbers: day 0 is 1970-01-01, day numbers
    are consecutive integers (negative before 1970), and a day number converts to
    and from a (year, month, day) date and to a Monday-first weekday. This is the
    one conversion path from an absolute local day to its calendar date. */
module Civil {

  /** The days of the week in the order the report uses: Monday first. */
  datatype Weekday = Monday | Tuesday | Wednesday | Thursday | Friday | Saturday | Sunday

  /** Position of a weekday in the Monday-first order (Monday = 0, Sunday = 6). */
  function WeekdayIndex(w: Weekday): nat
  {
    match w
    case Monday => 0
    case Tuesday => 1
    case Wednesday => 2
    case Thursday => 3
    case Friday => 4
    case Saturday => 5
    case Sunday => 6
  }

  /** The weekday at a Monday-first position. */
  function WeekdayAt(i: int): Weekday
    requires 0 <= i < 7
  {
    [Monday, Tuesday, Wednesday, Thursday, Friday, Saturday, Sunday][i]
  }

  /** Position and weekday determine each other: the Monday-first order lists
      each of the seven weekdays exactly once. */
  lemma WeekdayOrder(w: Weekday, i: int)
    requires 0 <= i < 7
    ensures WeekdayIndex(w) < 7
    ensures WeekdayAt(WeekdayIndex(w)) == w
    ensures WeekdayIndex(WeekdayAt(i)) == i
  {
  }

  /** The weekday of day number `day`; 1970-01-01 was a Thursday. */
  function WeekdayOfDay(day: int): Weekday
  {
    WeekdayAt((day + 3) % 7)
  }

  /** The following weekday, Sunday wrapping round to Monday. */
  function NextWeekday(w: Weekday): Weekday
  {
    WeekdayAt((WeekdayIndex(w) + 1) % 7)
  }

  /** Each day's weekday follows the previous day's. */
  lemma NextDay(day: int)
    ensures WeekdayOfDay(day + 1) == NextWeekday(WeekdayOfDay(day))
  {
    var k := (day + 3) % 7;
    assert WeekdayIndex(WeekdayAt(k)) == k;
    assert (day + 1 + 3) % 7 == (k + 1) % 7;
  }

  /** `w` advanced by `n` days. */
  function Advance(w: Weekday, n: nat): Weekday
  {
    if n == 0 then w else NextWeekday(Advance(w, n - 1))
  }

  /** A day-to-weekday map that steps one weekday per day advances `n` weekdays
      over `n` days. */
  lemma {:induction false} AdvanceByDays(f: int -> Weekday, day: int, n: nat)
    requires forall d :: f(d + 1) == NextWeekday(f(d))
    ensures f(day + n) == Advance(f(day), n)
  {
    if n > 0 {
      AdvanceByDays(f, day, n - 1);
      assert f(day + (n - 1) + 1) == NextWeekday(f(day + (n - 1)));
    }
  }

  /** Day 0 is a Thursday, and `n` days after any day the weekday has advanced `n`
      times. */
  lemma WeekdaySuccession(day: int, n: nat)
    ensures WeekdayOfDay(0) == Thursday
    ensures WeekdayOfDay(day + n) == Advance(WeekdayOfDay(day), n)
  {
    forall d
      ensures WeekdayOfDay(d + 1) == NextWeekday(WeekdayOfDay(d))
    {
      NextDay(d);
    }
    AdvanceByDays(WeekdayOfDay, day, n);
  }

  /** Gregorian leap-year rule. */
  predicate IsLeap(y: int)
  {
    y % 4 == 0 && (y % 100 != 0 || y % 400 == 0)
  }

  function DaysInYear(y: int): nat
  {
    if IsLeap(y) then 366 else 365
  }

  function DaysInMonth(y: int, m: int): nat
    requires 1 <= m <= 12
  {
    if m == 2 then (if IsLeap(y) then 29 else 28)
    else if m == 4 || m == 6 || m == 9 || m == 11 then 30
    else 31
  }

  /** Days in the months of year `y` before month `m` (for `m == 13`, the whole year). */
  function DaysBeforeMonth(y: int, m: int): nat
    requires 1 <= m <= 13
  {
    if m == 1 then 0 else DaysBeforeMonth(y, m - 1) + DaysInMonth(y, m - 1)
  }

  /** The twelve months make up the year. */
  lemma {:induction false} MonthsFillYear(y: int)
    ensures DaysBeforeMonth(y, 13) == DaysInYear(y)
  {
    assert DaysBeforeMonth(y, 2) == 31;
    assert DaysBeforeMonth(y, 3) == 31 + DaysInMonth(y, 2);
    assert DaysBeforeMonth(y, 4) == 62 + DaysInMonth(y, 2);
    assert DaysBeforeMonth(y, 5) == 92 + DaysInMonth(y, 2);
    assert DaysBeforeMonth(y, 6) == 123 + DaysInMonth(y, 2);
    assert DaysBeforeMonth(y, 7) == 153 + DaysInMonth(y, 2);
    assert DaysBeforeMonth(y, 8) == 184 + DaysInMonth(y, 2);
    assert DaysBeforeMonth(y, 9) == 215 + DaysInMonth(y, 2);
    assert DaysBeforeMonth(y, 10) == 245 + DaysInMonth(y, 2);
    assert DaysBeforeMonth(y, 11) == 276 + DaysInMonth(y, 2);
    assert DaysBeforeMonth(y, 12) == 306 + DaysInMonth(y, 2);
    assert DaysBeforeMonth(y, 13) == 337 + DaysInMonth(y, 2);
  }

  /** Months start later the later they are in the year. */
  lemma {:induction false} DaysBeforeMonthMonotone(y: int, m1: int, m2: int)
    requires 1 <= m1 <= m2 <= 13
    ensures DaysBeforeMonth(y, m1) <= DaysBeforeMonth(y, m2)
    decreases m2 - m1
  {
    if m1 < m2 {
      DaysBeforeMonthMonotone(y, m1, m2 - 1);
    }
  }

  /** Day number of January 1st of year `y`. */
  function YearStart(y: int): int
    decreases if y >= 1970 then y - 1970 else 1970 - y
  {
    if y == 1970 then 0
    else if y > 1970 then YearStart(y - 1) + DaysInYear(y - 1)
    else YearStart(y + 1) - DaysInYear(y)
  }

  /** Each year starts where the previous one ends. */
  lemma YearStartStep(y: int)
    ensures YearStart(y + 1) == YearStart(y) + DaysInYear(y)
  {
  }

  /** Years start later the later they are. */
  lemma {:induction false} YearStartMonotone(y1: int, y2: int)
    requires y1 <= y2
    ensures YearStart(y1) <= YearStart(y2)
    decreases y2 - y1
  {
    if y1 < y2 {
      YearStartMonotone(y1, y2 - 1);
      YearStartStep(y2 - 1);
    }
  }

  /** A calendar date; month is 1-based, as is day of month. */
  datatype Date = Date(year: int, month: int, day: int)

  /** The date exists in the proleptic Gregorian calendar. */
  predicate ValidDate(d: Date)
  {
    1 <= d.month <= 12 && 1 <= d.day <= DaysInMonth(d.year, d.month)
  }

  /** Day number of a date. */
  function DaysFromCivil(d: Date): int
    requires 1 <= d.month <= 12
  {
    YearStart(d.year) + DaysBeforeMonth(d.year, d.month) + d.day - 1
  }

  /** Walks forward year by year from January 1st of `y` to the year holding the
      day `offset` days later; returns that year and the day's 0-based position in it. */
  function YearForward(y: int, offset: int): (r: (int, int))
    requires offset >= 0
    ensures 0 <= r.1 < DaysInYear(r.0)
    ensures YearStart(r.0) + r.1 == YearStart(y) + offset
    decreases offset
  {
    if offset < DaysInYear(y) then (y, offset)
    else
      YearStartStep(y);
      YearForward(y + 1, offset - DaysInYear(y))
  }

  /** Walks backward year by year from January 1st of `y` to the year holding the
      day `-offset` days earlier. */
  function YearBackward(y: int, offset: int): (r: (int, int))
    requires offset < 0
    ensures 0 <= r.1 < DaysInYear(r.0)
    ensures YearStart(r.0) + r.1 == YearStart(y) + offset
    decreases -offset
  {
    YearStartStep(y - 1);
    var o := offset + DaysInYear(y - 1);
    if o >= 0 then (y - 1, o) else YearBackward(y - 1, o)
  }

  /** Walks forward month by month from month `m` of year `y` to the month holding the
      day `offset` days after that month's first; returns the month and its 1-based day. */
  function MonthForward(y: int, m: int, offset: int): (r: (int, int))
    requires 1 <= m <= 12 && offset >= 0
    requires DaysBeforeMonth(y, m) + offset < DaysInYear(y)
    ensures 1 <= r.0 <= 12 && 1 <= r.1 <= DaysInMonth(y, r.0)
    ensures DaysBeforeMonth(y, r.0) + r.1 - 1 == DaysBeforeMonth(y, m) + offset
    decreases 12 - m
  {
    if offset < DaysInMonth(y, m) then (m, offset + 1)
    else
      MonthsFillYear(y);
      DaysBeforeMonthMonotone(y, m + 1, 13);
      MonthForward(y, m + 1, offset - DaysInMonth(y, m))
  }

  /** The calendar date of a day number: always a valid date, and converting it
      back gives the same day number. */
  function CivilFromDays(n: int): (d: Date)
    ensures ValidDate(d)
    ensures DaysFromCivil(d) == n
  {
    var yd := if n >= 0 then YearForward(1970, n) else YearBackward(1970, n);
    MonthsFillYear(yd.0);
    var md := MonthForward(yd.0, 1, yd.1);
    Date(yd.0, md.0, md.1)
  }

  /** Every valid date lies in its own year and month: its day number falls in
      [YearStart(year), YearStart(year + 1)), and its position in the year falls
      within its month. */
  lemma DateWithinYear(d: Date)
    requires ValidDate(d)
    ensures YearStart(d.year) <= DaysFromCivil(d) < YearStart(d.year + 1)
    ensures DaysBeforeMonth(d.year, d.month) <= DaysFromCivil(d) - YearStart(d.year) < DaysBeforeMonth(d.year, d.month + 1)
  {
    YearStartStep(d.year);
    MonthsFillYear(d.year);
    DaysBeforeMonthMonotone(d.year, d.month + 1, 13);
  }

  /** Valid dates with the same day number are in the same year. */
  lemma SameDaySameYear(a: Date, b: Date)
    requires ValidDate(a) && ValidDate(b)
    requires DaysFromCivil(a) == DaysFromCivil(b)
    ensures a.year == b.year
  {
    DateWithinYear(a);
    DateWithinYear(b);
    if a.year < b.year {
      YearStartMonotone(a.year + 1, b.year);
    } else if b.year < a.year {
      YearStartMonotone(b.year + 1, a.year);
    }
  }

  /** Within one year, a day's position determines its month. */
  lemma SamePositionSameMonth(y: int, m1: int, d1: int, m2: int, d2: int)
    requires 1 <= m1 <= 12 && 1 <= d1 <= DaysInMonth(y, m1)
    requires 1 <= m2 <= 12 && 1 <= d2 <= DaysInMonth(y, m2)
    requires DaysBeforeMonth(y, m1) + d1 == DaysBeforeMonth(y, m2) + d2
    ensures m1 == m2
  {
    if m1 < m2 {
      assert DaysBeforeMonth(y, m1 + 1) == DaysBeforeMonth(y, m1) + DaysInMonth(y, m1);
      DaysBeforeMonthMonotone(y, m1 + 1, m2);
    } else if m2 < m1 {
      assert DaysBeforeMonth(y, m2 + 1) == DaysBeforeMonth(y, m2) + DaysInMonth(y, m2);
      DaysBeforeMonthMonotone(y, m2 + 1, m1);
    }
  }

  /** Distinct valid dates have distinct day numbers. */
  lemma DaysFromCivilInjective(a: Date, b: Date)
    requires ValidDate(a) && ValidDate(b)
    requires DaysFromCivil(a) == DaysFromCivil(b)
    ensures a == b
  {
    SameDaySameYear(a, b);
    SamePositionSameMonth(a.year, a.month, a.day, b.month, b.day);
  }

  /** Round trip from dates: the date of a valid date's day number is that date. */
  lemma CivilRoundTrip(d: Date)
    requires ValidDate(d)
    ensures CivilFromDays(DaysFromCivil(d)) == d
  {
    DaysFromCivilInjective(CivilFromDays(DaysFromCivil(d)), d);
  }

  /** Calendar order: "earlier year, or same year and earlier month, or same month and
      earlier day". */
  predicate Before(a: Date, b: Date)
  {
    a.year < b.year
    || (a.year == b.year && a.month < b.month)
    || (a.year == b.year && a.month == b.month && a.day < b.day)
  }

  /** A date before another has a smaller day number. */
  lemma BeforeIsEarlier(a: Date, b: Date)
    requires ValidDate(a) && ValidDate(b)
    requires Before(a, b)
    ensures DaysFromCivil(a) < DaysFromCivil(b)
  {
    DateWithinYear(a);
    DateWithinYear(b);
    if a.year < b.year {
      YearStartMonotone(a.year + 1, b.year);
    } else if a.month < b.month {
      DaysBeforeMonthMonotone(a.year, a.month + 1, b.month);
    }
  }

  /** Ascending day numbers are ascending calendar dates. */
  lemma DayOrderIsDateOrder(a: Date, b: Date)
    requires ValidDate(a) && ValidDate(b)
    ensures DaysFromCivil(a) < DaysFromCivil(b) <==> Before(a, b)
  {
    if Before(a, b) {
      BeforeIsEarlier(a, b);
    } else if Before(b, a) {
      BeforeIsEarlier(b, a);
    } else {
      assert a == b;
    }
  }
}
