/** Civil calendar arithmetic on day numbers in the proleptic Gregorian
    calendar. Day 0 is 0001-01-01, a Monday; day numbers may be negative.
    These are the date operations the pipeline takes from pandas
    (`.dt.year`, `.dt.month`, `.dt.weekday`, `.dt.to_period("M")`). */
module Calendar {

  datatype Civil = Civil(year: int, month: int, day: int)

  predicate IsLeap(y: int) {
    y % 4 == 0 && (y % 100 != 0 || y % 400 == 0)
  }

  function DaysInYear(y: int): int {
    if IsLeap(y) then 366 else 365
  }

  function DaysInMonth(y: int, m: int): int {
    if m == 2 then (if IsLeap(y) then 29 else 28)
    else if m == 4 || m == 6 || m == 9 || m == 11 then 30
    else 31
  }

  predicate ValidCivil(c: Civil) {
    1 <= c.month <= 12 && 1 <= c.day <= DaysInMonth(c.year, c.month)
  }

  /** Number of days from 0001-01-01 to January 1 of year y. */
  function DaysBeforeYear(y: int): int {
    var p := y - 1;
    365 * p + p / 4 - p / 100 + p / 400
  }

  /** Number of days from January 1 to the first day of month m (m == 13: the whole year). */
  function DaysBeforeMonth(y: int, m: int): int
    requires 1 <= m <= 13
  {
    var common :=
      if m == 1 then 0 else if m == 2 then 31 else if m == 3 then 59
      else if m == 4 then 90 else if m == 5 then 120 else if m == 6 then 151
      else if m == 7 then 181 else if m == 8 then 212 else if m == 9 then 243
      else if m == 10 then 273 else if m == 11 then 304 else if m == 12 then 334
      else 365;
    if IsLeap(y) && m >= 3 then common + 1 else common
  }

  /** The day number of year y, month m, day d. */
  function DaysFromCivil(y: int, m: int, d: int): int
    requires 1 <= m <= 12
  {
    DaysBeforeYear(y) + DaysBeforeMonth(y, m) + d - 1
  }

  /** Division by a positive constant steps up by one exactly at multiples. */
  lemma DivSucc(p: int, k: int)
    requires k == 4 || k == 100 || k == 400
    ensures (p + 1) / k == p / k + (if (p + 1) % k == 0 then 1 else 0)
  {
    var q, r := p / k, p % k;
    assert p == k * q + r && 0 <= r < k;
    if r == k - 1 {
      assert p + 1 == k * (q + 1) + 0;
    } else {
      assert p + 1 == k * q + (r + 1);
    }
  }

  lemma YearStep(y: int)
    ensures DaysBeforeYear(y + 1) == DaysBeforeYear(y) + DaysInYear(y)
  {
    DivSucc(y - 1, 4);
    DivSucc(y - 1, 100);
    DivSucc(y - 1, 400);
  }

  lemma MonthStep(y: int, m: int)
    requires 1 <= m <= 12
    ensures DaysBeforeMonth(y, m + 1) == DaysBeforeMonth(y, m) + DaysInMonth(y, m)
  {
  }

  lemma WholeYear(y: int)
    ensures DaysBeforeMonth(y, 13) == DaysInYear(y)
  {
  }

  /** The first year of every 400-year cycle starts at a multiple of 146097 days. */
  lemma CycleStart(q: int)
    ensures DaysBeforeYear(400 * q + 1) == 146097 * q
  {
    var p := 400 * q;
    assert p / 4 == 100 * q;
    assert p / 100 == 4 * q;
    assert p / 400 == q;
  }

  /** DaysBeforeYear is strictly increasing. */
  lemma {:induction false} YearsAscend(a: int, b: int)
    requires a < b
    ensures DaysBeforeYear(a + 1) <= DaysBeforeYear(b)
    decreases b - a
  {
    if a + 1 < b {
      YearsAscend(a, b - 1);
      YearStep(b - 1);
    }
  }

  /** DaysBeforeMonth is strictly increasing within a year. */
  lemma {:induction false} MonthsAscend(y: int, a: int, b: int)
    requires 1 <= a < b <= 13
    ensures DaysBeforeMonth(y, a + 1) <= DaysBeforeMonth(y, b)
    decreases b - a
  {
    if a + 1 < b {
      MonthsAscend(y, a, b - 1);
      MonthStep(y, b - 1);
    }
  }

  /** Walks forward year by year from year y, consuming r days. */
  function YearWalk(r: int, y: int): (res: (int, int))
    requires 0 <= r
    ensures DaysBeforeYear(res.0) + res.1 == DaysBeforeYear(y) + r
    ensures 0 <= res.1 < DaysInYear(res.0)
    decreases r
  {
    if r < DaysInYear(y) then (y, r)
    else
      YearStep(y);
      YearWalk(r - DaysInYear(y), y + 1)
  }

  /** The year containing day n, and the day's zero-based position in that year. */
  function YearAndOrdinal(n: int): (res: (int, int))
    ensures DaysBeforeYear(res.0) + res.1 == n
    ensures 0 <= res.1 < DaysInYear(res.0)
  {
    var q := n / 146097;
    CycleStart(q);
    YearWalk(n % 146097, 400 * q + 1)
  }

  /** Walks forward month by month from month m of year y, consuming r days. */
  function MonthWalk(r: int, y: int, m: int): (res: (int, int))
    requires 1 <= m <= 12 && 0 <= r
    requires DaysBeforeMonth(y, m) + r < DaysInYear(y)
    ensures 1 <= res.0 <= 12
    ensures 0 <= res.1 < DaysInMonth(y, res.0)
    ensures DaysBeforeMonth(y, res.0) + res.1 == DaysBeforeMonth(y, m) + r
    decreases 12 - m
  {
    MonthStep(y, m);
    WholeYear(y);
    if r < DaysInMonth(y, m) then (m, r)
    else MonthWalk(r - DaysInMonth(y, m), y, m + 1)
  }

  /** The calendar date of day n. */
  function ToCivil(n: int): (c: Civil)
    ensures ValidCivil(c)
    ensures DaysFromCivil(c.year, c.month, c.day) == n
  {
    var (y, ord) := YearAndOrdinal(n);
    WholeYear(y);
    var (m, rest) := MonthWalk(ord, y, 1);
    Civil(y, m, rest + 1)
  }

  /** A day number lies in exactly one year. */
  lemma YearUnique(n: int, a: int, b: int)
    requires DaysBeforeYear(a) <= n < DaysBeforeYear(a + 1)
    requires DaysBeforeYear(b) <= n < DaysBeforeYear(b + 1)
    ensures a == b
  {
    if a < b {
      YearsAscend(a, b);
    } else if b < a {
      YearsAscend(b, a);
    }
  }

  /** A day of the year lies in exactly one month. */
  lemma MonthUnique(y: int, r: int, a: int, b: int)
    requires 1 <= a <= 12 && 1 <= b <= 12
    requires DaysBeforeMonth(y, a) <= r < DaysBeforeMonth(y, a + 1)
    requires DaysBeforeMonth(y, b) <= r < DaysBeforeMonth(y, b + 1)
    ensures a == b
  {
    if a < b {
      MonthsAscend(y, a, b);
    } else if b < a {
      MonthsAscend(y, b, a);
    }
  }

  /** The day number of a valid date lies within its year. */
  lemma WithinYear(c: Civil)
    requires ValidCivil(c)
    ensures DaysBeforeYear(c.year) <= DaysFromCivil(c.year, c.month, c.day) < DaysBeforeYear(c.year + 1)
  {
    MonthStep(c.year, c.month);
    if c.month < 12 {
      MonthsAscend(c.year, c.month, 13);
    }
    WholeYear(c.year);
    YearStep(c.year);
  }

  /** Every valid date has exactly one day number: ToCivil inverts DaysFromCivil. */
  lemma CivilRoundTrip(c: Civil)
    requires ValidCivil(c)
    ensures ToCivil(DaysFromCivil(c.year, c.month, c.day)) == c
  {
    var n := DaysFromCivil(c.year, c.month, c.day);
    var r := ToCivil(n);
    WithinYear(c);
    WithinYear(r);
    YearUnique(n, c.year, r.year);
    MonthStep(c.year, c.month);
    MonthStep(c.year, r.month);
    MonthUnique(c.year, n - DaysBeforeYear(c.year), c.month, r.month);
  }

  /** pandas `.dt.year`: the year of day n's calendar date. */
  function Year(n: int): int { ToCivil(n).year }

  /** pandas `.dt.month`: the month number of day n. */
  function MonthOf(n: int): (m: int)
    ensures 1 <= m <= 12
  {
    ToCivil(n).month
  }

  /** pandas `.dt.weekday + 1`: 1 for Monday through 7 for Sunday. */
  function Weekday(n: int): (w: int)
    ensures 1 <= w <= 7
  {
    n % 7 + 1
  }

  /** pandas `.dt.to_period("M").dt.to_timestamp()`: the first day of n's month. */
  function MonthStart(n: int): (s: int)
    ensures s <= n < s + DaysInMonth(Year(n), MonthOf(n))
    ensures ToCivil(s) == Civil(Year(n), MonthOf(n), 1)
  {
    var c := ToCivil(n);
    CivilRoundTrip(Civil(c.year, c.month, 1));
    DaysFromCivil(c.year, c.month, 1)
  }

  /** Two days share a month start exactly when they share year and month. */
  lemma SameMonthStart(a: int, b: int)
    ensures MonthStart(a) == MonthStart(b) <==> (Year(a) == Year(b) && MonthOf(a) == MonthOf(b))
  {
  }

  /** Month starts never decrease as days increase. */
  lemma MonthStartMonotone(a: int, b: int)
    requires a <= b
    ensures MonthStart(a) <= MonthStart(b)
  {
    var sa, sb := MonthStart(a), MonthStart(b);
    if sb < sa {
      // sa would fall strictly inside b's month, yet it is the first day of a month.
      var cb := ToCivil(b);
      var c := Civil(cb.year, cb.month, 1 + sa - sb);
      assert sb == DaysFromCivil(cb.year, cb.month, 1);
      assert 1 <= c.day <= DaysInMonth(cb.year, cb.month);
      assert ValidCivil(c);
      assert DaysFromCivil(c.year, c.month, c.day) == sa;
      assert ToCivil(sa).day == 1;
      CivilRoundTrip(c);
      assert false;
    }
  }

  /** Consecutive days have consecutive weekdays, Sunday (7) wrapping to Monday (1). */
  lemma WeekdayNext(n: int)
    ensures Weekday(n + 1) == Weekday(n) % 7 + 1
  {
  }

  /** 0001-01-01 was a Monday. */
  lemma EpochIsMonday()
    ensures Weekday(DaysFromCivil(1, 1, 1)) == 1
  {
  }

  /** 2024-01-01 was a Monday and 2021-12-31 a Friday. */
  lemma WeekdayExamples()
    ensures Weekday(DaysFromCivil(2024, 1, 1)) == 1
    ensures Weekday(DaysFromCivil(2021, 12, 31)) == 5
  {
    assert DaysFromCivil(2024, 1, 1) == 738885 by {
      assert 2023 / 4 == 505 && 2023 / 100 == 20 && 2023 / 400 == 5;
    }
    assert DaysFromCivil(2021, 12, 31) == 738154 by {
      assert 2020 / 4 == 505 && 2020 / 100 == 20 && 2020 / 400 == 5;
      assert DaysBeforeYear(2021) == 737790;
    }
  }
}
