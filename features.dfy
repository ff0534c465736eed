/** The feature phase of dataprocessing.py (lines 27-50): month number and
    weekday of every row, and the holiday flag, which marks the days within
    five days of December 25, October 31 or Easter of any year in the data.
    Easter comes from a library (`dateutil.easter`) and is a parameter here:
    `easter(y)` is the day number of Easter Sunday of year y. */
module Features {
  import opened Calendar
  import opened Frame
  import opened Cleaning

  /** A cleaned row with `MONTH`, `WEEKDAY` and `Is_Holiday` (0 or 1). */
  datatype Featured = Featured(row: Row, month: int, weekday: int, isHoliday: int)

  function Christmas(y: int): int { DaysFromCivil(y, 12, 25) }

  function Halloween(y: int): int { DaysFromCivil(y, 10, 31) }

  /** Day d is in the inclusive window [a - 5, a + 5] around anchor a. */
  predicate InWindow(d: int, a: int) {
    -5 <= d - a <= 5
  }

  /** Day d is in the window of one of year y's three anchors. */
  predicate NearAnchor(d: int, y: int, easter: int -> int) {
    InWindow(d, Christmas(y)) || InWindow(d, Halloween(y)) || InWindow(d, easter(y))
  }

  /** The reference definition of the flag: some year of the data has an
      anchor within five days of d. */
  predicate IsHolidayDate(d: int, years: seq<int>, easter: int -> int) {
    exists y :: y in years && NearAnchor(d, y, easter)
  }

  /** Line 34, `df["Date"].dt.year.unique()`: the years of the rows, each once,
      in order of first appearance (`DistinctYearsInOrder`). */
  function DistinctYears(rows: seq<Row>): (ys: seq<int>)
    ensures forall y :: y in ys <==> exists i :: 0 <= i < |rows| && Year(rows[i].date) == y
    ensures forall i, j :: 0 <= i < j < |ys| ==> ys[i] != ys[j]
  {
    if rows == [] then []
    else
      var init, last := rows[..|rows| - 1], rows[|rows| - 1];
      var y := Year(last.date);
      var p := DistinctYears(init);
      assert rows == init + [last];
      if y in p then p else p + [y]
  }

  /** The `Date.dt.year` column. */
  function YearColumn(rows: seq<Row>): (ys: seq<int>)
    ensures |ys| == |rows| && forall i :: 0 <= i < |rows| ==> ys[i] == Year(rows[i].date)
  {
    seq(|rows|, i requires 0 <= i < |rows| => Year(rows[i].date))
  }

  /** `unique()` keeps the first occurrence of each year in row order: the
      distinct years are the year column with its repeats dropped, so
      `DedupKeepsFirsts` gives their order. */
  lemma {:induction false} DistinctYearsInOrder(rows: seq<Row>)
    ensures DistinctYears(rows) == Dedup(YearColumn(rows))
  {
    if rows != [] {
      var init := rows[..|rows| - 1];
      DistinctYearsInOrder(init);
      var col := YearColumn(rows);
      assert col[..|col| - 1] == YearColumn(init);
      assert (Year(rows[|rows| - 1].date) in DistinctYears(init)) == (col[|col| - 1] in YearColumn(init));
    }
  }

  /** The list `holiday_core_dates` after the loop of lines 38-41 has run over years. */
  function AnchorList(years: seq<int>, easter: int -> int): (a: seq<int>)
    ensures |a| == 3 * |years|
  {
    if years == [] then []
    else
      var y := years[|years| - 1];
      AnchorList(years[..|years| - 1], easter) + [Christmas(y), Halloween(y), easter(y)]
  }

  /** The list holds three anchors per year, in the years' order. */
  lemma {:induction false} AnchorListAt(years: seq<int>, easter: int -> int, i: int)
    requires 0 <= i < |years|
    ensures AnchorList(years, easter)[3 * i] == Christmas(years[i])
    ensures AnchorList(years, easter)[3 * i + 1] == Halloween(years[i])
    ensures AnchorList(years, easter)[3 * i + 2] == easter(years[i])
  {
    var init := years[..|years| - 1];
    if i < |years| - 1 {
      AnchorListAt(init, easter, i);
      assert init[i] == years[i];
    }
  }

  /** A day near an anchor of the list is a holiday date. */
  lemma {:induction false} AnchorListSound(years: seq<int>, easter: int -> int, d: int, k: int)
    requires 0 <= k < |AnchorList(years, easter)| && InWindow(d, AnchorList(years, easter)[k])
    ensures IsHolidayDate(d, years, easter)
  {
    var init, y := years[..|years| - 1], years[|years| - 1];
    var a, p := AnchorList(years, easter), AnchorList(init, easter);
    assert a == p + [Christmas(y), Halloween(y), easter(y)];
    assert years == init + [y];
    if k < |p| {
      assert a[k] == p[k];
      AnchorListSound(init, easter, d, k);
      var z :| z in init && NearAnchor(d, z, easter);
      assert z in years;
    } else {
      assert NearAnchor(d, y, easter);
    }
  }

  /** A holiday date is near some anchor of the list. */
  lemma {:induction false} AnchorListComplete(years: seq<int>, easter: int -> int, d: int)
    requires IsHolidayDate(d, years, easter)
    ensures exists k :: 0 <= k < |AnchorList(years, easter)| && InWindow(d, AnchorList(years, easter)[k])
  {
    var init, y := years[..|years| - 1], years[|years| - 1];
    var a, p := AnchorList(years, easter), AnchorList(init, easter);
    assert a == p + [Christmas(y), Halloween(y), easter(y)];
    assert years == init + [y];
    var z :| z in years && NearAnchor(d, z, easter);
    if z in init {
      AnchorListComplete(init, easter, d);
      var k :| 0 <= k < |p| && InWindow(d, p[k]);
      assert a[k] == p[k];
    } else if InWindow(d, Christmas(y)) {
      assert a[|p|] == Christmas(y);
    } else if InWindow(d, Halloween(y)) {
      assert a[|p| + 1] == Halloween(y);
    } else {
      assert a[|p| + 2] == easter(y);
    }
  }

  /** A day is near some anchor of the list exactly when it is a holiday date. */
  lemma AnchorListNear(years: seq<int>, easter: int -> int, d: int)
    ensures (exists k :: 0 <= k < |AnchorList(years, easter)| && InWindow(d, AnchorList(years, easter)[k]))
        <==> IsHolidayDate(d, years, easter)
  {
    if k :| 0 <= k < |AnchorList(years, easter)| && InWindow(d, AnchorList(years, easter)[k]) {
      AnchorListSound(years, easter, d, k);
    }
    if IsHolidayDate(d, years, easter) {
      AnchorListComplete(years, easter, d);
    }
  }

  /** Lines 36-48: the anchors of every year, then every day within five days
      of an anchor, gathered into a set. */
  method HolidayWindows(years: seq<int>, easter: int -> int) returns (extended: set<int>)
    ensures forall d :: d in extended <==> IsHolidayDate(d, years, easter)
  {
    var core: seq<int> := [];
    for i := 0 to |years|
      invariant core == AnchorList(years[..i], easter)
    {
      var y := years[i];
      assert years[..i + 1][..i] == years[..i];
      core := core + [Christmas(y)];
      core := core + [Halloween(y)];
      core := core + [easter(y)];
    }
    assert years[..|years|] == years;
    extended := {};
    for k := 0 to |core|
      invariant forall d :: d in extended <==> exists j :: 0 <= j < k && InWindow(d, core[j])
    {
      for offset := -5 to 6
        invariant forall d :: d in extended <==>
          (exists j :: 0 <= j < k && InWindow(d, core[j])) || core[k] - 5 <= d < core[k] + offset
      {
        extended := extended + {core[k] + offset};
      }
    }
    forall d ensures d in extended <==> IsHolidayDate(d, years, easter) {
      AnchorListNear(years, easter, d);
    }
  }

  /** Lines 27-28 and 50 on one row: `MONTH`, `WEEKDAY` (Monday = 1) and
      `Is_Holiday`, where holiday(d) says whether day d is in the holiday set. */
  function Featurize(row: Row, holiday: int -> bool): (f: Featured)
    ensures f.row == row
    ensures 1 <= f.month <= 12 && f.month == MonthOf(row.date)
    ensures 1 <= f.weekday <= 7 && f.weekday == Weekday(row.date)
    ensures f.isHoliday == 0 || f.isHoliday == 1
    ensures f.isHoliday == 1 <==> holiday(row.date)
  {
    Featured(row, MonthOf(row.date), Weekday(row.date), if holiday(row.date) then 1 else 0)
  }

  /** Lines 27-28 and 50 on the whole table. */
  function AddFeatures(rows: seq<Row>, holiday: int -> bool): (r: seq<Featured>)
    ensures |r| == |rows|
    ensures forall i :: 0 <= i < |r| ==> r[i] == Featurize(rows[i], holiday)
  {
    seq(|rows|, i requires 0 <= i < |rows| => Featurize(rows[i], holiday))
  }

  function DayDate(d: Featured): int { d.row.date }

  /** The featured rows are the input rows one for one, in the same order,
      flagged exactly on the days the holiday test accepts. */
  lemma FeaturedRows(rows: seq<Row>, holiday: int -> bool)
    ensures forall f :: f in AddFeatures(rows, holiday) ==>
      f.row in rows && (f.isHoliday == 0 || f.isHoliday == 1) && (f.isHoliday == 1 <==> holiday(f.row.date))
    ensures forall x :: x in rows ==> exists f :: f in AddFeatures(rows, holiday) && f.row == x
    ensures SortedBy(rows, DateOf) ==> SortedBy(AddFeatures(rows, holiday), DayDate)
  {
    var days := AddFeatures(rows, holiday);
    forall f | f in days ensures f.row in rows {
      var i :| 0 <= i < |days| && days[i] == f;
    }
    forall x | x in rows ensures exists f :: f in days && f.row == x {
      var i :| 0 <= i < |rows| && rows[i] == x;
      assert days[i] in days;
    }
  }

  /** The flags depend only on which days the holiday test accepts. */
  lemma AddFeaturesAgree(rows: seq<Row>, h1: int -> bool, h2: int -> bool)
    requires forall d :: h1(d) == h2(d)
    ensures AddFeatures(rows, h1) == AddFeatures(rows, h2)
  {
    var a, b := AddFeatures(rows, h1), AddFeatures(rows, h2);
    forall i | 0 <= i < |rows| ensures a[i] == b[i] {
      assert h1(rows[i].date) == h2(rows[i].date);
    }
  }

  /** With only 2021 in the data (Easter 2021 fell on April 4), December
      20-30, 2021 are flagged and December 19 and 31 are not. */
  lemma Holidays2021(easter: int -> int)
    requires easter(2021) == DaysFromCivil(2021, 4, 4)
    ensures forall day :: 20 <= day <= 30 ==> IsHolidayDate(DaysFromCivil(2021, 12, day), [2021], easter)
    ensures !IsHolidayDate(DaysFromCivil(2021, 12, 19), [2021], easter)
    ensures !IsHolidayDate(DaysFromCivil(2021, 12, 31), [2021], easter)
  {
    forall day | 20 <= day <= 30
      ensures IsHolidayDate(DaysFromCivil(2021, 12, day), [2021], easter)
    {
      assert NearAnchor(DaysFromCivil(2021, 12, day), 2021, easter);
    }
  }

  /** Day d of year y lies inside year y. */
  lemma YearOfDay(d: int, y: int)
    requires DaysBeforeYear(y) <= d < DaysBeforeYear(y + 1)
    ensures Year(d) == y
  {
    var c := ToCivil(d);
    WithinYear(c);
    YearUnique(d, y, c.year);
  }

  /** When Easter always falls between March 22 and April 25, no holiday
      window crosses a year boundary, so a day is flagged exactly when its
      own year is in the data and it is near one of that year's anchors. */
  lemma HolidayIsOwnYear(d: int, years: seq<int>, easter: int -> int)
    requires forall y :: DaysFromCivil(y, 3, 22) <= easter(y) <= DaysFromCivil(y, 4, 25)
    ensures IsHolidayDate(d, years, easter) <==> Year(d) in years && NearAnchor(d, Year(d), easter)
  {
    if IsHolidayDate(d, years, easter) {
      var y :| y in years && NearAnchor(d, y, easter);
      WholeYear(y);
      YearStep(y);
      assert DaysFromCivil(y, 3, 22) <= easter(y) <= DaysFromCivil(y, 4, 25);
      YearOfDay(d, y);
    }
  }
}
