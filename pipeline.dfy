/** The whole script of dataprocessing.py, from the parsed daily table and
    trend table to the monthly rows, and what holds of its output. */
module Pipeline {
  import opened Wrappers
  import opened Calendar
  import opened Frame
  import opened Cleaning
  import opened Features
  import opened Monthly

  /** The years whose anchors define the holiday windows (line 34). */
  function Years(raw: Table): (ys: seq<int>)
    requires WellFormed(raw)
    ensures forall y :: y in ys <==> exists i :: 0 <= i < |Clean(raw).rows| && Year(Clean(raw).rows[i].date) == y
    ensures forall i, j :: 0 <= i < j < |ys| ==> ys[i] != ys[j]
  {
    DistinctYears(Clean(raw).rows)
  }

  /** The cleaned daily rows with their features (lines 8-50). */
  function Daily(raw: Table, easter: int -> int): (days: seq<Featured>)
    requires WellFormed(raw)
    ensures |days| == |Clean(raw).rows|
    ensures forall i :: 0 <= i < |days| ==>
      days[i].row == Clean(raw).rows[i] &&
      (days[i].isHoliday == 1 <==> IsHolidayDate(days[i].row.date, Years(raw), easter))
  {
    var years := Years(raw);
    AddFeatures(Clean(raw).rows, d => IsHolidayDate(d, years, easter))
  }

  /** The monthly rows of lines 8-92 over whatever weather columns the table
      has: the output with the `agg` of lines 73-83 restricted to the present
      columns, as lines 20-23 intend. */
  function Spec(raw: Table, trend: seq<TrendRow>, easter: int -> int): (out: seq<MonthlyRow>)
    requires WellFormed(raw)
    ensures forall k, l :: 0 <= k < l < |out| ==> out[k].month < out[l].month
    ensures forall k :: 0 <= k < |out| ==> |out[k].days| > 0
  {
    GroupByMonth(SortBy(Merge(Daily(raw, easter), trend), JoinedDate))
  }

  /** The script as written (lines 8-92): it fails, writing nothing, on an
      empty daily table (line 71) and on a table lacking a weather column
      (line 73), and otherwise writes the monthly rows of `Spec`. */
  function Script(raw: Table, trend: seq<TrendRow>, easter: int -> int): (r: Option<seq<MonthlyRow>>)
    requires WellFormed(raw)
    ensures r.None? <==> raw.rows == [] || exists c: Weather :: c !in raw.cols
    ensures r.Some? ==> r.value == Spec(raw, trend, easter)
  {
    MergedEmpty(raw, trend, easter);
    AggregateMonths(raw.cols, SortBy(Merge(Daily(raw, easter), trend), JoinedDate))
  }

  /** The merged, re-sorted table is empty exactly when the input is. */
  lemma MergedEmpty(raw: Table, trend: seq<TrendRow>, easter: int -> int)
    requires WellFormed(raw)
    ensures SortBy(Merge(Daily(raw, easter), trend), JoinedDate) == [] <==> raw.rows == []
  {
    if raw.rows != [] {
      InputDateSurvives(raw, 0);
    } else {
      assert Daily(raw, easter) == [];
    }
  }

  /** A table with no weather columns and one day, 2022-01-03, has a month
      whose rows `Spec` gives, yet the script as written fails on it. */
  lemma MissingWeatherFails(easter: int -> int)
    ensures var raw := Table({}, [Row(DaysFromCivil(2022, 1, 3), Some(100.0), Some(5.0), map[])]);
      WellFormed(raw) && Script(raw, [], easter) == None && |Spec(raw, [], easter)| >= 1
  {
    var raw := Table({}, [Row(DaysFromCivil(2022, 1, 3), Some(100.0), Some(5.0), map[])]);
    assert T2M !in raw.cols;
    SpecMonthOfInput(raw, [], easter, 0);
  }

  /** The script in its own order: lines 8-25 clean the table (the weather
      check is the loop of lines 20-23), lines 27-50 add the features (the
      holiday set is built by the loops of lines 36-48), lines 54-65 merge
      the trend and re-sort, and lines 67-92 group by month, failing as
      `Script` states. */
  method Run(raw: Table, trend: seq<TrendRow>, easter: int -> int) returns (monthly: Option<seq<MonthlyRow>>)
    requires WellFormed(raw)
    ensures monthly == Script(raw, trend, easter)
  {
    var unique := SortedUnique(raw.rows);
    var clipped := Table(raw.cols, ClipPriceAndRate(unique));
    assert WellFormed(clipped) by {
      forall x | x in clipped.rows ensures x.weather.Keys == clipped.cols {
        var i :| 0 <= i < |clipped.rows| && clipped.rows[i] == x;
        assert unique[i] in raw.rows;
      }
    }
    var checked := CleanWeather(clipped);
    var filled := FillTable(checked);
    assert filled == Clean(raw);
    var years := DistinctYears(filled.rows);
    var holidays := HolidayWindows(years, easter);
    var days := AddFeatures(filled.rows, d => d in holidays);
    AddFeaturesAgree(filled.rows, d => d in holidays, d => IsHolidayDate(d, years, easter));
    var merged := Merge(days, trend);
    var sorted := SortBy(merged, JoinedDate);
    monthly := AggregateMonths(raw.cols, sorted);
  }

  /** The daily rows are the cleaned rows, in date order, flagged exactly on
      the holiday dates of the data's years. */
  lemma DailyRows(raw: Table, easter: int -> int)
    requires WellFormed(raw)
    ensures SortedBy(Daily(raw, easter), DayDate)
    ensures forall f :: f in Daily(raw, easter) ==>
      f.row in Clean(raw).rows && (f.isHoliday == 0 || f.isHoliday == 1) &&
      (f.isHoliday == 1 <==> IsHolidayDate(f.row.date, Years(raw), easter))
    ensures forall x :: x in Clean(raw).rows ==> exists f :: f in Daily(raw, easter) && f.row == x
  {
    var years := Years(raw);
    CleanSortedByDate(raw);
    FeaturedRows(Clean(raw).rows, d => IsHolidayDate(d, years, easter));
  }

  /** The `sort_values("Date")` of line 65 changes nothing: the daily rows
      are already in date order and the merge keeps that order. */
  lemma SortAfterMergeIsIdentity(raw: Table, trend: seq<TrendRow>, easter: int -> int)
    requires WellFormed(raw)
    ensures Spec(raw, trend, easter) == GroupByMonth(Merge(Daily(raw, easter), trend))
    ensures SortedBy(Merge(Daily(raw, easter), trend), JoinedDate)
  {
    DailyRows(raw, easter);
    MergeKeepsDateOrder(Daily(raw, easter), trend);
  }

  /** A merged row of the output comes from a cleaned row. */
  lemma MergedFromClean(raw: Table, trend: seq<TrendRow>, easter: int -> int, x: Joined)
    requires WellFormed(raw)
    requires x in Merge(Daily(raw, easter), trend)
    ensures x.left in Daily(raw, easter) && x.left.row in Clean(raw).rows
  {
    DailyRows(raw, easter);
    MergeTrendOfMonth(Daily(raw, easter), trend);
  }

  /** Every date of the merged table is a date of the input. */
  lemma MergedDateFromInput(raw: Table, trend: seq<TrendRow>, easter: int -> int, j: int)
    requires WellFormed(raw)
    requires 0 <= j < |Merge(Daily(raw, easter), trend)|
    ensures exists i :: 0 <= i < |raw.rows| && raw.rows[i].date == Merge(Daily(raw, easter), trend)[j].left.row.date
  {
    var x := Merge(Daily(raw, easter), trend)[j];
    MergedFromClean(raw, trend, easter, x);
    var clean := Clean(raw).rows;
    var c :| 0 <= c < |clean| && clean[c] == x.left.row;
    CleanDateFromInput(raw, c);
  }

  /** Every monthly row is the month of some day of the input. */
  lemma SpecMonthFromInput(raw: Table, trend: seq<TrendRow>, easter: int -> int, k: int)
    requires WellFormed(raw)
    requires 0 <= k < |Spec(raw, trend, easter)|
    ensures exists i :: 0 <= i < |raw.rows| && MonthStart(raw.rows[i].date) == Spec(raw, trend, easter)[k].month
  {
    SortAfterMergeIsIdentity(raw, trend, easter);
    var merged := Merge(Daily(raw, easter), trend);
    MonthlyRowHasDay(merged, k);
    var j :| 0 <= j < |merged| && JoinedMonth(merged[j]) == Spec(raw, trend, easter)[k].month;
    MergedDateFromInput(raw, trend, easter, j);
  }

  /** Every cleaned row reaches the merged table. */
  lemma CleanReachesMerge(raw: Table, trend: seq<TrendRow>, easter: int -> int, x: Row)
    requires WellFormed(raw)
    requires x in Clean(raw).rows
    ensures exists j :: 0 <= j < |Merge(Daily(raw, easter), trend)| && Merge(Daily(raw, easter), trend)[j].left.row == x
  {
    DailyRows(raw, easter);
    var f :| f in Daily(raw, easter) && f.row == x;
    MergeKeepsDay(Daily(raw, easter), trend, f);
  }

  /** Every month in which the input has a day has a monthly row. */
  lemma SpecMonthOfInput(raw: Table, trend: seq<TrendRow>, easter: int -> int, i: int)
    requires WellFormed(raw)
    requires 0 <= i < |raw.rows|
    ensures exists k :: 0 <= k < |Spec(raw, trend, easter)| && Spec(raw, trend, easter)[k].month == MonthStart(raw.rows[i].date)
  {
    SortAfterMergeIsIdentity(raw, trend, easter);
    var merged := Merge(Daily(raw, easter), trend);
    var clean := Clean(raw).rows;
    CleanKeepsDates(raw, raw.rows[i].date);
    var c :| 0 <= c < |clean| && clean[c].date == raw.rows[i].date;
    CleanReachesMerge(raw, trend, easter, clean[c]);
    var j :| 0 <= j < |merged| && merged[j].left.row == clean[c];
    MonthlyCoversDays(merged, j);
  }

  /** Every daily row behind a monthly row passes the range checks of lines
      14-23: the means are taken over checked values only. */
  lemma SpecRowsChecked(raw: Table, trend: seq<TrendRow>, easter: int -> int, k: int, x: Joined)
    requires WellFormed(raw)
    requires 0 <= k < |Spec(raw, trend, easter)| && x in Spec(raw, trend, easter)[k].days
    ensures RowChecked(x.left.row, raw.cols)
    ensures MonthStart(x.left.row.date) == Spec(raw, trend, easter)[k].month
  {
    SortAfterMergeIsIdentity(raw, trend, easter);
    var merged := Merge(Daily(raw, easter), trend);
    MonthlyRowsAreMonths(merged, k);
    MergedFromClean(raw, trend, easter, x);
    CleanRowsChecked(raw);
  }

  /** A month is flagged exactly when one of its days lies within five days
      of Christmas, Halloween or Easter of a year that occurs in the input. */
  lemma SpecHoliday(raw: Table, trend: seq<TrendRow>, easter: int -> int, k: int)
    requires WellFormed(raw)
    requires 0 <= k < |Spec(raw, trend, easter)|
    ensures Spec(raw, trend, easter)[k].isHoliday == 0 || Spec(raw, trend, easter)[k].isHoliday == 1
    ensures Spec(raw, trend, easter)[k].isHoliday == 1 <==>
      exists x :: x in Spec(raw, trend, easter)[k].days && IsHolidayDate(x.left.row.date, Years(raw), easter)
  {
    SortAfterMergeIsIdentity(raw, trend, easter);
    var merged := Merge(Daily(raw, easter), trend);
    var r := Spec(raw, trend, easter)[k];
    forall x | x in merged
      ensures x.left.isHoliday == 0 || x.left.isHoliday == 1
      ensures x.left.isHoliday == 1 <==> IsHolidayDate(x.left.row.date, Years(raw), easter)
    {
      MergedFromClean(raw, trend, easter, x);
      DailyRows(raw, easter);
    }
    MonthHolidayIsAny(merged, k);
    MonthlyRowsAreMonths(merged, k);
  }

  /** The years that define the holiday windows are exactly the years in
      which the input has a day. */
  lemma YearsOfInput(raw: Table)
    requires WellFormed(raw)
    ensures forall y :: y in Years(raw) <==> exists i :: 0 <= i < |raw.rows| && Year(raw.rows[i].date) == y
  {
    var clean := Clean(raw).rows;
    forall y ensures y in Years(raw) <==> exists i :: 0 <= i < |raw.rows| && Year(raw.rows[i].date) == y {
      if y in Years(raw) {
        var c :| 0 <= c < |clean| && Year(clean[c].date) == y;
        CleanKeepsDates(raw, clean[c].date);
      }
      if i :| 0 <= i < |raw.rows| && Year(raw.rows[i].date) == y {
        CleanKeepsDates(raw, raw.rows[i].date);
      }
    }
  }

  /** Each month's daily rows are in date order, and its log-return reads
      the price of the first and of the last of them. */
  lemma SpecReturnEndpoints(raw: Table, trend: seq<TrendRow>, easter: int -> int, k: int)
    requires WellFormed(raw)
    requires 0 <= k < |Spec(raw, trend, easter)|
    ensures SortedBy(Spec(raw, trend, easter)[k].days, JoinedDate)
    ensures Spec(raw, trend, easter)[k].firstPrice == Spec(raw, trend, easter)[k].days[0].left.row.price
    ensures Spec(raw, trend, easter)[k].lastPrice ==
      Spec(raw, trend, easter)[k].days[|Spec(raw, trend, easter)[k].days| - 1].left.row.price
  {
    var sorted := SortBy(Merge(Daily(raw, easter), trend), JoinedDate);
    ReturnEndpoints(sorted, k);
    WhereKeepsOrder(sorted, JoinedDate, JoinedMonth, Spec(raw, trend, easter)[k].month);
  }
}
