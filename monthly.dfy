/** The merge and aggregation phase of dataprocessing.py (lines 54-92): the
    monthly search-trend table is left-joined onto the daily rows by month,
    the rows are re-sorted by date and grouped by month. Means and logarithms
    are floating-point results and are not computed: each monthly row keeps
    the daily rows that feed its means and the two prices that feed its
    log-return. */
module Monthly {
  import opened Wrappers
  import opened Calendar
  import opened Frame
  import opened Cleaning
  import opened Features

  /** One row of the trend table: `Month` (the day number of its first day)
      and `Cocoa_Trend`. */
  datatype TrendRow = TrendRow(month: int, trend: Option<real>)

  /** A daily row after the merge, with the trend row of its month if any. */
  type Joined = Pair<Featured, TrendRow>

  function TrendMonth(t: TrendRow): int { t.month }

  /** The `Month` column of a daily row (line 60). */
  function DayMonth(d: Featured): int { MonthStart(d.row.date) }

  function JoinedDate(j: Joined): int { j.left.row.date }

  function JoinedMonth(j: Joined): int { MonthStart(j.left.row.date) }

  /** The `Cocoa_Trend` cell of a merged row: missing when the month had no
      trend row. */
  function TrendOf(j: Joined): Option<real> {
    if j.right.Some? then j.right.value.trend else None
  }

  /** Line 61, `df.merge(trend_df, on="Month", how="left")`. */
  function Merge(days: seq<Featured>, trend: seq<TrendRow>): (r: seq<Joined>)
    ensures |r| >= |days|
    ensures forall j :: j in r ==> j.left in days
    ensures forall j :: j in r && j.right.Some? ==> j.right.value in trend && TrendMonth(j.right.value) == DayMonth(j.left)
  {
    LeftJoin(days, trend, DayMonth, TrendMonth)
  }

  /** Each merged row carries the trend of its own month, or a missing trend
      when the trend table has no row for that month; no daily row is lost. */
  lemma MergeTrendOfMonth(days: seq<Featured>, trend: seq<TrendRow>)
    ensures forall j :: j in Merge(days, trend) ==>
      j.left in days &&
      ((exists t :: t in trend && t.month == DayMonth(j.left) && TrendOf(j) == t.trend) ||
       (TrendOf(j) == None && forall t :: t in trend ==> t.month != DayMonth(j.left)))
    ensures forall d :: d in days ==> exists j :: j in Merge(days, trend) && j.left == d
  {
    assert Merge(days, trend) == LeftJoin(days, trend, DayMonth, TrendMonth);
    forall j | j in Merge(days, trend) && j.right.Some?
      ensures exists t :: t in trend && t.month == DayMonth(j.left) && TrendOf(j) == t.trend
    {
      assert TrendMonth(j.right.value) == DayMonth(j.left);
    }
  }

  /** Every daily row has a place in the merged table. */
  lemma MergeKeepsDay(days: seq<Featured>, trend: seq<TrendRow>, d: Featured)
    requires d in days
    ensures exists j :: 0 <= j < |Merge(days, trend)| && Merge(days, trend)[j].left == d
  {
    var merged := Merge(days, trend);
    var p :| p in merged && p.left == d;
    var j :| 0 <= j < |merged| && merged[j] == p;
  }

  /** With one trend row per month (as in a monthly export), the merge keeps
      the daily rows one for one and in place, each with its month's trend. */
  lemma MergeOnePerMonth(days: seq<Featured>, trend: seq<TrendRow>)
    requires UniqueKeys(trend, TrendMonth)
    ensures |Merge(days, trend)| == |days|
    ensures forall i :: 0 <= i < |days| ==>
      Merge(days, trend)[i].left == days[i] && Merge(days, trend)[i].right == Lookup(trend, TrendMonth, DayMonth(days[i]))
  {
    LeftJoinUniqueKeys(days, trend, DayMonth, TrendMonth);
  }

  /** The merge pairs each daily row with each trend row of its month once
      per copy of each, and leaves a daily row unmatched once per copy exactly
      when its month has no trend row. */
  lemma MergeCounts(days: seq<Featured>, trend: seq<TrendRow>, d: Featured, t: TrendRow)
    ensures t.month == DayMonth(d) ==>
      multiset(Merge(days, trend))[Pair(d, Some(t))] == multiset(days)[d] * multiset(trend)[t]
    ensures multiset(Merge(days, trend))[Pair(d, None)] ==
      if Where(trend, TrendMonth, DayMonth(d)) == [] then multiset(days)[d] else 0
  {
    if t.month == DayMonth(d) {
      LeftJoinMatchedCount(days, trend, DayMonth, TrendMonth, d, t);
    }
    LeftJoinUnmatchedCount(days, trend, DayMonth, TrendMonth, d);
  }

  /** Merging daily rows that are in date order leaves them in date order,
      so the `sort_values("Date")` of line 65 leaves them as they are. */
  lemma MergeKeepsDateOrder(days: seq<Featured>, trend: seq<TrendRow>)
    requires SortedBy(days, DayDate)
    ensures SortedBy(Merge(days, trend), JoinedDate)
    ensures SortBy(Merge(days, trend), JoinedDate) == Merge(days, trend)
  {
    LeftJoinKeepsOrder(days, trend, DayMonth, TrendMonth, DayDate, JoinedDate);
    SortSortedIsIdentity(Merge(days, trend), JoinedDate);
  }

  /** One row of the monthly output: `Month`, `YEAR`, `MONTH_NUM`, the daily
      rows of the month in frame order (they feed the means), the first and
      last `Price_NY` (they feed `log_return_rate`) and `Is_Holiday`. */
  datatype MonthlyRow = MonthlyRow(
    month: int, year: int, monthNum: int, days: seq<Joined>,
    firstPrice: Option<real>, lastPrice: Option<real>, isHoliday: int)

  /** Line 87, `groupby("Month")["Is_Holiday"].max()` on one group. */
  function MaxHoliday(g: seq<Joined>): (r: int)
    requires |g| > 0
    ensures forall i :: 0 <= i < |g| ==> g[i].left.isHoliday <= r
    ensures exists i :: 0 <= i < |g| && g[i].left.isHoliday == r
  {
    if |g| == 1 then g[0].left.isHoliday
    else
      var m := MaxHoliday(g[1..]);
      assert forall i :: 1 <= i < |g| ==> g[i] == g[1..][i - 1];
      if g[0].left.isHoliday >= m then g[0].left.isHoliday else m
  }

  /** Lines 69-92 on one group: `iloc[0]` and `iloc[-1]` of `Price_NY`, the
      `Is_Holiday` maximum, and the year and month of the group key. */
  function Summarize(g: Group<Joined>): (r: MonthlyRow)
    requires |g.rows| > 0
    ensures r.month == g.key && r.days == g.rows
    ensures r.firstPrice == g.rows[0].left.row.price && r.lastPrice == g.rows[|g.rows| - 1].left.row.price
  {
    var c := ToCivil(g.key);
    MonthlyRow(g.key, c.year, c.month, g.rows,
      g.rows[0].left.row.price, g.rows[|g.rows| - 1].left.row.price, MaxHoliday(g.rows))
  }

  /** Lines 69-92: one monthly row per distinct month, in ascending month
      order, each the summary of exactly the daily rows of its month. */
  function GroupByMonth(rows: seq<Joined>): (out: seq<MonthlyRow>)
    ensures forall k, l :: 0 <= k < l < |out| ==> out[k].month < out[l].month
    ensures forall k :: 0 <= k < |out| ==>
      |out[k].days| > 0 && out[k].days == Where(rows, JoinedMonth, out[k].month) &&
      out[k] == Summarize(Group(out[k].month, out[k].days))
  {
    var gs := GroupBy(rows, JoinedMonth);
    seq(|gs|, k requires 0 <= k < |gs| => Summarize(gs[k]))
  }

  /** A month keeps every copy of each of its daily rows, so two rows that
      are equal after the fill both feed the month's means. */
  lemma MonthlyRowCounts(rows: seq<Joined>, k: int, x: Joined)
    requires 0 <= k < |GroupByMonth(rows)|
    ensures multiset(GroupByMonth(rows)[k].days)[x] ==
      if JoinedMonth(x) == GroupByMonth(rows)[k].month then multiset(rows)[x] else 0
  {
    WhereCount(rows, JoinedMonth, GroupByMonth(rows)[k].month, x);
  }

  /** The `agg` of lines 73-83 names every weather column the cleaning loop
      visits. */
  predicate HasAggregatedColumns(cols: set<Weather>) {
    forall c :: c in WeatherColumns ==> c in cols
  }

  /** Lines 67-92 as written, failing (None) in two ways. With no rows there
      is no group, so the `apply` of lines 69-70 gives an empty DataFrame,
      whose `reset_index` at line 71 takes no `name` and raises `TypeError`.
      The `agg` of lines 73-83 raises `KeyError` when the table lacks one of
      the weather columns it names. Otherwise the result is the monthly rows. */
  function AggregateMonths(cols: set<Weather>, rows: seq<Joined>): (r: Option<seq<MonthlyRow>>)
    ensures r.None? <==> rows == [] || exists c: Weather :: c !in cols
    ensures r.Some? ==> r.value == GroupByMonth(rows)
  {
    AllColumnsVisited();
    if rows == [] || !HasAggregatedColumns(cols) then None else Some(GroupByMonth(rows))
  }

  /** Every daily row's month has a monthly row. */
  lemma MonthlyCoversDays(rows: seq<Joined>, i: int)
    requires 0 <= i < |rows|
    ensures exists k :: 0 <= k < |GroupByMonth(rows)| && GroupByMonth(rows)[k].month == JoinedMonth(rows[i])
  {
    var gs := GroupBy(rows, JoinedMonth);
    var k :| 0 <= k < |gs| && gs[k].key == JoinedMonth(rows[i]);
    assert GroupByMonth(rows)[k].month == gs[k].key;
  }

  /** Every monthly row comes from the month of some daily row. */
  lemma MonthlyRowHasDay(rows: seq<Joined>, k: int)
    requires 0 <= k < |GroupByMonth(rows)|
    ensures exists i :: 0 <= i < |rows| && JoinedMonth(rows[i]) == GroupByMonth(rows)[k].month
  {
    var r := GroupByMonth(rows)[k];
    assert r.days[0] in r.days;
    var i :| 0 <= i < |rows| && rows[i] == r.days[0];
  }

  /** Each monthly row holds exactly the daily rows of its month. */
  lemma MonthlyRowsAreMonths(rows: seq<Joined>, k: int)
    requires 0 <= k < |GroupByMonth(rows)|
    ensures forall x :: x in GroupByMonth(rows)[k].days <==> x in rows && JoinedMonth(x) == GroupByMonth(rows)[k].month
  {
  }

  /** Over 0/1 flags, the maximum is a 0/1 flag that is 1 exactly when some
      flag is 1. */
  lemma MaxHolidayIsAny(g: seq<Joined>)
    requires |g| > 0
    requires forall i :: 0 <= i < |g| ==> g[i].left.isHoliday == 0 || g[i].left.isHoliday == 1
    ensures MaxHoliday(g) == 0 || MaxHoliday(g) == 1
    ensures MaxHoliday(g) == 1 <==> exists i :: 0 <= i < |g| && g[i].left.isHoliday == 1
  {
  }

  /** The monthly flag is 1 exactly when some day of the month is flagged. */
  lemma MonthHolidayIsAny(rows: seq<Joined>, k: int)
    requires forall x :: x in rows ==> x.left.isHoliday == 0 || x.left.isHoliday == 1
    requires 0 <= k < |GroupByMonth(rows)|
    ensures var r := GroupByMonth(rows)[k];
      (r.isHoliday == 0 || r.isHoliday == 1) &&
      (r.isHoliday == 1 <==> exists i :: 0 <= i < |r.days| && r.days[i].left.isHoliday == 1)
  {
    var r := GroupByMonth(rows)[k];
    assert r == Summarize(Group(r.month, r.days));
    forall i | 0 <= i < |r.days| ensures r.days[i].left.isHoliday == 0 || r.days[i].left.isHoliday == 1 {
      assert r.days[i] in r.days;
    }
    MaxHolidayIsAny(r.days);
  }

  /** `YEAR` and `MONTH_NUM` are the year and month of `Month`, which is the
      first day of that month. */
  lemma MonthFields(rows: seq<Joined>, k: int)
    requires 0 <= k < |GroupByMonth(rows)|
    ensures var r := GroupByMonth(rows)[k];
      ToCivil(r.month) == Civil(r.year, r.monthNum, 1) && 1 <= r.monthNum <= 12
  {
    var r := GroupByMonth(rows)[k];
    assert r == Summarize(Group(r.month, r.days));
    var x := r.days[0];
    assert x in r.days;
    var d := x.left.row.date;
    assert r.month == MonthStart(d);
    assert ToCivil(MonthStart(d)) == Civil(Year(d), MonthOf(d), 1);
  }

  /** The log-return of a month reads the price of the first and of the last
      of its daily rows. */
  lemma MonthEndpoints(rows: seq<Joined>, k: int)
    requires 0 <= k < |GroupByMonth(rows)|
    ensures GroupByMonth(rows)[k].firstPrice == GroupByMonth(rows)[k].days[0].left.row.price
    ensures GroupByMonth(rows)[k].lastPrice == GroupByMonth(rows)[k].days[|GroupByMonth(rows)[k].days| - 1].left.row.price
  {
    var r := GroupByMonth(rows)[k];
    assert r == Summarize(Group(r.month, r.days));
  }

  /** When the rows are in date order, each month's daily rows are in date
      order, so the log-return reads the price of the month's earliest row and
      of its latest row. */
  lemma ReturnEndpoints(rows: seq<Joined>, k: int)
    requires SortedBy(rows, JoinedDate)
    requires 0 <= k < |GroupByMonth(rows)|
    ensures SortedBy(GroupByMonth(rows)[k].days, JoinedDate)
    ensures GroupByMonth(rows)[k].firstPrice == GroupByMonth(rows)[k].days[0].left.row.price
    ensures GroupByMonth(rows)[k].lastPrice == GroupByMonth(rows)[k].days[|GroupByMonth(rows)[k].days| - 1].left.row.price
  {
    MonthEndpoints(rows, k);
    WhereKeepsOrder(rows, JoinedDate, JoinedMonth, GroupByMonth(rows)[k].month);
  }

  /** A month with a single daily row has a log-return of log(p / p): both of
      its endpoints are the same price. */
  lemma SingleDayReturn(rows: seq<Joined>, k: int)
    requires 0 <= k < |GroupByMonth(rows)| && |GroupByMonth(rows)[k].days| == 1
    ensures GroupByMonth(rows)[k].firstPrice == GroupByMonth(rows)[k].lastPrice
  {
    MonthEndpoints(rows, k);
    var days := GroupByMonth(rows)[k].days;
    assert |days| - 1 == 0;
  }
}
