# Cocoa data preparation, modelled in Dafny

`dataprocessing.py` turns a daily table of cocoa prices, exchange rates and
weather readings into one row per calendar month. In order, it:

- sorts the rows by date and drops duplicate rows;
- nulls out-of-range prices and exchange rates;
- nulls negative weather readings;
- forward-fills every column;
- adds the month number, the weekday and a holiday flag;
- left-merges a monthly search-trend table onto the days;
- groups by month.

For each month it reports the column means, the log-return from the month's
first to its last price, the holiday maximum, and the year and month number.

This project models that script as pure functions over values, which is the
script's own form: a sequence of whole-table pandas operations. The model has
one `method` for each loop the script has:

- the weather-column loop of lines 20-23 (`Cleaning.CleanWeather`);
- the two holiday loops of lines 36-48 (`Features.HolidayWindows`).

A third method, the driver `Pipeline.Run`, runs every step in the script's
order. Each method is proved equal to the function that specifies it.
`Pipeline.Run` returns no output where the script fails. That happens on an
empty daily table, at line 71, and on a table lacking a weather column, at
the `agg` of line 73. The
`Spec*` lemmas describe `Pipeline.Spec`, the monthly rows the script writes
when it succeeds, computed for any set of weather columns (see
"## Findings").

Modules:

- `Calendar` — proleptic Gregorian dates as day numbers. Day 0 is
  0001-01-01, a Monday. It provides the conversion to and from
  (year, month, day), `.dt.month`, `.dt.weekday + 1` and the month start of
  `to_period("M").to_timestamp()`.
- `Frame` — the pandas table operations the script uses. Each one is generic
  over a key function:
  - `sort_values`: a stable sort;
  - `drop_duplicates`;
  - boolean selection;
  - the left `merge`;
  - `groupby`.
- `ForwardFill` — `fillna(method="ffill")` on one column.
- `Cleaning` — lines 8-25.
- `Features` — lines 27-50. Easter is a parameter, see below.
- `Monthly` — lines 54-92.
- `Pipeline` — the whole script and end-to-end properties of its output.

## Model

| member | source | states |
|---|---|---|
| Calendar.ToCivil | dataprocessing.py:27 | A day number maps to a valid (year, month, day) that maps back to the same day number. |
| Calendar.CivilRoundTrip | dataprocessing.py:58 | Converting a valid date to its day number and back returns the date unchanged, so the conversion is one-to-one. |
| Calendar.DaysFromCivil | dataprocessing.py:39-40 | The closed-form day number of a date, as `pd.Timestamp(f"{y}-12-25")` and `pd.Timestamp(f"{y}-10-31")` build it. `Calendar.ToCivil` inverts it on valid dates (`Calendar.CivilRoundTrip`). |
| Calendar.Year | dataprocessing.py:34 | `.dt.year`, the year of the day's calendar date. `Features.YearOfDay` proves that this is the year whose days contain the day. |
| Calendar.MonthOf | dataprocessing.py:27 | `.dt.month` is a month number from 1 to 12. |
| Calendar.Weekday | dataprocessing.py:28 | `.dt.weekday + 1` lies in 1..7. |
| Calendar.WeekdayNext | dataprocessing.py:28 | Consecutive days have consecutive weekdays, and Sunday (7) wraps to Monday (1). |
| Calendar.EpochIsMonday | dataprocessing.py:28 | Day 0 (0001-01-01) is a Monday, which is 1 on the script's scale. |
| Calendar.WeekdayExamples | dataprocessing.py:28 | 2024-01-01 gets weekday 1 (a Monday) and 2021-12-31 gets weekday 5 (a Friday). |
| Calendar.MonthStart | dataprocessing.py:60 | The month start of a day is the first day of that day's year and month, and the day lies within that month. |
| Calendar.SameMonthStart | dataprocessing.py:60 | Two days have the same `Month` exactly when they have the same year and month number. |
| Calendar.MonthStartMonotone | dataprocessing.py:67 | A later day never has an earlier `Month`. |
| Frame.SortBy | dataprocessing.py:8 | `sort_values` gives the rows in ascending key order, as a permutation of the input (same multiset). |
| Frame.InsertBySorted | dataprocessing.py:8 | Inserting into key-ordered rows keeps them in key order. |
| Frame.SortSortedIsIdentity | dataprocessing.py:65 | Sorting rows that are already in key order returns them unchanged. |
| Frame.Dedup | dataprocessing.py:10 | `drop_duplicates` keeps the same set of rows and leaves no two equal rows. |
| Frame.DedupKeepsFirsts | dataprocessing.py:10 | The kept rows are exactly the first occurrences, in input order. |
| Frame.DedupKeepsOrder | dataprocessing.py:8-10 | Dropping duplicates from date-ordered rows leaves them date-ordered. |
| Frame.Where | dataprocessing.py:69-87 | A group's selection holds exactly the rows with its key, and no others. |
| Frame.WhereCount | dataprocessing.py:69-87 | A group keeps every copy of a row with its key, as many times as the row occurs in the input, and no copy of any other row. |
| Frame.WhereKeepsOrder | dataprocessing.py:69-71 | Selecting from key-ordered rows keeps them in key order. |
| Frame.WhereUnique | dataprocessing.py:61 | With pairwise-different keys, at most one row matches a key. |
| Frame.LeftJoin | dataprocessing.py:61 | A left merge loses no left row. Each merged row pairs its left row with a right row of equal key, or with nothing when no right row has that key. |
| Frame.LeftJoinMatchedCount | dataprocessing.py:61 | A left row and a right row of its key are paired n × m times, where n counts the left row's copies and m the right row's copies. |
| Frame.LeftJoinUnmatchedCount | dataprocessing.py:61 | A left row stays unmatched once per copy when no right row has its key, and never otherwise. |
| Frame.LeftJoinUniqueKeys | dataprocessing.py:61 | With unique right keys, the merge is the left rows one for one and in place, each with the matching right row. |
| Frame.LeftJoinKeepsOrder | dataprocessing.py:61-65 | Merging left rows that are in key order keeps the merged rows in that order. |
| Frame.Keys | dataprocessing.py:69 | The group keys are strictly ascending and are exactly the keys that occur in the rows. |
| Frame.GroupBy | dataprocessing.py:69-87 | One group per distinct key, in ascending key order. Every row's key has a group, and each group is non-empty and holds exactly the rows with its key. |
| ForwardFill.FFill | dataprocessing.py:25 | Present cells are kept. A missing cell takes the filled value just before it. A leading missing cell stays missing. |
| ForwardFill.FFillTakesNearest | dataprocessing.py:25 | A missing cell takes the nearest earlier present value of its column. |
| ForwardFill.FFillKeepsLeadingNulls | dataprocessing.py:25 | Cells before the first present value stay missing. |
| ForwardFill.FFillDrawsFromColumn | dataprocessing.py:25 | Every filled value is a value from the same column, at or before that row. |
| ForwardFill.FFillKeepsBound | dataprocessing.py:25 | A bound that holds for a column's present values still holds after the fill. |
| ForwardFill.FFillIdempotent | dataprocessing.py:25 | Filling a second time changes nothing. |
| Cleaning.WithinCeiling | dataprocessing.py:15 | A price or rate cell in (0, ceiling] is kept, and any other cell becomes missing. |
| Cleaning.ClipPriceAndRate | dataprocessing.py:14-18 | Every price is checked against 10000 and every rate against 1000. Dates and weather are left alone. |
| Cleaning.DropNegative | dataprocessing.py:23 | A negative reading becomes missing, and any other reading is kept. |
| Cleaning.AllColumnsVisited | dataprocessing.py:20 | The loop's column list names all five weather columns. |
| Cleaning.ClipWeather | dataprocessing.py:20-23 | Every weather column the table has is checked in every row. No column is created, and dates, prices and rates are unchanged. |
| Cleaning.CleanWeather | dataprocessing.py:20-23 | The loop over the five column names computes exactly `ClipWeather`. |
| Cleaning.FillTable | dataprocessing.py:25 | Each column of the filled table is the forward fill of the same column, and the dates are unchanged. |
| Cleaning.FillTableIdempotent | dataprocessing.py:25 | Filling a filled table changes nothing. |
| Cleaning.SortedUnique | dataprocessing.py:8-10 | The rows come out in date order, with the same set of rows and no two rows equal. |
| Cleaning.Checked | dataprocessing.py:8-23 | After the sort, the de-duplication and the range checks, every cell passes its check and every date is kept. |
| Cleaning.FillKeepsRanges | dataprocessing.py:14-25 | The fill copies only prices and rates that passed the range checks. |
| Cleaning.FillKeepsNotNegative | dataprocessing.py:20-25 | The fill copies only weather readings that passed the check. |
| Cleaning.FillKeepsChecked | dataprocessing.py:14-25 | Every row of a filled checked table passes every check. |
| Cleaning.Clean | dataprocessing.py:8-25 | The cleaned table keeps the columns and has no more rows than the input. |
| Cleaning.CleanRowsChecked | dataprocessing.py:8-25 | Every cleaned price is missing or in (0, 10000], every rate is missing or in (0, 1000], and every weather reading is missing or not negative. |
| Cleaning.CleanSortedByDate | dataprocessing.py:8-25 | The cleaned rows are in ascending date order. |
| Cleaning.CleanKeepsDates | dataprocessing.py:8-25 | A date occurs after cleaning exactly when it occurs in the input. |
| Features.DistinctYears | dataprocessing.py:34 | The years, each once, are exactly the years of the rows' dates. |
| Features.DistinctYearsInOrder | dataprocessing.py:34 | The distinct years are the year column with its repeats dropped, so each year keeps the position of its first appearance. |
| Features.AnchorList | dataprocessing.py:38-41 | The list holds three anchors per year. |
| Features.AnchorListAt | dataprocessing.py:38-41 | The anchors of the i-th year sit at positions 3i, 3i+1 and 3i+2: Christmas, Halloween, then Easter. |
| Features.AnchorListNear | dataprocessing.py:38-41 | A day is within five days of an anchor in the list exactly when it is a holiday date of the data's years. |
| Features.HolidayWindows | dataprocessing.py:36-48 | The set the loops build holds exactly the days within five days of Christmas, Halloween or Easter of a year of the data. |
| Features.Featurize | dataprocessing.py:27-28 | A row gets `MONTH` in 1..12 and `WEEKDAY` in 1..7 for its date, and an `Is_Holiday` of 0 or 1 that is 1 exactly when the date is a holiday. |
| Features.AddFeatures | dataprocessing.py:27-50 | Every row gets its features, one for one and in order. |
| Features.FeaturedRows | dataprocessing.py:50 | The featured rows are the input rows, flagged exactly on holiday dates, and they keep date order. |
| Features.AddFeaturesAgree | dataprocessing.py:50 | The flags depend only on which days are holidays. `isin` on the built set equals the reference predicate. |
| Features.Holidays2021 | dataprocessing.py:34-50 | With only 2021 in the data, December 20-30 are flagged and December 19 and 31 are not. |
| Features.HolidayIsOwnYear | dataprocessing.py:34-50 | When Easter falls between March 22 and April 25, a day is flagged exactly when its own year is in the data and the day is near one of that year's anchors. |
| Monthly.Merge | dataprocessing.py:61 | No daily row is lost, every merged row comes from a daily row, and a matched trend row is a row of the trend table for that day's month. |
| Monthly.MergeTrendOfMonth | dataprocessing.py:60-61 | Each merged day carries the trend of its own month, or a missing trend when the trend table has no row for that month, and no day is lost. |
| Monthly.MergeKeepsDay | dataprocessing.py:61 | Every daily row has a place in the merged table. |
| Monthly.MergeOnePerMonth | dataprocessing.py:61 | With one trend row per month, the merge keeps the days one for one and in place, each with its month's trend. |
| Monthly.MergeCounts | dataprocessing.py:61 | Each day is paired with each trend row of its month once per copy of each. A day stays unmatched once per copy exactly when its month has no trend row. |
| Monthly.MergeKeepsDateOrder | dataprocessing.py:61-65 | Merging date-ordered days keeps them date-ordered, so the `sort_values("Date")` leaves them as they are. |
| Monthly.MaxHoliday | dataprocessing.py:87 | The group's `Is_Holiday` is at least every flag in the group and equals one of them. |
| Monthly.MonthHolidayIsAny | dataprocessing.py:87 | Over 0/1 flags, the monthly flag is 0 or 1, and it is 1 exactly when some day of the month is flagged. |
| Monthly.Summarize | dataprocessing.py:69-92 | One group's row keeps the group's key and days, and its endpoint prices are the `Price_NY` of `iloc[0]` and of `iloc[-1]`. Its `Is_Holiday` is `Monthly.MaxHoliday` of the days. |
| Monthly.GroupByMonth | dataprocessing.py:67-92 | One row per distinct month in strictly ascending order. Each row holds exactly the days of its month, at least one, and summarises them. |
| Monthly.MonthlyRowCounts | dataprocessing.py:69-83 | A month keeps every copy of each of its days, so equal rows all feed the month's means. |
| Monthly.AggregateMonths | dataprocessing.py:67-92 | The step fails in two cases: with no rows, because line 71 raises `TypeError`, and when the table lacks a weather column the `agg` of lines 73-83 names, which raises `KeyError`. Otherwise it gives the monthly rows. |
| Monthly.MonthlyCoversDays | dataprocessing.py:69-89 | Every day's month has a monthly row. |
| Monthly.MonthlyRowHasDay | dataprocessing.py:69-89 | Every monthly row is the month of some day. |
| Monthly.MonthFields | dataprocessing.py:91-92 | `YEAR` and `MONTH_NUM` are the year and the month (1..12) of `Month`, which is the first day of that month. |
| Monthly.MonthEndpoints | dataprocessing.py:69-71 | The log-return reads the price of the month's first row (`iloc[0]`) and of its last row (`iloc[-1]`). |
| Monthly.ReturnEndpoints | dataprocessing.py:65-71 | For date-ordered days, each month's days are date-ordered, so the log-return reads the earliest price and the latest price. |
| Monthly.SingleDayReturn | dataprocessing.py:69-71 | A month with a single day has equal endpoint prices, so its log-return is log(p / p). |
| Pipeline.Run | dataprocessing.py:8-92 | The script in its own order computes `Script`: no output on an empty table or a missing weather column, and otherwise the monthly rows of `Spec`. |
| Pipeline.Script | dataprocessing.py:8-92 | The script as written fails exactly when the daily table is empty or lacks a weather column, and otherwise writes the monthly rows of `Spec`. |
| Pipeline.MergedEmpty | dataprocessing.py:8-71 | The merged, re-sorted table is empty exactly when the input table is. |
| Pipeline.Spec | dataprocessing.py:8-92 | The monthly rows over any set of weather columns are in strictly ascending month order, and each has at least one day. |
| Pipeline.Years | dataprocessing.py:34 | The years of the cleaned rows, each once. |
| Pipeline.Daily | dataprocessing.py:8-50 | The cleaned rows one for one, each flagged exactly when its date is a holiday date of the data's years. |
| Pipeline.MissingWeatherFails | dataprocessing.py:20-83 | A table with no weather columns and one day has a monthly row under `Spec`, yet the script as written fails on it. |
| Pipeline.DailyRows | dataprocessing.py:8-50 | The daily rows are the cleaned rows in date order, flagged 0 or 1, and 1 exactly on holiday dates of the data's years. |
| Pipeline.SortAfterMergeIsIdentity | dataprocessing.py:65 | The re-sort after the merge changes nothing. |
| Pipeline.MergedFromClean | dataprocessing.py:61 | Every merged row comes from a cleaned row. |
| Pipeline.MergedDateFromInput | dataprocessing.py:8-61 | Every date in the merged table is a date of the input. |
| Pipeline.SpecMonthFromInput | dataprocessing.py:8-92 | Every output month is the month of some input day. |
| Pipeline.CleanReachesMerge | dataprocessing.py:25-61 | Every cleaned row reaches the merged table. |
| Pipeline.SpecMonthOfInput | dataprocessing.py:8-92 | Every month with an input day has an output row. |
| Pipeline.SpecRowsChecked | dataprocessing.py:14-92 | Every day behind a monthly mean passes the range checks and lies in that month. |
| Pipeline.SpecHoliday | dataprocessing.py:34-87 | A month is flagged 1 exactly when one of its days is within five days of Christmas, Halloween or Easter of a year in the input, and 0 otherwise. |
| Pipeline.YearsOfInput | dataprocessing.py:34 | The years that define the holiday windows are exactly the years of the input's dates. |
| Pipeline.SpecReturnEndpoints | dataprocessing.py:65-71 | Each month's days are in date order, and the log-return reads the month's earliest price and latest price. |

## Left out

- File input and output (lines 6, 54 and 94) are not modelled. The model starts from tables that are already read: `Cleaning.Table` and `Monthly.TrendRow`.
- Parsing is not modelled. This covers the date parsing (lines 6 and 58), stripping thousands separators and `astype(float)` (lines 14 and 17), and `pd.to_numeric(errors="coerce")` (line 22). Cells arrive parsed, and a cell that did not parse arrives missing. Note that `astype(float)` raises on text it cannot parse rather than producing a missing value; the model does not capture that exception.
- Timestamps are day numbers. Any time of day is dropped. Day numbers are unbounded, while pandas timestamps cover only 1677-09-21 to 2262-04-11. So the model does not capture the `OutOfBoundsDatetime` errors the script raises near those limits, for example at line 39 for a 2262 date, whose Christmas is past the limit.
- Easter (`dateutil.easter`, line 41) is a library call, so it is the parameter `easter`. `Features.HolidayIsOwnYear` assumes only that Easter falls between March 22 and April 25.
- Floating-point results are not computed:
  - `np.log` (lines 30 and 70);
  - the column means (lines 73-83).
  Each monthly row keeps its month's daily rows, which feed the means, and its first and last prices, which feed `log_return_rate`. As a consequence, the `logprice` column and the joins of lines 85 and 89, which only attach those numbers, are not modelled.
- The two `dropna()` calls (lines 32 and 52) are not modelled. Their result `df_clean` is never used.
- Column drops (lines 12 and 63) are not modelled. `YEAR`, `DOY` and the unnamed index column are not part of the row. `Month` is recomputed at line 67 exactly as at line 60, so the drop at line 63 has no effect on the output.
- Frame.SortBy: is a stable sort. pandas' default `sort_values` (quicksort) does not promise any order among rows with equal dates, so for such rows the model fixes one order the script does not guarantee. `Pipeline.SortAfterMergeIsIdentity` shows the re-sort of line 65 is otherwise the identity.
- Frame.Dedup: compares parsed rows. The script drops duplicates on the raw cells before parsing (line 10 precedes lines 14-22). So two rows whose cells differ only in formatting, for example `1,000` and `1000`, both survive in the script, while the model would merge them.
- Cleaning.SortedUnique: does not make dates unique, because the script does not. `drop_duplicates()` removes only rows that are equal in every column, so two rows with the same date and different values both survive and both feed their month's means. The duplicate test also runs before line 12 drops `YEAR`, `DOY` and `Unnamed: 0`, so those columns take part in it. The model's rows do not carry them. Two rows that differ only in one of those columns are therefore merged by the model but both kept by the script. For example, with an `Unnamed: 0` row index the script drops no row at all. `SortedUnique`'s "no two rows equal" holds for the model's rows, not for the script's table after line 12.
- The weather loop (line 21) skips a column the table lacks. The model carries the set of present columns in `Cleaning.Table.cols`. The `agg` of line 73 does not skip such a column, and the model keeps that failure in `Pipeline.Run`.

## Findings

| source | as written | input that shows it | evidently intended | confidence | as-written member | corrected member |
|---|---|---|---|---|---|---|
| dataprocessing.py:73-83 | The `agg` names all five weather columns. pandas raises `KeyError` for a missing one, so no output is written. Yet lines 20-23 check each weather column only when it is present. | A table with no weather columns and one row dated 2022-01-03. | Aggregate the weather columns the table has, giving one row per month. | not executed; high that `agg` raises, medium that absent columns were meant to be tolerated | Pipeline.MissingWeatherFails | Pipeline.SpecMonthOfInput |
