/** The cleaning phase of dataprocessing.py (lines 8-25): sort by date, drop
    duplicate rows, null out-of-range prices and exchange rates, null negative
    weather readings, then forward-fill every column. Numeric cells arrive
    already parsed; a cell that failed to parse is None. */
module Cleaning {
  import opened Wrappers
  import opened Frame
  import opened ForwardFill

  /** The optional weather columns T2M, T2M_MAX, T2M_MIN, PRECTOTCORR and
      ALLSKY_SFC_SW_DWN. */
  datatype Weather = T2M | T2MMax | T2MMin | Prectotcorr | AllskySfcSwDwn

  /** The order in which the cleaning loop visits the weather columns. */
  const WeatherColumns: seq<Weather> := [T2M, T2MMax, T2MMin, Prectotcorr, AllskySfcSwDwn]

  /** One daily row: `Date` as a day number, `Price_NY`, `Mid.Rate`, and the
      weather columns the table has. */
  datatype Row = Row(date: int, price: Option<real>, rate: Option<real>, weather: map<Weather, Option<real>>)

  /** The daily table: which weather columns it has, and its rows. */
  datatype Table = Table(cols: set<Weather>, rows: seq<Row>)

  /** Every row carries exactly the table's weather columns. */
  predicate WellFormed(t: Table) {
    forall r :: r in t.rows ==> r.weather.Keys == t.cols
  }

  function DateOf(r: Row): int { r.date }

  const PriceCeiling: real := 10000.0
  const RateCeiling: real := 1000.0

  /** A cell that passes the range check: missing, or in (0, ceiling]. */
  predicate InRange(v: Option<real>, ceiling: real) {
    v.Some? ==> 0.0 < v.value <= ceiling
  }

  /** A weather cell that passes its check: missing, or not negative. */
  predicate NotNegative(v: Option<real>) {
    v.Some? ==> v.value >= 0.0
  }

  /** `df.loc[(col <= 0) | (col > ceiling), col] = np.nan` on one cell. */
  function WithinCeiling(v: Option<real>, ceiling: real): (r: Option<real>)
    ensures InRange(r, ceiling)
    ensures InRange(v, ceiling) ==> r == v
    ensures !InRange(v, ceiling) ==> r == None
  {
    if v.Some? && (v.value <= 0.0 || v.value > ceiling) then None else v
  }

  /** `df.loc[df[col] < 0, col] = np.nan` on one cell. */
  function DropNegative(v: Option<real>): (r: Option<real>)
    ensures NotNegative(r)
    ensures NotNegative(v) ==> r == v
    ensures !NotNegative(v) ==> r == None
  {
    if v.Some? && v.value < 0.0 then None else v
  }

  /** Lines 14-18: the price and rate range checks on every row. */
  function ClipPriceAndRate(rows: seq<Row>): (r: seq<Row>)
    ensures |r| == |rows|
    ensures forall i :: 0 <= i < |r| ==>
      r[i].date == rows[i].date && r[i].weather == rows[i].weather &&
      r[i].price == WithinCeiling(rows[i].price, PriceCeiling) &&
      r[i].rate == WithinCeiling(rows[i].rate, RateCeiling)
  {
    seq(|rows|, i requires 0 <= i < |rows| =>
      rows[i].(price := WithinCeiling(rows[i].price, PriceCeiling),
               rate := WithinCeiling(rows[i].rate, RateCeiling)))
  }

  /** The loop's column list names every weather column. */
  lemma AllColumnsVisited()
    ensures forall c: Weather :: c in WeatherColumns
  {
    forall c: Weather ensures c in WeatherColumns {
      match c
      case T2M =>
      case T2MMax =>
      case T2MMin =>
      case Prectotcorr =>
      case AllskySfcSwDwn =>
    }
  }

  /** A row with the negative-value check applied to the columns in done. */
  function ClipRow(row: Row, done: seq<Weather>): Row {
    row.(weather := map c | c in row.weather :: if c in done then DropNegative(row.weather[c]) else row.weather[c])
  }

  /** Lines 20-23 as a whole: every present weather column checked, absent ones not created. */
  function ClipWeather(t: Table): (r: Table)
    requires WellFormed(t)
    ensures WellFormed(r) && r.cols == t.cols && |r.rows| == |t.rows|
    ensures forall i :: 0 <= i < |r.rows| ==>
      r.rows[i].date == t.rows[i].date && r.rows[i].price == t.rows[i].price && r.rows[i].rate == t.rows[i].rate
    ensures forall i, c :: 0 <= i < |r.rows| && c in t.cols ==>
      r.rows[i].weather[c] == DropNegative(t.rows[i].weather[c])
  {
    var rows := seq(|t.rows|, i requires 0 <= i < |t.rows| => ClipRow(t.rows[i], WeatherColumns));
    AllColumnsVisited();
    assert forall r :: r in rows ==> exists i :: 0 <= i < |t.rows| && r == ClipRow(t.rows[i], WeatherColumns);
    Table(t.cols, rows)
  }

  /** Lines 20-23 as the source runs them: a loop over the five weather
      column names that cleans each one the table has. */
  method CleanWeather(t: Table) returns (r: Table)
    requires WellFormed(t)
    ensures r == ClipWeather(t)
  {
    var rows := t.rows;
    for k := 0 to |WeatherColumns|
      invariant |rows| == |t.rows|
      invariant forall i :: 0 <= i < |rows| ==> rows[i] == ClipRow(t.rows[i], WeatherColumns[..k])
    {
      var col := WeatherColumns[k];
      assert WeatherColumns[..k + 1] == WeatherColumns[..k] + [col];
      if col in t.cols {
        rows := seq(|rows|, i requires 0 <= i < |rows| && col in rows[i].weather =>
          rows[i].(weather := rows[i].weather[col := DropNegative(rows[i].weather[col])]));
      }
    }
    assert WeatherColumns[..|WeatherColumns|] == WeatherColumns;
    r := Table(t.cols, rows);
  }

  function Prices(rows: seq<Row>): (col: seq<Option<real>>)
    ensures |col| == |rows| && forall i :: 0 <= i < |rows| ==> col[i] == rows[i].price
  {
    seq(|rows|, i requires 0 <= i < |rows| => rows[i].price)
  }

  function Rates(rows: seq<Row>): (col: seq<Option<real>>)
    ensures |col| == |rows| && forall i :: 0 <= i < |rows| ==> col[i] == rows[i].rate
  {
    seq(|rows|, i requires 0 <= i < |rows| => rows[i].rate)
  }

  function WeatherValues(rows: seq<Row>, c: Weather): (col: seq<Option<real>>)
    requires forall r :: r in rows ==> c in r.weather
    ensures |col| == |rows| && forall i :: 0 <= i < |rows| ==> col[i] == rows[i].weather[c]
  {
    seq(|rows|, i requires 0 <= i < |rows| => rows[i].weather[c])
  }

  /** Cell i of weather column c after the fill. */
  function FilledCell(t: Table, c: Weather, i: int): Option<real>
    requires WellFormed(t) && c in t.cols && 0 <= i < |t.rows|
  {
    FFill(WeatherValues(t.rows, c))[i]
  }

  /** The weather readings of row i after the fill. */
  function FilledReadings(t: Table, i: int): (m: map<Weather, Option<real>>)
    requires WellFormed(t) && 0 <= i < |t.rows|
    ensures m.Keys == t.cols
    ensures forall c :: c in t.cols ==> m[c] == FilledCell(t, c, i)
  {
    map c | c in t.cols :: FilledCell(t, c, i)
  }

  /** Row i of the forward-filled table. */
  function FilledRow(t: Table, i: int): Row
    requires WellFormed(t) && 0 <= i < |t.rows|
  {
    Row(t.rows[i].date, FFill(Prices(t.rows))[i], FFill(Rates(t.rows))[i], FilledReadings(t, i))
  }

  function FilledRows(t: Table): (rows: seq<Row>)
    requires WellFormed(t)
    ensures |rows| == |t.rows| && forall i :: 0 <= i < |rows| ==> rows[i] == FilledRow(t, i)
  {
    seq(|t.rows|, i requires 0 <= i < |t.rows| => FilledRow(t, i))
  }

  lemma FilledWellFormed(t: Table)
    requires WellFormed(t)
    ensures WellFormed(Table(t.cols, FilledRows(t)))
  {
    var rows := FilledRows(t);
    forall x | x in rows ensures x.weather.Keys == t.cols {
      var i :| 0 <= i < |rows| && rows[i] == x;
    }
  }

  lemma FilledPrices(t: Table)
    requires WellFormed(t)
    ensures Prices(FilledRows(t)) == FFill(Prices(t.rows))
  {
    var rows := FilledRows(t);
    assert forall i :: 0 <= i < |rows| ==> Prices(rows)[i] == FilledRow(t, i).price;
  }

  lemma FilledRates(t: Table)
    requires WellFormed(t)
    ensures Rates(FilledRows(t)) == FFill(Rates(t.rows))
  {
    var rows := FilledRows(t);
    assert forall i :: 0 <= i < |rows| ==> Rates(rows)[i] == FilledRow(t, i).rate;
  }

  lemma FilledWeather(t: Table, c: Weather)
    requires WellFormed(t) && c in t.cols
    ensures forall x :: x in FilledRows(t) ==> c in x.weather
    ensures WeatherValues(FilledRows(t), c) == FFill(WeatherValues(t.rows, c))
  {
    FilledWellFormed(t);
    var rows := FilledRows(t);
    assert forall i :: 0 <= i < |rows| ==> WeatherValues(rows, c)[i] == FilledCell(t, c, i);
  }

  /** Line 25, `df.fillna(method="ffill")`: every column forward-filled on its own. */
  function FillTable(t: Table): (r: Table)
    requires WellFormed(t)
    ensures WellFormed(r) && r.cols == t.cols && |r.rows| == |t.rows|
    ensures forall i :: 0 <= i < |r.rows| ==> r.rows[i].date == t.rows[i].date
    ensures Prices(r.rows) == FFill(Prices(t.rows))
    ensures Rates(r.rows) == FFill(Rates(t.rows))
    ensures forall c :: c in t.cols ==> WeatherValues(r.rows, c) == FFill(WeatherValues(t.rows, c))
  {
    FilledWellFormed(t);
    FilledPrices(t);
    FilledRates(t);
    forall c | c in t.cols ensures WeatherValues(FilledRows(t), c) == FFill(WeatherValues(t.rows, c)) {
      FilledWeather(t, c);
    }
    Table(t.cols, FilledRows(t))
  }

  /** Row i of two well-formed tables with the same columns is the same when
      its date and every one of its cells agree. */
  lemma RowDeterminedByColumns(x: Table, y: Table, i: int)
    requires WellFormed(x) && WellFormed(y) && x.cols == y.cols && |x.rows| == |y.rows| && 0 <= i < |x.rows|
    requires x.rows[i].date == y.rows[i].date
    requires Prices(x.rows)[i] == Prices(y.rows)[i] && Rates(x.rows)[i] == Rates(y.rows)[i]
    requires forall c :: c in x.cols ==> WeatherValues(x.rows, c)[i] == WeatherValues(y.rows, c)[i]
    ensures x.rows[i] == y.rows[i]
  {
    var a, b := x.rows[i], y.rows[i];
    assert a in x.rows && b in y.rows;
    forall c | c in x.cols ensures a.weather[c] == b.weather[c] {
      assert a.weather[c] == WeatherValues(x.rows, c)[i];
    }
    assert a.weather == b.weather;
  }

  /** Two well-formed tables with the same dates and the same columns are the same table. */
  lemma ColumnsDetermineRows(x: Table, y: Table)
    requires WellFormed(x) && WellFormed(y) && x.cols == y.cols && |x.rows| == |y.rows|
    requires forall i :: 0 <= i < |x.rows| ==> x.rows[i].date == y.rows[i].date
    requires Prices(x.rows) == Prices(y.rows) && Rates(x.rows) == Rates(y.rows)
    requires forall c :: c in x.cols ==> WeatherValues(x.rows, c) == WeatherValues(y.rows, c)
    ensures x == y
  {
    forall i | 0 <= i < |x.rows|
      ensures x.rows[i] == y.rows[i]
    {
      RowDeterminedByColumns(x, y, i);
    }
  }

  /** Forward-filling a filled table changes nothing. */
  lemma FillTableIdempotent(t: Table)
    requires WellFormed(t)
    ensures FillTable(FillTable(t)) == FillTable(t)
  {
    var a := FillTable(t);
    var b := FillTable(a);
    FFillIdempotent(Prices(t.rows));
    FFillIdempotent(Rates(t.rows));
    forall c | c in a.cols ensures WeatherValues(b.rows, c) == WeatherValues(a.rows, c) {
      FFillIdempotent(WeatherValues(t.rows, c));
    }
    ColumnsDetermineRows(b, a);
  }

  /** Every cell of a row passes the checks of lines 15, 18 and 23. */
  predicate RowChecked(r: Row, cols: set<Weather>) {
    InRange(r.price, PriceCeiling) && InRange(r.rate, RateCeiling) &&
    forall c :: c in cols && c in r.weather ==> NotNegative(r.weather[c])
  }

  /** Lines 8-10: sort by date, then drop duplicate rows. */
  function SortedUnique(rows: seq<Row>): (r: seq<Row>)
    ensures SortedBy(r, DateOf)
    ensures forall x :: x in r <==> x in rows
    ensures forall i, j :: 0 <= i < j < |r| ==> r[i] != r[j]
  {
    var sorted := SortBy(rows, DateOf);
    DedupKeepsOrder(sorted, DateOf);
    assert forall x :: x in sorted <==> x in multiset(rows);
    Dedup(sorted)
  }

  /** Lines 14-23: the range checks, applied to the sorted, de-duplicated rows. */
  function Checked(t: Table): (r: Table)
    requires WellFormed(t)
    ensures WellFormed(r) && r.cols == t.cols && |r.rows| == |SortedUnique(t.rows)|
    ensures forall i :: 0 <= i < |r.rows| ==> r.rows[i].date == SortedUnique(t.rows)[i].date
    ensures forall x :: x in r.rows ==> RowChecked(x, t.cols)
  {
    var unique := SortedUnique(t.rows);
    var priced := ClipPriceAndRate(unique);
    assert forall i :: 0 <= i < |priced| ==> unique[i] in unique;
    var r := ClipWeather(Table(t.cols, priced));
    assert forall x :: x in r.rows ==> exists i :: 0 <= i < |r.rows| && r.rows[i] == x;
    r
  }

  /** The forward-fill only copies prices and rates that passed the checks. */
  lemma FillKeepsRanges(t: Table, i: int)
    requires WellFormed(t) && 0 <= i < |t.rows|
    requires forall x :: x in t.rows ==> RowChecked(x, t.cols)
    ensures InRange(FillTable(t).rows[i].price, PriceCeiling)
    ensures InRange(FillTable(t).rows[i].rate, RateCeiling)
  {
    var filled := FillTable(t);
    assert forall k :: 0 <= k < |t.rows| ==> t.rows[k] in t.rows;
    FFillKeepsBound(Prices(t.rows), (x: real) => 0.0 < x <= PriceCeiling);
    FFillKeepsBound(Rates(t.rows), (x: real) => 0.0 < x <= RateCeiling);
    assert filled.rows[i].price == Prices(filled.rows)[i];
    assert filled.rows[i].rate == Rates(filled.rows)[i];
  }

  /** A checked table has no negative reading in any of its weather columns. */
  lemma CheckedColumn(t: Table, c: Weather)
    requires WellFormed(t) && c in t.cols
    requires forall x :: x in t.rows ==> RowChecked(x, t.cols)
    ensures forall k :: 0 <= k < |t.rows| && WeatherValues(t.rows, c)[k].Some? ==> WeatherValues(t.rows, c)[k].value >= 0.0
  {
    forall k | 0 <= k < |t.rows| ensures NotNegative(WeatherValues(t.rows, c)[k]) {
      assert t.rows[k] in t.rows;
    }
  }

  /** The forward-fill only copies weather readings that passed the check. */
  lemma FillKeepsNotNegative(t: Table, i: int, c: Weather)
    requires WellFormed(t) && 0 <= i < |t.rows| && c in t.cols
    requires forall x :: x in t.rows ==> RowChecked(x, t.cols)
    ensures NotNegative(FillTable(t).rows[i].weather[c])
  {
    CheckedColumn(t, c);
    FFillKeepsBound(WeatherValues(t.rows, c), (x: real) => x >= 0.0);
    var filled := FillTable(t);
    assert filled.rows[i] in filled.rows;
    assert filled.rows[i].weather[c] == WeatherValues(filled.rows, c)[i];
  }

  /** Each filled row passes every check. */
  lemma FillRowChecked(t: Table, i: int)
    requires WellFormed(t) && 0 <= i < |t.rows|
    requires forall x :: x in t.rows ==> RowChecked(x, t.cols)
    ensures RowChecked(FillTable(t).rows[i], t.cols)
  {
    FillKeepsRanges(t, i);
    forall c | c in t.cols ensures NotNegative(FillTable(t).rows[i].weather[c]) {
      FillKeepsNotNegative(t, i, c);
    }
  }

  lemma EveryRowChecked(rows: seq<Row>, cols: set<Weather>)
    requires forall i :: 0 <= i < |rows| ==> RowChecked(rows[i], cols)
    ensures forall x :: x in rows ==> RowChecked(x, cols)
  {
    forall x | x in rows ensures RowChecked(x, cols) {
      var i :| 0 <= i < |rows| && rows[i] == x;
    }
  }

  /** The forward-fill keeps every row checked. */
  lemma FillKeepsChecked(t: Table)
    requires WellFormed(t)
    requires forall x :: x in t.rows ==> RowChecked(x, t.cols)
    ensures forall x :: x in FillTable(t).rows ==> RowChecked(x, t.cols)
  {
    var rows := FillTable(t).rows;
    forall i | 0 <= i < |rows| ensures RowChecked(rows[i], t.cols) {
      FillRowChecked(t, i);
    }
    EveryRowChecked(rows, t.cols);
  }

  /** Lines 8-25: sort by date, drop duplicate rows, apply the range checks,
      forward-fill. */
  function Clean(t: Table): (r: Table)
    requires WellFormed(t)
    ensures WellFormed(r) && r.cols == t.cols && |r.rows| <= |t.rows|
  {
    FillTable(Checked(t))
  }

  /** After cleaning, every price is missing or in (0, 10000], every rate is
      missing or in (0, 1000], and every weather reading is missing or not
      negative. */
  lemma CleanRowsChecked(t: Table)
    requires WellFormed(t)
    ensures forall x :: x in Clean(t).rows ==> RowChecked(x, t.cols)
  {
    FillKeepsChecked(Checked(t));
  }

  /** Cleaning keeps the rows in ascending date order. */
  lemma CleanSortedByDate(t: Table)
    requires WellFormed(t)
    ensures SortedBy(Clean(t).rows, DateOf)
  {
    var unique := SortedUnique(t.rows);
    assert forall i :: 0 <= i < |Clean(t).rows| ==> Clean(t).rows[i].date == unique[i].date;
  }

  /** Cleaning changes no date of the sorted, de-duplicated rows. */
  lemma CleanDates(t: Table)
    requires WellFormed(t)
    ensures |Clean(t).rows| == |SortedUnique(t.rows)|
    ensures forall i :: 0 <= i < |Clean(t).rows| ==> Clean(t).rows[i].date == SortedUnique(t.rows)[i].date
  {
  }

  /** Every date of the input survives cleaning. */
  lemma InputDateSurvives(t: Table, i: int)
    requires WellFormed(t) && 0 <= i < |t.rows|
    ensures exists j :: 0 <= j < |Clean(t).rows| && Clean(t).rows[j].date == t.rows[i].date
  {
    var unique := SortedUnique(t.rows);
    CleanDates(t);
    assert t.rows[i] in unique;
    var j :| 0 <= j < |unique| && unique[j] == t.rows[i];
    assert Clean(t).rows[j].date == t.rows[i].date;
  }

  /** Every date after cleaning is a date of the input. */
  lemma CleanDateFromInput(t: Table, j: int)
    requires WellFormed(t) && 0 <= j < |Clean(t).rows|
    ensures exists i :: 0 <= i < |t.rows| && t.rows[i].date == Clean(t).rows[j].date
  {
    var unique := SortedUnique(t.rows);
    CleanDates(t);
    assert unique[j] in unique;
    var i :| 0 <= i < |t.rows| && t.rows[i] == unique[j];
  }

  /** Cleaning keeps every date of the input and adds none. */
  lemma CleanKeepsDates(t: Table, d: int)
    requires WellFormed(t)
    ensures (exists i :: 0 <= i < |Clean(t).rows| && Clean(t).rows[i].date == d)
        <==> (exists i :: 0 <= i < |t.rows| && t.rows[i].date == d)
  {
    if i :| 0 <= i < |t.rows| && t.rows[i].date == d {
      InputDateSurvives(t, i);
    }
    if j :| 0 <= j < |Clean(t).rows| && Clean(t).rows[j].date == d {
      CleanDateFromInput(t, j);
    }
  }
}
