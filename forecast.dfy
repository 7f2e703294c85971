/** The forecast view of `update_visualization` in model.py (lines 782-1058): the history is the
    selected item's rows in date order, indexed 0..n-1; the forecast covers the next `period`
    month starts, indexed n..n+period-1. Linear regression, the rolling mean and exponential
    smoothing are numerical routines outside the model: they enter as function parameters, and
    only the shape of their output is modelled. */
module Forecast {
  import opened Options
  import opened Sorting
  import opened Selections
  import opened Views

  /** A month start, the only kind of date the data has (line 19 builds `year-month-01`). */
  datatype YearMonth = YearMonth(year: int, month: int)

  predicate ValidMonth(d: YearMonth) {
    1 <= d.month <= 12
  }

  /** Months since the start of year 0. */
  function MonthOrdinal(d: YearMonth): int {
    d.year * 12 + (d.month - 1)
  }

  /** Month starts are told apart by their ordinal. */
  lemma OrdinalInjective(d: YearMonth, e: YearMonth)
    requires ValidMonth(d) && ValidMonth(e) && MonthOrdinal(d) == MonthOrdinal(e)
    ensures d == e
  {
  }

  /** One step of `freq='MS'`: the first day of the following month. */
  function NextMonth(d: YearMonth): (e: YearMonth)
    requires ValidMonth(d)
    ensures ValidMonth(e) && MonthOrdinal(e) == MonthOrdinal(d) + 1
  {
    if d.month == 12 then YearMonth(d.year + 1, 1) else YearMonth(d.year, d.month + 1)
  }

  /** `pd.date_range(start=last, periods=p + 1, freq='MS')[1:]` (line 818): since `last` is a
      month start, the range starts at it and the slice drops it. */
  function MonthStartsAfter(last: YearMonth, p: nat): (r: seq<YearMonth>)
    requires ValidMonth(last)
    ensures |r| == p
    ensures forall k :: 0 <= k < p ==> ValidMonth(r[k]) && MonthOrdinal(r[k]) == MonthOrdinal(last) + k + 1
    decreases p
  {
    if p == 0 then []
    else
      var init := MonthStartsAfter(last, p - 1);
      init + [NextMonth(if p == 1 then last else init[p - 2])]
  }

  /** The dates are consecutive month starts, beginning with the one right after `last`. */
  lemma MonthStartsAreConsecutive(last: YearMonth, p: nat)
    requires ValidMonth(last) && p > 0
    ensures MonthStartsAfter(last, p)[0] == NextMonth(last)
    ensures forall k :: 0 <= k < p - 1 ==>
      MonthStartsAfter(last, p)[k + 1] == NextMonth(MonthStartsAfter(last, p)[k])
    ensures forall k :: 0 <= k < p ==> MonthOrdinal(last) < MonthOrdinal(MonthStartsAfter(last, p)[k])
  {
    var r := MonthStartsAfter(last, p);
    OrdinalInjective(r[0], NextMonth(last));
    forall k | 0 <= k < p - 1 ensures r[k + 1] == NextMonth(r[k]) {
      OrdinalInjective(r[k + 1], NextMonth(r[k]));
    }
  }

  /** `range(lo, lo + n)`. */
  function Range(lo: int, n: nat): (r: seq<int>)
    ensures |r| == n && forall k :: 0 <= k < n ==> r[k] == lo + k
  {
    seq(n, k requires 0 <= k < n => lo + k)
  }

  /** The history indices (line 801) and the forecast indices (line 813) continue each other. */
  lemma IndicesContinue(n: nat, p: nat)
    ensures Range(0, n) + Range(n, p) == Range(0, n + p)
  {
  }

  /** The rolling window of line 908, `period // 2`. */
  function Window(period: nat): (w: nat)
    ensures 2 * w <= period < 2 * w + 2
  {
    period / 2
  }

  /** The slider of lines 303-310 offers 3, 6, ..., 24 months: the window is then between 1 and
      12, and the smallest period gives a window of one month. */
  lemma SliderWindows(period: nat)
    requires 3 <= period <= 24 && period % 3 == 0
    ensures 1 <= Window(period) <= 12 && Window(period) < period
    ensures period == 3 ==> Window(period) == 1
  {
  }

  /** `np.tile(v, p)` (lines 912 and 988): a flat continuation. */
  function Flat(v: real, p: nat): (r: seq<real>)
    ensures |r| == p && forall k :: 0 <= k < p ==> r[k] == v
  {
    seq(p, k requires 0 <= k < p => v)
  }

  /** The three forecasting routines, all outside the model: a linear fit of the values against
      their indices, giving the predictor; the last rolling mean over a window; and the last
      exponentially smoothed value. */
  datatype Fitters = Fitters(linear: seq<real> -> int -> real, rollingLast: (seq<real>, nat) -> real,
                             smoothedLast: seq<real> -> real)

  /** The forecast view's settings (lines 784-787). */
  datatype ForecastSettings = ForecastSettings(item: Value, histYears: Value, period: Value, forecastMethod: Value)

  function ForecastSettingsOf(data: map<string, Value>): (s: ForecastSettings)
    ensures "hist_years" !in data ==> s.histYears == Years(2020, 2024)
    ensures "period" !in data ==> s.period == Number(12)
    ensures "method" !in data ==> s.forecastMethod == Text("linear")
    ensures "item" !in data ==> s.item == Null
  {
    ForecastSettings(Get(data, "item", Null), Get(data, "hist_years", Years(2020, 2024)),
                     Get(data, "period", Number(12)), Get(data, "method", Text("linear")))
  }

  /** What `store_forecast_selections` wrote is what the forecast view reads back. */
  lemma ForecastSelectionsReadBack(data: Selection, item: Value, histYears: Value, period: Value,
                                   forecastMethod: Value)
    ensures ForecastSettingsOf(Merged(data, ForecastUpdates(item, histYears, period, forecastMethod)))
      == ForecastSettings(item, histYears, period, forecastMethod)
  {
  }

  /** A period the computation can use. */
  function PeriodOf(v: Value): (r: Option<nat>)
    ensures r.Some? <==> v.Number? && v.n >= 0
    ensures r.Some? ==> r.value == v.n
  {
    if v.Number? && v.n >= 0 then Some(v.n) else None
  }

  /** The month start of a row. */
  function DateOf(p: Point): YearMonth {
    YearMonth(p.year, p.month)
  }

  /** The sort key of `sort_values('date')`. */
  function DateKey(p: Point): real {
    MonthOrdinal(DateOf(p)) as real
  }

  /** What the forecast view shows. */
  datatype ForecastResult =
    | NoData                                           // lines 795-797
    | Forecasted(dates: seq<YearMonth>, historyIndex: seq<int>, futureIndex: seq<int>,
                 values: seq<real>, change: Change)   // `change` runs from the last actual value

  /** The forecast values of one method over the history values `ys`. */
  function ForecastValues(forecastMethod: string, ys: seq<real>, p: nat, fit: Fitters): (r: seq<real>)
    ensures |r| == p
  {
    if forecastMethod == "linear" then
      var predict := fit.linear(ys);
      seq(p, k requires 0 <= k < p => predict(|ys| + k))
    else if forecastMethod == "ma" then Flat(fit.rollingLast(ys, Window(p)), p)
    else Flat(fit.smoothedLast(ys), p)
  }

  /** The selected rows in date order (lines 789-793). */
  function History(itemRows: seq<Point>, item: Value, lo: int, hi: int): (r: seq<Point>)
    ensures |r| == |Selected(itemRows, item, lo, hi)|
    ensures multiset(r) == multiset(Selected(itemRows, item, lo, hi))
    ensures SortedBy(r, DateKey)
  {
    SortBy(Selected(itemRows, item, lo, hi), DateKey)
  }

  /** The forecast of a non-empty history over `p > 0` months (lines 800-818 and their
      counterparts for the other methods). */
  function Extend(rows: seq<Point>, forecastMethod: string, p: nat, fit: Fitters): (f: ForecastResult)
    requires |rows| > 0 && p > 0 && ValidMonth(DateOf(rows[|rows| - 1]))
    ensures f.Forecasted? && |f.dates| == p && |f.values| == p
    ensures f.historyIndex == Range(0, |rows|) && f.futureIndex == Range(|rows|, p)
    ensures f.change.start == rows[|rows| - 1].value && f.change.end == f.values[p - 1]
    ensures f.change.total == f.change.end - f.change.start
    ensures f.change.percent == PercentChange(f.change.start, f.change.end)
  {
    var ys := Values(rows);
    var n := |rows|;
    var values := ForecastValues(forecastMethod, ys, p, fit);
    var last, end := ys[n - 1], values[p - 1];
    Forecasted(MonthStartsAfter(DateOf(rows[n - 1]), p), Range(0, n), Range(n, p), values,
               Change(last, end, end - last, PercentChange(last, end)))
  }

  /** The forecast view (lines 782-1058): the selected item's rows within the history years in
      date order, then the forecast of the chosen method. All months are valid: the dates of
      line 19 could not have been built otherwise. */
  function ForecastView(itemRows: seq<Point>, data: map<string, Value>, fit: Fitters): (r: ViewResult<ForecastResult>)
    requires forall p :: p in itemRows ==> ValidMonth(DateOf(p))
    ensures YearBounds(ForecastSettingsOf(data).histYears).None? ==> r == Failed(NotAYearRange("hist_years"))
    ensures r.Shown? && r.value.Forecasted? ==> var s := ForecastSettingsOf(data);
      s.forecastMethod in {Text("linear"), Text("ma"), Text("exp")} && s.period.Number? &&
      |r.value.dates| == |r.value.values| == |r.value.futureIndex| == s.period.n > 0
  {
    var s := ForecastSettingsOf(data);
    match YearBounds(s.histYears)
    case None => Failed(NotAYearRange("hist_years"))
    case Some(bounds) =>
      var rows := History(itemRows, s.item, bounds.0, bounds.1);
      if |rows| == 0 then Shown(NoData)
      else if s.forecastMethod !in {Text("linear"), Text("ma"), Text("exp")} then
        Failed(NoFigure(s.forecastMethod))
      else match PeriodOf(s.period)
        case None => Failed(NotAPeriod("period"))
        case Some(p) =>
          if p == 0 then Failed(EmptyForecast)
          else
            assert rows[|rows| - 1] in multiset(rows);
            Shown(Extend(rows, s.forecastMethod.s, p, fit))
  }

  /** History years that are not a range are refused first. */
  lemma ForecastYearsRefused(itemRows: seq<Point>, data: map<string, Value>, fit: Fitters)
    requires forall p :: p in itemRows ==> ValidMonth(DateOf(p))
    requires !ForecastSettingsOf(data).histYears.Years?
    ensures ForecastView(itemRows, data, fit) == Failed(NotAYearRange("hist_years"))
  {
  }

  /** An empty history is refused before the method and the period are looked at, whatever the
      forecasting routines are (lines 795-797). */
  lemma EmptyHistoryRefused(itemRows: seq<Point>, data: map<string, Value>, fit: Fitters, other: Fitters)
    requires forall p :: p in itemRows ==> ValidMonth(DateOf(p))
    requires var s := ForecastSettingsOf(data);
      s.histYears.Years? && Selected(itemRows, s.item, s.histYears.lo, s.histYears.hi) == []
    ensures ForecastView(itemRows, data, fit) == Shown(NoData)
    ensures ForecastView(itemRows, data, other) == Shown(NoData)
  {
  }

  /** With rows to forecast from, a method other than the three draws no figure. */
  lemma UnknownMethodRefused(itemRows: seq<Point>, data: map<string, Value>, fit: Fitters)
    requires forall p :: p in itemRows ==> ValidMonth(DateOf(p))
    requires var s := ForecastSettingsOf(data);
      s.histYears.Years? && Selected(itemRows, s.item, s.histYears.lo, s.histYears.hi) != [] &&
      s.forecastMethod !in {Text("linear"), Text("ma"), Text("exp")}
    ensures ForecastView(itemRows, data, fit) == Failed(NoFigure(ForecastSettingsOf(data).forecastMethod))
  {
  }

  /** With rows and a known method, a period that is not a count is refused, and a period of
      zero months leaves nothing to forecast. */
  lemma PeriodRefused(itemRows: seq<Point>, data: map<string, Value>, fit: Fitters)
    requires forall p :: p in itemRows ==> ValidMonth(DateOf(p))
    requires var s := ForecastSettingsOf(data);
      s.histYears.Years? && Selected(itemRows, s.item, s.histYears.lo, s.histYears.hi) != [] &&
      s.forecastMethod in {Text("linear"), Text("ma"), Text("exp")} &&
      !(s.period.Number? && s.period.n > 0)
    ensures var s := ForecastSettingsOf(data);
      ForecastView(itemRows, data, fit) ==
        if s.period == Number(0) then Failed(EmptyForecast) else Failed(NotAPeriod("period"))
  {
  }

  /** With rows in the history years, a known method and a positive period, the view shows the
      chosen method's forecast of the date-ordered history over that many months. */
  lemma ForecastViewShown(itemRows: seq<Point>, data: map<string, Value>, fit: Fitters)
    requires forall p :: p in itemRows ==> ValidMonth(DateOf(p))
    requires var s := ForecastSettingsOf(data);
      s.histYears.Years? && Selected(itemRows, s.item, s.histYears.lo, s.histYears.hi) != [] &&
      s.forecastMethod in {Text("linear"), Text("ma"), Text("exp")} &&
      s.period.Number? && s.period.n > 0
    ensures var s := ForecastSettingsOf(data);
      var rows := History(itemRows, s.item, s.histYears.lo, s.histYears.hi);
      |rows| > 0 && ValidMonth(DateOf(rows[|rows| - 1])) &&
      ForecastView(itemRows, data, fit) == Shown(Extend(rows, s.forecastMethod.s, s.period.n, fit))
  {
    var s := ForecastSettingsOf(data);
    var rows := History(itemRows, s.item, s.histYears.lo, s.histYears.hi);
    assert rows[|rows| - 1] in multiset(rows);
  }

  /** The forecast dates start right after the latest historical month: the history is sorted,
      so its last row is its latest. */
  lemma ForecastFollowsHistory(rows: seq<Point>, forecastMethod: string, p: nat, fit: Fitters)
    requires |rows| > 0 && p > 0 && SortedBy(rows, DateKey)
    requires forall q :: q in rows ==> ValidMonth(DateOf(q))
    ensures var f := Extend(rows, forecastMethod, p, fit);
      f.dates[0] == NextMonth(DateOf(rows[|rows| - 1])) &&
      (forall q :: q in rows ==> MonthOrdinal(DateOf(q)) < MonthOrdinal(f.dates[0]))
  {
    var n := |rows|;
    var last := DateOf(rows[n - 1]);
    MonthStartsAreConsecutive(last, p);
    forall q | q in rows ensures MonthOrdinal(DateOf(q)) <= MonthOrdinal(last) {
      var i :| 0 <= i < n && rows[i] == q;
      if i < n - 1 {
        assert DateKey(rows[i]) <= DateKey(rows[n - 1]);
      }
    }
  }

  /** The history and forecast indices together count 0, 1, ..., n + p - 1. */
  lemma ForecastIndices(rows: seq<Point>, forecastMethod: string, p: nat, fit: Fitters)
    requires |rows| > 0 && p > 0 && ValidMonth(DateOf(rows[|rows| - 1]))
    ensures var f := Extend(rows, forecastMethod, p, fit);
      f.historyIndex + f.futureIndex == Range(0, |rows| + p)
  {
    IndicesContinue(|rows|, p);
  }

  /** The moving-average and smoothing forecasts are flat: every month, the last one included,
      gets the last smoothed value. */
  lemma FlatForecasts(rows: seq<Point>, forecastMethod: string, p: nat, fit: Fitters)
    requires |rows| > 0 && p > 0 && ValidMonth(DateOf(rows[|rows| - 1]))
    requires forecastMethod == "ma" || forecastMethod == "exp"
    ensures var f := Extend(rows, forecastMethod, p, fit);
      var ys := Values(rows);
      var smoothed := if forecastMethod == "ma" then fit.rollingLast(ys, Window(p)) else fit.smoothedLast(ys);
      (forall k :: 0 <= k < p ==> f.values[k] == smoothed) && f.change.end == smoothed
  {
  }

  /** The linear forecast predicts at the indices n, n + 1, ...: it extends the fitted line past
      the history. */
  lemma LinearForecast(rows: seq<Point>, p: nat, fit: Fitters)
    requires |rows| > 0 && p > 0 && ValidMonth(DateOf(rows[|rows| - 1]))
    ensures var f := Extend(rows, "linear", p, fit);
      forall k :: 0 <= k < p ==> f.values[k] == fit.linear(Values(rows))(f.futureIndex[k])
  {
  }

  /** With only the item chosen and data in 2020-2024, the view forecasts 12 months linearly. */
  lemma ForecastDefaults(itemRows: seq<Point>, item: string, fit: Fitters)
    requires forall p :: p in itemRows ==> ValidMonth(DateOf(p))
    requires Selected(itemRows, Text(item), 2020, 2024) != []
    ensures var f := ForecastView(itemRows, map["item" := Text(item)], fit);
      var rows := History(itemRows, Text(item), 2020, 2024);
      |rows| > 0 && f == Shown(Extend(rows, "linear", 12, fit))
  {
    var data := map["item" := Text(item)];
    assert ForecastSettingsOf(data) == ForecastSettings(Text(item), Years(2020, 2024), Number(12), Text("linear"));
    ForecastViewShown(itemRows, data, fit);
  }
}
