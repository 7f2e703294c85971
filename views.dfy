/** The selection rules of `update_visualization` in model.py for the item, state and comparison
    views, and `toggle_landing_page`: defaults for absent selections, inclusive year filters,
    the seasonal data-sufficiency guards and the percent-change guard. Figures are reduced to
    their kind; labels and HTML are not modelled. */
module Views {
  import opened Options
  import opened Seqs
  import opened Sorting
  import opened Selections

  /** One row of `item_df` or `state_df`: the item description or state, the date's year and
      month, and the plotted index (`combined_index`, or the chosen region column). */
  datatype Point = Point(name: string, year: int, month: int, value: real)

  /** `dict.get(key, default)`. */
  function Get(data: map<string, Value>, key: string, default: Value): (v: Value)
    ensures key in data ==> v == data[key]
    ensures key !in data ==> v == default
  {
    if key in data then data[key] else default
  }

  /** A selection dictionary is truthy when it is present and not empty. */
  predicate Truthy(data: Selection) {
    data.Some? && |data.value| > 0
  }

  /** Which branch of `update_visualization` runs (lines 429-436, 559, 652, 782, 1060). */
  datatype Branch = Placeholder | ItemBranch | StateBranch | CompareBranch | ForecastBranch

  function ActiveBranch(triggered: bool, viewType: string, item: Selection, state: Selection,
                        compare: Selection, forecast: Selection): (b: Branch)
    ensures !triggered ==> b == Placeholder
    ensures b == ItemBranch ==> viewType == "item-view" && Truthy(item)
    ensures b == StateBranch ==> viewType == "state-view" && Truthy(state)
    ensures b == CompareBranch ==> viewType == "compare-view" && Truthy(compare)
    ensures b == ForecastBranch ==> viewType == "forecast-view" && Truthy(forecast)
  {
    if !triggered then Placeholder
    else if viewType == "item-view" && Truthy(item) then ItemBranch
    else if viewType == "state-view" && Truthy(state) then StateBranch
    else if viewType == "compare-view" && Truthy(compare) then CompareBranch
    else if viewType == "forecast-view" && Truthy(forecast) then ForecastBranch
    else Placeholder
  }

  /** A triggered callback with the tab's selection stored always shows that tab; a store that
      was never written (or is empty) shows the placeholder. */
  lemma ActiveBranchShowsStoredView(viewType: string, item: Selection, state: Selection,
                                    compare: Selection, forecast: Selection)
    ensures viewType == "item-view" ==>
      (ActiveBranch(true, viewType, item, state, compare, forecast) == ItemBranch <==> Truthy(item))
    ensures viewType == "state-view" ==>
      (ActiveBranch(true, viewType, item, state, compare, forecast) == StateBranch <==> Truthy(state))
    ensures viewType == "compare-view" ==>
      (ActiveBranch(true, viewType, item, state, compare, forecast) == CompareBranch <==> Truthy(compare))
    ensures viewType == "forecast-view" ==>
      (ActiveBranch(true, viewType, item, state, compare, forecast) == ForecastBranch <==> Truthy(forecast))
    ensures viewType in {"item-view", "state-view", "compare-view", "forecast-view"} &&
            !Truthy(if viewType == "item-view" then item else if viewType == "state-view" then state
                    else if viewType == "compare-view" then compare else forecast) ==>
      ActiveBranch(true, viewType, item, state, compare, forecast) == Placeholder
  {
  }

  /** The item view's settings after `.get` (lines 437-439). */
  datatype ItemSettings = ItemSettings(item: Value, years: Value, vizType: Value)

  function ItemSettingsOf(data: map<string, Value>): (s: ItemSettings)
    ensures "years" !in data ==> s.years == Years(2018, 2023)
    ensures "viz_type" !in data ==> s.vizType == Text("line")
    ensures "item" !in data ==> s.item == Null
    ensures "years" in data ==> s.years == data["years"]
  {
    ItemSettings(Get(data, "item", Null), Get(data, "years", Years(2018, 2023)),
                 Get(data, "viz_type", Text("line")))
  }

  /** Whatever `store_item_selections` wrote is what the item view reads back: the defaults
      never override a stored choice. */
  lemma ItemSelectionsReadBack(data: Selection, item: Value, years: Value, vizType: Value)
    ensures ItemSettingsOf(Merged(data, ItemUpdates(item, years, vizType))) == ItemSettings(item, years, vizType)
  {
  }

  /** The state view's settings (lines 561-564); the default years span the data. */
  datatype StateSettings = StateSettings(state: Value, regionType: Value, years: Value, vizType: Value)

  function StateSettingsOf(data: map<string, Value>, firstYear: int, lastYear: int): (s: StateSettings)
    ensures "region_type" !in data ==> s.regionType == Text("combined")
    ensures "years" !in data ==> s.years == Years(firstYear, lastYear)
    ensures "viz_type" !in data ==> s.vizType == Text("line")
    ensures "state" in data ==> s.state == data["state"]
  {
    StateSettings(Get(data, "state", Null), Get(data, "region_type", Text("combined")),
                  Get(data, "years", Years(firstYear, lastYear)), Get(data, "viz_type", Text("line")))
  }

  /** What `store_state_selections` wrote is what the state view reads back. */
  lemma StateSelectionsReadBack(data: Selection, state: Value, regionType: Value, years: Value,
                                vizType: Value, firstYear: int, lastYear: int)
    ensures StateSettingsOf(Merged(data, StateUpdates(state, regionType, years, vizType)), firstYear, lastYear)
      == StateSettings(state, regionType, years, vizType)
  {
  }

  /** The comparison view's settings (lines 654-659); the default item list is the first item
      in sorted order. */
  datatype CompareSettings = CompareSettings(items: Value, states: Value, regionType: Value,
                                             years: Value, activeTab: Value, vizType: Value)

  function CompareSettingsOf(data: map<string, Value>, firstItem: string): (s: CompareSettings)
    ensures "items" !in data ==> s.items == Texts([firstItem])
    ensures "states" !in data ==> s.states == Texts(["ALL India"])
    ensures "region_type" !in data ==> s.regionType == Text("combined")
    ensures "years" !in data ==> s.years == Years(2018, 2023)
    ensures "active_tab" !in data ==> s.activeTab == Text("compare-items")
    ensures "viz_type" !in data ==> s.vizType == Text("line")
  {
    CompareSettings(Get(data, "items", Texts([firstItem])), Get(data, "states", Texts(["ALL India"])),
                    Get(data, "region_type", Text("combined")), Get(data, "years", Years(2018, 2023)),
                    Get(data, "active_tab", Text("compare-items")), Get(data, "viz_type", Text("line")))
  }

  /** What `store_compare_selections` wrote is what the comparison view reads back. */
  lemma CompareSelectionsReadBack(data: Selection, items: Value, states: Value, regionType: Value,
                                  years: Value, activeTab: Value, vizType: Value, firstItem: string)
    ensures CompareSettingsOf(Merged(data, CompareUpdates(items, states, regionType, years, activeTab, vizType)), firstItem)
      == CompareSettings(items, states, regionType, years, activeTab, vizType)
  {
  }

  /** The bounds of a year selection; any other value cannot be indexed as `years[0]`. */
  function YearBounds(v: Value): (r: Option<(int, int)>)
    ensures r.Some? <==> v.Years?
    ensures v.Years? ==> r.value == (v.lo, v.hi)
  {
    match v
    case Years(lo, hi) => Some((lo, hi))
    case _ => None
  }

  /** `df[name] == selected`: `None` or a non-string matches no row. */
  predicate NameIs(selected: Value, p: Point) {
    selected.Text? && p.name == selected.s
  }

  /** The year test of lines 443-444, inclusive at both ends. */
  predicate YearWithin(p: Point, lo: int, hi: int) {
    lo <= p.year && p.year <= hi
  }

  /** Lines 442-444 (and 567-571, 789-792): the rows of the selected name within the years, in
      table order. */
  function Selected(rows: seq<Point>, selected: Value, lo: int, hi: int): (r: seq<Point>)
    ensures forall p :: p in r <==> p in rows && NameIs(selected, p) && lo <= p.year <= hi
    ensures SubsequenceOf(r, rows)
  {
    Filter(rows, Picks(selected, lo, hi))
  }

  /** The row test of `Selected`, as a function value. */
  function Picks(selected: Value, lo: int, hi: int): Point -> bool {
    (p: Point) => NameIs(selected, p) && YearWithin(p, lo, hi)
  }

  /** Both ends of the range are kept, and an inverted range keeps nothing. */
  lemma SelectedBounds(rows: seq<Point>, selected: Value, lo: int, hi: int, p: Point)
    requires p in rows && NameIs(selected, p)
    ensures (p.year == lo || p.year == hi) && lo <= hi ==> p in Selected(rows, selected, lo, hi)
    ensures hi < lo ==> Selected(rows, selected, lo, hi) == []
  {
    if hi < lo {
      FilterNone(rows, Picks(selected, lo, hi));
    }
  }

  /** How many copies of `p` a selection from `rows` holds when it keeps `p` exactly if `keep`. */
  function Kept(rows: seq<Point>, p: Point, keep: bool): (n: nat)
    ensures n <= multiset(rows)[p] && (n > 0 ==> keep)
  {
    if keep then multiset(rows)[p] else 0
  }

  /** `len(filtered_df)`: the selection keeps every copy of a matching row and no copy of any
      other, so it has as many rows as there are matching positions. */
  lemma SelectedCount(rows: seq<Point>, selected: Value, lo: int, hi: int)
    ensures forall p :: multiset(Selected(rows, selected, lo, hi))[p] == Kept(rows, p, NameIs(selected, p) && YearWithin(p, lo, hi))
    ensures |Selected(rows, selected, lo, hi)| ==
      |set i | 0 <= i < |rows| && NameIs(selected, rows[i]) && YearWithin(rows[i], lo, hi)|
  {
    var test := Picks(selected, lo, hi);
    FilterMultiplicity(rows, test);
    FilterCount(rows, test);
    assert Positions(rows, test) == set i | 0 <= i < |rows| && NameIs(selected, rows[i]) && YearWithin(rows[i], lo, hi);
  }

  /** `df[name].isin(names)` with the year test (lines 662-666, 721-725). */
  function SelectedAmong(rows: seq<Point>, names: seq<string>, lo: int, hi: int): (r: seq<Point>)
    ensures forall p :: p in r <==> p in rows && p.name in names && lo <= p.year <= hi
    ensures SubsequenceOf(r, rows)
  {
    Filter(rows, Among(names, lo, hi))
  }

  /** The row test of `SelectedAmong`, as a function value. */
  function Among(names: seq<string>, lo: int, hi: int): Point -> bool {
    (p: Point) => p.name in names && YearWithin(p, lo, hi)
  }

  /** The `isin` selection keeps every copy of a matching row and no copy of any other. */
  lemma SelectedAmongCount(rows: seq<Point>, names: seq<string>, lo: int, hi: int)
    ensures forall p :: multiset(SelectedAmong(rows, names, lo, hi))[p] == Kept(rows, p, p.name in names && YearWithin(p, lo, hi))
    ensures |SelectedAmong(rows, names, lo, hi)| ==
      |set i | 0 <= i < |rows| && rows[i].name in names && YearWithin(rows[i], lo, hi)|
  {
    var test := Among(names, lo, hi);
    FilterMultiplicity(rows, test);
    FilterCount(rows, test);
    assert Positions(rows, test) == set i | 0 <= i < |rows| && rows[i].name in names && YearWithin(rows[i], lo, hi);
  }

  /** The plotted values of the rows, in order. */
  function Values(rows: seq<Point>): (r: seq<real>)
    ensures |r| == |rows| && forall i :: 0 <= i < |rows| ==> r[i] == rows[i].value
  {
    seq(|rows|, i requires 0 <= i < |rows| => rows[i].value)
  }

  /** Lines 527, 620, 706, 765 and 874: the relative change in percent, or 0 when the start
      value is not positive. */
  function PercentChange(start: real, end: real): (r: real)
    ensures start <= 0.0 ==> r == 0.0
    ensures start > 0.0 ==> r * start == (end - start) * 100.0
    ensures r > 0.0 <==> start > 0.0 && end > start
    ensures r == 0.0 <==> start <= 0.0 || end == start
  {
    if start > 0.0 then
      var r := (end - start) / start * 100.0;
      assert r * start == (end - start) * 100.0;
      assert end > start ==> (end - start) / start > 0.0;
      assert end < start ==> (end - start) / start < 0.0;
      r
    else 0.0
  }

  /** The start, end and change insights of lines 524-527 and 617-620. */
  datatype Change = Change(start: real, end: real, total: real, percent: real)

  /** The first and last values, or 0 for both when the filter kept nothing. */
  function ChangeOf(values: seq<real>): (c: Change)
    ensures |values| == 0 ==> c == Change(0.0, 0.0, 0.0, 0.0)
    ensures |values| > 0 ==> c.start == values[0] && c.end == values[|values| - 1]
    ensures c.total == c.end - c.start && c.percent == PercentChange(c.start, c.end)
  {
    var start := if |values| == 0 then 0.0 else values[0];
    var end := if |values| == 0 then 0.0 else values[|values| - 1];
    Change(start, end, end - start, PercentChange(start, end))
  }

  /** The difference from the national figure (lines 625-637): only for a state other than
      "ALL India" with data; the national end value is 0 when the nation has no rows in range. */
  function NationalDifference(state: Value, values: seq<real>, national: seq<real>): (r: Option<(real, real)>)
    ensures r.Some? <==> |values| > 0 && state != Text("ALL India")
    ensures r.Some? ==> var natEnd := if |national| == 0 then 0.0 else national[|national| - 1];
      r.value == (values[|values| - 1] - natEnd, PercentChange(natEnd, values[|values| - 1]))
  {
    if |values| > 0 && state != Text("ALL India") then
      var natEnd := if |national| == 0 then 0.0 else national[|national| - 1];
      var diff := values[|values| - 1] - natEnd;
      var percent := if natEnd > 0.0 then diff / natEnd * 100.0 else 0.0;
      Some((diff, percent))
    else None
  }

  /** Integers strictly increase from left to right. */
  predicate StrictlyAscending(s: seq<int>) {
    forall i, j :: 0 <= i < j < |s| ==> s[i] < s[j]
  }

  /** The year of every row, in order. */
  function YearsOf(rows: seq<Point>): (r: seq<int>)
    ensures |r| == |rows| && forall i :: 0 <= i < |rows| ==> r[i] == rows[i].year
  {
    seq(|rows|, i requires 0 <= i < |rows| => rows[i].year)
  }

  /** `sorted(df['year'].unique())` (line 497): each year once, ascending. */
  function DistinctYears(rows: seq<Point>): (r: seq<int>)
    ensures forall y :: y in r <==> y in YearsOf(rows)
    ensures StrictlyAscending(r)
  {
    var d := Dedup(YearsOf(rows));
    var s := SortBy(d, IntKey);
    DistinctOfPermutation(d, s);
    assert forall i, j :: 0 <= i < j < |s| ==> IntKey(s[i]) <= IntKey(s[j]) && s[i] != s[j];
    s
  }

  /** The number of rows of a year (line 498-499, `len(year_data)`). */
  function YearCount(rows: seq<Point>, y: int): (n: nat)
    ensures n <= |rows|
    ensures n > 0 <==> y in YearsOf(rows)
  {
    YearRowsPresent(rows, y);
    |Filter(rows, InYear(y))|
  }

  /** The year test of line 498, as a function value. */
  function InYear(y: int): Point -> bool {
    (p: Point) => p.year == y
  }

  /** The count is the number of row positions carrying the year. */
  lemma YearCountPositions(rows: seq<Point>, y: int)
    ensures YearCount(rows, y) == |set i | 0 <= i < |rows| && rows[i].year == y|
  {
    FilterCount(rows, InYear(y));
    assert Positions(rows, InYear(y)) == set i | 0 <= i < |rows| && rows[i].year == y;
  }

  /** A year has rows exactly when some row carries it. */
  lemma YearRowsPresent(rows: seq<Point>, y: int)
    ensures |Filter(rows, InYear(y))| > 0 <==> y in YearsOf(rows)
  {
    var r := Filter(rows, InYear(y));
    if y in YearsOf(rows) {
      var i :| 0 <= i < |rows| && YearsOf(rows)[i] == y;
      assert rows[i] in r;
    }
  }

  /** Filtering keeps a strictly ascending sequence strictly ascending. */
  lemma {:induction false} FilterAscending(s: seq<int>, p: int -> bool)
    requires StrictlyAscending(s)
    ensures StrictlyAscending(Filter(s, p))
    decreases |s|
  {
    if |s| > 0 {
      var n := |s| - 1;
      var init := s[..n];
      var f := Filter(init, p);
      assert StrictlyAscending(init);
      FilterAscending(init, p);
      assert Filter(s, p) == f + (if p(s[n]) then [s[n]] else []) by {
        FilterSnoc(init, s[n], p);
        assert s == init + [s[n]];
      }
      BelowLast(s, f);
      if p(s[n]) {
        AscendingSnoc(f, s[n]);
      }
    }
  }

  /** Whatever is drawn from all but the last element of an ascending sequence lies below it. */
  lemma BelowLast(s: seq<int>, f: seq<int>)
    requires |s| > 0 && StrictlyAscending(s) && forall x :: x in f ==> x in s[..|s| - 1]
    ensures forall x :: x in f ==> x < s[|s| - 1]
  {
    forall x | x in f ensures x < s[|s| - 1] {
      var k :| 0 <= k < |s| - 1 && s[..|s| - 1][k] == x;
      assert s[k] == x;
    }
  }

  /** A value above every element extends a strictly ascending sequence. */
  lemma AscendingSnoc(f: seq<int>, x: int)
    requires StrictlyAscending(f) && forall y :: y in f ==> y < x
    ensures StrictlyAscending(f + [x])
  {
    var g := f + [x];
    forall i, j | 0 <= i < j < |g| ensures g[i] < g[j] {
      if j == |f| {
        assert g[i] in f;
      }
    }
  }

  /** Line 499's test on one year. */
  predicate EnoughForYear(rows: seq<Point>, y: int) {
    YearCount(rows, y) > 6
  }

  /** The test as a function value, shared by the specification and the loop. */
  function Enough(rows: seq<Point>): int -> bool {
    (y: int) => EnoughForYear(rows, y)
  }

  /** The years that get their own trace: those with more than six rows, ascending. */
  function SeasonalYears(rows: seq<Point>): (r: seq<int>)
    ensures forall y :: y in r <==> y in YearsOf(rows) && YearCount(rows, y) > 6
    ensures StrictlyAscending(r)
  {
    FilterAscending(DistinctYears(rows), Enough(rows));
    Filter(DistinctYears(rows), Enough(rows))
  }

  /** The loop of lines 497-507: one trace per sufficiently covered year, in ascending order. */
  method YearTraces(rows: seq<Point>) returns (traced: seq<int>)
    ensures traced == SeasonalYears(rows)
  {
    traced := KeepCovered(DistinctYears(rows), Enough(rows));
  }

  /** The body of that loop over a given list of years and the coverage test. */
  method KeepCovered(years: seq<int>, covered: int -> bool) returns (traced: seq<int>)
    ensures traced == Filter(years, covered)
  {
    traced := [];
    var i := 0;
    while i < |years|
      invariant 0 <= i <= |years|
      invariant traced == Filter(years[..i], covered)
    {
      var year := years[i];
      FilterSnoc(years[..i], year, covered);
      assert years[..i + 1] == years[..i] + [year];
      if covered(year) {
        traced := traced + [year];
      }
      i := i + 1;
    }
    assert years[..i] == years;
  }

  /** The figures the views draw, reduced to their kind. */
  datatype Figure =
    | LineChart | BarChart | Heatmap | MapChart | RadarChart
    | SeasonalPattern(years: seq<int>)      // the monthly average plus one trace per year
    | InsufficientData                      // lines 520-521

  /** The seasonal branch (lines 481-521): more than twelve rows are needed. */
  function SeasonalFigure(rows: seq<Point>): (f: Figure)
    ensures f == InsufficientData <==> |rows| <= 12
    ensures f.SeasonalPattern? ==> f.years == SeasonalYears(rows)
  {
    if |rows| > 12 then SeasonalPattern(SeasonalYears(rows)) else InsufficientData
  }

  /** Exactly twelve rows are not enough, thirteen are; a seasonal figure never traces a year
      with six rows or fewer. */
  lemma SeasonalThresholds(rows: seq<Point>, y: int)
    ensures |rows| == 12 ==> SeasonalFigure(rows) == InsufficientData
    ensures |rows| == 13 ==> SeasonalFigure(rows).SeasonalPattern?
    ensures YearCount(rows, y) <= 6 ==> y !in SeasonalYears(rows)
  {
  }

  /** What a view can fail with before it returns a figure. */
  datatype ViewError =
    | NotAYearRange(key: string)   // `years[0]` on a value that is not a pair: a `TypeError`
    | NotANameList(key: string)    // `isin` or `for` over a value that is not a list
    | NoFigure(vizType: Value)     // no branch assigned `fig`: an `UnboundLocalError`
    | NotAPeriod(key: string)      // a forecast period that is not a non-negative integer
    | EmptyForecast                // no forecast values: `predict` on no samples or `forecast_values[-1]`

  /** A view's figure and insights, or the error that stops it. */
  datatype ViewResult<+T> = Shown(value: T) | Failed(error: ViewError)

  /** The item view's result: its figure and change insights. */
  datatype ItemResult = ItemResult(figure: Figure, change: Change)

  /** The figure of the item view (lines 447-521). */
  function ItemFigure(vizType: Value, rows: seq<Point>): (f: Option<Figure>)
    ensures f.None? <==> vizType !in {Text("line"), Text("bar"), Text("heatmap"), Text("seasonal")}
  {
    if vizType == Text("line") then Some(LineChart)
    else if vizType == Text("bar") then Some(BarChart)
    else if vizType == Text("heatmap") then Some(Heatmap)
    else if vizType == Text("seasonal") then Some(SeasonalFigure(rows))
    else None
  }

  /** The item view (lines 436-556) over `item_df`. */
  function ItemView(itemRows: seq<Point>, data: map<string, Value>): (r: ViewResult<ItemResult>)
    ensures var s := ItemSettingsOf(data);
      YearBounds(s.years).None? ==> r == Failed(NotAYearRange("years"))
    ensures r.Shown? ==> ItemSettingsOf(data).vizType in {Text("line"), Text("bar"), Text("heatmap"), Text("seasonal")}
    ensures r.Shown? ==> var s := ItemSettingsOf(data);
      var b := YearBounds(s.years).value;
      var rows := Selected(itemRows, s.item, b.0, b.1);
      rows != [] ==> r.value.change.start == rows[0].value && r.value.change.end == rows[|rows| - 1].value
  {
    var s := ItemSettingsOf(data);
    match YearBounds(s.years)
    case None => Failed(NotAYearRange("years"))
    case Some(bounds) =>
      var rows := Selected(itemRows, s.item, bounds.0, bounds.1);
      match ItemFigure(s.vizType, rows)
      case None => Failed(NoFigure(s.vizType))
      case Some(f) => Shown(ItemResult(f, ChangeOf(Values(rows))))
  }

  /** With nothing stored but the item, the view shows the 2018-2023 line chart of that item,
      and its change runs from the first to the last such row. */
  lemma ItemViewDefaults(itemRows: seq<Point>, item: string)
    ensures var rows := Selected(itemRows, Text(item), 2018, 2023);
      ItemView(itemRows, map["item" := Text(item)]) == Shown(ItemResult(LineChart, ChangeOf(Values(rows))))
  {
  }

  /** The item view draws exactly when the years are a pair and the type is one of the four;
      it then draws that type's figure of the selected rows, the seasonal one from those rows,
      and reports the change from their first to their last value. */
  lemma ItemViewShown(itemRows: seq<Point>, data: map<string, Value>)
    ensures var s := ItemSettingsOf(data);
      ItemView(itemRows, data).Shown? <==>
        s.years.Years? && s.vizType in {Text("line"), Text("bar"), Text("heatmap"), Text("seasonal")}
    ensures ItemView(itemRows, data).Shown? ==> var s := ItemSettingsOf(data);
      var rows := Selected(itemRows, s.item, s.years.lo, s.years.hi);
      ItemView(itemRows, data).value == ItemResult(ItemFigure(s.vizType, rows).value, ChangeOf(Values(rows)))
    ensures ItemView(itemRows, data).Shown? && ItemSettingsOf(data).vizType == Text("seasonal") ==>
      var s := ItemSettingsOf(data);
      ItemView(itemRows, data).value.figure == SeasonalFigure(Selected(itemRows, s.item, s.years.lo, s.years.hi))
  {
  }

  /** An item with no rows in range reports a start and end of 0 and no change. */
  lemma EmptySelectionReportsZero(itemRows: seq<Point>, data: map<string, Value>)
    requires ItemView(itemRows, data).Shown?
    requires var s := ItemSettingsOf(data);
      Selected(itemRows, s.item, YearBounds(s.years).value.0, YearBounds(s.years).value.1) == []
    ensures ItemView(itemRows, data).value.change == Change(0.0, 0.0, 0.0, 0.0)
  {
  }

  /** The state view's result. */
  datatype StateResult = StateResult(figure: Figure, change: Change, national: Option<(real, real)>)

  /** The state view (lines 559-649) over `state_df`, projected to the chosen region column;
      `firstYear` and `lastYear` are the data's year range. */
  function StateView(stateRows: seq<Point>, data: map<string, Value>, firstYear: int, lastYear: int): (r: ViewResult<StateResult>)
    ensures var s := StateSettingsOf(data, firstYear, lastYear);
      YearBounds(s.years).None? ==> r == Failed(NotAYearRange("years"))
    ensures r.Shown? ==> StateSettingsOf(data, firstYear, lastYear).vizType in {Text("line"), Text("bar"), Text("map")}
    ensures r.Shown? ==> var s := StateSettingsOf(data, firstYear, lastYear);
      var b := YearBounds(s.years).value;
      var rows := Selected(stateRows, s.state, b.0, b.1);
      rows != [] ==> r.value.change.start == rows[0].value && r.value.change.end == rows[|rows| - 1].value
  {
    var s := StateSettingsOf(data, firstYear, lastYear);
    match YearBounds(s.years)
    case None => Failed(NotAYearRange("years"))
    case Some(bounds) =>
      var rows := Selected(stateRows, s.state, bounds.0, bounds.1);
      var figure :=
        if s.vizType == Text("line") then Some(LineChart)
        else if s.vizType == Text("bar") then Some(BarChart)
        else if s.vizType == Text("map") then Some(MapChart)
        else None;
      var national := Selected(stateRows, Text("ALL India"), bounds.0, bounds.1);
      match figure
      case None => Failed(NoFigure(s.vizType))
      case Some(f) =>
        Shown(StateResult(f, ChangeOf(Values(rows)),
                            NationalDifference(s.state, Values(rows), Values(national))))
  }

  /** The national comparison appears exactly for a state other than "ALL India" with rows in
      range, and its percentage uses the same guard as the change. */
  lemma StateViewNational(stateRows: seq<Point>, data: map<string, Value>, firstYear: int, lastYear: int)
    requires StateView(stateRows, data, firstYear, lastYear).Shown?
    ensures var s := StateSettingsOf(data, firstYear, lastYear);
      var b := YearBounds(s.years).value;
      var r := StateView(stateRows, data, firstYear, lastYear).value;
      (r.national.Some? <==> Selected(stateRows, s.state, b.0, b.1) != [] && s.state != Text("ALL India"))
  {
  }

  /** The state view draws exactly when the years are a pair and the type is a line, bar or
      map; it then reports the change of the state's selected rows and their difference from
      the "ALL India" rows of the same years. */
  lemma StateViewShown(stateRows: seq<Point>, data: map<string, Value>, firstYear: int, lastYear: int)
    ensures var s := StateSettingsOf(data, firstYear, lastYear);
      StateView(stateRows, data, firstYear, lastYear).Shown? <==>
        s.years.Years? && s.vizType in {Text("line"), Text("bar"), Text("map")}
    ensures StateView(stateRows, data, firstYear, lastYear).Shown? ==>
      var s := StateSettingsOf(data, firstYear, lastYear);
      var rows := Selected(stateRows, s.state, s.years.lo, s.years.hi);
      var national := Selected(stateRows, Text("ALL India"), s.years.lo, s.years.hi);
      var v := StateView(stateRows, data, firstYear, lastYear).value;
      v.change == ChangeOf(Values(rows)) &&
      v.national == NationalDifference(s.state, Values(rows), Values(national)) &&
      v.figure == (if s.vizType == Text("line") then LineChart
                   else if s.vizType == Text("bar") then BarChart else MapChart)
  {
  }

  /** `filtered_df[filtered_df[name] == name]`: the rows of one name, in order. */
  function RowsNamed(rows: seq<Point>, name: string): (r: seq<Point>)
    ensures forall p :: p in r <==> p in rows && p.name == name
    ensures SubsequenceOf(r, rows)
  {
    Filter(rows, Named(name))
  }

  /** The name test of line 701, as a function value. */
  function Named(name: string): Point -> bool {
    (p: Point) => p.name == name
  }

  /** The rows of one name keep every copy of such a row, and no copy of another. */
  lemma RowsNamedCount(rows: seq<Point>, name: string)
    ensures forall p :: multiset(RowsNamed(rows, name))[p] == Kept(rows, p, p.name == name)
    ensures |RowsNamed(rows, name)| == |set i | 0 <= i < |rows| && rows[i].name == name|
  {
    FilterMultiplicity(rows, Named(name));
    FilterCount(rows, Named(name));
    assert Positions(rows, Named(name)) == set i | 0 <= i < |rows| && rows[i].name == name;
  }

  /** The per-name insights of lines 699-712 and 758-771: a name with rows gets its percent
      change; a name without rows is skipped. */
  function NamedChanges(rows: seq<Point>, names: seq<string>): (r: seq<(string, real)>)
    ensures |r| <= |names|
    ensures forall e :: e in r ==> e.0 in names
    decreases |names|
  {
    if |names| == 0 then []
    else
      var init := NamedChanges(rows, names[..|names| - 1]);
      var name := names[|names| - 1];
      var mine := RowsNamed(rows, name);
      if |mine| == 0 then init
      else init + [(name, PercentChange(mine[0].value, mine[|mine| - 1].value))]
  }

  /** The percent change from the first to the last row of a name that has rows. */
  function NameChange(rows: seq<Point>, name: string): (r: real)
    requires RowsNamed(rows, name) != []
    ensures r == ChangeOf(Values(RowsNamed(rows, name))).percent
  {
    var mine := RowsNamed(rows, name);
    PercentChange(mine[0].value, mine[|mine| - 1].value)
  }

  /** Every insight is the change of a name with rows, and every listed name with rows gets
      one. */
  lemma {:induction false} NamedChangesExact(rows: seq<Point>, names: seq<string>)
    ensures forall e :: e in NamedChanges(rows, names) ==>
      RowsNamed(rows, e.0) != [] && e.1 == NameChange(rows, e.0)
    ensures forall n :: n in names && RowsNamed(rows, n) != [] ==>
      exists e :: e in NamedChanges(rows, names) && e.0 == n
    decreases |names|
  {
    if |names| > 0 {
      var front := names[..|names| - 1];
      NamedChangesExact(rows, front);
      forall n | n in names && RowsNamed(rows, n) != []
        ensures exists e :: e in NamedChanges(rows, names) && e.0 == n
      {
        if n in front {
          var e :| e in NamedChanges(rows, front) && e.0 == n;
          assert e in NamedChanges(rows, names);
        } else {
          assert n == names[|names| - 1];
          var e := (n, NameChange(rows, n));
          assert e in NamedChanges(rows, names);
        }
      }
    }
  }

  /** The insight loop of lines 700-712. */
  method CompareInsights(rows: seq<Point>, names: seq<string>) returns (insights: seq<(string, real)>)
    ensures insights == NamedChanges(rows, names)
  {
    insights := [];
    var i := 0;
    while i < |names|
      invariant 0 <= i <= |names|
      invariant insights == NamedChanges(rows, names[..i])
    {
      var name := names[i];
      assert names[..i + 1][..i] == names[..i];
      var mine := RowsNamed(rows, name);
      if |mine| > 0 {
        var change := PercentChange(mine[0].value, mine[|mine| - 1].value);
        insights := insights + [(name, change)];
      }
      i := i + 1;
    }
    assert names[..i] == names;
  }

  /** The comparison view's result. */
  datatype CompareResult = CompareResult(figure: Figure, insights: seq<(string, real)>)

  /** The list a multi-select produced. */
  function NamesOf(v: Value): (r: Option<seq<string>>)
    ensures r.Some? <==> v.Texts?
  {
    match v
    case Texts(items) => Some(items)
    case _ => None
  }

  /** The comparison view (lines 652-779): items from `item_df` on the "compare-items" tab,
      states from `state_df` otherwise. */
  function CompareView(itemRows: seq<Point>, stateRows: seq<Point>, data: map<string, Value>,
                       firstItem: string): (r: ViewResult<CompareResult>)
    ensures var s := CompareSettingsOf(data, firstItem);
      var names := if s.activeTab == Text("compare-items") then s.items else s.states;
      !names.Texts? ==> r.Failed? && r.error.NotANameList?
    ensures r.Shown? ==> CompareSettingsOf(data, firstItem).vizType in {Text("line"), Text("bar"), Text("radar")}
    ensures r.Shown? ==> |r.value.insights| <= |NamesOf(if CompareSettingsOf(data, firstItem).activeTab == Text("compare-items")
                                                      then CompareSettingsOf(data, firstItem).items
                                                      else CompareSettingsOf(data, firstItem).states).value|
  {
    var s := CompareSettingsOf(data, firstItem);
    var byItems := s.activeTab == Text("compare-items");
    var names := if byItems then NamesOf(s.items) else NamesOf(s.states);
    match names
    case None => Failed(NotANameList(if byItems then "items" else "states"))
    case Some(ns) =>
      match YearBounds(s.years)
      case None => Failed(NotAYearRange("years"))
      case Some(bounds) =>
        var rows := SelectedAmong(if byItems then itemRows else stateRows, ns, bounds.0, bounds.1);
        var figure :=
          if s.vizType == Text("line") then Some(LineChart)
          else if s.vizType == Text("bar") then Some(BarChart)
          else if s.vizType == Text("radar") then Some(RadarChart)
          else None;
        match figure
        case None => Failed(NoFigure(s.vizType))
        case Some(f) => Shown(CompareResult(f, NamedChanges(rows, ns)))
  }

  /** Every insight names a selected item or state, in the order of the selection. */
  lemma CompareInsightsNameSelection(itemRows: seq<Point>, stateRows: seq<Point>,
                                     data: map<string, Value>, firstItem: string)
    requires CompareView(itemRows, stateRows, data, firstItem).Shown?
    ensures var s := CompareSettingsOf(data, firstItem);
      var names := if s.activeTab == Text("compare-items") then s.items else s.states;
      forall e :: e in CompareView(itemRows, stateRows, data, firstItem).value.insights ==> e.0 in names.items
  {
  }

  /** Among the rows of an `isin` selection, the rows of one of the names are exactly that
      name's own selection over the same years. */
  lemma RowsNamedAmong(rows: seq<Point>, names: seq<string>, lo: int, hi: int, name: string)
    requires name in names
    ensures RowsNamed(SelectedAmong(rows, names, lo, hi), name) == Selected(rows, Text(name), lo, hi)
  {
    FilterTwice(rows, Among(names, lo, hi), Named(name), Picks(Text(name), lo, hi));
  }

  /** The comparison view draws exactly when the tab's selection is a list, the years are a
      pair and the type is a line, bar or radar chart. Its insights are then the percent
      changes of the selected names that have rows in those years, each the change the name's
      own selection shows, and no such name is left out. */
  lemma CompareViewShown(itemRows: seq<Point>, stateRows: seq<Point>, data: map<string, Value>,
                         firstItem: string)
    ensures var s := CompareSettingsOf(data, firstItem);
      var names := if s.activeTab == Text("compare-items") then s.items else s.states;
      CompareView(itemRows, stateRows, data, firstItem).Shown? <==>
        names.Texts? && s.years.Years? && s.vizType in {Text("line"), Text("bar"), Text("radar")}
    ensures CompareView(itemRows, stateRows, data, firstItem).Shown? ==>
      var s := CompareSettingsOf(data, firstItem);
      var byItems := s.activeTab == Text("compare-items");
      var names := (if byItems then s.items else s.states).items;
      var source := if byItems then itemRows else stateRows;
      var insights := CompareView(itemRows, stateRows, data, firstItem).value.insights;
      (forall e :: e in insights ==>
         e.0 in names && Selected(source, Text(e.0), s.years.lo, s.years.hi) != [] &&
         e.1 == ChangeOf(Values(Selected(source, Text(e.0), s.years.lo, s.years.hi))).percent) &&
      (forall n :: n in names && Selected(source, Text(n), s.years.lo, s.years.hi) != [] ==>
         exists e :: e in insights && e.0 == n)
  {
    var r := CompareView(itemRows, stateRows, data, firstItem);
    if r.Shown? {
      var s := CompareSettingsOf(data, firstItem);
      var byItems := s.activeTab == Text("compare-items");
      var names := (if byItems then s.items else s.states).items;
      var source := if byItems then itemRows else stateRows;
      var lo, hi := s.years.lo, s.years.hi;
      var rows := SelectedAmong(source, names, lo, hi);
      assert r.value.insights == NamedChanges(rows, names);
      NamedChangesExact(rows, names);
      forall n | n in names
        ensures RowsNamed(rows, n) == Selected(source, Text(n), lo, hi)
      {
        RowsNamedAmong(source, names, lo, hi, n);
      }
    }
  }

  /** `toggle_landing_page` (lines 1177-1180): the overview is hidden after an odd number of
      clicks; `None` and 0 clicks show it. */
  function LandingHidden(nClicks: Option<int>): (hidden: bool)
    ensures hidden <==> nClicks.Some? && nClicks.value % 2 == 1
  {
    match nClicks
    case None => false
    case Some(n) => n != 0 && n % 2 == 1
  }

  /** The style and button label the toggle returns. */
  function LandingPage(nClicks: Option<int>): (r: (string, string))
    ensures LandingHidden(nClicks) ==> r == ("none", "Show Overview Map")
    ensures !LandingHidden(nClicks) ==> r == ("block", "Start Analysis")
  {
    if LandingHidden(nClicks) then ("none", "Show Overview Map") else ("block", "Start Analysis")
  }

  /** Every click flips the page, starting from shown. */
  lemma LandingAlternates(n: nat)
    ensures LandingHidden(Some(n + 1)) <==> !LandingHidden(Some(n))
    ensures !LandingHidden(None) && !LandingHidden(Some(0))
  {
  }
}
