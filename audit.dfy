/** check.py: a read-only quality report on the item index frame: missing values per column,
    repeated rows, Tukey outliers of `combined_index`, and item codes that do not have the
    expected dotted shape. */
module Audit {
  import opened Options
  import opened Seqs
  import opened Text
  import opened Tables
  import opened Sorting
  import opened Stats

  /** `isnull().sum()` for one column. */
  function MissingCount(col: seq<Cell>): (n: nat)
    ensures n <= |col|
    decreases |col|
  {
    if |col| == 0 then 0
    else MissingCount(col[..|col| - 1]) + (if col[|col| - 1].Missing? then 1 else 0)
  }

  /** The count is the number of rows whose cell is absent. */
  lemma {:induction false} MissingCountIsCardinality(col: seq<Cell>)
    ensures MissingCount(col) == |set i | 0 <= i < |col| && col[i].Missing?|
    decreases |col|
  {
    if |col| > 0 {
      var n := |col| - 1;
      var init := col[..n];
      MissingCountIsCardinality(init);
      var before := set i | 0 <= i < n && init[i].Missing?;
      var after := set i | 0 <= i < |col| && col[i].Missing?;
      if col[n].Missing? {
        assert after == before + {n};
      } else {
        assert after == before;
      }
    }
  }

  /** Line 8: one count per column. */
  function MissingCounts(t: Table): (r: seq<nat>)
    requires Rectangular(t)
    ensures |r| == |t.columns|
    ensures forall k :: 0 <= k < |t.columns| ==> r[k] == MissingCount(Column(t.rows, k))
  {
    seq(|t.columns|, k requires 0 <= k < |t.columns| => MissingCount(Column(t.rows, k)))
  }

  /** Lines 12-13: `df[df.duplicated()]`, the rows equal to some earlier row, in order. */
  function DuplicatedRows(rows: seq<Row>): (r: seq<Row>)
    ensures |r| == DuplicateCount(rows)
    ensures forall x :: x in r ==> x in rows
    decreases |rows|
  {
    if |rows| == 0 then []
    else
      var n := |rows| - 1;
      var init := DuplicatedRows(rows[..n]);
      if rows[n] in rows[..n] then init + [rows[n]] else init
  }

  /** Every row is either a first occurrence or a repetition: the count of repeated rows is the
      row count minus the number of distinct rows (keep-first semantics). */
  lemma DuplicatedRowsCount(rows: seq<Row>)
    ensures |DuplicatedRows(rows)| == |rows| - |Dedup(rows)|
    ensures |DuplicatedRows(rows)| == |rows| - |Elements(rows)|
  {
    DuplicateCountIsSurplus(rows);
  }

  /** The outlier fences of lines 20-22: `Q1 - 1.5 * IQR` and `Q3 + 1.5 * IQR`. */
  datatype Fences = Fences(lower: real, upper: real)

  /** The fences of a column, or `None` when it has no value (the quartiles are NaN). The first
      quartile lies below the third, so the lower fence is below the upper one. */
  function TukeyFences(col: seq<Cell>): (r: Option<Fences>)
    ensures r.None? <==> forall i :: 0 <= i < |col| ==> AsReal(col[i]).None?
    ensures r.Some? ==> r.value.lower <= Quantile(col, 0.25).value <= Quantile(col, 0.75).value <= r.value.upper
  {
    match Quantile(col, 0.25)
    case None => None
    case Some(q1) =>
      QuantileMonotone(col, 0.25, 0.75);
      var q3 := Quantile(col, 0.75).value;
      var iqr := q3 - q1;
      Some(Fences(q1 - 1.5 * iqr, q3 + 1.5 * iqr))
  }

  /** Line 23 on one cell: strictly outside the fences. A missing value, or any value when the
      fences are NaN, compares false and is never an outlier. */
  predicate IsOutlier(c: Cell, fences: Option<Fences>): (b: bool)
    ensures b ==> fences.Some? && (c.Int? || c.Real?)
    ensures fences.Some? && AsReal(c).Some? ==>
      (fences.value.lower <= AsReal(c).value <= fences.value.upper ==> !b)
  {
    fences.Some? && AsReal(c).Some? &&
    (AsReal(c).value < fences.value.lower || AsReal(c).value > fences.value.upper)
  }

  /** Line 23: the rows whose `combined_index` (column `c`) is an outlier, in order. */
  function Outliers(rows: seq<Row>, c: nat): (r: seq<Row>)
    requires forall row :: row in rows ==> c < |row|
    ensures |r| <= |rows|
    ensures forall row :: row in r <==> row in rows && IsOutlier(row[c], TukeyFences(Column(rows, c)))
  {
    Filter(rows, OutlierTest(c, TukeyFences(Column(rows, c))))
  }

  /** The boolean mask of line 23, one row at a time. */
  function OutlierTest(c: nat, fences: Option<Fences>): Row -> bool {
    (row: Row) => c < |row| && IsOutlier(row[c], fences)
  }

  /** The number printed on line 24: how many row positions hold an outlier. */
  lemma OutlierCount(rows: seq<Row>, c: nat)
    requires forall i :: 0 <= i < |rows| ==> c < |rows[i]|
    ensures forall row :: row in rows ==> c < |row|
    ensures |Outliers(rows, c)| == |set i | 0 <= i < |rows| && IsOutlier(rows[i][c], TukeyFences(Column(rows, c)))|
  {
    WidthOfMembers(rows, c);
    MaskCount(rows, c, TukeyFences(Column(rows, c)));
  }

  /** Every row of the sequence is one of its positions. */
  lemma WidthOfMembers(rows: seq<Row>, c: nat)
    requires forall i :: 0 <= i < |rows| ==> c < |rows[i]|
    ensures forall row :: row in rows ==> c < |row|
  {
    forall row | row in rows ensures c < |row| {
      var i :| 0 <= i < |rows| && rows[i] == row;
    }
  }

  /** The mask of line 23 selects as many rows as there are outlying positions. */
  lemma MaskCount(rows: seq<Row>, c: nat, fences: Option<Fences>)
    requires forall i :: 0 <= i < |rows| ==> c < |rows[i]|
    ensures |Filter(rows, OutlierTest(c, fences))| == |set i | 0 <= i < |rows| && IsOutlier(rows[i][c], fences)|
  {
    var test := OutlierTest(c, fences);
    FilterCount(rows, test);
    assert Positions(rows, test) == set i | 0 <= i < |rows| && IsOutlier(rows[i][c], fences);
  }

  /** A value on a fence is not an outlier, and neither is a missing value. */
  lemma FencesAreInclusive(fences: Fences)
    requires fences.lower <= fences.upper
    ensures !IsOutlier(Real(fences.lower), Some(fences)) && !IsOutlier(Real(fences.upper), Some(fences))
    ensures !IsOutlier(Missing, Some(fences))
  {
  }

  /** The quartiles of `[10, 12, 11, 13, 200]` are 11 and 13, so the fences are 8 and 16 and
      only 200 is an outlier. */
  lemma OutlierExample(col: seq<Cell>)
    requires col == [Int(10), Int(12), Int(11), Int(13), Int(200)]
    ensures TukeyFences(col) == Some(Fences(8.0, 16.0))
    ensures forall i :: 0 <= i < |col| ==> (IsOutlier(col[i], TukeyFences(col)) <==> i == 4)
  {
    ExampleFences(col);
  }

  /** The fences of the example column. */
  lemma ExampleFences(col: seq<Cell>)
    requires col == [Int(10), Int(12), Int(11), Int(13), Int(200)]
    ensures TukeyFences(col) == Some(Fences(8.0, 16.0))
  {
    var xs := PresentValues(col);
    ExamplePresent(col);
    ExampleSorted(xs);
    ExampleQuartiles(Ascending(xs));
  }

  /** The present values of the example column, as a multiset. */
  lemma ExamplePresent(col: seq<Cell>)
    requires col == [Int(10), Int(12), Int(11), Int(13), Int(200)]
    ensures multiset(PresentValues(col)) == multiset([10.0, 11.0, 12.0, 13.0, 200.0])
    ensures |PresentValues(col)| == 5
  {
    PresentValuesOfNumbers(col);
    var xs := PresentValues(col);
    assert xs == [10.0] + [12.0] + [11.0] + [13.0, 200.0];
    assert [10.0, 11.0, 12.0, 13.0, 200.0] == [10.0] + [11.0] + [12.0] + [13.0, 200.0];
  }

  /** Any arrangement of the example values sorts to the same sequence. */
  lemma ExampleSorted(xs: seq<real>)
    requires multiset(xs) == multiset([10.0, 11.0, 12.0, 13.0, 200.0])
    ensures Ascending(xs) == [10.0, 11.0, 12.0, 13.0, 200.0]
  {
    var s := [10.0, 11.0, 12.0, 13.0, 200.0];
    assert SortedBy(s, RealKey) by {
      forall i, j | 0 <= i < j < |s| ensures RealKey(s[i]) <= RealKey(s[j]) {
      }
    }
    SortedRealsUnique(Ascending(xs), s);
  }

  /** Positions 1 and 3 of the sorted example sequence. */
  lemma ExampleQuartiles(s: seq<real>)
    requires s == [10.0, 11.0, 12.0, 13.0, 200.0]
    ensures SortedQuantile(s, 0.25) == 11.0 && SortedQuantile(s, 0.75) == 13.0
  {
    assert (4.0 * 0.25).Floor == 1;
    assert (4.0 * 0.75).Floor == 3;
  }

  /** The pieces of an item code: five non-empty runs of digits and a final non-empty run of
      word characters. */
  predicate CodePieces(parts: seq<string>) {
    |parts| == 6 &&
    (forall k :: 0 <= k < 5 ==> |parts[k]| > 0 && AllDigits(parts[k])) &&
    |parts[5]| > 0 && AllWordChars(parts[5])
  }

  /** Line 27's test on one string, as a split on `.`. */
  predicate ValidItemCode(s: string) {
    CodePieces(SplitOn(s, '.'))
  }

  /** The regular expression `^\d+\.\d+\.\d+\.\d+\.\d+\.\w+$` read literally: the whole string is
      five digit runs and a word run joined by dots. */
  ghost predicate MatchesCodePattern(s: string) {
    exists parts: seq<string> :: CodePieces(parts) && JoinOn(parts, '.') == s
  }

  /** Neither digits nor word characters include the dot. */
  lemma PiecesHaveNoDot(parts: seq<string>)
    requires CodePieces(parts)
    ensures forall k :: 0 <= k < |parts| ==> '.' !in parts[k]
  {
    forall k | 0 <= k < |parts| ensures '.' !in parts[k] {
      if '.' in parts[k] {
        var j :| 0 <= j < |parts[k]| && parts[k][j] == '.';
      }
    }
  }

  /** The split-based test decides exactly the regular expression. */
  lemma ValidItemCodeIsPattern(s: string)
    ensures ValidItemCode(s) <==> MatchesCodePattern(s)
  {
    if ValidItemCode(s) {
      JoinSplit(s, '.');
    }
    if MatchesCodePattern(s) {
      var parts :| CodePieces(parts) && JoinOn(parts, '.') == s;
      PiecesHaveNoDot(parts);
      SplitJoin(parts, '.');
    }
  }

  /** `1.2.3.4.5.P` has the shape. */
  lemma ValidCodeExample()
    ensures ValidItemCode("1.2.3.4.5.P")
  {
    var parts := ["1", "2", "3", "4", "5", "P"];
    JoinedExample(parts, ["1", "2", "3", "4", "5"], "P");
    assert "1.2.3.4.5." + "P" == "1.2.3.4.5.P";
    ExamplePieces(parts);
    PiecesAreValid(parts);
  }

  /** The pieces of the valid example have the shape. */
  lemma ExamplePieces(parts: seq<string>)
    requires parts == ["1", "2", "3", "4", "5", "P"]
    ensures CodePieces(parts)
  {
  }

  /** Pieces of the right shape, joined by dots, make a valid code. */
  lemma PiecesAreValid(parts: seq<string>)
    requires CodePieces(parts)
    ensures ValidItemCode(JoinOn(parts, '.'))
  {
    PiecesHaveNoDot(parts);
    SplitJoin(parts, '.');
  }

  /** `1.2.3.4.5.6.P` does not: the dot is not a word character, so it splits into seven pieces. */
  lemma InvalidCodeExample()
    ensures !ValidItemCode("1.2.3.4.5.6.P")
  {
    var parts := ["1", "2", "3", "4", "5", "6", "P"];
    assert JoinOn(parts, '.') == "1.2.3.4.5.6.P" by {
      JoinedExample(parts[..6], ["1", "2", "3", "4", "5"], "6");
      assert parts == parts[..6] + ["P"];
      JoinSnoc(parts[..6], "P", '.');
    }
    SplitJoin(parts, '.');
  }

  /** The joined pieces of the examples. */
  lemma JoinedExample(parts: seq<string>, digits: seq<string>, last: string)
    requires digits == ["1", "2", "3", "4", "5"] && parts == digits + [last]
    ensures JoinOn(parts, '.') == "1.2.3.4.5." + last
  {
    assert JoinOn(["1"], '.') == "1";
    JoinSnoc(["1"], "2", '.');
    assert ["1"] + ["2"] == ["1", "2"];
    assert JoinOn(["1", "2"], '.') == "1.2";
    JoinSnoc(["1", "2"], "3", '.');
    assert ["1", "2"] + ["3"] == ["1", "2", "3"];
    assert JoinOn(["1", "2", "3"], '.') == "1.2.3";
    JoinSnoc(["1", "2", "3"], "4", '.');
    assert ["1", "2", "3"] + ["4"] == ["1", "2", "3", "4"];
    assert JoinOn(["1", "2", "3", "4"], '.') == "1.2.3.4";
    JoinSnoc(["1", "2", "3", "4"], "5", '.');
    assert ["1", "2", "3", "4"] + ["5"] == ["1", "2", "3", "4", "5"];
    assert JoinOn(digits, '.') == "1.2.3.4.5";
    JoinSnoc(digits, last, '.');
  }

  /** `str.match(..., na=False)` on one cell: a missing code, or a value that is not a string,
      does not match. */
  predicate CodeMatches(c: Cell) {
    c.Str? && ValidItemCode(c.s)
  }

  /** Line 27: the rows whose item code (column `k`) does not match, in order. */
  function InvalidCodes(rows: seq<Row>, k: nat): (r: seq<Row>)
    requires forall row :: row in rows ==> k < |row|
    ensures |r| <= |rows|
    ensures forall row :: row in r <==> row in rows && !CodeMatches(row[k])
  {
    Filter(rows, CodeTest(k))
  }

  /** The negated mask of line 27, one row at a time. */
  function CodeTest(k: nat): Row -> bool {
    (row: Row) => k < |row| && !CodeMatches(row[k])
  }

  /** The number printed on line 28: how many row positions hold a code that does not match. */
  lemma InvalidCodeCount(rows: seq<Row>, k: nat)
    requires forall i :: 0 <= i < |rows| ==> k < |rows[i]|
    ensures forall row :: row in rows ==> k < |row|
    ensures |InvalidCodes(rows, k)| == |set i | 0 <= i < |rows| && !CodeMatches(rows[i][k])|
  {
    WidthOfMembers(rows, k);
    var test := CodeTest(k);
    FilterCount(rows, test);
    assert Positions(rows, test) == set i | 0 <= i < |rows| && !CodeMatches(rows[i][k]);
  }

  /** What the script prints. */
  datatype Report = Report(missing: seq<nat>, duplicates: nat, outliers: nat, invalidCodes: nat)

  /** The report, or the error the script raises first: a missing `combined_index` (line 16), a
      string in it, whose quantile cannot be taken (line 20), a missing `item_code` (line 27), or
      an `item_code` column without strings, which has no `.str` accessor. */
  function Audit(t: Table): (r: Result<Report>)
    requires Rectangular(t)
    ensures "combined_index" !in t.columns ==> r == Failure(KeyError("combined_index"))
    ensures "combined_index" in t.columns && "item_code" !in t.columns ==> r.Failure?
    ensures r.Success? ==> "combined_index" in t.columns && "item_code" in t.columns
    ensures r.Success? ==> r.value == Summary(t, ColumnIndex(t.columns, "combined_index").value,
                                              ColumnIndex(t.columns, "item_code").value)
  {
    match ColumnIndex(t.columns, "combined_index")
    case None => Failure(KeyError("combined_index"))
    case Some(c) =>
      if HasText(Column(t.rows, c)) then Failure(TypeError("combined_index"))
      else match ColumnIndex(t.columns, "item_code")
        case None => Failure(KeyError("item_code"))
        case Some(k) =>
          if !HasText(Column(t.rows, k)) then Failure(AttributeError("item_code"))
          else Success(Summary(t, c, k))
  }

  /** Lines 8-28 once both columns are found: `combined_index` is column `c`, `item_code` is
      column `k`. */
  function Summary(t: Table, c: nat, k: nat): (r: Report)
    requires Rectangular(t) && c < |t.columns| && k < |t.columns|
    ensures |r.missing| == |t.columns|
    ensures r.duplicates <= |t.rows| && r.outliers <= |t.rows| && r.invalidCodes <= |t.rows|
  {
    DuplicatedRowsCount(t.rows);
    Report(MissingCounts(t), |DuplicatedRows(t.rows)|, |Outliers(t.rows, c)|, |InvalidCodes(t.rows, k)|)
  }

  /** The missing count of a column of the rows, as a set of row positions. */
  lemma MissingInColumn(rows: seq<Row>, k: nat)
    requires forall i :: 0 <= i < |rows| ==> k < |rows[i]|
    ensures MissingCount(Column(rows, k)) == |set i | 0 <= i < |rows| && rows[i][k].Missing?|
  {
    var col := Column(rows, k);
    MissingCountIsCardinality(col);
    assert (set i | 0 <= i < |col| && col[i].Missing?) == (set i | 0 <= i < |rows| && rows[i][k].Missing?);
  }

  /** Each per-column count is the number of rows whose cell in that column is absent. */
  lemma MissingCountsAreCardinalities(t: Table)
    requires Rectangular(t)
    ensures forall k :: 0 <= k < |t.columns| ==>
      MissingCounts(t)[k] == |set i | 0 <= i < |t.rows| && t.rows[i][k].Missing?|
  {
    forall k | 0 <= k < |t.columns|
      ensures MissingCounts(t)[k] == |set i | 0 <= i < |t.rows| && t.rows[i][k].Missing?|
    {
      forall i | 0 <= i < |t.rows| ensures k < |t.rows[i]| {
        assert t.rows[i] in t.rows;
      }
      MissingInColumn(t.rows, k);
    }
  }

  /** The report counts, per column, the absent cells, the rows equal to an earlier row, the
      rows whose `combined_index` lies outside the fences (line 24) and the rows whose item code
      does not match (line 28). */
  lemma SummaryCounts(t: Table, c: nat, k: nat)
    requires Rectangular(t) && c < |t.columns| && k < |t.columns|
    ensures forall i :: 0 <= i < |t.rows| ==> |t.rows[i]| == |t.columns|
    ensures var r := Summary(t, c, k);
      (forall j :: 0 <= j < |t.columns| ==>
        r.missing[j] == |set i | 0 <= i < |t.rows| && t.rows[i][j].Missing?|) &&
      r.duplicates == |t.rows| - |Dedup(t.rows)| &&
      r.outliers == |set i | 0 <= i < |t.rows| && IsOutlier(t.rows[i][c], TukeyFences(Column(t.rows, c)))| &&
      r.invalidCodes == |set i | 0 <= i < |t.rows| && !CodeMatches(t.rows[i][k])|
  {
    RowWidths(t);
    MissingCountsAreCardinalities(t);
    DuplicatedRowsCount(t.rows);
    OutlierCount(t.rows, c);
    InvalidCodeCount(t.rows, k);
  }

  /** Every position of a rectangular frame holds a full row. */
  lemma RowWidths(t: Table)
    requires Rectangular(t)
    ensures forall i :: 0 <= i < |t.rows| ==> |t.rows[i]| == |t.columns|
  {
    forall i | 0 <= i < |t.rows| ensures |t.rows[i]| == |t.columns| {
      assert t.rows[i] in t.rows;
    }
  }

  /** The failures, in the script's order. */
  lemma AuditFailures(t: Table)
    requires Rectangular(t)
    ensures var c, k := ColumnIndex(t.columns, "combined_index"), ColumnIndex(t.columns, "item_code");
      Audit(t).Failure? <==>
        c.None? || HasText(Column(t.rows, c.value)) || k.None? || !HasText(Column(t.rows, k.value))
    ensures "combined_index" !in t.columns ==> Audit(t) == Failure(KeyError("combined_index"))
  {
  }
}
