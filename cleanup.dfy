/** cleanup.py: canonicalise the headers, make `year` an integer column, and make `month` an
    integer column after checking that every value, stringified and stripped, is one of
    "1".."12". Any failure raises before `to_csv`, so nothing is written. */
module Cleanup {
  import opened Options
  import opened Text
  import opened Tables
  import opened Headers
  import opened Frames

  /** The accepted month strings of line 19. */
  const MonthStrings: seq<string> := ["1", "2", "3", "4", "5", "6", "7", "8", "9", "10", "11", "12"]

  /** A month value after `astype(str).str.strip()`. */
  function MonthText(c: Cell): string {
    Strip(CellText(c))
  }

  /** A month text is accepted by line 19: it is the decimal spelling of a number in 1..12. */
  predicate AcceptedMonth(s: string) {
    exists m :: 1 <= m <= 12 && IntToString(m) == s
  }

  /** The list is `[str(i) for i in range(1, 13)]`. */
  lemma MonthStringsAreDecimals()
    ensures |MonthStrings| == 12
    ensures forall j :: 0 <= j < 12 ==> MonthStrings[j] == IntToString(j + 1)
  {
    assert NatToDigits(10) == "10" && NatToDigits(11) == "11" && NatToDigits(12) == "12";
  }

  /** `AcceptedMonth` is membership in the list of line 19. */
  lemma AcceptedMonthIsListed(s: string)
    ensures AcceptedMonth(s) <==> s in MonthStrings
  {
    MonthStringsAreDecimals();
    if s in MonthStrings {
      var j :| 0 <= j < 12 && MonthStrings[j] == s;
      assert IntToString(j + 1) == s;
    }
    if AcceptedMonth(s) {
      var m :| 1 <= m <= 12 && IntToString(m) == s;
      assert MonthStrings[m - 1] == s;
    }
  }

  /** An accepted month string reads back as its own number, which lies in 1..12. */
  lemma MonthStringValue(s: string)
    requires AcceptedMonth(s)
    ensures ParseInt(s).Some? && 1 <= ParseInt(s).value <= 12 && IntToString(ParseInt(s).value) == s
  {
    var m :| 1 <= m <= 12 && IntToString(m) == s;
    ParseIntRoundTrip(m);
  }

  /** Because the match is exact, a zero-padded, a decimal and an out-of-range month are
      rejected, and so is the text of a missing value. */
  lemma RejectedMonthSpellings()
    ensures !AcceptedMonth("01") && !AcceptedMonth("1.0") && !AcceptedMonth("13") && !AcceptedMonth("nan")
  {
    AcceptedMonthIsListed("01");
    AcceptedMonthIsListed("1.0");
    AcceptedMonthIsListed("13");
    AcceptedMonthIsListed("nan");
  }

  /** No accepted month string holds a decimal point. */
  lemma AcceptedMonthHasNoPoint(s: string)
    requires AcceptedMonth(s)
    ensures '.' !in s
  {
    var m :| 1 <= m <= 12 && IntToString(m) == s;
    assert AllDigits(IntToString(m));
  }

  /** Every float month is rejected, 1.0 included: its positional text keeps the decimal
      point after stripping. A month column that `read_csv` typed as float (because one value was absent)
      therefore fails as a whole. */
  lemma FloatMonthRejected(r: real)
    ensures !AcceptedMonth(MonthText(Real(r)))
  {
    var t := FloatText(r);
    var p :| 0 <= p < |t| && t[p] == '.';
    StripKeepsNonSpace(t, p);
    if AcceptedMonth(Strip(t)) {
      AcceptedMonthHasNoPoint(Strip(t));
    }
  }


  /** A missing month is rejected (it reads as "nan"). */
  lemma MissingMonthRejected()
    ensures !AcceptedMonth(MonthText(Missing))
  {
    var t := "nan";
    assert !IsSpace(t[0]) && !IsSpace(t[2]);
    assert Strip(t) == t;
    RejectedMonthSpellings();
  }

  /** Surrounding whitespace is stripped before the match. */
  lemma PaddedMonthAccepted()
    ensures AcceptedMonth(MonthText(Str(" 7 ")))
  {
    PaddedSevenStrips();
    SevenAccepted();
  }

  /** The padded month text strips to its digit. */
  lemma PaddedSevenStrips()
    ensures MonthText(Str(" 7 ")) == "7"
  {
    var w := "7";
    PaddedDigitStrips(w);
    assert " 7 " == [' '] + w + [' '];
  }

  /** "7" is the spelling of the number 7. */
  lemma SevenAccepted()
    ensures AcceptedMonth("7")
  {
    assert IntToString(7) == "7";
  }

  /** A digit with one space on each side strips to the digit. */
  lemma PaddedDigitStrips(w: string)
    requires |w| == 1 && IsDigit(w[0])
    ensures Strip([' '] + w + [' ']) == w
  {
    StripPadded(w);
  }

  /** An accepted month cell converts, through its stripped text, to its number. */
  lemma MonthCellConverted(c: Cell)
    requires AcceptedMonth(MonthText(c))
    ensures AsInt(Str(MonthText(c))).Some? && MonthConverted(c, Int(AsInt(Str(MonthText(c))).value))
  {
    MonthStringValue(MonthText(c));
  }

  /** Every month text is one of the accepted strings (line 19). */
  predicate MonthsValid(col: seq<Cell>) {
    forall i :: 0 <= i < |col| ==> AcceptedMonth(MonthText(col[i]))
  }

  /** The frame after line 8: canonical headers over the same rows. */
  function Renamed(t: Table): (r: Table)
    requires Rectangular(t)
    ensures Rectangular(r) && r.rows == t.rows && r.columns == CanonicalHeaders(t.columns)
  {
    Table(CanonicalHeaders(t.columns), t.rows)
  }

  /** The year cell line 13 writes for the input cell `c`. */
  predicate YearConverted(c: Cell, d: Cell) {
    d.Int? && AsInt(c) == Some(d.i)
  }

  /** The month cell line 21 writes for the input cell `c`: an integer in 1..12 whose decimal
      spelling is the stripped text of `c`. */
  predicate MonthConverted(c: Cell, d: Cell) {
    d.Int? && 1 <= d.i <= 12 && IntToString(d.i) == MonthText(c)
  }

  /** A successful run: the canonical headers over the same rows in the same order; the year and
      month cells converted and every other cell unchanged. */
  ghost predicate CleanedFrom(input: Table, output: Table)
    requires Rectangular(input)
  {
    var h := CanonicalHeaders(input.columns);
    "year" in h && "month" in h &&
    var y, m := ColumnIndex(h, "year").value, ColumnIndex(h, "month").value;
    output.columns == h && |output.rows| == |input.rows| && Rectangular(output) &&
    forall i, k :: 0 <= i < |input.rows| && 0 <= k < |h| ==>
      if k == y then YearConverted(input.rows[i][k], output.rows[i][k])
      else if k == m then MonthConverted(input.rows[i][k], output.rows[i][k])
      else output.rows[i][k] == input.rows[i][k]
  }

  /** The cells `astype(str).str.strip()` writes into the month column. */
  function MonthTexts(col: seq<Cell>): (r: seq<Cell>)
    ensures |r| == |col| && forall i :: 0 <= i < |col| ==> r[i] == Str(MonthText(col[i]))
  {
    seq(|col|, i requires 0 <= i < |col| => Str(MonthText(col[i])))
  }

  /** The rows line 21 leaves: year cells converted at `y`, month cells converted at `m`, every
      other cell as read. */
  lemma ConvertedRows(input: Table, y: nat, m: nat, years: seq<Cell>, months: seq<Cell>)
    requires Rectangular(input)
    requires var h := CanonicalHeaders(input.columns);
      ColumnIndex(h, "year") == Some(y) && ColumnIndex(h, "month") == Some(m)
    requires |years| == |input.rows| && |months| == |input.rows|
    requires forall i :: 0 <= i < |input.rows| ==> YearConverted(input.rows[i][y], years[i])
    requires forall i :: 0 <= i < |input.rows| ==> MonthConverted(input.rows[i][m], months[i])
    ensures y < |input.columns| && m < |input.columns|
    ensures RowsOfWidth(WithColumn(input.rows, y, years), |input.columns|)
    ensures var rows := WithColumn(WithColumn(input.rows, y, years), m, months);
      CleanedFrom(input, Table(CanonicalHeaders(input.columns), rows))
  {
    ConvertedCells(input.rows, |input.columns|, y, m, years, months);
  }

  /** The same on the rows alone, for any row width `w`. */
  lemma ConvertedCells(rows: seq<Row>, w: nat, y: nat, m: nat, years: seq<Cell>, months: seq<Cell>)
    requires RowsOfWidth(rows, w) && y < w && m < w && y != m
    requires |years| == |rows| && |months| == |rows|
    requires forall i :: 0 <= i < |rows| ==> YearConverted(rows[i][y], years[i])
    requires forall i :: 0 <= i < |rows| ==> MonthConverted(rows[i][m], months[i])
    ensures RowsOfWidth(WithColumn(rows, y, years), w)
    ensures var out := WithColumn(WithColumn(rows, y, years), m, months);
      |out| == |rows| && RowsOfWidth(out, w) &&
      forall i, k :: 0 <= i < |rows| && 0 <= k < w ==>
        if k == y then YearConverted(rows[i][k], out[i][k])
        else if k == m then MonthConverted(rows[i][k], out[i][k])
        else out[i][k] == rows[i][k]
  {
    var r1 := WithColumn(rows, y, years);
    WithColumnWidth(rows, y, years, w);
    var r2 := WithColumn(r1, m, months);
    WithColumnWidth(r1, m, months, w);
    forall i, k | 0 <= i < |rows| && 0 <= k < w
      ensures if k == y then YearConverted(rows[i][k], r2[i][k])
        else if k == m then MonthConverted(rows[i][k], r2[i][k])
        else r2[i][k] == rows[i][k]
    {
      assert rows[i] in rows;
      assert r2[i] == rows[i][y := years[i]][m := months[i]];
      ConvertedCell(rows[i], y, m, years[i], months[i], k);
    }
  }

  /** One cell of a row whose year and month cells were both replaced. */
  lemma ConvertedCell(row: Row, y: nat, m: nat, year: Cell, month: Cell, k: nat)
    requires y < |row| && m < |row| && y != m && k < |row|
    ensures var out := row[y := year][m := month];
      |out| == |row| && out[k] == if k == y then year else if k == m then month else row[k]
  {
  }

  /** `astype(int)` of the year column, cell by cell. */
  lemma ConvertedYears(input: Table, y: nat, years: seq<Cell>)
    requires Rectangular(input)
    requires ColumnIndex(CanonicalHeaders(input.columns), "year") == Some(y)
    requires IntColumn(NamedColumn(Renamed(input), "year")) == Some(years)
    ensures |years| == |input.rows|
    ensures forall i :: 0 <= i < |input.rows| ==> YearConverted(input.rows[i][y], years[i])
  {
    var yearCol := NamedColumn(Renamed(input), "year");
    forall i | 0 <= i < |input.rows| ensures YearConverted(input.rows[i][y], years[i]) {
      assert yearCol[i] == input.rows[i][y];
    }
  }

  /** `astype(int)` of the stripped texts of an accepted month column, cell by cell. */
  lemma ConvertedMonths(col: seq<Cell>, months: seq<Cell>)
    requires MonthsValid(col)
    requires IntColumn(MonthTexts(col)) == Some(months)
    ensures |months| == |col|
    ensures forall i :: 0 <= i < |col| ==> MonthConverted(col[i], months[i])
  {
    var texts := MonthTexts(col);
    forall i | 0 <= i < |col| ensures MonthConverted(col[i], months[i]) {
      assert months[i] == Int(AsInt(texts[i]).value);
      MonthCellConverted(col[i]);
    }
  }

  /** The stripped texts of an accepted month column all convert under `astype(int)`. */
  lemma AcceptedTextsConvert(col: seq<Cell>)
    requires MonthsValid(col)
    ensures IntConvertible(MonthTexts(col))
  {
    var texts := MonthTexts(col);
    forall i | 0 <= i < |col| ensures AsInt(texts[i]).Some? {
      MonthCellConverted(col[i]);
    }
  }

  /** Line 19's test, on the stripped month column. */
  predicate AllAccepted(texts: seq<Cell>) {
    forall i :: 0 <= i < |texts| ==> texts[i].Str? && AcceptedMonth(texts[i].s)
  }

  lemma AllAcceptedTexts(col: seq<Cell>)
    ensures AllAccepted(MonthTexts(col)) <==> MonthsValid(col)
  {
    var texts := MonthTexts(col);
    if !MonthsValid(col) {
      var i :| 0 <= i < |col| && !AcceptedMonth(MonthText(col[i]));
      assert !AcceptedMonth(texts[i].s);
    }
  }

  /** The script, on the frame `read_csv` produced. The checks run in the script's order and
      each failure is returned before anything is written. */
  method Run(input: Table) returns (out: Result<Table>)
    requires Rectangular(input)
    ensures var t := Renamed(input);
      if "year" !in t.columns then out == Failure(KeyError("year"))
      else if !IntConvertible(NamedColumn(t, "year")) then out == Failure(SchemaError("year"))
      else if "month" !in t.columns then out == Failure(KeyError("month"))
      else if !MonthsValid(NamedColumn(t, "month")) then out == Failure(SchemaError("month"))
      else out.Success? && CleanedFrom(input, out.value)
  {
    ghost var t := Renamed(input);
    var df := new DataFrame(input);
    df.SetColumns(CanonicalHeaders(df.columns));
    assert df.columns == t.columns && df.rows == t.rows;
    var yi := ColumnIndex(df.columns, "year");
    if yi.None? {
      return Failure(KeyError("year"));
    }
    var y := yi.value;
    var yearCol := df.ColumnCells(y);
    assert yearCol == NamedColumn(t, "year");
    var years := IntColumn(yearCol);
    if years.None? {
      return Failure(SchemaError("year"));
    }
    df.AssignColumn(y, years.value);
    out := ConvertMonths(df, input, y, years.value);
  }

  /** Lines 18-21, on the frame whose headers are canonical and whose year column is converted. */
  method ConvertMonths(df: DataFrame, ghost input: Table, y: nat, ghost years: seq<Cell>)
    returns (out: Result<Table>)
    requires Rectangular(input) && df.Valid()
    requires df.columns == CanonicalHeaders(input.columns)
    requires ColumnIndex(df.columns, "year") == Some(y)
    requires IntColumn(NamedColumn(Renamed(input), "year")) == Some(years)
    requires df.rows == WithColumn(input.rows, y, years)
    modifies df
    ensures var t := Renamed(input);
      if "month" !in t.columns then out == Failure(KeyError("month"))
      else if !MonthsValid(NamedColumn(t, "month")) then out == Failure(SchemaError("month"))
      else out.Success? && CleanedFrom(input, out.value)
  {
    ghost var t := Renamed(input);
    ghost var yearRows := df.rows;
    var mi := ColumnIndex(df.columns, "month");
    if mi.None? {
      return Failure(KeyError("month"));
    }
    var m := mi.value;
    assert m != y;
    var monthCol := df.ColumnCells(m);
    assert monthCol == NamedColumn(t, "month") by {
      forall i | 0 <= i < |monthCol| ensures monthCol[i] == input.rows[i][m] {
        assert yearRows[i] == input.rows[i][y := years[i]];
      }
    }
    var texts := MonthTexts(monthCol);
    df.AssignColumn(m, texts);
    AllAcceptedTexts(monthCol);
    if !AllAccepted(texts) {
      return Failure(SchemaError("month"));
    }
    ConvertedYears(input, y, years);
    out := MonthsToInt(df, input, y, years, m, monthCol);
  }

  /** The tables line 21 works on, once every month text is accepted: the month column of the
      frame holds the stripped texts, they all convert, and assigning their conversion over
      them leaves the cleaned table. */
  lemma MonthsToIntCleaned(input: Table, y: nat, years: seq<Cell>, m: nat, monthCol: seq<Cell>)
    requires Rectangular(input)
    requires var h := CanonicalHeaders(input.columns);
      ColumnIndex(h, "year") == Some(y) && ColumnIndex(h, "month") == Some(m)
    requires |years| == |input.rows|
    requires forall i :: 0 <= i < |input.rows| ==> YearConverted(input.rows[i][y], years[i])
    requires |monthCol| == |input.rows| && forall i :: 0 <= i < |input.rows| ==> monthCol[i] == input.rows[i][m]
    requires MonthsValid(monthCol)
    ensures y < |input.columns| && m < |input.columns|
    ensures RowsOfWidth(WithColumn(input.rows, y, years), |input.columns|)
    ensures RowsOfWidth(WithColumn(WithColumn(input.rows, y, years), m, MonthTexts(monthCol)), |input.columns|)
    ensures Column(WithColumn(WithColumn(input.rows, y, years), m, MonthTexts(monthCol)), m) == MonthTexts(monthCol)
    ensures IntColumn(MonthTexts(monthCol)).Some?
    ensures var yearRows, months := WithColumn(input.rows, y, years), IntColumn(MonthTexts(monthCol)).value;
      |months| == |input.rows| &&
      WithColumn(WithColumn(yearRows, m, MonthTexts(monthCol)), m, months) == WithColumn(yearRows, m, months) &&
      CleanedFrom(input, Table(CanonicalHeaders(input.columns), WithColumn(yearRows, m, months)))
  {
    var texts := MonthTexts(monthCol);
    var yearRows := WithColumn(input.rows, y, years);
    WithColumnWidth(input.rows, y, years, |input.columns|);
    WithColumnWidth(yearRows, m, texts, |input.columns|);
    ColumnOfWithColumn(yearRows, m, texts);
    AcceptedTextsConvert(monthCol);
    var months := IntColumn(texts).value;
    WithColumnTwice(yearRows, m, texts, months);
    ConvertedMonths(monthCol, months);
    ConvertedRows(input, y, m, years, months);
  }

  /** Line 21, once every month text is accepted: `astype(int)` on the month column. */
  method MonthsToInt(df: DataFrame, ghost input: Table, ghost y: nat, ghost years: seq<Cell>,
                     m: nat, ghost monthCol: seq<Cell>) returns (out: Result<Table>)
    requires Rectangular(input) && df.Valid() && df.columns == CanonicalHeaders(input.columns)
    requires ColumnIndex(df.columns, "year") == Some(y) && ColumnIndex(df.columns, "month") == Some(m)
    requires |years| == |input.rows|
    requires forall i :: 0 <= i < |input.rows| ==> YearConverted(input.rows[i][y], years[i])
    requires |monthCol| == |input.rows| && forall i :: 0 <= i < |input.rows| ==> monthCol[i] == input.rows[i][m]
    requires MonthsValid(monthCol)
    requires y < |input.columns| && m < |input.columns|
    requires RowsOfWidth(WithColumn(input.rows, y, years), |input.columns|)
    requires df.rows == WithColumn(WithColumn(input.rows, y, years), m, MonthTexts(monthCol))
    modifies df
    ensures out.Success? && CleanedFrom(input, out.value)
  {
    MonthsToIntCleaned(input, y, years, m, monthCol);
    var textCells := df.ColumnCells(m);
    var months := IntColumn(textCells);
    df.AssignColumn(m, months.value);
    out := Success(df.ToTable());
  }
}
