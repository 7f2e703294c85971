/** cleanup2.py: trim and canonicalise the headers, replace English month names by their
    numbers, make `month` an integer column, then drop the rows with a missing cell and the
    repeated rows. A failure raises before `to_csv`, so nothing is written. */
module Cleanup2 {
  import opened Options
  import opened Seqs
  import opened Text
  import opened Tables
  import opened Headers
  import opened Frames

  /** The keys of the month mapping, in the order of their numbers. */
  const MonthNames: seq<string> := ["January", "February", "March", "April", "May", "June",
    "July", "August", "September", "October", "November", "December"]

  /** The month mapping: a full English month name, spelled exactly, to its number. */
  function MonthNumber(s: string): (r: Option<int>)
    ensures r.Some? ==> 1 <= r.value <= 12 && MonthNames[r.value - 1] == s
  {
    if s == "January" then Some(1)
    else if s == "February" then Some(2)
    else if s == "March" then Some(3)
    else if s == "April" then Some(4)
    else if s == "May" then Some(5)
    else if s == "June" then Some(6)
    else if s == "July" then Some(7)
    else if s == "August" then Some(8)
    else if s == "September" then Some(9)
    else if s == "October" then Some(10)
    else if s == "November" then Some(11)
    else if s == "December" then Some(12)
    else None
  }

  /** Every listed name maps to its own position, counted from 1, and nothing else maps. */
  lemma MonthNumberOfListed(s: string)
    ensures MonthNumber(s).None? <==> s !in MonthNames
    ensures forall k :: 1 <= k <= 12 && MonthNames[k - 1] == s ==> MonthNumber(s) == Some(k)
  {
  }

  /** `Series.replace(month_mapping)` on one cell: only a string equal to a key changes. */
  function ReplaceMonthName(c: Cell): (d: Cell)
    ensures d != c ==> c.Str? && d.Int? && MonthNumber(c.s) == Some(d.i)
    ensures c.Str? && MonthNumber(c.s).Some? ==> d == Int(MonthNumber(c.s).value)
  {
    if c.Str? && MonthNumber(c.s).Some? then Int(MonthNumber(c.s).value) else c
  }

  /** Line 16 on the whole month column. */
  function ReplaceMonthNames(col: seq<Cell>): (r: seq<Cell>)
    ensures |r| == |col| && forall i :: 0 <= i < |col| ==> r[i] == ReplaceMonthName(col[i])
  {
    seq(|col|, i requires 0 <= i < |col| => ReplaceMonthName(col[i]))
  }

  /** The match is exact: case and surrounding spaces matter. */
  lemma NameMatchIsExact()
    ensures ReplaceMonthName(Str("March")) == Int(3)
    ensures ReplaceMonthName(Str("january")) == Str("january")
    ensures ReplaceMonthName(Str(" May")) == Str(" May")
  {
    assert "january" != "January" by { assert "january"[0] != "January"[0]; }
    assert |" May"| == 4;
  }

  /** Numbers pass through the mapping unchanged and are not range-checked: a month 13 is kept. */
  lemma NumbersPassThrough(i: int)
    ensures ReplaceMonthName(Int(i)) == Int(i)
    ensures AsInt(ReplaceMonthName(Int(13))) == Some(13)
  {
  }

  /** The frame the script writes, or the error it raises, as a function of the frame
      `read_csv` produced. */
  function Cleaned(input: Table): (r: Result<Table>)
    requires Rectangular(input)
    ensures "month" !in TrimmedCanonicalHeaders(input.columns) ==> r == Failure(KeyError("month"))
    ensures r.Failure? ==> r.error.column == "month"
    ensures r.Success? ==> r.value.columns == TrimmedCanonicalHeaders(input.columns)
    ensures r.Success? ==> |r.value.rows| <= |input.rows| && Distinct(r.value.rows)
    ensures r.Success? ==> forall row :: row in r.value.rows ==> Complete(row)
  {
    var h := TrimmedCanonicalHeaders(input.columns);
    match ColumnIndex(h, "month")
    case None => Failure(KeyError("month"))
    case Some(m) =>
      match IntColumn(ReplaceMonthNames(Column(input.rows, m)))
      case None => Failure(SchemaError("month"))
      case Some(months) => Success(Table(h, Dedup(Filter(WithColumn(input.rows, m, months), Complete))))
  }

  /** The failures of `Cleaned`, in the script's order: a missing `month` column, then a month
      value that is neither a number nor a listed name (a missing month included). */
  lemma CleanedFailures(input: Table)
    requires Rectangular(input)
    ensures var h := TrimmedCanonicalHeaders(input.columns);
      Cleaned(input).Failure? <==>
        "month" !in h ||
        !IntConvertible(ReplaceMonthNames(Column(input.rows, ColumnIndex(h, "month").value)))
    ensures var h := TrimmedCanonicalHeaders(input.columns);
      "month" !in h ==> Cleaned(input) == Failure(KeyError("month"))
  {
  }

  /** A missing month cannot be converted, so the script fails on it before `dropna` runs. */
  lemma MissingMonthFails(input: Table, i: nat)
    requires Rectangular(input)
    requires var h := TrimmedCanonicalHeaders(input.columns);
      "month" in h && i < |input.rows| && input.rows[i][ColumnIndex(h, "month").value].Missing?
    ensures Cleaned(input) == Failure(SchemaError("month"))
  {
    var h := TrimmedCanonicalHeaders(input.columns);
    var col := ReplaceMonthNames(Column(input.rows, ColumnIndex(h, "month").value));
    assert AsInt(col[i]).None?;
  }

  /** On success: the trimmed canonical headers; every written row is the converted version of
      an input row, has no missing cell, occurs once, and the rows keep the input order. A converted
      complete row is always written. */
  lemma {:induction false} CleanedRows(input: Table)
    requires Rectangular(input) && Cleaned(input).Success?
    ensures var out, h := Cleaned(input).value, TrimmedCanonicalHeaders(input.columns);
      var m := ColumnIndex(h, "month").value;
      var converted := WithColumn(input.rows, m, IntColumn(ReplaceMonthNames(Column(input.rows, m))).value);
      out.columns == h && Rectangular(out) && Distinct(out.rows) &&
      SubsequenceOf(out.rows, Filter(converted, Complete)) &&
      (forall r :: r in out.rows <==> r in converted && Complete(r))
  {
    var h := TrimmedCanonicalHeaders(input.columns);
    var m := ColumnIndex(h, "month").value;
    var months := IntColumn(ReplaceMonthNames(Column(input.rows, m))).value;
    var converted := WithColumn(input.rows, m, months);
    WithColumnWidth(input.rows, m, months, |h|);
    FilterKeepsWidth(converted, Complete, |h|);
  }

  /** Dropping rows keeps every surviving row's integer cell at `m`. */
  lemma KeptRowsHaveIntAt(converted: seq<Row>, m: nat)
    requires forall i :: 0 <= i < |converted| ==> m < |converted[i]| && converted[i][m].Int?
    ensures forall r: Row :: r in Dedup(Filter(converted, Complete)) ==> m < |r| && r[m].Int?
  {
    forall r: Row | r in Dedup(Filter(converted, Complete)) ensures m < |r| && r[m].Int? {
      var i :| 0 <= i < |converted| && converted[i] == r;
    }
  }

  /** Every written month is an integer. */
  lemma CleanedMonthsAreIntegers(input: Table)
    requires Rectangular(input) && Cleaned(input).Success?
    ensures var out := Cleaned(input).value;
      var m := ColumnIndex(out.columns, "month").value;
      "month" in out.columns && forall r: Row :: r in out.rows ==> m < |r| && r[m].Int?
  {
    var h := TrimmedCanonicalHeaders(input.columns);
    var m := ColumnIndex(h, "month").value;
    var months := IntColumn(ReplaceMonthNames(Column(input.rows, m))).value;
    var converted: seq<Row> := WithColumn(input.rows, m, months);
    forall i | 0 <= i < |converted| ensures m < |converted[i]| && converted[i][m].Int? {
      assert input.rows[i] in input.rows;
    }
    KeptRowsHaveIntAt(converted, m);
  }

  /** The script, on the frame `read_csv` produced. */
  method Run(input: Table) returns (out: Result<Table>)
    requires Rectangular(input)
    ensures out == Cleaned(input)
  {
    var df := new DataFrame(input);
    df.SetColumns(TrimmedCanonicalHeaders(df.columns));
    var mi := ColumnIndex(df.columns, "month");
    if mi.None? {
      return Failure(KeyError("month"));
    }
    var m := mi.value;
    var mapped := ReplaceMonthNames(df.ColumnCells(m));
    var months := IntColumn(mapped);
    if months.None? {
      return Failure(SchemaError("month"));
    }
    df.AssignColumn(m, months.value);
    df.DropNa();
    df.DropDuplicates();
    out := Success(df.ToTable());
  }
}
