/** errorAnalysis.py: drop repeated rows, then fill the gaps of `combined_index`, first by
    carrying the last value down the column and then with the column mean. A failure raises
    before `to_csv`, so nothing is written. */
module ErrorAnalysis {
  import opened Options
  import opened Seqs
  import opened Tables
  import opened Frames
  import opened Stats

  /** The value line 12 fills in: the mean, or NaN (a missing cell) when there is no value. */
  function FillValue(col: seq<Cell>): (v: Cell)
    ensures v.Missing? <==> forall i :: 0 <= i < |col| ==> AsReal(col[i]).None?
    ensures !v.Missing? ==> v == Real(Mean(col).value)
  {
    match Mean(col)
    case None => Missing
    case Some(mu) => Real(mu)
  }

  /** The frame the script writes, or the error it raises, as a function of the frame
      `read_csv` produced: duplicates dropped (line 8), `combined_index` forward filled
      (line 11), then its remaining gaps filled with the mean of the forward-filled column
      (line 12), which raises for a column of strings. */
  function Analysed(input: Table): (r: Result<Table>)
    requires Rectangular(input)
    ensures "combined_index" !in input.columns ==> r == Failure(KeyError("combined_index"))
    ensures r.Failure? ==> r.error.column == "combined_index"
    ensures r.Success? ==> r.value.columns == input.columns && |r.value.rows| == |Dedup(input.rows)|
  {
    var rows := Dedup(input.rows);
    match ColumnIndex(input.columns, "combined_index")
    case None => Failure(KeyError("combined_index"))
    case Some(c) =>
      var filled := ForwardFill(Column(rows, c));
      if HasText(filled) then Failure(TypeError("combined_index"))
      else Success(Table(input.columns, WithColumn(rows, c, FillWith(filled, FillValue(filled)))))
  }

  /** A present cell survives forward filling, and a filled cell is some earlier present one:
      the column holds a string after filling iff it held one before. */
  lemma ForwardFillHasText(col: seq<Cell>)
    ensures HasText(ForwardFill(col)) <==> HasText(col)
  {
    var f := ForwardFill(col);
    if HasText(col) {
      var i :| 0 <= i < |col| && col[i].Str?;
      ForwardFillAt(col, i);
      assert f[i].Str?;
    }
    if HasText(f) {
      var i :| 0 <= i < |f| && f[i].Str?;
      ForwardFillAt(col, i);
      if col[i].Missing? {
        LastPresentIsNearest(col[..i]);
        var k :| 0 <= k < i && col[..i][k] == LastPresent(col[..i]) &&
          forall j :: k < j < i ==> col[..i][j].Missing?;
        assert col[k].Str?;
      }
    }
  }

  /** Dropping duplicates keeps every distinct row, so a column holds a string afterwards iff it
      did before. */
  lemma DedupHasText(rows: seq<Row>, c: nat)
    requires forall r :: r in rows ==> c < |r|
    ensures forall r :: r in Dedup(rows) ==> c < |r|
    ensures HasText(Column(Dedup(rows), c)) <==> HasText(Column(rows, c))
  {
    var d := Dedup(rows);
    if HasText(Column(rows, c)) {
      var i :| 0 <= i < |rows| && rows[i][c].Str?;
      assert rows[i] in d;
      var j :| 0 <= j < |d| && d[j] == rows[i];
      assert Column(d, c)[j].Str?;
    }
    if HasText(Column(d, c)) {
      var j :| 0 <= j < |d| && d[j][c].Str?;
      assert d[j] in rows;
      var i :| 0 <= i < |rows| && rows[i] == d[j];
      assert Column(rows, c)[i].Str?;
    }
  }

  /** The script fails exactly when `combined_index` is absent (`KeyError`) or holds a string,
      whose mean cannot be taken (`TypeError`). */
  lemma AnalysedFailures(input: Table)
    requires Rectangular(input)
    ensures var ci := ColumnIndex(input.columns, "combined_index");
      if ci.None? then Analysed(input) == Failure(KeyError("combined_index"))
      else if HasText(Column(input.rows, ci.value)) then Analysed(input) == Failure(TypeError("combined_index"))
      else Analysed(input).Success?
  {
    var ci := ColumnIndex(input.columns, "combined_index");
    if ci.Some? {
      var c := ci.value;
      DedupHasText(input.rows, c);
      ForwardFillHasText(Column(Dedup(input.rows), c));
    }
  }

  /** Cell `i` of `combined_index` after both fills: a present cell is kept; a missing one takes
      the nearest earlier present cell of the deduplicated column, across item boundaries;
      failing that, the mean of the forward-filled column. */
  lemma {:induction false} AnalysedCell(input: Table, i: nat)
    requires Rectangular(input) && Analysed(input).Success? && i < |Dedup(input.rows)|
    ensures var c, d: seq<Row> := ColumnIndex(input.columns, "combined_index").value, Dedup(input.rows);
      var col := Column(d, c);
      var out := Analysed(input).value;
      |out.rows| == |d| && c < |d[i]| && out.rows[i] == d[i][c := out.rows[i][c]] &&
      out.rows[i][c] == if !col[i].Missing? then col[i]
        else if !LastPresent(col[..i]).Missing? then LastPresent(col[..i])
        else FillValue(ForwardFill(col))
  {
    var c, d: seq<Row> := ColumnIndex(input.columns, "combined_index").value, Dedup(input.rows);
    var col := Column(d, c);
    assert d[i] in input.rows;
    ForwardFillAt(col, i);
  }

  /** Outside the filled gaps nothing changes: the rows are the deduplicated rows, every other
      column as it was and every present `combined_index` cell as it was. */
  lemma NothingElseChanges(input: Table)
    requires Rectangular(input) && Analysed(input).Success?
    ensures AnalysedWidths(input)
    ensures var c, d: seq<Row> := ColumnIndex(input.columns, "combined_index").value, Dedup(input.rows);
      var out := Analysed(input).value;
      out.columns == input.columns && |out.rows| == |d| &&
      forall i, k :: 0 <= i < |d| && 0 <= k < |input.columns| && (k != c || !d[i][c].Missing?) ==>
        out.rows[i][k] == d[i][k]
  {
    var c, d: seq<Row> := ColumnIndex(input.columns, "combined_index").value, Dedup(input.rows);
    var out := Analysed(input).value;
    forall i | 0 <= i < |d| ensures |d[i]| == |input.columns| && |out.rows[i]| == |input.columns| {
      assert d[i] in input.rows;
      AnalysedCell(input, i);
    }
    forall i, k | 0 <= i < |d| && 0 <= k < |input.columns| && (k != c || !d[i][c].Missing?)
      ensures out.rows[i][k] == d[i][k]
    {
      UnfilledCellKept(input, i, k);
    }
  }

  /** Every deduplicated row and every output row holds one cell per column. */
  ghost predicate AnalysedWidths(input: Table)
    requires Rectangular(input) && Analysed(input).Success?
  {
    var d: seq<Row> := Dedup(input.rows);
    forall i :: 0 <= i < |d| ==> |d[i]| == |input.columns| && |Analysed(input).value.rows[i]| == |input.columns|
  }

  /** One cell outside the filled gaps keeps its deduplicated value. */
  lemma UnfilledCellKept(input: Table, i: nat, k: nat)
    requires Rectangular(input) && Analysed(input).Success?
    requires i < |Dedup(input.rows)| && k < |input.columns|
    requires var c, d: seq<Row> := ColumnIndex(input.columns, "combined_index").value, Dedup(input.rows);
      k != c || !d[i][c].Missing?
    ensures var d: seq<Row> := Dedup(input.rows);
      |Analysed(input).value.rows| == |d| && k < |Analysed(input).value.rows[i]| &&
      k < |d[i]| && Analysed(input).value.rows[i][k] == d[i][k]
  {
    var c, d: seq<Row> := ColumnIndex(input.columns, "combined_index").value, Dedup(input.rows);
    AnalysedCell(input, i);
    assert d[i] in input.rows;
    var col := Column(d, c);
    assert k == c ==> !col[i].Missing?;
  }

  /** A column with no present cell stays missing through both fills. */
  lemma AllMissingStays(col: seq<Cell>, i: nat)
    requires i < |col| && forall j :: 0 <= j < |col| ==> col[j].Missing?
    ensures var f := ForwardFill(col);
      FillWith(f, FillValue(f))[i].Missing?
  {
    var f := ForwardFill(col);
    forall j | 0 <= j < |col| ensures f[j].Missing? {
      ForwardFillMissingIsLeadingRun(col, j);
    }
    assert FillValue(f).Missing?;
  }

  /** One present cell in a column without strings gives the column a mean, so no cell stays
      missing after both fills. */
  lemma OnePresentFillsAll(col: seq<Cell>, i: nat, j: nat)
    requires i < |col| && j < |col| && !col[j].Missing? && !HasText(ForwardFill(col))
    ensures var f := ForwardFill(col);
      !FillWith(f, FillValue(f))[i].Missing?
  {
    var f := ForwardFill(col);
    ForwardFillAt(col, j);
    assert AsReal(f[j]).Some?;
    assert !FillValue(f).Missing?;
  }

  /** Both fills on one column without strings: a cell stays missing iff every cell of the
      column was missing. */
  lemma BothFillsAt(col: seq<Cell>, i: nat)
    requires i < |col| && !HasText(ForwardFill(col))
    ensures var f := ForwardFill(col);
      FillWith(f, FillValue(f))[i].Missing? <==> forall j :: 0 <= j < |col| ==> col[j].Missing?
  {
    if forall j :: 0 <= j < |col| ==> col[j].Missing? {
      AllMissingStays(col, i);
    } else {
      var j :| 0 <= j < |col| && !col[j].Missing?;
      OnePresentFillsAll(col, i, j);
    }
  }

  /** After both fills a `combined_index` cell is missing iff the whole deduplicated column was
      missing. */
  lemma FilledUnlessAllMissing(input: Table, i: nat)
    requires Rectangular(input) && Analysed(input).Success?
    requires i < |Dedup(input.rows)|
    ensures var c := ColumnIndex(input.columns, "combined_index").value;
      var col := Column(Dedup(input.rows), c);
      c < |Analysed(input).value.rows[i]| &&
      (Analysed(input).value.rows[i][c].Missing? <==> forall j :: 0 <= j < |col| ==> col[j].Missing?)
  {
    var c := ColumnIndex(input.columns, "combined_index").value;
    var d := Dedup(input.rows);
    assert d[i] in input.rows;
    BothFillsAt(Column(d, c), i);
  }

  /** Forward filling a present cell followed by a gap. */
  lemma FillGapAfter(v: Cell)
    requires !v.Missing?
    ensures ForwardFill([v, Missing]) == [v, v]
  {
    var col := [v, Missing];
    ForwardFillAt(col, 0);
    ForwardFillAt(col, 1);
    assert col[..1] == [v];
  }

  /** Duplicates are dropped before filling, so two rows of one item that differ only by a gap
      the fill closes are both written, and the written frame holds a repeated row. */
  lemma FilledDuplicatesKept(input: Table, item: Cell, v: int)
    requires input.columns == ["item", "combined_index"]
    requires input.rows == [[item, Int(v)], [item, Missing]]
    ensures Analysed(input) == Success(Table(input.columns, [[item, Int(v)], [item, Int(v)]]))
  {
    var rows := input.rows;
    assert Dedup(rows) == rows by {
      assert rows[1] != rows[0];
      DedupOfDistinct(rows);
    }
    CombinedIndexIsSecond(input.columns);
    ExampleColumn(rows, item, v);
    ExampleFills(v);
    ExampleWritten(rows, item, v);
    AnalysedWithoutDuplicates(input, 1);
  }

  /** The `combined_index` column of the example frame. */
  lemma ExampleColumn(rows: seq<Row>, item: Cell, v: int)
    requires rows == [[item, Int(v)], [item, Missing]]
    ensures forall r :: r in rows ==> 1 < |r|
    ensures Column(rows, 1) == [Int(v), Missing]
  {
  }

  /** Both fills on the example column close its gap with the value above it. */
  lemma ExampleFills(v: int)
    ensures var f := ForwardFill([Int(v), Missing]);
      f == [Int(v), Int(v)] && !HasText(f) && FillWith(f, FillValue(f)) == f
  {
    FillGapAfter(Int(v));
    var f := [Int(v), Int(v)];
    assert !HasText(f);
    assert FillWith(f, FillValue(f)) == f;
  }

  /** The example rows after the fill is assigned. */
  lemma ExampleWritten(rows: seq<Row>, item: Cell, v: int)
    requires rows == [[item, Int(v)], [item, Missing]]
    ensures forall r :: r in rows ==> 1 < |r|
    ensures WithColumn(rows, 1, [Int(v), Int(v)]) == [[item, Int(v)], [item, Int(v)]]
  {
    var out := WithColumn(rows, 1, [Int(v), Int(v)]);
    assert out[0] == [item, Int(v)] && out[1] == [item, Int(v)];
  }

  /** `combined_index` is the second column of the example frame. */
  lemma CombinedIndexIsSecond(cols: seq<string>)
    requires cols == ["item", "combined_index"]
    ensures ColumnIndex(cols, "combined_index") == Some(1)
  {
    assert cols[0] != "combined_index" by { assert |cols[0]| != |"combined_index"|; }
  }

  /** `Analysed` on a frame without repeated rows and without strings in `combined_index`. */
  lemma AnalysedWithoutDuplicates(input: Table, c: nat)
    requires Rectangular(input) && Dedup(input.rows) == input.rows
    requires ColumnIndex(input.columns, "combined_index") == Some(c)
    requires !HasText(ForwardFill(Column(input.rows, c)))
    ensures var f := ForwardFill(Column(input.rows, c));
      Analysed(input) == Success(Table(input.columns, WithColumn(input.rows, c, FillWith(f, FillValue(f)))))
  {
  }

  /** The script, on the frame `read_csv` produced. */
  method Run(input: Table) returns (out: Result<Table>)
    requires Rectangular(input)
    ensures out == Analysed(input)
  {
    var df := new DataFrame(input);
    df.DropDuplicates();
    ghost var rows := df.rows;
    var ci := ColumnIndex(df.columns, "combined_index");
    if ci.None? {
      return Failure(KeyError("combined_index"));
    }
    var c := ci.value;
    df.FillForward(c);
    ghost var filled := ForwardFill(Column(rows, c));
    var col := df.ColumnCells(c);
    assert col == filled by {
      ColumnOfWithColumn(rows, c, filled);
    }
    if HasText(col) {
      return Failure(TypeError("combined_index"));
    }
    df.FillMissing(c, FillValue(col));
    assert df.rows == WithColumn(rows, c, FillWith(filled, FillValue(filled))) by {
      WithColumnTwice(rows, c, filled, FillWith(filled, FillValue(filled)));
    }
    out := Success(df.ToTable());
  }
}
