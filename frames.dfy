/** The in-place frame operations the cleaning scripts apply: renaming the columns, assigning a
    column, `dropna(inplace=True)`, `drop_duplicates(inplace=True)` and the two in-place
    `fillna` passes on one column. */
module Frames {
  import opened Seqs
  import opened Tables

  /** The cell that `fillna(method='ffill')` copies into position `|s|`; it is `Missing` exactly
      when every earlier cell is missing. */
  function LastPresent(s: seq<Cell>): (r: Cell)
    ensures r.Missing? <==> forall k :: 0 <= k < |s| ==> s[k].Missing?
    decreases |s|
  {
    if |s| == 0 then Missing
    else if !s[|s| - 1].Missing? then s[|s| - 1]
    else
      assert forall k :: 0 <= k < |s| - 1 ==> s[..|s| - 1][k] == s[k];
      LastPresent(s[..|s| - 1])
  }

  /** A present `LastPresent` is the nearest present cell: every cell after it is missing. */
  lemma {:induction false} LastPresentIsNearest(s: seq<Cell>)
    requires !LastPresent(s).Missing?
    ensures exists k :: 0 <= k < |s| && s[k] == LastPresent(s) && forall j :: k < j < |s| ==> s[j].Missing?
    decreases |s|
  {
    var n := |s| - 1;
    if s[n].Missing? {
      var init := s[..n];
      LastPresentIsNearest(init);
      var k :| 0 <= k < |init| && init[k] == LastPresent(init) &&
        forall j :: k < j < |init| ==> init[j].Missing?;
      assert s[k] == LastPresent(s) && forall j :: k < j < |s| ==> s[j].Missing?;
    } else {
      assert s[n] == LastPresent(s);
    }
  }

  /** `fillna(method='ffill')` on a column: a left-to-right pass that carries the last value
      seen. The cell it writes last is the column's last present cell. */
  function ForwardFill(col: seq<Cell>): (r: seq<Cell>)
    ensures |r| == |col|
    ensures |col| > 0 ==> r[|col| - 1] == LastPresent(col)
    decreases |col|
  {
    if |col| == 0 then []
    else
      var n := |col| - 1;
      var init := ForwardFill(col[..n]);
      var carried := if n == 0 then Missing else init[n - 1];
      init + [if col[n].Missing? then carried else col[n]]
  }

  /** Forward filling cell by cell: a present cell is kept; a missing cell takes the nearest
      earlier present one (`LastPresent` of the cells above it), across the whole column, or
      stays missing when there is none. */
  lemma {:induction false} ForwardFillAt(col: seq<Cell>, i: nat)
    requires i < |col|
    ensures ForwardFill(col)[i] == if col[i].Missing? then LastPresent(col[..i]) else col[i]
    decreases |col|
  {
    var n := |col| - 1;
    if i < n {
      ForwardFillAt(col[..n], i);
      assert col[..n][..i] == col[..i];
    } else if n > 0 {
      assert col[..n][..n - 1] == col[..n - 1];
      assert col[..n - 1] == col[..n][..n - 1];
    }
  }

  /** After forward filling, the cells still missing are exactly a leading run: position `i`
      stays missing iff every cell up to and including `i` was missing. */
  lemma ForwardFillMissingIsLeadingRun(col: seq<Cell>, i: nat)
    requires i < |col|
    ensures ForwardFill(col)[i].Missing? <==> forall k :: 0 <= k <= i ==> col[k].Missing?
  {
    ForwardFillAt(col, i);
    if ForwardFill(col)[i].Missing? {
      forall k | 0 <= k <= i ensures col[k].Missing? {
        if k < i { assert col[..i][k] == col[k]; }
      }
    } else if col[i].Missing? {
      assert !LastPresent(col[..i]).Missing?;
      var k :| 0 <= k < i && !col[..i][k].Missing?;
      assert !col[k].Missing?;
    }
  }

  /** `fillna(v)` on a column: every missing cell becomes `v`, every other cell is kept. */
  function FillWith(col: seq<Cell>, v: Cell): (r: seq<Cell>)
    ensures |r| == |col|
    ensures forall i :: 0 <= i < |col| ==> r[i] == if col[i].Missing? then v else col[i]
  {
    seq(|col|, i requires 0 <= i < |col| => if col[i].Missing? then v else col[i])
  }

  /** Dropping rows keeps the frame rectangular. */
  lemma FilterKeepsWidth(rows: seq<Row>, p: Row -> bool, w: nat)
    requires RowsOfWidth(rows, w)
    ensures RowsOfWidth(Filter(rows, p), w)
  {
  }

  /** The scan behind `dropna`: the rows without a missing cell, in order. */
  method CompleteRows(rs: seq<Row>) returns (kept: seq<Row>)
    ensures kept == Filter(rs, Complete)
  {
    kept := [];
    var i := 0;
    while i < |rs|
      invariant 0 <= i <= |rs|
      invariant kept == Filter(rs[..i], Complete)
    {
      FilterSnoc(rs[..i], rs[i], Complete);
      assert rs[..i + 1] == rs[..i] + [rs[i]];
      if Complete(rs[i]) {
        kept := kept + [rs[i]];
      }
      i := i + 1;
    }
    assert rs[..i] == rs;
  }

  /** The scan behind `drop_duplicates`: a row is kept when no equal row was kept before it. */
  method FirstOccurrences(rs: seq<Row>) returns (kept: seq<Row>)
    ensures kept == Dedup(rs)
  {
    kept := [];
    var i := 0;
    while i < |rs|
      invariant 0 <= i <= |rs|
      invariant kept == Dedup(rs[..i])
    {
      assert rs[..i + 1][..i] == rs[..i];
      if rs[i] !in kept {
        kept := kept + [rs[i]];
      }
      i := i + 1;
    }
    assert rs[..i] == rs;
  }

  /** One more cell: the forward fill grows by the cell itself, or by the last present value
      before it when the cell is missing, and that is the new last present value. */
  lemma ForwardFillStep(col: seq<Cell>, i: nat)
    requires i < |col|
    ensures var v := if col[i].Missing? then LastPresent(col[..i]) else col[i];
      ForwardFill(col[..i + 1]) == ForwardFill(col[..i]) + [v] && LastPresent(col[..i + 1]) == v
  {
    assert col[..i + 1][..i] == col[..i];
  }

  /** Rewriting one more row keeps `out` equal to the first rows of `rs` with column `c` set to
      `vals`. */
  lemma RowsUpdatedStep(rs: seq<Row>, c: nat, out: seq<Row>, vals: seq<Cell>, v: Cell)
    requires |out| == |vals| < |rs| && forall k :: 0 <= k < |rs| ==> c < |rs[k]|
    requires forall k :: 0 <= k < |out| ==> out[k] == rs[k][c := vals[k]]
    ensures forall k :: 0 <= k < |out| + 1 ==>
      (out + [rs[|out|][c := v]])[k] == rs[k][c := (vals + [v])[k]]
  {
  }

  /** The pass behind `fillna(method='ffill')` on column `c`, carrying the last present value. */
  method ForwardFilledRows(rs: seq<Row>, c: nat) returns (out: seq<Row>)
    requires forall r :: r in rs ==> c < |r|
    ensures out == WithColumn(rs, c, ForwardFill(Column(rs, c)))
  {
    ghost var col := Column(rs, c);
    assert forall k :: 0 <= k < |rs| ==> c < |rs[k]| by {
      assert forall k :: 0 <= k < |rs| ==> rs[k] in rs;
    }
    ghost var done: seq<Cell> := [];
    out := [];
    var last := Missing;
    var i := 0;
    while i < |rs|
      invariant 0 <= i <= |rs|
      invariant |out| == i && done == ForwardFill(col[..i])
      invariant forall k :: 0 <= k < i ==> out[k] == rs[k][c := done[k]]
      invariant last == LastPresent(col[..i])
    {
      var cell := rs[i][c];
      var v := if cell.Missing? then last else cell;
      ForwardFillStep(col, i);
      RowsUpdatedStep(rs, c, out, done, v);
      done := done + [v];
      out := out + [rs[i][c := v]];
      last := v;
      i := i + 1;
    }
    assert col[..i] == col;
  }

  /** The pass behind `fillna(v)` on column `c`. */
  method FilledRows(rs: seq<Row>, c: nat, v: Cell) returns (out: seq<Row>)
    requires forall r :: r in rs ==> c < |r|
    ensures out == WithColumn(rs, c, FillWith(Column(rs, c), v))
  {
    ghost var filled := FillWith(Column(rs, c), v);
    out := [];
    var i := 0;
    while i < |rs|
      invariant 0 <= i <= |rs|
      invariant |out| == i
      invariant forall k :: 0 <= k < i ==> out[k] == rs[k][c := filled[k]]
    {
      assert rs[i] in rs;
      var cell := rs[i][c];
      out := out + [rs[i][c := if cell.Missing? then v else cell]];
      i := i + 1;
    }
  }

  /** A pandas frame that a script owns and rewrites in place. */
  class DataFrame {
    var columns: seq<string>
    var rows: seq<Row>

    ghost predicate Valid()
      reads this
    {
      RowsOfWidth(rows, |columns|)
    }

    /** The table `to_csv` would write. */
    function ToTable(): (t: Table)
      reads this
      requires Valid()
      ensures Rectangular(t) && t.columns == columns && t.rows == rows
    {
      Table(columns, rows)
    }

    /** The cells of column `c`. */
    function ColumnCells(c: nat): (col: seq<Cell>)
      reads this
      requires Valid() && c < |columns|
      ensures |col| == |rows| && forall i :: 0 <= i < |rows| ==> col[i] == rows[i][c]
    {
      Column(rows, c)
    }

    /** A frame holding the table `read_csv` produced. */
    constructor (t: Table)
      requires Rectangular(t)
      ensures Valid() && columns == t.columns && rows == t.rows
    {
      columns := t.columns;
      rows := t.rows;
    }

    /** `df.columns = names`. */
    method SetColumns(names: seq<string>)
      requires Valid() && |names| == |columns|
      modifies this
      ensures Valid() && columns == names && rows == old(rows)
    {
      columns := names;
    }

    /** `df[name] = vals` for the existing column at `c`. */
    method AssignColumn(c: nat, vals: seq<Cell>)
      requires Valid() && c < |columns| && |vals| == |rows|
      modifies this
      ensures Valid() && columns == old(columns)
      ensures rows == WithColumn(old(rows), c, vals)
    {
      WithColumnWidth(rows, c, vals, |columns|);
      rows := WithColumn(rows, c, vals);
    }

    /** `dropna(inplace=True)`: keeps, in order, the rows with no missing cell. */
    method DropNa()
      requires Valid()
      modifies this
      ensures Valid() && columns == old(columns)
      ensures rows == Filter(old(rows), Complete)
    {
      FilterKeepsWidth(rows, Complete, |columns|);
      rows := CompleteRows(rows);
    }

    /** `drop_duplicates(inplace=True)`: keeps the first occurrence of each distinct row. */
    method DropDuplicates()
      requires Valid()
      modifies this
      ensures Valid() && columns == old(columns)
      ensures rows == Dedup(old(rows))
    {
      rows := FirstOccurrences(rows);
    }

    /** `df[name].fillna(method='ffill', inplace=True)` for the column at `c`. */
    method FillForward(c: nat)
      requires Valid() && c < |columns|
      modifies this
      ensures Valid() && columns == old(columns)
      ensures rows == WithColumn(old(rows), c, ForwardFill(Column(old(rows), c)))
    {
      WithColumnWidth(rows, c, ForwardFill(Column(rows, c)), |columns|);
      rows := ForwardFilledRows(rows, c);
    }

    /** `df[name].fillna(v, inplace=True)` for the column at `c`. */
    method FillMissing(c: nat, v: Cell)
      requires Valid() && c < |columns|
      modifies this
      ensures Valid() && columns == old(columns)
      ensures rows == WithColumn(old(rows), c, FillWith(Column(old(rows), c), v))
    {
      WithColumnWidth(rows, c, FillWith(Column(rows, c), v), |columns|);
      rows := FilledRows(rows, c, v);
    }
  }
}
