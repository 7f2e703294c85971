/** The tabular data the cleaning scripts read and write: a header row and rows of cells, as
    `pandas.read_csv` produces them, plus the per-cell conversions pandas applies
    (`astype(int)`, `astype(str)`, reading a numeric value). */
module Tables {
  import opened Options
  import opened Text

  /** One value of a loaded frame: absent (an empty CSV field, NaN), an integer, a float, or a
      string. */
  datatype Cell = Missing | Int(i: int) | Real(r: real) | Str(s: string)

  type Row = seq<Cell>

  /** A frame: column names and rows, each row holding one cell per column. */
  datatype Table = Table(columns: seq<string>, rows: seq<Row>)

  /** Every row holds exactly `w` cells. */
  ghost predicate RowsOfWidth(rows: seq<Row>, w: nat) {
    forall r :: r in rows ==> |r| == w
  }

  /** Frames are rectangular. */
  ghost predicate Rectangular(t: Table) {
    RowsOfWidth(t.rows, |t.columns|)
  }

  /** The failures the scripts can raise before they write anything. */
  datatype Error =
    | KeyError(column: string)        // a column the script reads is absent
    | SchemaError(column: string)     // a value of the column cannot be converted as required
    | TypeError(column: string)       // numeric reduction of a text column
    | AttributeError(column: string)  // `.str` on a column without strings

  datatype Result<+T> = Success(value: T) | Failure(error: Error)

  /** The position of the first column called `name`. */
  function ColumnIndex(columns: seq<string>, name: string): (r: Option<nat>)
    ensures r.None? <==> name !in columns
    ensures r.Some? ==> r.value < |columns| && columns[r.value] == name && name !in columns[..r.value]
    decreases |columns|
  {
    if |columns| == 0 then None
    else if columns[0] == name then Some(0)
    else match ColumnIndex(columns[1..], name)
      case None => None
      case Some(k) =>
        assert columns[..k + 1] == [columns[0]] + columns[1..][..k];
        Some(k + 1)
  }

  /** The cells of column `c`, top to bottom. */
  function Column(rows: seq<Row>, c: nat): (col: seq<Cell>)
    requires forall r :: r in rows ==> c < |r|
    ensures |col| == |rows|
    ensures forall i :: 0 <= i < |rows| ==> col[i] == rows[i][c]
  {
    seq(|rows|, i requires 0 <= i < |rows| => rows[i][c])
  }

  /** The rows with column `c` replaced by `vals` (pandas `df[name] = vals`). */
  function WithColumn(rows: seq<Row>, c: nat, vals: seq<Cell>): (r: seq<Row>)
    requires |vals| == |rows|
    requires forall row :: row in rows ==> c < |row|
    ensures |r| == |rows|
    ensures forall i :: 0 <= i < |rows| ==> r[i] == rows[i][c := vals[i]]
  {
    seq(|rows|, i requires 0 <= i < |rows| => rows[i][c := vals[i]])
  }

  /** `df[name]`: the cells of the first column called `name`. */
  function NamedColumn(t: Table, name: string): (col: seq<Cell>)
    requires Rectangular(t) && name in t.columns
    ensures |col| == |t.rows|
    ensures forall i :: 0 <= i < |t.rows| ==> col[i] == t.rows[i][ColumnIndex(t.columns, name).value]
  {
    Column(t.rows, ColumnIndex(t.columns, name).value)
  }

  lemma WithColumnWidth(rows: seq<Row>, c: nat, vals: seq<Cell>, w: nat)
    requires |vals| == |rows| && c < w && RowsOfWidth(rows, w)
    ensures RowsOfWidth(WithColumn(rows, c, vals), w)
  {
    var r := WithColumn(rows, c, vals);
    forall row | row in r ensures |row| == w {
      var i :| 0 <= i < |r| && r[i] == row;
      assert rows[i] in rows;
    }
  }

  /** Assigning a column twice leaves the second assignment. */
  lemma WithColumnTwice(rows: seq<Row>, c: nat, first: seq<Cell>, second: seq<Cell>)
    requires |first| == |rows| && |second| == |rows|
    requires forall row :: row in rows ==> c < |row|
    ensures forall row :: row in WithColumn(rows, c, first) ==> c < |row|
    ensures WithColumn(WithColumn(rows, c, first), c, second) == WithColumn(rows, c, second)
  {
    var once := WithColumn(rows, c, first);
    forall row | row in once ensures c < |row| {
      var i :| 0 <= i < |once| && once[i] == row;
      assert rows[i] in rows;
    }
    var twice := WithColumn(once, c, second);
    forall i | 0 <= i < |rows| ensures twice[i] == WithColumn(rows, c, second)[i] {
      assert rows[i] in rows;
      assert twice[i] == rows[i][c := first[i]][c := second[i]];
    }
  }

  /** Reading back an assigned column gives the assigned cells. */
  lemma ColumnOfWithColumn(rows: seq<Row>, c: nat, vals: seq<Cell>)
    requires |vals| == |rows|
    requires forall row :: row in rows ==> c < |row|
    ensures forall row :: row in WithColumn(rows, c, vals) ==> c < |row|
    ensures Column(WithColumn(rows, c, vals), c) == vals
  {
    var r := WithColumn(rows, c, vals);
    forall row | row in r ensures c < |row| {
      var i :| 0 <= i < |r| && r[i] == row;
      assert rows[i] in rows;
    }
    forall i | 0 <= i < |rows| ensures Column(r, c)[i] == vals[i] {
      assert rows[i] in rows;
    }
  }

  /** Conversion of a float to an integer, which drops the fraction (toward zero). */
  function Truncate(r: real): (i: int)
    ensures r >= 0.0 ==> i as real <= r < (i + 1) as real
    ensures r < 0.0 ==> (i - 1) as real < r <= i as real
    ensures r >= 0.0 ==> i >= 0
  {
    if r >= 0.0 then r.Floor else -((-r).Floor)
  }

  /** `astype(int)` on one cell: NaN cannot be converted, a float is truncated, a string must
      read as a Python integer literal. */
  function AsInt(c: Cell): Option<int> {
    match c
    case Missing => None
    case Int(i) => Some(i)
    case Real(r) => Some(Truncate(r))
    case Str(s) => ParseInt(s)
  }

  /** A fractional float loses its fraction toward zero, on either sign. */
  lemma TruncateTowardZero()
    ensures AsInt(Real(2019.5)) == Some(2019) && AsInt(Real(2.5)) == Some(2)
    ensures AsInt(Real(-0.5)) == Some(0) && AsInt(Real(-2.5)) == Some(-2)
  {
    assert Truncate(2019.5) == 2019;
    assert Truncate(-2.5) == -2;
  }

  /** `astype(str)` on one cell. */
  function CellText(c: Cell): string {
    match c
    case Missing => "nan"
    case Int(i) => IntToString(i)
    case Real(r) => FloatText(r)
    case Str(s) => s
  }

  /** Every cell of the column converts under `astype(int)`. */
  predicate IntConvertible(col: seq<Cell>) {
    forall i :: 0 <= i < |col| ==> AsInt(col[i]).Some?
  }

  /** `astype(int)` on a whole column: each cell converted, or `None` (pandas raises) as soon as
      one cell cannot be. */
  function IntColumn(col: seq<Cell>): (r: Option<seq<Cell>>)
    ensures r.None? <==> !IntConvertible(col)
    ensures r.Some? ==> |r.value| == |col|
    ensures r.Some? ==> forall i :: 0 <= i < |col| ==> r.value[i] == Int(AsInt(col[i]).value)
    decreases |col|
  {
    if |col| == 0 then Some([])
    else
      var n := |col| - 1;
      assert forall i :: 0 <= i < n ==> col[..n][i] == col[i];
      match IntColumn(col[..n])
      case None =>
        assert !IntConvertible(col) by {
          var i :| 0 <= i < n && AsInt(col[..n][i]).None?;
          assert AsInt(col[i]).None?;
        }
        None
      case Some(init) =>
        match AsInt(col[n])
        case None =>
          assert AsInt(col[n]).None?;
          None
        case Some(v) =>
          var r := init + [Int(v)];
          assert forall i :: 0 <= i < n ==> r[i] == init[i];
          Some(r)
  }

  /** The numeric value of a numeric cell. */
  function AsReal(c: Cell): Option<real> {
    match c
    case Int(i) => Some(i as real)
    case Real(r) => Some(r)
    case _ => None
  }

  /** Some cell of the column is a string: the column is of object dtype, so the `.str`
      accessor is available and numeric reductions raise. */
  predicate HasText(col: seq<Cell>) {
    exists i :: 0 <= i < |col| && col[i].Str?
  }

  /** A row with no absent cell. */
  predicate Complete(r: Row) {
    forall k :: 0 <= k < |r| ==> !r[k].Missing?
  }
}
