/** replaceP.py: `str.replace(r"\.P$", "", regex=True)` on the `item_code` column, which removes
    one trailing ".P" from each code. The pattern is anchored at the end, so it matches at most
    once per code. */
module ReplaceP {
  import opened Text
  import opened Tables

  /** The suffix the pattern matches. */
  const Suffix: string := ".P"

  /** One code with one trailing ".P" removed, if it has one. */
  function StripPSuffix(s: string): (r: string)
    ensures |r| <= |s| && r == s[..|r|]
    ensures EndsWith(s, Suffix) <==> |r| == |s| - 2
    ensures !EndsWith(s, Suffix) <==> r == s
  {
    if EndsWith(s, Suffix) then s[..|s| - 2] else s
  }

  /** Putting the removed suffix back gives the code: exactly the final two characters go. */
  lemma SuffixRestored(s: string)
    requires EndsWith(s, Suffix)
    ensures StripPSuffix(s) + Suffix == s
  {
    assert s == s[..|s| - 2] + s[|s| - 2..];
  }

  /** A suffix test, character by character. */
  lemma EndsWithAt(s: string, t: string)
    ensures EndsWith(s, t) <==> |t| <= |s| && forall j :: 0 <= j < |t| ==> s[|s| - |t| + j] == t[j]
  {
    if |t| <= |s| && forall j :: 0 <= j < |t| ==> s[|s| - |t| + j] == t[j] {
      assert s[|s| - |t|..] == t;
    }
  }

  /** The result ends in ".P" exactly when the code ended in ".P.P": only one suffix goes. */
  lemma StripsOnlyOnce(s: string)
    ensures EndsWith(StripPSuffix(s), Suffix) <==> EndsWith(s, ".P.P")
  {
    var r := StripPSuffix(s);
    EndsWithAt(s, Suffix);
    EndsWithAt(s, ".P.P");
    EndsWithAt(r, Suffix);
    var n := |s|;
    if EndsWith(s, ".P.P") {
      assert s[n - 2] == '.' && s[n - 1] == 'P';
      assert r[|r| - 2] == s[n - 4] && r[|r| - 1] == s[n - 3];
    }
    if EndsWith(r, Suffix) && EndsWith(s, Suffix) {
      assert s[n - 4] == r[|r| - 2] && s[n - 3] == r[|r| - 1];
    }
  }

  /** Stripping twice equals stripping once iff the code does not end in ".P.P". */
  lemma IdempotentUnlessDoubled(s: string)
    ensures StripPSuffix(StripPSuffix(s)) == StripPSuffix(s) <==> !EndsWith(s, ".P.P")
  {
    StripsOnlyOnce(s);
  }

  /** So the operation is not idempotent: "a.P.P" becomes "a.P", and a second run gives "a". */
  lemma NotIdempotent()
    ensures StripPSuffix("a.P.P") == "a.P"
    ensures StripPSuffix(StripPSuffix("a.P.P")) == "a"
  {
    assert EndsWith("a.P.P", Suffix);
    assert "a.P.P"[..3] == "a.P";
    assert EndsWith("a.P", Suffix);
    assert "a.P"[..1] == "a";
  }

  /** `.str.replace` on one cell of a string column: a string is rewritten, a missing value
      stays missing, and a number (not a string) becomes NaN. */
  function ReplaceCell(c: Cell): (d: Cell)
    ensures c.Str? <==> d.Str?
    ensures c.Str? ==> d.s == StripPSuffix(c.s)
  {
    match c
    case Str(s) => Str(StripPSuffix(s))
    case _ => Missing
  }

  /** The `.str.replace` of line 7 on the whole column. */
  function ReplaceCells(col: seq<Cell>): (r: seq<Cell>)
    ensures |r| == |col| && forall i :: 0 <= i < |col| ==> r[i] == ReplaceCell(col[i])
  {
    seq(|col|, i requires 0 <= i < |col| => ReplaceCell(col[i]))
  }

  /** The frame the script writes, or the error it raises: `item_code` must exist, and the
      `.str` accessor needs a column of strings. */
  function Replaced(input: Table): (r: Result<Table>)
    requires Rectangular(input)
    ensures "item_code" !in input.columns ==> r == Failure(KeyError("item_code"))
    ensures r.Failure? ==> r.error.column == "item_code"
    ensures r.Success? ==> r.value.columns == input.columns && |r.value.rows| == |input.rows|
  {
    match ColumnIndex(input.columns, "item_code")
    case None => Failure(KeyError("item_code"))
    case Some(c) =>
      var col := Column(input.rows, c);
      if !HasText(col) then Failure(AttributeError("item_code"))
      else Success(Table(input.columns, WithColumn(input.rows, c, ReplaceCells(col))))
  }

  /** On success the frame keeps its columns, its rows and their order; every cell outside
      `item_code` is unchanged; each code loses at most a trailing ".P"; a missing code stays
      missing. */
  lemma ReplacedChangesOnlyCodes(input: Table)
    requires Rectangular(input) && Replaced(input).Success?
    ensures var out, c := Replaced(input).value, ColumnIndex(input.columns, "item_code").value;
      out.columns == input.columns && |out.rows| == |input.rows| && Rectangular(out) &&
      forall i, k :: 0 <= i < |input.rows| && 0 <= k < |input.columns| ==>
        if k != c then out.rows[i][k] == input.rows[i][k]
        else ((input.rows[i][k].Missing? ==> out.rows[i][k].Missing?) &&
              (input.rows[i][k].Str? ==> out.rows[i][k] == Str(StripPSuffix(input.rows[i][k].s))))
  {
    var c := ColumnIndex(input.columns, "item_code").value;
    var col := Column(input.rows, c);
    WithColumnWidth(input.rows, c, ReplaceCells(col), |input.columns|);
    forall i, k | 0 <= i < |input.rows| && 0 <= k < |input.columns|
      ensures var out := Replaced(input).value;
        if k != c then out.rows[i][k] == input.rows[i][k]
        else ((input.rows[i][k].Missing? ==> out.rows[i][k].Missing?) &&
              (input.rows[i][k].Str? ==> out.rows[i][k] == Str(StripPSuffix(input.rows[i][k].s))))
    {
      assert input.rows[i] in input.rows;
    }
  }

  /** The failures, in the script's order. */
  lemma ReplacedFailures(input: Table)
    requires Rectangular(input)
    ensures var ci := ColumnIndex(input.columns, "item_code");
      Replaced(input).Failure? <==> ci.None? || !HasText(Column(input.rows, ci.value))
  {
  }
}
