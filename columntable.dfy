// `Table`: a table of a fixed number of columns, with optional headers, that
// keeps the width of each column as rows are added and prints every cell
// padded to its column's width, with an optional border, header separator
// and column separators.
module ColumnTable {
  import opened Wrappers
  import opened Tables

  /** `TableSetting`. */
  datatype TableSetting = HeaderSeparator | ColumnSeparators | Border

  /** The fields of a `Table`, as one value. */
  datatype TableState = TableState(
    cols: nat,
    headers: Option<seq<string>>,
    rows: seq<seq<string>>,
    widths: seq<nat>,
    headerSeparator: bool,
    columnSeparators: bool,
    border: bool)

  /** The widest cell of column i: over the headers, if there are any, and every row. */
  function ColumnWidth(headers: Option<seq<string>>, rows: seq<seq<string>>, i: nat): nat
    requires headers.Some? ==> i < |headers.value|
    requires forall j :: 0 <= j < |rows| ==> i < |rows[j]|
  {
    if rows == [] then (if headers.Some? then Len(headers.value[i]) else 0)
    else Max(ColumnWidth(headers, rows[..|rows| - 1], i), Len(rows[|rows| - 1][i]))
  }

  /** A column is as wide as its widest cell: no cell is wider, and it is 0 or some cell's width. */
  lemma {:induction false} ColumnWidthIsMax(headers: Option<seq<string>>, rows: seq<seq<string>>, i: nat)
    requires headers.Some? ==> i < |headers.value|
    requires forall j :: 0 <= j < |rows| ==> i < |rows[j]|
    ensures headers.Some? ==> Len(headers.value[i]) <= ColumnWidth(headers, rows, i)
    ensures forall j :: 0 <= j < |rows| ==> Len(rows[j][i]) <= ColumnWidth(headers, rows, i)
    ensures ColumnWidth(headers, rows, i) == 0
         || (headers.Some? && ColumnWidth(headers, rows, i) == Len(headers.value[i]))
         || exists j :: 0 <= j < |rows| && ColumnWidth(headers, rows, i) == Len(rows[j][i])
    decreases |rows|
  {
    if rows != [] {
      var init := rows[..|rows| - 1];
      ColumnWidthIsMax(headers, init, i);
      assert forall j :: 0 <= j < |init| ==> rows[j] == init[j];
      if ColumnWidth(headers, rows, i) != ColumnWidth(headers, init, i) {
        assert ColumnWidth(headers, rows, i) == Len(rows[|rows| - 1][i]);
      } else if ColumnWidth(headers, init, i) != 0 && !(headers.Some? && ColumnWidth(headers, init, i) == Len(headers.value[i])) {
        var j :| 0 <= j < |init| && ColumnWidth(headers, init, i) == Len(init[j][i]);
        assert ColumnWidth(headers, rows, i) == Len(rows[j][i]);
      }
    }
  }

  /** Every row, and the headers if there are any, have one cell per column. */
  predicate Shaped(t: TableState)
  {
    && |t.widths| == t.cols
    && (t.headers.Some? ==> |t.headers.value| == t.cols)
    && forall j :: 0 <= j < |t.rows| ==> |t.rows[j]| == t.cols
  }

  /** The memoised widths are the widths of the columns. */
  predicate WellFormed(t: TableState)
  {
    && Shaped(t)
    && forall i :: 0 <= i < t.cols ==> t.widths[i] == ColumnWidth(t.headers, t.rows, i)
  }

  /** What is written between two cells. */
  function Gap(t: TableState): string
  {
    if t.columnSeparators then " | " else " "
  }

  /** `width`, corrected: the total width of a row as `write_row` writes it. */
  function Width(t: TableState): nat
  {
    Sum(t.widths) + Gaps(t.cols) * |Gap(t)| + (if t.border then 4 else 0)
  }

  /**
   * `width` as written: the column widths, one space between columns, four
   * for the border and one more per column gap with separators. It is an
   * int because `COLS - 1` underflows for a table of no columns.
   */
  function WidthAsWritten(t: TableState): int
  {
    Sum(t.widths) + t.cols - 1 + (if t.border then 4 else 0) + (if t.columnSeparators then t.cols - 1 else 0)
  }

  /** `write_row`: the cells inside the border, if there is one (the newline is added by `Unlines`). */
  function RowLine(t: TableState, row: seq<string>): string
    requires |row| <= |t.widths|
  {
    (if t.border then "| " else "") + Cells(row, t.widths, Gap(t), |row|) + (if t.border then " |" else "")
  }

  function RowLines(t: TableState, rows: seq<seq<string>>): (r: seq<string>)
    requires forall j :: 0 <= j < |rows| ==> |rows[j]| <= |t.widths|
    ensures |r| == |rows| && forall j :: 0 <= j < |rows| ==> r[j] == RowLine(t, rows[j])
  {
    if rows == [] then [] else RowLines(t, rows[..|rows| - 1]) + [RowLine(t, rows[|rows| - 1])]
  }

  /** Writing one more row adds its line. */
  lemma RowLinesStep(t: TableState, rs: seq<seq<string>>, j: nat)
    requires j < |rs| && forall k :: 0 <= k < |rs| ==> |rs[k]| <= |t.widths|
    ensures Unlines(RowLines(t, rs[..j + 1])) == Unlines(RowLines(t, rs[..j])) + (RowLine(t, rs[j]) + "\n")
  {
    assert rs[..j + 1][..j] == rs[..j];
    UnlinesSnoc(RowLines(t, rs[..j]), RowLine(t, rs[j]));
  }

  /** The border line, corrected: a dash under every char of a row between the corners. */
  function BorderLine(t: TableState): string
    requires t.border
  {
    "+" + Fill('-', Width(t) - 2) + "+"
  }

  /** The header separator line, corrected: as wide as a row. */
  function SeparatorLine(t: TableState): string
  {
    if t.border then "|" + Fill('-', Width(t) - 2) + "|" else Fill('-', Width(t))
  }

  /** The lines before the rows: the top border, the headers and the header separator. */
  function Top(t: TableState): seq<string>
    requires Shaped(t)
  {
    (if t.border then [BorderLine(t)] else [])
    + (if t.headers.Some? then [RowLine(t, t.headers.value)] + (if t.headerSeparator then [SeparatorLine(t)] else []) else [])
  }

  function Bottom(t: TableState): seq<string>
  {
    if t.border then [BorderLine(t)] else []
  }

  /** Every line `Display` writes, corrected. */
  function Lines(t: TableState): seq<string>
    requires Shaped(t)
  {
    Top(t) + RowLines(t, t.rows) + Bottom(t)
  }

  /** `Display`, corrected. */
  function Rendered(t: TableState): string
    requires Shaped(t)
  {
    Unlines(Lines(t))
  }

  /** A row whose cells fit their columns is exactly as wide as the table. */
  lemma RowLineLength(t: TableState, row: seq<string>)
    requires |row| == |t.widths| == t.cols
    requires forall i :: 0 <= i < |row| ==> Len(row[i]) <= t.widths[i]
    ensures |RowLine(t, row)| == Width(t)
  {
    CellsLength(row, t.widths, Gap(t), |row|);
    assert t.widths[..|row|] == t.widths;
  }

  /** Every cell of a well-formed table fits its column. */
  lemma CellsFit(t: TableState)
    requires WellFormed(t)
    ensures t.headers.Some? ==> forall i :: 0 <= i < t.cols ==> Len(t.headers.value[i]) <= t.widths[i]
    ensures forall j, i :: 0 <= j < |t.rows| && 0 <= i < t.cols ==> Len(t.rows[j][i]) <= t.widths[i]
  {
    forall i | 0 <= i < t.cols
      ensures t.headers.Some? ==> Len(t.headers.value[i]) <= t.widths[i]
      ensures forall j :: 0 <= j < |t.rows| ==> Len(t.rows[j][i]) <= t.widths[i]
    {
      ColumnWidthIsMax(t.headers, t.rows, i);
    }
  }

  lemma TopSameLength(t: TableState)
    requires WellFormed(t)
    ensures forall l :: l in Top(t) ==> |l| == Width(t)
  {
    if t.headers.Some? {
      CellsFit(t);
      RowLineLength(t, t.headers.value);
    }
  }

  lemma RowLinesSameLength(t: TableState)
    requires WellFormed(t)
    ensures forall l :: l in RowLines(t, t.rows) ==> |l| == Width(t)
  {
    CellsFit(t);
    forall j | 0 <= j < |t.rows|
      ensures |RowLine(t, t.rows[j])| == Width(t)
    {
      RowLineLength(t, t.rows[j]);
    }
  }

  /** Every line of the corrected `Display` is as wide as the table. */
  lemma LinesSameLength(t: TableState)
    requires WellFormed(t)
    ensures forall l :: l in Lines(t) ==> |l| == Width(t)
  {
    TopSameLength(t);
    RowLinesSameLength(t);
    var top, body, bottom := Top(t), RowLines(t, t.rows), Bottom(t);
    assert Lines(t) == top + body + bottom;
    forall l | l in top + body + bottom
      ensures |l| == Width(t)
    {
      assert l in top || l in body || l in bottom;
    }
  }

  /** `Display` as written: the border lines are `width` dashes wide with separators, `width - 2` without. */
  function BorderWidthAsWritten(t: TableState): int
  {
    if t.columnSeparators then WidthAsWritten(t) else WidthAsWritten(t) - 2
  }

  function TopAsWritten(t: TableState): seq<string>
    requires Shaped(t) && t.cols > 0 && BorderWidthAsWritten(t) >= 0
  {
    var w := WidthAsWritten(t);
    (if t.border then ["+" + Fill('-', BorderWidthAsWritten(t)) + "+"] else [])
    + (if t.headers.Some? then
         [RowLine(t, t.headers.value)]
         + (if t.headerSeparator then [if t.border then "|" + Fill('-', w) + "|" else Fill('-', w)] else [])
       else [])
  }

  function BottomAsWritten(t: TableState): seq<string>
    requires t.cols > 0 && BorderWidthAsWritten(t) >= 0
  {
    if t.border then ["+" + Fill('-', BorderWidthAsWritten(t)) + "+"] else []
  }

  /**
   * `Display` as written: `width` underflows for no columns, and the border
   * width `width - 2` is computed, and underflows, even without a border.
   */
  function RenderedAsWritten(t: TableState): (r: Outcome<string>)
    requires Shaped(t)
    ensures r.Panics? <==> t.cols == 0 || (!t.columnSeparators && WidthAsWritten(t) < 2)
  {
    if t.cols == 0 || BorderWidthAsWritten(t) < 0 then Panics
    else Returns(Unlines(TopAsWritten(t) + RowLines(t, t.rows) + BottomAsWritten(t)))
  }

  /** Without separators, the source agrees with the corrected `Display` unless it has a border and a header separator. */
  lemma AsWrittenAgreesPlain(t: TableState)
    requires Shaped(t) && t.cols > 0 && WidthAsWritten(t) >= 2
    requires !t.columnSeparators && !(t.border && t.headerSeparator)
    ensures RenderedAsWritten(t) == Returns(Rendered(t))
  {
    assert WidthAsWritten(t) == Width(t);
    assert TopAsWritten(t) == Top(t);
  }

  /** With separators, three columns and a border or no header separator, the source agrees with the corrected `Display`. */
  lemma AsWrittenAgreesThreeColumns(t: TableState)
    requires Shaped(t) && t.cols == 3 && t.columnSeparators && (t.border || !t.headerSeparator)
    ensures RenderedAsWritten(t) == Returns(Rendered(t))
  {
    assert Gaps(t.cols) == 2 && |Gap(t)| == 3;
    assert WidthAsWritten(t) + 2 == Width(t);
    assert BorderWidthAsWritten(t) == Width(t) - 2;
    assert TopAsWritten(t) == Top(t);
  }

  /** The source's header separator is two chars narrower than the headers with three separated columns and no border. */
  lemma AsWrittenSeparatorShort(t: TableState)
    requires WellFormed(t) && t.cols == 3 && t.columnSeparators && !t.border && t.headerSeparator && t.headers.Some?
    ensures |TopAsWritten(t)| == 2 && |TopAsWritten(t)[1]| + 2 == |TopAsWritten(t)[0]|
  {
    CellsFit(t);
    RowLineLength(t, t.headers.value);
  }

  /** With two separated columns and a border, the source's border is one char wider than the rows. */
  lemma AsWrittenBorderWide(t: TableState)
    requires WellFormed(t) && t.cols == 2 && t.columnSeparators && t.border
    ensures |BottomAsWritten(t)| == 1 && |BottomAsWritten(t)[0]| == Width(t) + 1
  {
    assert Gaps(t.cols) == 1 && |Gap(t)| == 3;
    assert BorderWidthAsWritten(t) == Width(t) - 1;
  }

  /** A table of one column and no rows or headers panics when the source displays it. */
  lemma AsWrittenEmptyPanics(t: TableState)
    requires WellFormed(t) && t.cols == 1 && t.rows == [] && t.headers.None? && !t.columnSeparators && !t.border
    ensures RenderedAsWritten(t) == Panics
  {
    assert t.widths == [0];
    assert Sum(t.widths) == 0 by { assert t.widths[..0] == []; }
  }

  /** The table the tests build: three rows added to a table with the given headers, if any. */
  function TestTable(headers: Option<seq<string>>, headerSeparator: bool, columnSeparators: bool, border: bool): TableState
  {
    var widths := if headers.Some? then [5, 3, 17] else [5, 2, 17];
    TableState(3, headers, [["Colin", "25", "Software Engineer"], ["John", "30", "Doctor"], ["Jane", "28", "Nurse"]],
      widths, headerSeparator, columnSeparators, border)
  }

  /**
   * The widths of the tests' tables: the corrected width is the length of
   * every line the source's tests expect, and the source's own width is 2
   * less with column separators.
   */
  lemma TestWidths(headers: Option<seq<string>>, headerSeparator: bool)
    requires headers == Some(["Name", "Age", "Occupation"])
    ensures Width(TestTable(headers, headerSeparator, false, false)) == 27
    ensures Width(TestTable(headers, headerSeparator, false, true)) == 31
    ensures Width(TestTable(headers, headerSeparator, true, false)) == 31
    ensures Width(TestTable(headers, headerSeparator, true, true)) == 35
    ensures WidthAsWritten(TestTable(headers, headerSeparator, true, false)) == 29
    ensures WidthAsWritten(TestTable(headers, headerSeparator, true, true)) == 33
  {
    assert [5, 3, 17][..2] == [5, 3] && [5, 3][..1] == [5] && [5][..0] == [];
  }

  /** `test_table`: the header line. */
  lemma TestHeaderLine()
    ensures RowLine(TestTable(Some(["Name", "Age", "Occupation"]), false, false, false), ["Name", "Age", "Occupation"]) == "Name  Age Occupation       "
  {
  }

  /** `Table`: the headers and rows, the memoised width of every column, and the three settings. */
  class Table {
    const cols: nat
    var headers: Option<seq<string>>
    var rows: seq<seq<string>>
    /** The width of each column so far. */
    const widths: array<nat>
    var headerSeparator: bool
    var columnSeparators: bool
    var border: bool

    function State(): TableState
      reads this, widths
    {
      TableState(cols, headers, rows, widths[..], headerSeparator, columnSeparators, border)
    }

    ghost predicate Valid()
      reads this, widths
    {
      widths.Length == cols && WellFormed(State())
    }

    /** `Table::new`: no headers or rows, every width 0, no settings. */
    constructor (cols: nat)
      ensures Valid() && fresh(widths)
      ensures State() == TableState(cols, None, [], seq(cols, _ => 0), false, false, false)
    {
      this.cols := cols;
      headers := None;
      rows := [];
      widths := new nat[cols](_ => 0);
      headerSeparator := false;
      columnSeparators := false;
      border := false;
    }

    /** `Table::new_with_headers`: the headers, and each column as wide as its header. */
    constructor WithHeaders(headers: seq<string>)
      ensures Valid() && fresh(widths)
      ensures State() == TableState(|headers|, Some(headers), [], seq(|headers|, i requires 0 <= i < |headers| => Len(headers[i])), false, false, false)
    {
      cols := |headers|;
      this.headers := Some(headers);
      rows := [];
      widths := new nat[|headers|](i requires 0 <= i < |headers| => Len(headers[i]));
      headerSeparator := false;
      columnSeparators := false;
      border := false;
    }

    /** `with_setting`: turns on the one setting named and changes nothing else. */
    method WithSetting(setting: TableSetting)
      requires Valid()
      modifies this
      ensures Valid()
      ensures setting == HeaderSeparator ==> State() == old(State()).(headerSeparator := true)
      ensures setting == ColumnSeparators ==> State() == old(State()).(columnSeparators := true)
      ensures setting == Border ==> State() == old(State()).(border := true)
    {
      match setting
      case HeaderSeparator => headerSeparator := true;
      case ColumnSeparators => columnSeparators := true;
      case Border => border := true;
    }

    /** `add_row`: appends the row and widens each column to fit its new cell. */
    method AddRow(row: seq<string>) returns (r: Result<(), TableError>)
      requires Valid() && |row| == cols
      modifies this, widths
      ensures Valid() && r == Ok(())
      ensures rows == old(rows) + [row]
      ensures forall i :: 0 <= i < cols ==> widths[i] == Max(old(widths[i]), Len(row[i]))
      ensures headers == old(headers) && headerSeparator == old(headerSeparator)
      ensures columnSeparators == old(columnSeparators) && border == old(border)
    {
      var i := 0;
      while i < |row|
        modifies widths
        invariant 0 <= i <= |row| == widths.Length
        invariant forall k :: 0 <= k < i ==> widths[k] == Max(old(widths[k]), Len(row[k]))
        invariant forall k :: i <= k < |row| ==> widths[k] == old(widths[k])
      {
        widths[i] := Max(widths[i], Len(row[i]));
        i := i + 1;
      }
      ghost var before := rows;
      rows := rows + [row];
      assert rows[..|rows| - 1] == before;
      forall k | 0 <= k < cols
        ensures widths[k] == ColumnWidth(headers, rows, k)
      {
        assert old(widths[k]) == ColumnWidth(headers, before, k);
      }
      r := Ok(());
    }

    /** `write_row`: the row's line and its newline. */
    method WriteRow(row: seq<string>) returns (s: string)
      requires |row| <= widths.Length
      ensures s == RowLine(State(), row) + "\n"
    {
      var cells := WriteCells(row, widths[..], if columnSeparators then " | " else " ");
      if border {
        s := "| " + cells + " |\n";
      } else {
        s := cells + "\n";
      }
    }

    /** Rows, each written by `write_row`. */
    method WriteRows(rs: seq<seq<string>>) returns (body: string)
      requires forall k :: 0 <= k < |rs| ==> |rs[k]| <= widths.Length
      ensures body == Unlines(RowLines(State(), rs))
    {
      body := "";
      var j := 0;
      while j < |rs|
        invariant 0 <= j <= |rs|
        invariant body == Unlines(RowLines(State(), rs[..j]))
      {
        var line := WriteRow(rs[j]);
        RowLinesStep(State(), rs, j);
        body := body + line;
        j := j + 1;
      }
      assert rs[..j] == rs;
    }

    /** `Display`, corrected: every line as wide as the table. */
    method Display() returns (s: string)
      requires Shaped(State())
      ensures s == Rendered(State())
    {
      ghost var t := State();
      var top := Unlines(Top(State()));
      var body := WriteRows(rows);
      var bottom := Unlines(Bottom(State()));
      s := top + body + bottom;
      UnlinesAppend(Top(t), RowLines(t, rows));
      UnlinesAppend(Top(t) + RowLines(t, rows), Bottom(t));
    }
  }
}
