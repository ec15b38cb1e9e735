/** The fixed-width table renderer of `StatusModule`: column widths are the longest cell of
    each column, every cell is left-justified and padded to its column's width plus two,
    cells are separated by tabs and every row ends with a line break. A width comes from a
    hash map that only holds a column once one of its cells is non-empty, so a column of
    empty cells fails with a NullPointerException when its width is unboxed. */
module TextTables {
  import opened Wrappers
  import opened JavaLang

  type Row = seq<string>

  // ---------------------------------------------------------------- column widths

  /** `columnSizeMap.getOrDefault(i, 0)`. */
  function WidthAt(widths: map<nat, nat>, i: nat): nat {
    if i in widths then widths[i] else 0
  }

  /** One step of the first pass: column `i` records `len` if that beats what it holds. */
  function Widen(widths: map<nat, nat>, i: nat, len: nat): map<nat, nat> {
    if len > WidthAt(widths, i) then widths[i := len] else widths
  }

  /** The first pass over the cells of one row, left to right. */
  function RowWidths(widths: map<nat, nat>, row: Row): map<nat, nat> {
    if |row| == 0 then widths
    else Widen(RowWidths(widths, row[..|row| - 1]), |row| - 1, |row[|row| - 1]|)
  }

  /** The first pass over all rows, top to bottom. */
  function ColumnWidths(rows: seq<Row>): map<nat, nat> {
    if |rows| == 0 then map[]
    else RowWidths(ColumnWidths(rows[..|rows| - 1]), rows[|rows| - 1])
  }

  /** The length of the cell of `row` in column `i`, 0 where the row is shorter. */
  function CellLength(row: Row, i: nat): nat {
    if i < |row| then |row[i]| else 0
  }

  /** Reference definition of a column width: the longest cell in the column. */
  function ColumnMax(rows: seq<Row>, i: nat): nat {
    if |rows| == 0 then 0
    else
      var before := ColumnMax(rows[..|rows| - 1], i);
      var len := CellLength(rows[|rows| - 1], i);
      if len > before then len else before
  }

  /** The longest cell bounds every cell of its column and is the length of one of them
      (or 0 for a column without cells). */
  lemma {:induction false} ColumnMaxMeaning(rows: seq<Row>, i: nat)
    ensures forall r :: 0 <= r < |rows| ==> CellLength(rows[r], i) <= ColumnMax(rows, i)
    ensures ColumnMax(rows, i) == 0 || exists r :: 0 <= r < |rows| && CellLength(rows[r], i) == ColumnMax(rows, i)
  {
    if |rows| > 0 {
      var prefix := rows[..|rows| - 1];
      ColumnMaxMeaning(prefix, i);
      assert forall r :: 0 <= r < |prefix| ==> prefix[r] == rows[r];
      if ColumnMax(rows, i) != 0 && ColumnMax(rows, i) == ColumnMax(prefix, i) {
        var r :| 0 <= r < |prefix| && CellLength(prefix[r], i) == ColumnMax(prefix, i);
        assert CellLength(rows[r], i) == ColumnMax(rows, i);
      }
    }
  }

  /** One row's pass takes the larger of what a column held and that row's cell; a column is
      recorded once it held something or the row's cell is non-empty. */
  lemma {:induction false} RowWidthsAt(widths: map<nat, nat>, row: Row, i: nat)
    ensures WidthAt(RowWidths(widths, row), i) ==
      (if CellLength(row, i) > WidthAt(widths, i) then CellLength(row, i) else WidthAt(widths, i))
    ensures i in RowWidths(widths, row) <==> i in widths || CellLength(row, i) > 0
  {
    if |row| > 0 {
      var prefix := row[..|row| - 1];
      RowWidthsAt(widths, prefix, i);
      if i < |prefix| {
        assert prefix[i] == row[i];
      }
    }
  }

  /** The widths the first pass computes are the column maxima, and a column is recorded
      exactly when its longest cell is non-empty. */
  lemma {:induction false} ColumnWidthsAreMaxima(rows: seq<Row>, i: nat)
    ensures WidthAt(ColumnWidths(rows), i) == ColumnMax(rows, i)
    ensures i in ColumnWidths(rows) <==> ColumnMax(rows, i) > 0
  {
    if |rows| > 0 {
      var prefix := rows[..|rows| - 1];
      ColumnWidthsAreMaxima(prefix, i);
      RowWidthsAt(ColumnWidths(prefix), rows[|rows| - 1], i);
    }
  }

  /** Some cell of column `i` is non-empty. */
  predicate NonBlankColumn(rows: seq<Row>, i: nat) {
    exists r :: 0 <= r < |rows| && i < |rows[r]| && rows[r][i] != ""
  }

  /** A column is recorded exactly when it has a non-empty cell. */
  lemma ColumnWidthsKeys(rows: seq<Row>, i: nat)
    ensures i in ColumnWidths(rows) <==> NonBlankColumn(rows, i)
  {
    ColumnWidthsAreMaxima(rows, i);
    ColumnMaxMeaning(rows, i);
    if NonBlankColumn(rows, i) {
      var r :| 0 <= r < |rows| && i < |rows[r]| && rows[r][i] != "";
      assert CellLength(rows[r], i) > 0;
    }
    if ColumnMax(rows, i) > 0 {
      var r :| 0 <= r < |rows| && CellLength(rows[r], i) == ColumnMax(rows, i);
      assert i < |rows[r]| && rows[r][i] != "";
    }
  }

  // ---------------------------------------------------------------- rendering

  /** Every column `row` uses has a recorded width. */
  predicate Renderable(widths: map<nat, nat>, row: Row) {
    forall i :: 0 <= i < |row| ==> i in widths
  }

  /** The first `n` cells of `row` as the second pass appends them: padded to the column
      width plus two, with a tab after every cell but the row's last. */
  function RenderCells(widths: map<nat, nat>, row: Row, n: nat): (r: Result<string, JavaException>)
    requires n <= |row|
    ensures r.Ok? <==> forall i :: 0 <= i < n ==> i in widths
    ensures r.Err? ==> r.error == NullPointer
  {
    if n == 0 then Ok("")
    else
      match RenderCells(widths, row, n - 1)
      case Err(e) => Err(e)
      case Ok(s) =>
        var i := n - 1;
        if i !in widths then Err(NullPointer)
        else Ok(s + Pad(row[i], widths[i] + 2) + (if i < |row| - 1 then "\t" else ""))
  }

  /** One line of the table: its cells and a line break. */
  function RenderLine(widths: map<nat, nat>, row: Row): (r: Result<string, JavaException>)
    ensures r.Ok? <==> Renderable(widths, row)
    ensures r.Err? ==> r.error == NullPointer
  {
    match RenderCells(widths, row, |row|)
    case Err(e) => Err(e)
    case Ok(s) => Ok(s + "\n")
  }

  /** The lines of all rows, top to bottom. */
  function RenderLines(widths: map<nat, nat>, rows: seq<Row>): (r: Result<string, JavaException>)
    ensures r.Ok? <==> forall k :: 0 <= k < |rows| ==> Renderable(widths, rows[k])
    ensures r.Err? ==> r.error == NullPointer
  {
    if |rows| == 0 then Ok("")
    else
      var prefix := rows[..|rows| - 1];
      assert forall k :: 0 <= k < |prefix| ==> prefix[k] == rows[k];
      match RenderLines(widths, prefix)
      case Err(e) => Err(e)
      case Ok(s) =>
        match RenderLine(widths, rows[|rows| - 1])
        case Err(e) => Err(e)
        case Ok(line) => Ok(s + line)
  }

  /** `toTextTable`. */
  function TextTable(rows: seq<Row>): Result<string, JavaException> {
    RenderLines(ColumnWidths(rows), rows)
  }

  /** The table renders exactly when every column some row uses has a non-empty cell;
      otherwise the failure is a NullPointerException. */
  lemma TextTableSucceeds(rows: seq<Row>)
    ensures TextTable(rows).Ok? <==>
      forall r, i :: 0 <= r < |rows| && 0 <= i < |rows[r]| ==> NonBlankColumn(rows, i)
    ensures TextTable(rows).Err? ==> TextTable(rows).error == NullPointer
  {
    forall r, i | 0 <= r < |rows| && 0 <= i < |rows[r]|
      ensures i in ColumnWidths(rows) <==> NonBlankColumn(rows, i)
    {
      ColumnWidthsKeys(rows, i);
    }
  }

  // ---------------------------------------------------------------- the rendered text

  /** The cells of `row` padded to the widths plus two. */
  function PaddedCells(widths: map<nat, nat>, row: Row): (r: seq<string>)
    requires Renderable(widths, row)
    ensures |r| == |row|
  {
    seq(|row|, i requires 0 <= i < |row| => Pad(row[i], widths[i] + 2))
  }

  lemma {:induction false} JoinSnoc(sep: string, xs: seq<string>, x: string)
    requires |xs| > 0
    ensures Join(sep, xs + [x]) == Join(sep, xs) + sep + x
  {
    if |xs| > 1 {
      assert (xs + [x])[1..] == xs[1..] + [x];
      JoinSnoc(sep, xs[1..], x);
    } else {
      assert (xs + [x])[1..] == [x];
    }
  }

  /** The first `n` cells render as the padded cells joined by tabs, with a trailing tab when
      more cells follow. */
  lemma {:induction false} RenderCellsJoin(widths: map<nat, nat>, row: Row, n: nat)
    requires n <= |row| && Renderable(widths, row)
    ensures RenderCells(widths, row, n)
      == Ok(Join("\t", PaddedCells(widths, row)[..n]) + (if 0 < n < |row| then "\t" else ""))
  {
    var cells := PaddedCells(widths, row);
    JoinPrefixSmall(cells);
    if n > 1 {
      RenderCellsJoin(widths, row, n - 1);
      RenderCellsStep(widths, row, n);
      JoinPrefixStep(cells, n);
    } else if n == 1 {
      RenderCellsStep(widths, row, 1);
      var tab := if 1 < |row| then "\t" else "";
      assert RenderCells(widths, row, 0) == Ok("");
      assert "" + cells[0] + tab == cells[0] + tab;
    } else {
      assert Join("\t", cells[..0]) + "" == "";
    }
  }

  /** Joining one more element of a sequence adds the separator and that element. */
  lemma JoinPrefixStep(xs: seq<string>, n: nat)
    requires 1 < n <= |xs|
    ensures Join("\t", xs[..n]) == Join("\t", xs[..n - 1]) + "\t" + xs[n - 1]
  {
    assert xs[..n] == xs[..n - 1] + [xs[n - 1]];
    JoinSnoc("\t", xs[..n - 1], xs[n - 1]);
  }

  /** Joining nothing gives the empty text, and joining one element gives that element. */
  lemma JoinPrefixSmall(xs: seq<string>)
    ensures Join("\t", xs[..0]) == ""
    ensures |xs| > 0 ==> Join("\t", xs[..1]) == xs[0]
  {
    assert xs[..0] == [];
    if |xs| > 0 {
      assert xs[..1] == [xs[0]];
    }
  }

  /** One more cell: the text so far, the padded cell, and a tab unless it is the last. */
  lemma RenderCellsStep(widths: map<nat, nat>, row: Row, n: nat)
    requires 0 < n <= |row| && Renderable(widths, row)
    ensures RenderCells(widths, row, n - 1).Ok?
    ensures RenderCells(widths, row, n)
      == Ok(RenderCells(widths, row, n - 1).value + PaddedCells(widths, row)[n - 1] + (if n < |row| then "\t" else ""))
  {
    assert PaddedCells(widths, row)[n - 1] == Pad(row[n - 1], widths[n - 1] + 2);
  }

  /** A line is its padded cells joined by tabs (none after the last) and a line break. */
  lemma RenderLineJoin(widths: map<nat, nat>, row: Row)
    requires Renderable(widths, row)
    ensures RenderLine(widths, row) == Ok(Join("\t", PaddedCells(widths, row)) + "\n")
  {
    RenderCellsJoin(widths, row, |row|);
    var joined := Join("\t", PaddedCells(widths, row));
    assert PaddedCells(widths, row)[..|row|] == PaddedCells(widths, row);
    assert RenderCells(widths, row, |row|) == Ok(joined + "");
    assert joined + "" == joined;
  }

  /** In a rendered table every cell is padded to exactly its column's width plus two, and
      keeps its text at the front. */
  lemma PaddedCellsExact(rows: seq<Row>, r: nat, i: nat)
    requires r < |rows| && i < |rows[r]| && Renderable(ColumnWidths(rows), rows[r])
    ensures var cell := PaddedCells(ColumnWidths(rows), rows[r])[i];
      && |cell| == ColumnMax(rows, i) + 2
      && cell[..|rows[r][i]|] == rows[r][i]
      && forall k :: |rows[r][i]| <= k < |cell| ==> cell[k] == ' '
  {
    ColumnWidthsAreMaxima(rows, i);
    ColumnMaxMeaning(rows, i);
    assert CellLength(rows[r], i) == |rows[r][i]|;
  }

  // ---------------------------------------------------------------- the method

  /** The first pass of `toTextTable`: every cell of every row, recording the longest per
      column. */
  method MeasureColumns(rows: seq<Row>) returns (columnSize: map<nat, nat>)
    ensures columnSize == ColumnWidths(rows)
  {
    columnSize := map[];
    for k := 0 to |rows|
      invariant columnSize == ColumnWidths(rows[..k])
    {
      assert rows[..k + 1][..k] == rows[..k];
      var row := rows[k];
      ghost var start := columnSize;
      for i := 0 to |row|
        invariant columnSize == RowWidths(start, row[..i])
      {
        assert row[..i + 1][..i] == row[..i];
        var currentMaxSize := if i in columnSize then columnSize[i] else 0;
        var colSize := |row[i]|;
        if colSize > currentMaxSize {
          columnSize := columnSize[i := colSize];
        }
      }
      assert row[..|row|] == row;
    }
    assert rows[..|rows|] == rows;
  }

  /** The second pass for one row: each padded cell and its tab, then the line break. */
  method RenderRow(columnSize: map<nat, nat>, row: Row) returns (r: Result<string, JavaException>)
    ensures r == RenderLine(columnSize, row)
  {
    var line := "";
    for i := 0 to |row|
      invariant RenderCells(columnSize, row, i) == Ok(line)
    {
      if i !in columnSize {
        return Err(NullPointer);
      }
      line := line + Pad(row[i], columnSize[i] + 2) + (if i < |row| - 1 then "\t" else "");
    }
    return Ok(line + "\n");
  }

  /** `toTextTable`: the widths first, then the lines of all rows in order. */
  method ToTextTable(rows: seq<Row>) returns (r: Result<string, JavaException>)
    ensures r == TextTable(rows)
  {
    var columnSize := MeasureColumns(rows);
    var lines := "";
    for k := 0 to |rows|
      invariant RenderLines(columnSize, rows[..k]) == Ok(lines)
    {
      assert rows[..k + 1][..k] == rows[..k];
      var line := RenderRow(columnSize, rows[k]);
      if line.Err? {
        assert !Renderable(columnSize, rows[k]);
        return line;
      }
      lines := lines + line.value;
    }
    assert rows[..|rows|] == rows;
    return Ok(lines);
  }
}
