/** The cell-line layout reader, load_cell_line_layout: a table whose first column holds the row
    labels and whose other column headers are column numbers becomes an insertion-ordered mapping
    from well id (row label followed by the zero-padded column) to {row, column, cell_line}. */
module CellLineLayout {
  import opened Results
  import opened Text

  /** One table column after the row-label column: its header text and its cells, top to bottom. */
  datatype LayoutColumn = LayoutColumn(header: string, values: seq<string>)

  /** The table as read from the CSV file, with its first column set as the row index. */
  datatype LayoutTable = LayoutTable(rows: seq<string>, columns: seq<LayoutColumn>)

  datatype LayoutEntry = LayoutEntry(row: string, column: string, cellLine: string)

  /** An insertion-ordered dict from well id to entry, as a list of (key, value) pairs. */
  type Layout = seq<(string, LayoutEntry)>

  /** How rows are paired with a column's cells: zip(..., strict=True) or plain zip. */
  datatype ZipMode = Strict | Truncating

  function Wells(layout: Layout): (ws: seq<string>)
    ensures |ws| == |layout| && forall i :: 0 <= i < |layout| ==> ws[i] == layout[i].0
  {
    seq(|layout|, i requires 0 <= i < |layout| => layout[i].0)
  }

  predicate DistinctWells(layout: Layout) {
    forall i, j :: 0 <= i < j < |layout| ==> layout[i].0 != layout[j].0
  }

  /** No key twice, and every key is its entry's row followed by its entry's column. */
  predicate LayoutInvariant(layout: Layout) {
    DistinctWells(layout) &&
    forall i :: 0 <= i < |layout| ==> layout[i].0 == layout[i].1.row + layout[i].1.column
  }

  lemma SingleDigitBelowTen(s: string)
    requires |s| == 1 && IsDigits(s)
    ensures DigitsValue(s) < 10
  {
  }

  /** The per-row update of the loop variable `column`: int() of it, then "0" + str(n) when the
      number is below 10, otherwise the text unchanged. It fails exactly where int() does; for a
      non-negative number the result has at least two characters and int() reads it back as
      the same number. */
  function ColumnStep(column: string): (r: Result<string>)
    ensures r.Err? <==> ParseInt(column).None?
    ensures r.Err? ==> r.error == InvalidColumn(column)
    ensures r.Ok? && ParseInt(column).value >= 0 ==> ParseInt(r.value) == ParseInt(column) && |r.value| >= 2
  {
    match ParseInt(column)
    case None => Err(InvalidColumn(column))
    case Some(n) =>
      var padded := if n < 10 then "0" + IntToString(n) else column;
      assert 0 <= n < 10 ==> ParseInt(padded) == Some(n) && |padded| == 2 by {
        if 0 <= n < 10 {
          SmallPadding(n);
          PaddedDigitValue(n);
        }
      }
      assert n >= 10 ==> |padded| >= 2 by {
        if |column| == 1 && IsDigits(column) {
          SingleDigitBelowTen(column);
        }
      }
      Ok(padded)
  }

  /** A header that int() reads as a non-negative number. */
  predicate HeaderOk(header: string) {
    ParseInt(header).Some? && ParseInt(header).value >= 0
  }

  function Padded(header: string): string
    requires HeaderOk(header)
  {
    ColumnStep(header).value
  }

  /** The column suffix rule: a single-digit column n becomes the two characters "0n", a larger
      one keeps its header text. */
  lemma ColumnSuffixRule(header: string, n: int)
    requires ParseInt(header) == Some(n)
    ensures 0 <= n < 10 ==> ColumnStep(header) == Ok(['0', DigitChar(n)])
    ensures n >= 10 ==> ColumnStep(header) == Ok(header)
    ensures n < 0 ==> ColumnStep(header) == Ok("0-" + NatToString(-n))
  {
    if n < 0 {
      NegativePadding(n);
    } else if n < 10 {
      SmallPadding(n);
    }
  }

  lemma NegativePadding(n: int)
    requires n < 0
    ensures "0" + IntToString(n) == "0-" + NatToString(-n)
  {
  }

  lemma SmallPadding(n: int)
    requires 0 <= n < 10
    ensures "0" + IntToString(n) == ['0', DigitChar(n)]
  {
    assert IntToString(n) == [DigitChar(n)];
  }

  lemma PaddedDigitValue(d: nat)
    requires d < 10
    ensures ParseInt(['0', DigitChar(d)]) == Some(d)
  {
    var s := ['0', DigitChar(d)];
    assert IsDigits(s);
    assert s[..1] == "0";
    assert DigitsValue(s[..1]) == 0;
    assert DigitsValue(s) == 10 * DigitsValue(s[..1]) + d;
  }

  /** Re-applying the step to its own output changes nothing once the header is non-negative,
      so every row of a column gets the same suffix; int() of that suffix gives back the
      header's number, which is what the plate path builder relies on. */
  lemma PaddedStable(header: string)
    requires HeaderOk(header)
    ensures ColumnStep(Padded(header)) == Ok(Padded(header))
    ensures ParseInt(Padded(header)) == ParseInt(header)
  {
    var n := ParseInt(header).value;
    ColumnSuffixRule(header, n);
    if n < 10 { PaddedDigitValue(n); }
  }

  /** A negative header is padded on the first row to "0-n", which int() then rejects on the
      second row, because the loop re-reads the reassigned `column`. */
  lemma NegativeHeaderFailsOnSecondRow(header: string)
    requires ParseInt(header).Some? && ParseInt(header).value < 0
    ensures ColumnStep(header).Ok?
    ensures ColumnStep(ColumnStep(header).value).Err?
  {
    var n := ParseInt(header).value;
    ColumnSuffixRule(header, n);
    var s := ColumnStep(header).value;
    assert s[1] == '-';
    assert !IsDigits(s);
  }

  // ---------------------------------------------------------------------------------------------
  // Reference definition: the two loops unrolled as recursion.

  /** The inner loop over zip(rows, values) for one column, starting from `layout` with the loop
      variable `column` holding `column`; `header` names the column in a zip error. */
  function InsertRows(layout: Layout, column: string, rows: seq<string>, values: seq<string>,
                      mode: ZipMode, header: string): Result<Layout>
    decreases |rows|
  {
    if |rows| == 0 || |values| == 0 then
      if mode == Strict && |rows| != |values| then Err(ZipLengthMismatch(header)) else Ok(layout)
    else
      match ColumnStep(column)
      case Err(e) => Err(e)
      case Ok(col) =>
        var well := rows[0] + col;
        if well in Wells(layout) then Err(DuplicateWell(well))
        else InsertRows(layout + [(well, LayoutEntry(rows[0], col, values[0]))], col,
                        rows[1..], values[1..], mode, header)
  }

  /** The outer loop over the columns from index j on. */
  function InsertColumns(layout: Layout, table: LayoutTable, j: nat, mode: ZipMode): Result<Layout>
    decreases |table.columns| - j
  {
    if j >= |table.columns| then Ok(layout)
    else
      var c := table.columns[j];
      match InsertRows(layout, c.header, table.rows, c.values, mode, c.header)
      case Err(e) => Err(e)
      case Ok(next) => InsertColumns(next, table, j + 1, mode)
  }

  /** load_cell_line_layout on a table already read from CSV. Whatever the table, a successful
      result has no well id twice and keys every entry by its row followed by its column. */
  function LayoutOf(table: LayoutTable, mode: ZipMode): (r: Result<Layout>)
    ensures r.Ok? ==> LayoutInvariant(r.value)
  {
    InsertColumnsKeepsInvariant([], table, 0, mode);
    InsertColumns([], table, 0, mode)
  }

  // ---------------------------------------------------------------------------------------------
  // The source's loops.

  method LoadCellLineLayout(table: LayoutTable, mode: ZipMode) returns (r: Result<Layout>)
    ensures r == LayoutOf(table, mode)
  {
    var layout: Layout := [];
    var j := 0;
    while j < |table.columns|
      invariant 0 <= j <= |table.columns|
      invariant InsertColumns(layout, table, j, mode) == LayoutOf(table, mode)
    {
      var header := table.columns[j].header;
      var next := InsertColumnRows(layout, table.rows, table.columns[j].values, mode, header);
      if next.Err? {
        return Err(next.error);
      }
      layout := next.value;
      j := j + 1;
    }
    return Ok(layout);
  }

  /** `column = int(column)`, then `if column < 10: column = f"0{column}"`. */
  method PadColumn(column: string) returns (r: Result<string>)
    ensures r == ColumnStep(column)
  {
    var parsed := ParseInt(column);
    if parsed.None? {
      return Err(InvalidColumn(column));
    }
    var intColumn := parsed.value;
    if intColumn < 10 {
      return Ok("0" + IntToString(intColumn));
    }
    return Ok(column);
  }

  /** The inner loop for one column: for row, cell_line in zip(rows, values), re-pad the loop
      variable `column` (initially the header) and add the well; a strict zip of unequal lengths
      raises once the shorter side runs out. */
  method InsertColumnRows(layout0: Layout, rows: seq<string>, values: seq<string>, mode: ZipMode,
                          header: string) returns (r: Result<Layout>)
    ensures r == InsertRows(layout0, header, rows, values, mode, header)
  {
    var layout := layout0;
    var column := header;
    var restRows, restValues := rows, values;
    while |restRows| > 0 && |restValues| > 0
      invariant InsertRows(layout, column, restRows, restValues, mode, header) ==
                InsertRows(layout0, header, rows, values, mode, header)
      invariant |restRows| - |restValues| == |rows| - |values|
      decreases |restRows|
    {
      InsertRowsUnfold(layout, column, restRows, restValues, mode, header);
      var step := PadColumn(column);
      if step.Err? {
        return Err(step.error);
      }
      var well := restRows[0] + step.value;
      if well in Wells(layout) {
        return Err(DuplicateWell(well));
      }
      column := step.value;
      layout := layout + [(well, LayoutEntry(restRows[0], column, restValues[0]))];
      restRows, restValues := restRows[1..], restValues[1..];
    }
    if mode == Strict && |rows| != |values| {
      return Err(ZipLengthMismatch(header));
    }
    return Ok(layout);
  }

  // ---------------------------------------------------------------------------------------------
  // What the result is.

  /** One pass of the inner loop: a column int() rejects and a repeated well stop it, otherwise
      it goes on with the padded column and one more well. */
  lemma InsertRowsUnfold(layout: Layout, column: string, rows: seq<string>, values: seq<string>,
                         mode: ZipMode, header: string)
    requires |rows| > 0 && |values| > 0
    ensures ColumnStep(column).Err? ==>
              InsertRows(layout, column, rows, values, mode, header) == Err(ColumnStep(column).error)
    ensures ColumnStep(column).Ok? && rows[0] + ColumnStep(column).value in Wells(layout) ==>
              InsertRows(layout, column, rows, values, mode, header) ==
              Err(DuplicateWell(rows[0] + ColumnStep(column).value))
    ensures ColumnStep(column).Ok? && rows[0] + ColumnStep(column).value !in Wells(layout) ==>
              InsertRows(layout, column, rows, values, mode, header) ==
              InsertRows(layout + [(rows[0] + ColumnStep(column).value,
                                    LayoutEntry(rows[0], ColumnStep(column).value, values[0]))],
                         ColumnStep(column).value, rows[1..], values[1..], mode, header)
  {
  }

  lemma {:induction false} InsertRowsKeepsInvariant(layout: Layout, column: string, rows: seq<string>,
                                                    values: seq<string>, mode: ZipMode, header: string)
    requires LayoutInvariant(layout)
    ensures var r := InsertRows(layout, column, rows, values, mode, header);
            r.Ok? ==> LayoutInvariant(r.value) && |r.value| >= |layout| && r.value[..|layout|] == layout
    decreases |rows|
  {
    if |rows| > 0 && |values| > 0 && ColumnStep(column).Ok? {
      var col := ColumnStep(column).value;
      var well := rows[0] + col;
      if well !in Wells(layout) {
        var next := layout + [(well, LayoutEntry(rows[0], col, values[0]))];
        assert LayoutInvariant(next) by {
          forall i | 0 <= i < |layout| ensures next[i].0 != well {
            assert Wells(layout)[i] == layout[i].0;
          }
        }
        InsertRowsKeepsInvariant(next, col, rows[1..], values[1..], mode, header);
        var r := InsertRows(next, col, rows[1..], values[1..], mode, header);
        if r.Ok? {
          assert r.value[..|layout|] == r.value[..|next|][..|layout|];
        }
      }
    }
  }

  lemma {:induction false} InsertColumnsKeepsInvariant(layout: Layout, table: LayoutTable, j: nat, mode: ZipMode)
    requires LayoutInvariant(layout)
    ensures var r := InsertColumns(layout, table, j, mode);
            r.Ok? ==> LayoutInvariant(r.value)
    decreases |table.columns| - j
  {
    if j < |table.columns| {
      var c := table.columns[j];
      InsertRowsKeepsInvariant(layout, c.header, table.rows, c.values, mode, c.header);
      var r := InsertRows(layout, c.header, table.rows, c.values, mode, c.header);
      if r.Ok? {
        InsertColumnsKeepsInvariant(r.value, table, j + 1, mode);
      }
    }
  }

  /** The cells of one column in row order, each under its derived well id. */
  function ColumnCells(col: string, rows: seq<string>, values: seq<string>): (cells: Layout)
    ensures |cells| == if |rows| < |values| then |rows| else |values|
    decreases |rows|
  {
    if |rows| == 0 || |values| == 0 then []
    else [(rows[0] + col, LayoutEntry(rows[0], col, values[0]))] + ColumnCells(col, rows[1..], values[1..])
  }

  predicate HeadersOk(table: LayoutTable) {
    forall j :: 0 <= j < |table.columns| ==> HeaderOk(table.columns[j].header)
  }

  /** Every column has as many cells as there are rows (always so for a pandas frame). */
  predicate Rectangular(table: LayoutTable) {
    forall j :: 0 <= j < |table.columns| ==> |table.columns[j].values| == |table.rows|
  }

  /** The padded column text of every header, column by column. */
  function Labels(table: LayoutTable): (labels: seq<string>)
    requires HeadersOk(table)
    ensures |labels| == |table.columns|
    ensures forall k :: 0 <= k < |labels| ==> labels[k] == Padded(table.columns[k].header)
  {
    seq(|table.columns|, k requires 0 <= k < |table.columns| => Padded(table.columns[k].header))
  }

  /** The cells of the columns from index j on, column after column, column k under labels[k]. */
  function Stacked(labels: seq<string>, rows: seq<string>, columns: seq<LayoutColumn>, j: nat): Layout
    requires |labels| == |columns|
    decreases |columns| - j
  {
    if j >= |columns| then []
    else ColumnCells(labels[j], rows, columns[j].values) + Stacked(labels, rows, columns, j + 1)
  }

  /** All cells of the columns from index j on, column after column. */
  function CellsFrom(table: LayoutTable, j: nat): Layout
    requires HeadersOk(table)
  {
    Stacked(Labels(table), table.rows, table.columns, j)
  }

  lemma CellsFromCons(table: LayoutTable, j: nat)
    requires HeadersOk(table) && j < |table.columns|
    ensures CellsFrom(table, j) ==
            ColumnCells(Padded(table.columns[j].header), table.rows, table.columns[j].values) + CellsFrom(table, j + 1)
  {
  }

  /** Every cell of the table in column-major order, under its derived well id. */
  function Cells(table: LayoutTable): Layout
    requires HeadersOk(table)
  {
    CellsFrom(table, 0)
  }

  lemma DistinctPrefix(a: Layout, b: Layout)
    requires DistinctWells(a + b)
    ensures DistinctWells(a)
  {
    assert forall i :: 0 <= i < |a| ==> (a + b)[i] == a[i];
  }

  /** Cell j is the first whose well id was already derived: the cells before it are distinct
      and one of them has its well id. */
  predicate FirstRepeatAt(cells: Layout, j: int) {
    0 <= j < |cells| && DistinctWells(cells[..j]) && cells[j].0 in Wells(cells[..j])
  }

  /** A cell whose well id appears before it makes every longer prefix repeat a well id. */
  lemma RepeatBreaksDistinct(cells: Layout, i: int, j: int)
    requires FirstRepeatAt(cells, i) && i < j <= |cells|
    ensures !DistinctWells(cells[..j])
  {
    var m :| 0 <= m < i && Wells(cells[..i])[m] == cells[i].0;
    assert cells[..j][m] == cells[m] && cells[..j][i] == cells[i];
  }

  /** There is at most one first repeated cell. */
  lemma FirstRepeatUnique(cells: Layout, i: int, j: int)
    requires FirstRepeatAt(cells, i) && FirstRepeatAt(cells, j)
    ensures i == j
  {
    if i < j {
      RepeatBreaksDistinct(cells, i, j);
    } else if j < i {
      RepeatBreaksDistinct(cells, j, i);
    }
  }

  lemma FirstRepeatExtends(a: Layout, b: Layout, j: int)
    requires FirstRepeatAt(a, j)
    ensures FirstRepeatAt(a + b, j) && (a + b)[j] == a[j]
  {
    assert (a + b)[..j] == a[..j];
  }

  lemma {:induction false} InsertRowsMeaning(layout: Layout, column: string, rows: seq<string>,
                                             values: seq<string>, mode: ZipMode, header: string)
    requires DistinctWells(layout) && HeaderOk(header)
    requires column == header || column == Padded(header)
    ensures var r := InsertRows(layout, column, rows, values, mode, header);
            var all := layout + ColumnCells(Padded(header), rows, values);
            (r.Ok? <==> DistinctWells(all) && (mode == Strict ==> |rows| == |values|)) &&
            (r.Ok? ==> r.value == all) &&
            (r.Err? && (mode == Truncating || |rows| == |values|) ==>
               exists j :: FirstRepeatAt(all, j) && r.error == DuplicateWell(all[j].0))
    decreases |rows|
  {
    var p := Padded(header);
    PaddedStable(header);
    if |rows| > 0 && |values| > 0 {
      assert ColumnStep(column) == Ok(p);
      var well := rows[0] + p;
      var cell := (well, LayoutEntry(rows[0], p, values[0]));
      var all := layout + ColumnCells(p, rows, values);
      assert ColumnCells(p, rows, values) == [cell] + ColumnCells(p, rows[1..], values[1..]);
      AppendAssoc(layout, [cell], ColumnCells(p, rows[1..], values[1..]));
      if well in Wells(layout) {
        var i :| 0 <= i < |layout| && Wells(layout)[i] == well;
        assert all[i].0 == well && all[|layout|].0 == well;
        assert all[..|layout|] == layout;
        assert FirstRepeatAt(all, |layout|);
      } else {
        assert DistinctWells(layout + [cell]) by {
          forall i | 0 <= i < |layout| ensures layout[i].0 != well {
            assert Wells(layout)[i] == layout[i].0;
          }
        }
        InsertRowsMeaning(layout + [cell], p, rows[1..], values[1..], mode, header);
      }
    }
  }

  /** Every column from index j on has one cell per row. */
  predicate ShapeFrom(table: LayoutTable, j: nat) {
    forall k :: j <= k < |table.columns| ==> |table.columns[k].values| == |table.rows|
  }

  lemma ShapeFromCons(table: LayoutTable, j: nat)
    requires j < |table.columns|
    ensures ShapeFrom(table, j) <==> |table.columns[j].values| == |table.rows| && ShapeFrom(table, j + 1)
  {
  }

  /** What the outer loop from column j on computes, starting from `layout`. */
  ghost predicate ColumnsOutcome(layout: Layout, table: LayoutTable, j: nat, mode: ZipMode)
    requires HeadersOk(table)
  {
    var r := InsertColumns(layout, table, j, mode);
    var all := layout + CellsFrom(table, j);
    var shapeOk := ShapeFrom(table, j);
    (r.Ok? <==> DistinctWells(all) && (mode == Strict ==> shapeOk)) && (r.Ok? ==> r.value == all) &&
    (r.Err? && (mode == Truncating || shapeOk) ==>
       exists i :: FirstRepeatAt(all, i) && r.error == DuplicateWell(all[i].0))
  }

  /** From column j on, the outer loop succeeds exactly when the remaining cells add no well
      id twice (and, with a strict zip, every remaining column has one cell per row); it then
      appends those cells, and otherwise a table with one cell per row (or the plain zip) fails
      on the first repeated well id. */
  lemma {:induction false} InsertColumnsMeaning(layout: Layout, table: LayoutTable, j: nat, mode: ZipMode)
    requires DistinctWells(layout) && HeadersOk(table)
    ensures ColumnsOutcome(layout, table, j, mode)
    decreases |table.columns| - j
  {
    if j < |table.columns| {
      var c := table.columns[j];
      InsertRowsMeaning(layout, c.header, table.rows, c.values, mode, c.header);
      var r := InsertRows(layout, c.header, table.rows, c.values, mode, c.header);
      if r.Ok? {
        InsertColumnsMeaning(r.value, table, j + 1, mode);
        InsertColumnsContinues(layout, table, j, mode);
      } else {
        InsertColumnsFails(layout, table, j, mode);
      }
    }
  }

  /** When the column at j succeeds, the outer loop goes on from its result. */
  lemma InsertColumnsContinues(layout: Layout, table: LayoutTable, j: nat, mode: ZipMode)
    requires DistinctWells(layout) && HeadersOk(table) && j < |table.columns|
    requires var c := table.columns[j];
             var r := InsertRows(layout, c.header, table.rows, c.values, mode, c.header);
             r.Ok? && ColumnsOutcome(r.value, table, j + 1, mode)
    ensures ColumnsOutcome(layout, table, j, mode)
  {
    var c := table.columns[j];
    var first := ColumnCells(Padded(c.header), table.rows, c.values);
    InsertRowsMeaning(layout, c.header, table.rows, c.values, mode, c.header);
    var r := InsertRows(layout, c.header, table.rows, c.values, mode, c.header);
    assert r.value == layout + first;
    CellsFromCons(table, j);
    AppendAssoc(layout, first, CellsFrom(table, j + 1));
    assert InsertColumns(layout, table, j, mode) == InsertColumns(r.value, table, j + 1, mode);
    ShapeFromCons(table, j);
  }

  /** When the column at j fails, the outer loop fails with its error. */
  lemma InsertColumnsFails(layout: Layout, table: LayoutTable, j: nat, mode: ZipMode)
    requires DistinctWells(layout) && HeadersOk(table) && j < |table.columns|
    requires var c := table.columns[j]; InsertRows(layout, c.header, table.rows, c.values, mode, c.header).Err?
    ensures var r := InsertColumns(layout, table, j, mode);
            var all := layout + CellsFrom(table, j);
            var shapeOk := ShapeFrom(table, j);
            r.Err? && !(DistinctWells(all) && (mode == Strict ==> shapeOk)) &&
            (mode == Truncating || shapeOk ==>
               exists i :: FirstRepeatAt(all, i) && r.error == DuplicateWell(all[i].0))
  {
    var c := table.columns[j];
    var first := ColumnCells(Padded(c.header), table.rows, c.values);
    var rest := CellsFrom(table, j + 1);
    ShapeFromCons(table, j);
    InsertRowsMeaning(layout, c.header, table.rows, c.values, mode, c.header);
    var r := InsertRows(layout, c.header, table.rows, c.values, mode, c.header);
    assert InsertColumns(layout, table, j, mode) == Err(r.error);
    CellsFromCons(table, j);
    AppendAssoc(layout, first, rest);
    if DistinctWells((layout + first) + rest) {
      DistinctPrefix(layout + first, rest);
    }
    if mode == Truncating || |c.values| == |table.rows| {
      var i :| FirstRepeatAt(layout + first, i) && r.error == DuplicateWell((layout + first)[i].0);
      FirstRepeatExtends(layout + first, rest, i);
    }
  }

  /** For a table whose headers are non-negative numbers, the layout builder succeeds exactly
      when no well id is derived twice (and, with a strict zip, every column has one cell per
      row), and then holds every cell of the table, one entry each. When it fails on a table
      with one cell per row (or with the plain zip), the error is the duplicate-well error for
      the first cell, in column-major order, whose well id was already derived. */
  lemma LayoutOfMeaning(table: LayoutTable, mode: ZipMode)
    requires HeadersOk(table)
    ensures LayoutOf(table, mode).Ok? <==>
            DistinctWells(Cells(table)) && (mode == Strict ==> Rectangular(table))
    ensures LayoutOf(table, mode).Ok? ==> LayoutOf(table, mode).value == Cells(table)
    ensures LayoutOf(table, mode).Err? && (mode == Truncating || Rectangular(table)) ==>
            exists j :: FirstRepeatAt(Cells(table), j) && LayoutOf(table, mode).error == DuplicateWell(Cells(table)[j].0)
  {
    InsertColumnsMeaning([], table, 0, mode);
    assert [] + CellsFrom(table, 0) == Cells(table);
  }

  /** The outer loop over the first n columns, then over the rest. */
  lemma {:induction false} InsertColumnsSplit(layout: Layout, table: LayoutTable, j: nat, n: nat, mode: ZipMode)
    requires j <= n <= |table.columns|
    ensures InsertColumns(layout, table, j, mode) ==
            match InsertColumns(layout, LayoutTable(table.rows, table.columns[..n]), j, mode)
            case Err(e) => Err(e)
            case Ok(next) => InsertColumns(next, table, n, mode)
    decreases n - j
  {
    if j < n {
      var c := table.columns[j];
      assert LayoutTable(table.rows, table.columns[..n]).columns[j] == c;
      var r := InsertRows(layout, c.header, table.rows, c.values, mode, c.header);
      if r.Ok? {
        InsertColumnsSplit(r.value, table, j + 1, n, mode);
      }
    }
  }

  /** A column header that int() rejects raises, naming the header, once the columns before it
      have been added without error (the first row of that column already calls int()). */
  lemma InvalidHeaderRejected(table: LayoutTable, mode: ZipMode, j: nat)
    requires j < |table.columns| && table.rows != [] && table.columns[j].values != []
    requires ParseInt(table.columns[j].header).None?
    requires LayoutOf(LayoutTable(table.rows, table.columns[..j]), mode).Ok?
    ensures LayoutOf(table, mode) == Err(InvalidColumn(table.columns[j].header))
  {
    InsertColumnsSplit([], table, 0, j, mode);
  }

  /** On a full table the two zip modes agree, errors included: strict=True only makes a
      difference for a column shorter or longer than the row index. */
  lemma ZipModesAgreeOnRectangular(table: LayoutTable)
    requires Rectangular(table)
    ensures LayoutOf(table, Strict) == LayoutOf(table, Truncating)
  {
    ColumnsModeIrrelevant([], table, 0);
  }

  lemma {:induction false} ColumnsModeIrrelevant(layout: Layout, table: LayoutTable, j: nat)
    requires Rectangular(table)
    ensures InsertColumns(layout, table, j, Strict) == InsertColumns(layout, table, j, Truncating)
    decreases |table.columns| - j
  {
    if j < |table.columns| {
      var c := table.columns[j];
      RowsModeIrrelevant(layout, c.header, table.rows, c.values, c.header);
      var r := InsertRows(layout, c.header, table.rows, c.values, Strict, c.header);
      if r.Ok? {
        ColumnsModeIrrelevant(r.value, table, j + 1);
      }
    }
  }

  lemma {:induction false} RowsModeIrrelevant(layout: Layout, column: string, rows: seq<string>,
                                              values: seq<string>, header: string)
    requires |rows| == |values|
    ensures InsertRows(layout, column, rows, values, Strict, header) ==
            InsertRows(layout, column, rows, values, Truncating, header)
    decreases |rows|
  {
    if |rows| > 0 && ColumnStep(column).Ok? {
      var col := ColumnStep(column).value;
      var well := rows[0] + col;
      if well !in Wells(layout) {
        RowsModeIrrelevant(layout + [(well, LayoutEntry(rows[0], col, values[0]))], col,
                           rows[1..], values[1..], header);
      }
    }
  }

  lemma {:induction false} ColumnCellsAt(col: string, rows: seq<string>, values: seq<string>, i: nat)
    requires |rows| == |values| && i < |rows|
    ensures ColumnCells(col, rows, values)[i] == (rows[i] + col, LayoutEntry(rows[i], col, values[i]))
    decreases |rows|
  {
    if i > 0 {
      ColumnCellsAt(col, rows[1..], values[1..], i - 1);
    }
  }

  /** Row i of column k, under its derived well id. */
  function CellAt(table: LayoutTable, k: nat, i: nat): (string, LayoutEntry)
    requires HeadersOk(table) && k < |table.columns| && i < |table.columns[k].values| && i < |table.rows|
  {
    var h := Padded(table.columns[k].header);
    (table.rows[i] + h, LayoutEntry(table.rows[i], h, table.columns[k].values[i]))
  }

  /** d * n, written as repeated addition to keep non-linear arithmetic out of the proofs. */
  function Stride(d: nat, n: nat): nat {
    if d == 0 then 0 else n + Stride(d - 1, n)
  }

  lemma {:induction false} StrideIsProduct(d: nat, n: nat)
    ensures Stride(d, n) == d * n
  {
    if d > 0 {
      StrideIsProduct(d - 1, n);
      assert d * n == n + (d - 1) * n;
    }
  }

  lemma AppendAssoc(a: Layout, b: Layout, c: Layout)
    ensures a + (b + c) == (a + b) + c
  {
  }

  lemma ConcatIndex(a: Layout, b: Layout, x: nat)
    requires |a| <= x < |a| + |b|
    ensures (a + b)[x] == b[x - |a|]
  {
  }

  /** Every column has one cell per row. */
  predicate FullColumns(rows: seq<string>, columns: seq<LayoutColumn>) {
    forall k :: 0 <= k < |columns| ==> |columns[k].values| == |rows|
  }

  lemma {:induction false} StackedLength(labels: seq<string>, rows: seq<string>, columns: seq<LayoutColumn>, j: nat)
    requires |labels| == |columns| && FullColumns(rows, columns) && j <= |columns|
    ensures |Stacked(labels, rows, columns, j)| == Stride(|columns| - j, |rows|)
    decreases |columns| - j
  {
    if j < |columns| {
      StackedLength(labels, rows, columns, j + 1);
      assert |columns[j].values| == |rows|;
    }
  }

  lemma {:induction false} StackedAt(labels: seq<string>, rows: seq<string>, columns: seq<LayoutColumn>,
                                     j: nat, k: nat, i: nat)
    requires |labels| == |columns| && FullColumns(rows, columns)
    requires j <= k < |columns| && i < |rows|
    ensures Stride(k - j, |rows|) + i < |Stacked(labels, rows, columns, j)|
    ensures Stacked(labels, rows, columns, j)[Stride(k - j, |rows|) + i] ==
            (rows[i] + labels[k], LayoutEntry(rows[i], labels[k], columns[k].values[i]))
    decreases |columns| - j
  {
    var n := |rows|;
    var first := ColumnCells(labels[j], rows, columns[j].values);
    var rest := Stacked(labels, rows, columns, j + 1);
    assert |columns[j].values| == n;
    if k == j {
      ColumnCellsAt(labels[j], rows, columns[j].values, i);
    } else {
      assert Stride(k - j, n) == n + Stride(k - (j + 1), n);
      StackedAt(labels, rows, columns, j + 1, k, i);
      ConcatIndex(first, rest, Stride(k - j, n) + i);
    }
  }

  /** Column-major order: on a full table with R rows, entry k * R + i of the layout is row i of
      column k. */
  lemma LayoutColumnMajor(table: LayoutTable, mode: ZipMode, k: nat, i: nat)
    requires HeadersOk(table) && Rectangular(table) && LayoutOf(table, mode).Ok?
    requires k < |table.columns| && i < |table.rows|
    ensures |LayoutOf(table, mode).value| == |table.columns| * |table.rows|
    ensures k * |table.rows| + i < |LayoutOf(table, mode).value|
    ensures LayoutOf(table, mode).value[k * |table.rows| + i] == CellAt(table, k, i)
  {
    LayoutOfMeaning(table, mode);
    assert FullColumns(table.rows, table.columns);
    StackedAt(Labels(table), table.rows, table.columns, 0, k, i);
    StackedLength(Labels(table), table.rows, table.columns, 0);
    StrideIsProduct(k, |table.rows|);
    StrideIsProduct(|table.columns|, |table.rows|);
  }

  /** Every entry's column text is read by int() as a non-negative number. */
  predicate ColumnsParse(layout: Layout) {
    forall k :: 0 <= k < |layout| ==> HeaderOk(layout[k].1.column)
  }

  lemma {:induction false} ColumnCellsColumns(col: string, rows: seq<string>, values: seq<string>)
    requires HeaderOk(col)
    ensures ColumnsParse(ColumnCells(col, rows, values))
    decreases |rows|
  {
    if |rows| > 0 && |values| > 0 {
      ColumnCellsColumns(col, rows[1..], values[1..]);
    }
  }

  lemma {:induction false} CellsFromColumnsParse(table: LayoutTable, j: nat)
    requires HeadersOk(table)
    ensures ColumnsParse(CellsFrom(table, j))
    decreases |table.columns| - j
  {
    if j < |table.columns| {
      var c := table.columns[j];
      PaddedStable(c.header);
      ColumnCellsColumns(Padded(c.header), table.rows, c.values);
      CellsFromColumnsParse(table, j + 1);
      CellsFromCons(table, j);
      var first: Layout := ColumnCells(Padded(c.header), table.rows, c.values);
      var rest: Layout := CellsFrom(table, j + 1);
      var all: Layout := first + rest;
      forall k | 0 <= k < |all| ensures HeaderOk(all[k].1.column) {
        if k >= |first| {
          ConcatIndex(first, rest, k);
        }
      }
    }
  }

  /** For non-negative headers, int() reads every stored column text of the layout back. */
  lemma LayoutColumnsParse(table: LayoutTable, mode: ZipMode)
    requires HeadersOk(table) && LayoutOf(table, mode).Ok?
    ensures ColumnsParse(LayoutOf(table, mode).value)
  {
    LayoutOfMeaning(table, mode);
    CellsFromColumnsParse(table, 0);
  }

  /** The stored column of row i of column k is read back by int() as that column's header
      number, and its row is the row label: the plate path built from the entry names the cell's
      own row and column. */
  lemma LayoutColumnRoundTrip(table: LayoutTable, mode: ZipMode, k: nat, i: nat)
    requires HeadersOk(table) && Rectangular(table) && LayoutOf(table, mode).Ok?
    requires k < |table.columns| && i < |table.rows|
    ensures k * |table.rows| + i < |LayoutOf(table, mode).value|
    ensures var entry := LayoutOf(table, mode).value[k * |table.rows| + i].1;
            ParseInt(entry.column) == ParseInt(table.columns[k].header) && entry.row == table.rows[i]
  {
    LayoutColumnMajor(table, mode, k, i);
    PaddedStable(table.columns[k].header);
  }

  /** A header "3" next to a header "03" derives the well "A03" twice. */
  lemma RepeatedColumnIsDuplicate()
    ensures LayoutOf(LayoutTable(["A"], [LayoutColumn("3", ["WT"]), LayoutColumn("03", ["KO"])]), Strict)
            == Err(DuplicateWell("A03"))
  {
    var t := LayoutTable(["A"], [LayoutColumn("3", ["WT"]), LayoutColumn("03", ["KO"])]);
    PaddedDigitValue(3);
    assert DigitChar(3) == '3';
    assert ParseInt("3") == Some(3);
    assert IntToString(3) == "3";
    ColumnSuffixRule("3", 3);
    assert ColumnStep("3") == Ok("03");
    ColumnSuffixRule("03", 3);
    assert ColumnStep("03") == Ok("03");
    var first := [("A03", LayoutEntry("A", "03", "WT"))];
    assert InsertRows([], "3", ["A"], ["WT"], Strict, "3") == Ok(first) by {
      assert ["A"][1..] == [] && ["WT"][1..] == [];
      assert "A" + "03" == "A03";
      assert "A03" !in Wells([]);
      var empty: Layout := [];
      assert empty + [("A03", LayoutEntry("A", "03", "WT"))] == first;
      assert InsertRows(first, "03", [], [], Strict, "3") == Ok(first);
    }
    assert Wells(first) == ["A03"];
    assert "A" + "03" == "A03";
    assert InsertRows(first, "03", ["A"], ["KO"], Strict, "03") == Err(DuplicateWell("A03"));
  }
}
