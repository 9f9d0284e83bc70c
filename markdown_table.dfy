/** The MarkdownTable builder and renderer of src/lib.rs: a mandatory header
    row, data rows that must each have as many cells as the header, column
    widths sized to the widest cell, and the rendering to pipe-delimited
    text. */
module ToMarkdownTable {
  import opened TableLayout

  /** A row: its cells' texts, in column order. */
  type TableRow = seq<string>

  datatype MarkdownTableError =
    | InvalidRowLength(expected: nat, actual: nat)
    | NoRowsSpecified

  datatype Result<T> = Ok(value: T) | Err(error: MarkdownTableError)

  datatype Option<T> = None | Some(value: T) {
    function UnwrapOr(default: T): T
    {
      match this
      case Some(v) => v
      case None => default
    }
  }

  /** The table invariant: every data row has as many cells as the header. */
  predicate RowsFit(header: TableRow, rows: seq<TableRow>)
  {
    forall i | 0 <= i < |rows| :: |rows[i]| == |header|
  }

  /** validate_row_length: a row is accepted exactly when it has as many
      cells as the header. */
  function ValidateRowLength(header: TableRow, newRow: TableRow): Result<()>
  {
    if |header| != |newRow| then Err(InvalidRowLength(|header|, |newRow|)) else Ok(())
  }

  /** Row i is the first row, in order, whose length differs from the header's. */
  ghost predicate FirstMismatchAt(header: TableRow, rows: seq<TableRow>, i: int)
  {
    0 <= i < |rows| && |rows[i]| != |header| &&
    forall j | 0 <= j < i :: |rows[j]| == |header|
  }

  /** The validation loop of MarkdownTable::new: check the rows in order and
      stop at the first one of the wrong length. */
  method ValidateRows(header: TableRow, rows: seq<TableRow>) returns (r: Result<()>)
    ensures r.Ok? <==> RowsFit(header, rows)
    ensures r.Err? ==>
      exists i | 0 <= i < |rows| ::
        FirstMismatchAt(header, rows, i) && r.error == InvalidRowLength(|header|, |rows[i]|)
  {
    for i := 0 to |rows|
      invariant forall j | 0 <= j < i :: |rows[j]| == |header|
    {
      var v := ValidateRowLength(header, rows[i]);
      if v.Err? {
        assert FirstMismatchAt(header, rows, i);
        return Err(v.error);
      }
    }
    return Ok(());
  }

  /** The fold of col_len: starting from 0, keep the longer of the
      accumulator and each row's cell in column col. */
  function MaxCellLen(rows: seq<TableRow>, col: nat): (m: nat)
    requires forall i | 0 <= i < |rows| :: col < |rows[i]|
    ensures forall i | 0 <= i < |rows| :: |rows[i][col]| <= m
    ensures m == 0 || exists i | 0 <= i < |rows| :: m == |rows[i][col]|
    decreases |rows|
  {
    if rows == [] then 0
    else
      var n := |rows| - 1;
      var acc := MaxCellLen(rows[..n], col);
      var cur := |rows[n][col]|;
      if cur > acc then cur else acc
  }

  /** col_len: no width outside the table; inside it, the longest of the
      header cell and every data cell in that column. */
  function ColLen(header: TableRow, rows: seq<TableRow>, col: nat): (r: Option<nat>)
    requires RowsFit(header, rows)
    ensures r.None? <==> col >= |header|
    ensures r.Some? ==>
      |header[col]| <= r.value && forall i | 0 <= i < |rows| :: |rows[i][col]| <= r.value
    ensures r.Some? ==>
      r.value == |header[col]| || exists i | 0 <= i < |rows| :: r.value == |rows[i][col]|
    ensures r.Some? && rows == [] ==> r.value == |header[col]|
  {
    if col >= |header| then None
    else
      var colLen := MaxCellLen(rows, col);
      if colLen > |header[col]| then Some(colLen) else Some(|header[col]|)
  }

  /** The display width of every column. */
  function Widths(header: TableRow, rows: seq<TableRow>): (ws: seq<nat>)
    requires RowsFit(header, rows)
    ensures |ws| == |header|
    ensures forall c | 0 <= c < |header| :: ColLen(header, rows, c) == Some(ws[c])
  {
    seq(|header|, c requires 0 <= c < |header| => ColLen(header, rows, c).value)
  }

  /** The lines Display::fmt writes: the header line, the dash separator,
      then one line per data row in order. */
  function RenderLines(header: TableRow, rows: seq<TableRow>): seq<string>
    requires RowsFit(header, rows)
  {
    var ws := Widths(header, rows);
    [Line(Padded(header, ws)), Line(Rule(ws))]
      + seq(|rows|, i requires 0 <= i < |rows| => Line(Padded(rows[i], ws)))
  }

  /** The whole text Display::fmt writes. */
  function Render(header: TableRow, rows: seq<TableRow>): string
    requires RowsFit(header, rows)
  {
    Concat(RenderLines(header, rows))
  }

  class MarkdownTable {
    var header: TableRow
    var rows: seq<TableRow>

    predicate Valid()
      reads this
    {
      RowsFit(header, rows)
    }

    /** The struct literal `Self { header, rows }`. */
    constructor (header: TableRow, rows: seq<TableRow>)
      ensures this.header == header && this.rows == rows
    {
      this.header := header;
      this.rows := rows;
    }

    /** MarkdownTable::new: a table exactly when every row has the header's
        cell count; otherwise the error for the first row that does not. */
    static method New(header: TableRow, rows: seq<TableRow>) returns (r: Result<MarkdownTable>)
      ensures r.Ok? <==> RowsFit(header, rows)
      ensures r.Ok? ==>
        fresh(r.value) && r.value.Valid() && r.value.header == header && r.value.rows == rows
      ensures r.Err? ==>
        exists i | 0 <= i < |rows| ::
          FirstMismatchAt(header, rows, i) && r.error == InvalidRowLength(|header|, |rows[i]|)
    {
      var checked := ValidateRows(header, rows);
      if checked.Err? {
        return Err(checked.error);
      }
      var table := new MarkdownTable(header, rows);
      return Ok(table);
    }

    /** cols: the header's cell count, which every row of a valid table has. */
    function Cols(): (n: nat)
      reads this
      ensures n == |header|
      ensures Valid() ==> forall i | 0 <= i < |rows| :: |rows[i]| == n
    {
      |header|
    }

    /** add_row: append the row when it has the header's cell count;
        otherwise report InvalidRowLength and leave the table unchanged. */
    method AddRow(row: TableRow) returns (r: Result<()>)
      requires Valid()
      modifies this`rows
      ensures Valid()
      ensures header == old(header) && Cols() == old(Cols())
      ensures r.Ok? <==> |row| == |header|
      ensures r.Ok? ==> rows == old(rows) + [row]
      ensures r.Err? ==> r.error == InvalidRowLength(|header|, |row|) && rows == old(rows)
    {
      var checked := ValidateRowLength(header, row);
      if checked.Err? {
        return Err(checked.error);
      }
      rows := rows + [row];
      return Ok(());
    }

    /** One header or data line of Display::fmt: each cell written as
        "| {text:width$} " with the width from col_len, then "|\n". */
    method PaddedLine(cells: TableRow) returns (line: string)
      requires Valid() && |cells| == |header|
      ensures line == Line(Padded(cells, Widths(header, rows)))
    {
      ghost var segs := Segments(Padded(cells, Widths(header, rows)));
      line := "";
      for col := 0 to Cols()
        invariant line == Concat(segs[..col])
      {
        var len := ColLen(header, rows, col).UnwrapOr(0);
        ConcatSnoc(segs, col);
        line := line + Cell(Pad(cells[col], len));
      }
      assert segs[..|header|] == segs;
      line := line + "|\n";
    }

    /** The separator line of Display::fmt: each column written as
        "| {text} " with text a run of col_len dashes, then "|\n". */
    method SeparatorLine() returns (line: string)
      requires Valid()
      ensures line == Line(Rule(Widths(header, rows)))
    {
      ghost var segs := Segments(Rule(Widths(header, rows)));
      line := "";
      for col := 0 to Cols()
        invariant line == Concat(segs[..col])
      {
        var len := ColLen(header, rows, col).UnwrapOr(0);
        ConcatSnoc(segs, col);
        line := line + Cell(Dashes(len));
      }
      assert segs[..|header|] == segs;
      line := line + "|\n";
    }

    /** Display::fmt: the header line, the separator line, then each data
        row in order. */
    method Fmt() returns (out: string)
      requires Valid()
      ensures out == Render(header, rows)
    {
      ghost var lines := RenderLines(header, rows);
      out := PaddedLine(header);
      var separator := SeparatorLine();
      ConcatSnoc(lines, 0);
      assert lines[..0] == [];
      ConcatSnoc(lines, 1);
      out := out + separator;
      for i := 0 to |rows|
        invariant out == Concat(lines[..2 + i])
      {
        var line := PaddedLine(rows[i]);
        ConcatSnoc(lines, 2 + i);
        out := out + line;
      }
      assert lines[..2 + |rows|] == lines;
    }
  }

  /** Line 2 + k of the output is the line of data row k. */
  lemma RowLineAt(header: TableRow, rows: seq<TableRow>, k: nat)
    requires RowsFit(header, rows) && k < |rows|
    ensures RenderLines(header, rows)[2 + k] == Line(Padded(rows[k], Widths(header, rows)))
  {
  }

  /** A successful add_row widens column c to the new row's cell when that
      cell is longer, and leaves it as it was otherwise. */
  lemma ColLenAfterAddRow(header: TableRow, rows: seq<TableRow>, row: TableRow, c: nat)
    requires RowsFit(header, rows) && |row| == |header| && c < |header|
    ensures RowsFit(header, rows + [row])
    ensures var before := ColLen(header, rows, c).value;
            ColLen(header, rows + [row], c)
              == Some(if |row[c]| > before then |row[c]| else before)
  {
  }

  /** Every cell of the table fits its column's width, so padding never
      truncates: each padded cell is exactly the column width. */
  lemma CellsFitWidths(header: TableRow, rows: seq<TableRow>)
    requires RowsFit(header, rows)
    ensures Fits(header, Widths(header, rows))
    ensures forall i | 0 <= i < |rows| :: Fits(rows[i], Widths(header, rows))
  {
  }

  /** The output has 2 + |rows| lines, each ending in "|\n" and each of the
      same length: the sum over columns of (col_len + 3), plus "|\n". */
  lemma RenderedLines(header: TableRow, rows: seq<TableRow>)
    requires RowsFit(header, rows)
    ensures |RenderLines(header, rows)| == 2 + |rows|
    ensures forall i | 0 <= i < 2 + |rows| ::
      |RenderLines(header, rows)[i]| == SegmentsWidth(Widths(header, rows)) + 2 &&
      RenderLines(header, rows)[i][|RenderLines(header, rows)[i]| - 2..] == "|\n"
  {
    var ws := Widths(header, rows);
    var lines := RenderLines(header, rows);
    CellsFitWidths(header, rows);
    forall i | 0 <= i < 2 + |rows|
      ensures |lines[i]| == SegmentsWidth(ws) + 2 && lines[i][|lines[i]| - 2..] == "|\n"
    {
      if i == 0 {
        PaddedExact(header, ws);
        LineShape(Padded(header, ws), ws);
      } else if i == 1 {
        LineShape(Rule(ws), ws);
      } else {
        PaddedExact(rows[i - 2], ws);
        LineShape(Padded(rows[i - 2], ws), ws);
      }
    }
  }

  /** In the header line, the segment of column c starts after the
      segments of the columns before it and is "| " + the header cell,
      left-aligned and space-padded to exactly col_len(c) characters, + " ";
      with Pad's contract, the cell is never truncated. */
  lemma RenderedHeaderCell(header: TableRow, rows: seq<TableRow>, c: nat)
    requires RowsFit(header, rows) && c < |header|
    ensures var ws := Widths(header, rows);
            var line := RenderLines(header, rows)[0];
            var off := SegmentsWidth(ws[..c]);
            off + ws[c] + 3 <= |line| &&
            line[off .. off + ws[c] + 3] == "| " + Pad(header[c], ws[c]) + " " &&
            |Pad(header[c], ws[c])| == ws[c]
  {
    var ws := Widths(header, rows);
    CellsFitWidths(header, rows);
    PaddedSegmentAt(header, ws, c);
  }

  /** The same for data row k, which is line 2 + k. */
  lemma RenderedRowCell(header: TableRow, rows: seq<TableRow>, k: nat, c: nat)
    requires RowsFit(header, rows) && k < |rows| && c < |header|
    ensures var ws := Widths(header, rows);
            var line := RenderLines(header, rows)[2 + k];
            var off := SegmentsWidth(ws[..c]);
            off + ws[c] + 3 <= |line| &&
            line[off .. off + ws[c] + 3] == "| " + Pad(rows[k][c], ws[c]) + " " &&
            |Pad(rows[k][c], ws[c])| == ws[c]
  {
    var ws := Widths(header, rows);
    RowLineAt(header, rows, k);
    assert Fits(rows[k], ws) by {
      CellsFitWidths(header, rows);
    }
    PaddedSegmentAt(rows[k], ws, c);
  }

  /** In the separator line, the segment of column c is "| " followed by
      col_len(c) dashes and " ". */
  lemma RenderedSeparator(header: TableRow, rows: seq<TableRow>, c: nat)
    requires RowsFit(header, rows) && c < |header|
    ensures var ws := Widths(header, rows);
            var line := RenderLines(header, rows)[1];
            var off := SegmentsWidth(ws[..c]);
            off + ws[c] + 3 <= |line| &&
            line[off .. off + ws[c] + 3] == "| " + Dashes(ws[c]) + " " &&
            ColLen(header, rows, c) == Some(ws[c])
  {
    var ws := Widths(header, rows);
    LineSegmentAt(Rule(ws), ws, c);
  }
}
