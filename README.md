# to_markdown_table in Dafny

A model of the `to_markdown_table` Rust crate (`src/lib.rs`). The crate builds a
`MarkdownTable` from a mandatory header row and some data rows. Every row must have
exactly as many cells as the header. The table can grow by appending rows. It
renders as pipe-delimited text, with each column padded to its widest cell.

Files:

- `layout.dfy`, module `TableLayout`: the pure text layout. It covers the cell
  segment `"| " + text + " "` (the format strings `"| {text:width$} "` and
  `"| {text} "`), left-aligned space padding (`{:width$}`), the dash run
  (`"-".repeat(n)`), and whole lines closed by `"|\n"`. It also holds lemmas on
  line lengths and on where each segment sits in a line.
- `markdown_table.dfy`, module `ToMarkdownTable`:
  - `TableRow` is `seq<string>`.
  - `MarkdownTableError` has the two variants `InvalidRowLength(expected, actual)` and `NoRowsSpecified`.
  - `validate_row_length` is `ValidateRowLength`.
  - The validation loop of `new` is `ValidateRows`.
  - The `col_len` fold is `MaxCellLen`, and `col_len` itself is `ColLen`.
  - `Render` / `RenderLines` specify the output of `Display::fmt`.
  - `class MarkdownTable` holds the `header` and `rows` fields. Its object
    invariant `Valid()` says every row has `cols()` cells. Its methods are
    `New`, `AddRow`, `Cols` and `Fmt`. `Fmt` is imperative, as in the source:
    it loops over the columns and the rows, calls `col_len` for each cell, and
    appends to the output. Its per-line loops are the helper methods
    `PaddedLine` and `SeparatorLine`. It is proved equal to `Render`.
- `scenarios.dfy`, module `Scenarios`: the crate's documented example and its
  `adding_row` and `wrong_row_size` unit tests, stated as lemmas and methods.

`MarkdownTable::col_len` and `cols` take `&self`. In the model, `ColLen` takes the
table's two fields, `header` and `rows`, as arguments. This lets the rendering
specification and its lemmas work on plain values.

`Cols` is the getter `cols()`: the header's cell count. The row-length
invariant that `Valid()` states is established by `New` and kept by `AddRow`,
and `AddRow` leaves the header, and so `cols()`, unchanged.

## Model

| member | source | states |
|---|---|---|
| ToMarkdownTable.ValidateRows | src/lib.rs:88-90 | Succeeds exactly when every row has the header's cell count. Otherwise the error is `InvalidRowLength(header length, row length)` for the first mismatching row in order. |
| ToMarkdownTable.MarkdownTable.New | src/lib.rs:85-93 | Returns a fresh table exactly when every row fits. That table holds the given header and rows unchanged and satisfies the row-length invariant. Otherwise it returns the first mismatch's `InvalidRowLength` and builds no table. |
| ToMarkdownTable.MarkdownTable.AddRow | src/lib.rs:95-101 | Succeeds exactly when the row has `cols()` cells, and then `rows` becomes old `rows + [row]`. On failure it returns `InvalidRowLength(header length, row length)` and `rows` is unchanged. The header, and so the table width `cols()`, never changes, and the row-length invariant is preserved. |
| ToMarkdownTable.MaxCellLen | src/lib.rs:111-117 | The fold from 0 is at least every row's cell length in the column. It is either 0 or equal to one of those lengths. |
| ToMarkdownTable.ColLen | src/lib.rs:107-125 | `None` exactly when `col >= cols()`. Otherwise the width is at least the header cell's length and every row's cell length in that column, and it equals one of them. With no rows it is the header cell's length. |
| ToMarkdownTable.ColLenAfterAddRow | src/lib.rs:111-123 | After a successful append, the column width is the larger of the old width and the new row's cell length. |
| ToMarkdownTable.CellsFitWidths | src/lib.rs:119-123 | Every header and data cell fits within its column's width, so padding never truncates. |
| ToMarkdownTable.MarkdownTable.PaddedLine | src/lib.rs:55-64 | The header line (and, with a row's cells, each data line) is every cell padded to `col_len`, wrapped in `"| " … " "`, then `"|\n"`. |
| ToMarkdownTable.MarkdownTable.SeparatorLine | src/lib.rs:66-70 | The separator line is `"| " + col_len dashes + " "` per column, then `"|\n"`. |
| ToMarkdownTable.MarkdownTable.Fmt | src/lib.rs:53-82 | The text written is exactly `Render(header, rows)`: the header line, the separator line, then one line per data row in order. |
| ToMarkdownTable.RenderedLines | src/lib.rs:55-78 | The output is the concatenation of exactly `2 + |rows|` line strings. Every line string ends with `"|\n"`, and all have the same length: the sum over columns of `(col_len + 3)`, plus 2. Cells are not escaped, so a cell that itself contains a newline adds further physical lines to the text. |
| ToMarkdownTable.RenderedHeaderCell | src/lib.rs:55-63 | In the header line, the segment of column `c` starts at the sum of `(col_len + 3)` over earlier columns. It is `"| "` + the header cell padded to exactly `col_len(c)` + `" "`. |
| ToMarkdownTable.RenderedRowCell | src/lib.rs:72-77 | The same for the cell `row[c]` of every data row. The indexing `row.0[col]` is always in range. |
| ToMarkdownTable.RenderedSeparator | src/lib.rs:66-70 | In the separator line, the segment of column `c` is `"| "` + `col_len(c)` dashes + `" "`, at the same offset. |
| TableLayout.Pad | src/lib.rs:59-61 | `{:width$}` left-aligns: the cell text comes first and then spaces. The length is the larger of the width and the text length, so the text is never truncated. |
| TableLayout.LineSegmentAt | src/lib.rs:59 | In a line of texts whose lengths are the column widths, segment `c` is `"| " + text + " "`, placed right after the segments of the earlier columns. |
| Scenarios.DocExampleRender | src/lib.rs:25-32 | The documented Name/Age table renders as the four lines `| Name    | Age |`, `| ------- | --- |`, `| Jessica | 28  |`, `| Dennis  | 22  |`. |
| Scenarios.AddingRow | src/lib.rs:172-189 | The table with header Hoi/Bye and row a/b accepts the row c/d, and then holds 2 rows. |
| Scenarios.WrongRowSize | src/lib.rs:191-208 | The same table refuses the one-cell row d with `InvalidRowLength(2, 1)`, and still holds 1 row. |

## Left out

- Conversion into a row (`impl Into<TableRow>`, `TableRow::new`): rows are given directly as `seq<string>`. The conversion is caller-defined code.
- Error message texts: the `thiserror` derive is a foreign macro. Only the two variants are kept.
- `NoRowsSpecified`: it is declared, but nothing in `src/lib.rs` raises it. The model keeps the variant and never produces it.
- The `std::fmt::Formatter` and the `?` on write errors: rendering produces a string and cannot fail.
- Character width: `col_len` measures UTF-8 byte length, while `{:width$}` pads by character count. The model measures both as `|s|` of a `seq<char>`. It therefore matches the source only for one-byte (ASCII) text. It does not capture the wider padding that multi-byte characters get in the source.
- Integer width: `usize` counts are modelled as unbounded `nat`. Row and cell lengths near `usize::MAX` are not considered.
- An optional header is not modelled: `src/lib.rs:49` makes the header mandatory.
- The `to_string` test (src/lib.rs:210-228) only prints and asserts nothing.
