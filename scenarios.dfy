/** The crate's documented example and its unit tests, stated against the model. */
module Scenarios {
  import opened TableLayout
  import opened ToMarkdownTable

  /** A line of two texts. */
  lemma TwoCellLine(a: string, b: string)
    ensures Line([a, b]) == Cell(a) + Cell(b) + "|\n"
  {
    var segs := Segments([a, b]);
    assert segs == [Cell(a), Cell(b)];
    assert segs[..1] == [Cell(a)] && segs[..1][..0] == [];
    assert Concat(segs[..1]) == "" + Cell(a) == Cell(a);
  }

  /** Four lines laid end to end. */
  lemma FourLines(l0: string, l1: string, l2: string, l3: string)
    ensures Concat([l0, l1, l2, l3]) == l0 + l1 + l2 + l3
  {
    var lines := [l0, l1, l2, l3];
    assert lines[..0] == [];
    ConcatSnoc(lines, 0);
    ConcatSnoc(lines, 1);
    ConcatSnoc(lines, 2);
    ConcatSnoc(lines, 3);
    assert lines[..4] == lines;
  }

  /** Column widths of the documented example: 7 ("Jessica") and 3 ("Age"). */
  lemma DocExampleWidths()
    ensures Widths(["Name", "Age"], [["Jessica", "28"], ["Dennis", "22"]]) == [7, 3]
  {
  }

  /** The header line of the documented example. */
  lemma DocExampleHeaderLine()
    ensures RenderLines(["Name", "Age"], [["Jessica", "28"], ["Dennis", "22"]])[0]
            == "| Name    | Age |\n"
  {
    DocExampleWidths();
    assert Pad("Name", 7) == "Name   " && Pad("Age", 3) == "Age";
    assert Padded(["Name", "Age"], [7, 3]) == ["Name   ", "Age"];
    TwoCellLine("Name   ", "Age");
  }

  /** The separator line of the documented example. */
  lemma DocExampleSeparatorLine()
    ensures RenderLines(["Name", "Age"], [["Jessica", "28"], ["Dennis", "22"]])[1]
            == "| ------- | --- |\n"
  {
    DocExampleWidths();
    assert Dashes(7) == "-------" && Dashes(3) == "---";
    assert Rule([7, 3]) == ["-------", "---"];
    TwoCellLine("-------", "---");
  }

  /** Data line k of the documented example is the line of that row's
      cells padded to widths 7 and 3. */
  lemma DocExampleRowLine(k: nat)
    requires k < 2
    ensures RenderLines(["Name", "Age"], [["Jessica", "28"], ["Dennis", "22"]])[2 + k]
            == Line(Padded([["Jessica", "28"], ["Dennis", "22"]][k], [7, 3]))
  {
    DocExampleWidths();
    RowLineAt(["Name", "Age"], [["Jessica", "28"], ["Dennis", "22"]], k);
  }

  /** The first data line of the documented example. */
  lemma DocExampleJessicaLine()
    ensures Line(Padded(["Jessica", "28"], [7, 3])) == "| Jessica | 28  |\n"
  {
    assert Pad("Jessica", 7) == "Jessica" && Pad("28", 3) == "28 ";
    assert Padded(["Jessica", "28"], [7, 3]) == ["Jessica", "28 "];
    TwoCellLine("Jessica", "28 ");
  }

  /** The second data line of the documented example. */
  lemma DocExampleDennisLine()
    ensures Line(Padded(["Dennis", "22"], [7, 3])) == "| Dennis  | 22  |\n"
  {
    assert Pad("Dennis", 7) == "Dennis " && Pad("22", 3) == "22 ";
    assert Padded(["Dennis", "22"], [7, 3]) == ["Dennis ", "22 "];
    TwoCellLine("Dennis ", "22 ");
  }

  /** The documented example: header Name/Age, rows Jessica/28 and Dennis/22. */
  lemma DocExampleRender()
    ensures Render(["Name", "Age"], [["Jessica", "28"], ["Dennis", "22"]])
            == "| Name    | Age |\n" + "| ------- | --- |\n" + "| Jessica | 28  |\n" + "| Dennis  | 22  |\n"
  {
    var lines := RenderLines(["Name", "Age"], [["Jessica", "28"], ["Dennis", "22"]]);
    assert lines == ["| Name    | Age |\n", "| ------- | --- |\n", "| Jessica | 28  |\n", "| Dennis  | 22  |\n"] by {
      DocExampleHeaderLine();
      DocExampleSeparatorLine();
      DocExampleRowLine(0);
      DocExampleRowLine(1);
      DocExampleJessicaLine();
      DocExampleDennisLine();
    }
    FourLines(lines[0], lines[1], lines[2], lines[3]);
  }

  /** The adding_row test: a two-column table with one row accepts a second
      two-cell row. */
  method AddingRow() returns (res: Result<()>, count: nat)
    ensures res.Ok? && count == 2
  {
    var created := MarkdownTable.New(["Hoi", "Bye"], [["a", "b"]]);
    assert RowsFit(["Hoi", "Bye"], [["a", "b"]]);
    var mt := created.value;
    assert mt.header == ["Hoi", "Bye"] && |mt.rows| == 1;
    res := mt.AddRow(["c", "d"]);
    assert res.Ok?;
    count := |mt.rows|;
  }

  /** The wrong_row_size test: a one-cell row is refused with
      InvalidRowLength(2, 1) and the table keeps its one row. */
  method WrongRowSize() returns (res: Result<()>, count: nat)
    ensures res == Err(InvalidRowLength(2, 1)) && count == 1
  {
    var created := MarkdownTable.New(["Hoi", "Bye"], [["a", "b"]]);
    assert RowsFit(["Hoi", "Bye"], [["a", "b"]]);
    var mt := created.value;
    res := mt.AddRow(["d"]);
    count := |mt.rows|;
  }
}
