/** Text layout of a rendered markdown table: cell segments, padding, lines.
    Everything here is a pure function on strings; ToMarkdownTable builds the
    table-level rendering on top of it. Lengths are |s| of a seq<char>. */
module TableLayout {

  /** Concatenation of a sequence of strings, folded from the back so that
      appending one more part is a single unfolding. */
  function Concat(parts: seq<string>): string
  {
    if parts == [] then "" else Concat(parts[..|parts| - 1]) + parts[|parts| - 1]
  }

  lemma {:induction false} ConcatAppend(a: seq<string>, b: seq<string>)
    ensures Concat(a + b) == Concat(a) + Concat(b)
    decreases |b|
  {
    if b == [] {
      assert a + b == a;
    } else {
      var n := |b| - 1;
      assert (a + b)[..|a + b| - 1] == a + b[..n];
      ConcatAppend(a, b[..n]);
    }
  }

  /** Appending one part to a prefix appends its text. */
  lemma ConcatSnoc(parts: seq<string>, k: nat)
    requires k < |parts|
    ensures Concat(parts[..k + 1]) == Concat(parts[..k]) + parts[k]
  {
    assert parts[..k + 1][..k] == parts[..k];
  }

  /** The text of part k sits between the text of the parts before it and
      the text of the parts after it. */
  lemma ConcatSplit(parts: seq<string>, k: nat)
    requires k < |parts|
    ensures Concat(parts) == Concat(parts[..k]) + parts[k] + Concat(parts[k + 1..])
  {
    assert parts == parts[..k + 1] + parts[k + 1..];
    ConcatAppend(parts[..k + 1], parts[k + 1..]);
    ConcatSnoc(parts, k);
  }

  /** The format "| {text} ": one cell segment of a line. */
  function Cell(text: string): string
  {
    "| " + text + " "
  }

  function Spaces(n: nat): string
  {
    seq(n, _ => ' ')
  }

  /** "-".repeat(n) */
  function Dashes(n: nat): string
  {
    seq(n, _ => '-')
  }

  /** The format "{text:width$}": the text left-aligned and filled with
      spaces up to width; a longer text is kept whole, never truncated. */
  function Pad(text: string, width: nat): (r: string)
    ensures |r| == if |text| < width then width else |text|
    ensures r[..|text|] == text
    ensures forall k | |text| <= k < |r| :: r[k] == ' '
  {
    if |text| < width then text + Spaces(width - |text|) else text
  }

  /** The segments of one line, one per text. */
  function Segments(texts: seq<string>): (segs: seq<string>)
  {
    seq(|texts|, c requires 0 <= c < |texts| => Cell(texts[c]))
  }

  /** One rendered line: its segments, then "|" and a newline. */
  function Line(texts: seq<string>): string
  {
    Concat(Segments(texts)) + "|\n"
  }

  /** The cells of a header or data line, each padded to its column width. */
  function Padded(cells: seq<string>, widths: seq<nat>): seq<string>
    requires |cells| == |widths|
  {
    seq(|cells|, c requires 0 <= c < |cells| => Pad(cells[c], widths[c]))
  }

  /** The texts of the separator line: a run of dashes per column. */
  function Rule(widths: seq<nat>): seq<string>
  {
    seq(|widths|, c requires 0 <= c < |widths| => Dashes(widths[c]))
  }

  /** Every cell fits in its column width. */
  predicate Fits(cells: seq<string>, widths: seq<nat>)
  {
    |cells| == |widths| && forall c | 0 <= c < |cells| :: |cells[c]| <= widths[c]
  }

  /** Sum over the columns of (width + 3): the length of the segments of a
      line whose texts have exactly those widths. */
  function SegmentsWidth(widths: seq<nat>): nat
  {
    if widths == [] then 0
    else SegmentsWidth(widths[..|widths| - 1]) + widths[|widths| - 1] + 3
  }

  /** Texts of exactly the given widths give segments of SegmentsWidth. */
  lemma {:induction false} SegmentsLength(texts: seq<string>, widths: seq<nat>)
    requires |texts| == |widths|
    requires forall c | 0 <= c < |texts| :: |texts[c]| == widths[c]
    ensures |Concat(Segments(texts))| == SegmentsWidth(widths)
    decreases |texts|
  {
    if texts != [] {
      var n := |texts| - 1;
      assert Segments(texts)[..n] == Segments(texts[..n]);
      SegmentsLength(texts[..n], widths[..n]);
    }
  }

  /** Padding a fitting cell gives exactly the column width. */
  lemma PaddedExact(cells: seq<string>, widths: seq<nat>)
    requires Fits(cells, widths)
    ensures forall c | 0 <= c < |cells| :: |Padded(cells, widths)[c]| == widths[c]
  {
  }

  /** A line of texts of exactly the given widths is SegmentsWidth + "|\n"
      long and ends in "|\n". */
  lemma LineShape(texts: seq<string>, widths: seq<nat>)
    requires |texts| == |widths|
    requires forall c | 0 <= c < |texts| :: |texts[c]| == widths[c]
    ensures |Line(texts)| == SegmentsWidth(widths) + 2
    ensures Line(texts)[|Line(texts)| - 2..] == "|\n"
  {
    SegmentsLength(texts, widths);
  }

  /** Segment c of a line starts after the segments of columns 0..c-1 and
      is exactly Cell(texts[c]). */
  lemma LineSegmentAt(texts: seq<string>, widths: seq<nat>, c: nat)
    requires |texts| == |widths| && c < |texts|
    requires forall j | 0 <= j < |texts| :: |texts[j]| == widths[j]
    ensures SegmentsWidth(widths[..c]) + widths[c] + 3 <= |Line(texts)|
    ensures Line(texts)[SegmentsWidth(widths[..c]) .. SegmentsWidth(widths[..c]) + widths[c] + 3]
            == Cell(texts[c])
  {
    var segs := Segments(texts);
    ConcatSplit(segs, c);
    assert segs[..c] == Segments(texts[..c]);
    SegmentsLength(texts[..c], widths[..c]);
    var before := Concat(segs[..c]);
    var after := Concat(segs[c + 1..]) + "|\n";
    assert Line(texts) == before + segs[c] + after;
    assert |segs[c]| == widths[c] + 3;
    var off := |before|;
    assert (before + segs[c] + after)[off .. off + |segs[c]|] == segs[c];
  }

  /** In a line of cells padded to their column widths, segment c starts
      after the segments of columns 0..c-1 and holds the cell padded to
      exactly its column width. */
  lemma PaddedSegmentAt(cells: seq<string>, widths: seq<nat>, c: nat)
    requires Fits(cells, widths) && c < |cells|
    ensures SegmentsWidth(widths[..c]) + widths[c] + 3 <= |Line(Padded(cells, widths))|
    ensures Line(Padded(cells, widths))[SegmentsWidth(widths[..c]) .. SegmentsWidth(widths[..c]) + widths[c] + 3]
            == "| " + Pad(cells[c], widths[c]) + " "
    ensures |Pad(cells[c], widths[c])| == widths[c]
  {
    PaddedExact(cells, widths);
    LineSegmentAt(Padded(cells, widths), widths, c);
  }
}
