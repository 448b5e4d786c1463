/** The box drawn around an array of rank 3 or more (kap-core/src/lib.rs): column widths,
    padded rows, and what the picture shows where. Cells arrive already formatted. */
module Pictures {
  import opened Arithmetic
  import opened Lines
  import opened Render

  /** The cells of the picture, one sequence per printed row. */
  type Body = seq<seq<string>>

  /** Cell `j` of block `b`, row `r`: columns are numbered through all groups. */
  function CellText(l: Layout, elems: seq<string>, b: nat, r: nat, j: nat): string
    requires l.Valid()
  {
    var k := l.Index(j / l.size, b, r, j % l.size);
    if k < |elems| then elems[k] else ""
  }

  function Columns(l: Layout): nat { l.groups * l.size }

  function TotalRows(l: Layout): nat { l.blocks * l.rows }

  function BodyRow(l: Layout, elems: seq<string>, b: nat, r: nat): (row: seq<string>)
    requires l.Valid()
    ensures |row| == Columns(l)
  {
    seq(Columns(l), j requires 0 <= j => CellText(l, elems, b, r, j))
  }

  /** The first `n` rows, block by block. */
  function BodyOf(l: Layout, elems: seq<string>, n: nat): (body: Body)
    requires l.Valid()
    ensures |body| == n
  {
    seq(n, i requires 0 <= i => BodyRow(l, elems, i / l.rows, i % l.rows))
  }

  // ---------------------------------------------------------------- column widths

  function Max(a: nat, b: nat): nat { if a < b then b else a }

  function Widen(w: seq<nat>, row: seq<string>): (v: seq<nat>)
    requires |w| == |row|
    ensures |v| == |w| && forall j :: 0 <= j < |w| ==> v[j] == Max(w[j], |row[j]|)
  {
    if w == [] then [] else [Max(w[0], |row[0]|)] + Widen(w[1..], row[1..])
  }

  predicate Even(body: Body, cols: nat) { forall i :: 0 <= i < |body| ==> |body[i]| == cols }

  function Widths(body: Body, cols: nat): (w: seq<nat>)
    requires Even(body, cols)
    ensures |w| == cols
  {
    if body == [] then seq(cols, _ => 0) else Widen(Widths(body[..|body| - 1], cols), body[|body| - 1])
  }

  /** A column is as wide as its widest cell. */
  lemma {:induction false} WidthIsMaximum(body: Body, cols: nat, j: nat)
    requires Even(body, cols) && j < cols
    ensures forall i :: 0 <= i < |body| ==> |body[i][j]| <= Widths(body, cols)[j]
    ensures body != [] ==> exists i :: 0 <= i < |body| && |body[i][j]| == Widths(body, cols)[j]
  {
    if body != [] {
      var front, last := body[..|body| - 1], body[|body| - 1];
      WidthIsMaximum(front, cols, j);
      assert Widths(body, cols)[j] == Max(Widths(front, cols)[j], |last[j]|);
      assert forall i :: 0 <= i < |front| ==> front[i] == body[i];
      if front == [] || |last[j]| >= Widths(front, cols)[j] {
        assert |body[|body| - 1][j]| == Widths(body, cols)[j];
      } else {
        var i :| 0 <= i < |front| && |front[i][j]| == Widths(front, cols)[j];
        assert |body[i][j]| == Widths(body, cols)[j];
      }
    }
  }

  // ---------------------------------------------------------------- lines

  function Repeat(c: char, n: nat): (s: string)
    ensures |s| == n && forall i :: 0 <= i < n ==> s[i] == c
  {
    seq(n, _ => c)
  }

  /** A cell pushed to the right edge of its column. */
  function Pad(cell: string, width: nat): string {
    Repeat(' ', if width > |cell| then width - |cell| else 0) + cell
  }

  /** What stands before column `j`: nothing, a bar between groups, a space between cells. */
  function Separator(j: nat, size: nat): string
    requires size > 0
  {
    if j == 0 then "" else if j % size == 0 then "│" else " "
  }

  /** The first `n` cells of a row. */
  function RowText(row: seq<string>, w: seq<nat>, size: nat, n: nat): string
    requires size > 0 && n <= |row| == |w|
  {
    if n == 0 then "" else RowText(row, w, size, n - 1) + Separator(n - 1, size) + Pad(row[n - 1], w[n - 1])
  }

  function Framed(inner: string): string { "║" + inner + "║" }

  function LineOf(row: seq<string>, w: seq<nat>, size: nat): string
    requires size > 0 && |row| == |w|
  {
    Framed(RowText(row, w, size, |row|))
  }

  function Sum(w: seq<nat>): nat {
    if w == [] then 0 else Sum(w[..|w| - 1]) + w[|w| - 1]
  }

  /** `all_cols_width`. */
  function InnerWidth(w: seq<nat>): nat { Sum(w) + (if |w| > 0 then |w| - 1 else 0) }

  /** The first `n` rows, with a blank line between blocks. */
  function RowLines(body: Body, w: seq<nat>, l: Layout, n: nat): (lines: seq<string>)
    requires l.Valid() && Even(body, |w|) && n <= |body|
  {
    if n == 0 then []
    else
      RowLines(body, w, l, n - 1)
      + (if n > 1 && (n - 1) % l.rows == 0 then [Framed(Repeat(' ', InnerWidth(w)))] else [])
      + [LineOf(body[n - 1], w, l.size)]
  }

  function Top(n: nat): string { "╔" + Repeat('═', n) + "╗" }

  function Bottom(n: nat): string { "╚" + Repeat('═', n) + "╝" }

  /** The whole picture, line by line. */
  function Picture(l: Layout, elems: seq<string>): seq<string>
    requires l.Valid()
  {
    var body := BodyOf(l, elems, TotalRows(l));
    var w := Widths(body, Columns(l));
    [Top(InnerWidth(w))] + RowLines(body, w, l, |body|) + [Bottom(InnerWidth(w))]
  }

  // ---------------------------------------------------------------- every line has one width

  lemma {:induction false} RowTextLength(row: seq<string>, w: seq<nat>, size: nat, n: nat)
    requires size > 0 && n <= |row| == |w|
    requires forall j :: 0 <= j < |row| ==> |row[j]| <= w[j]
    ensures |RowText(row, w, size, n)| == Sum(w[..n]) + (if n > 0 then n - 1 else 0)
  {
    if n == 0 {
    } else {
      RowTextLength(row, w, size, n - 1);
      assert w[..n][..n - 1] == w[..n - 1];
      assert |Pad(row[n - 1], w[n - 1])| == w[n - 1];
    }
  }

  predicate AllOfLength(lines: seq<string>, n: nat) { forall i :: 0 <= i < |lines| ==> |lines[i]| == n }

  predicate Fits(body: Body, w: seq<nat>) {
    Even(body, |w|) && forall i, j :: 0 <= i < |body| && 0 <= j < |w| ==> |body[i][j]| <= w[j]
  }

  lemma {:induction false} RowLinesLength(body: Body, w: seq<nat>, l: Layout, n: nat)
    requires l.Valid() && Fits(body, w) && n <= |body|
    ensures AllOfLength(RowLines(body, w, l, n), InnerWidth(w) + 2)
  {
    if n == 0 {
    } else {
      RowLinesLength(body, w, l, n - 1);
      RowTextLength(body[n - 1], w, l.size, |w|);
      assert w[..|w|] == w;
    }
  }

  lemma WidthsFit(body: Body, cols: nat)
    requires Even(body, cols)
    ensures Fits(body, Widths(body, cols))
  {
    forall i, j | 0 <= i < |body| && 0 <= j < cols
      ensures |body[i][j]| <= Widths(body, cols)[j]
    {
      WidthIsMaximum(body, cols, j);
    }
  }

  lemma EvenBody(l: Layout, elems: seq<string>, n: nat)
    requires l.Valid()
    ensures Even(BodyOf(l, elems, n), Columns(l))
  {
  }

  /** Every line of the picture has the same number of characters. */
  lemma EqualWidths(l: Layout, elems: seq<string>)
    requires l.Valid()
    ensures AllOfLength(Picture(l, elems), |Picture(l, elems)[0]|)
  {
    hide Widths, BodyOf, RowLines, InnerWidth, Columns;
    EvenBody(l, elems, TotalRows(l));
    var body := BodyOf(l, elems, TotalRows(l));
    var w := Widths(body, Columns(l));
    WidthsFit(body, Columns(l));
    RowLinesLength(body, w, l, |body|);
  }

  // ---------------------------------------------------------------- every element has one place

  /** Where column `j` starts inside the frame. */
  function StartOf(w: seq<nat>, j: nat): nat
    requires j <= |w|
  {
    Sum(w[..j]) + j
  }

  /** The text in front of column `j`, its separator included, is as long as `StartOf` says. */
  lemma BeforeCell(row: seq<string>, w: seq<nat>, size: nat, j: nat)
    requires size > 0 && j < |row| == |w|
    requires forall j :: 0 <= j < |row| ==> |row[j]| <= w[j]
    ensures |RowText(row, w, size, j) + Separator(j, size)| == StartOf(w, j)
    ensures |Pad(row[j], w[j])| == w[j]
  {
    RowTextLength(row, w, size, j);
  }

  lemma SliceOfFront(a: string, b: string, i: nat, j: nat)
    requires i <= j <= |a|
    ensures (a + b)[i..j] == a[i..j]
  {
  }

  lemma {:induction false} CellShown(row: seq<string>, w: seq<nat>, size: nat, n: nat, j: nat)
    requires size > 0 && j < n <= |row| == |w|
    requires forall j :: 0 <= j < |row| ==> |row[j]| <= w[j]
    ensures var t := RowText(row, w, size, n);
            StartOf(w, j) + w[j] <= |t| && t[StartOf(w, j)..StartOf(w, j) + w[j]] == Pad(row[j], w[j])
    decreases n
  {
    hide StartOf, Separator, Pad;
    BeforeCell(row, w, size, n - 1);
    var front, tail := RowText(row, w, size, n - 1) + Separator(n - 1, size), Pad(row[n - 1], w[n - 1]);
    assert RowText(row, w, size, n) == front + tail;
    if j < n - 1 {
      CellShown(row, w, size, n - 1, j);
      SliceOfFront(RowText(row, w, size, n - 1), Separator(n - 1, size), StartOf(w, j), StartOf(w, j) + w[j]);
      SliceOfFront(front, tail, StartOf(w, j), StartOf(w, j) + w[j]);
    }
  }

  lemma QuotientStep(n: nat, r: nat)
    requires r > 0 && n > 0
    ensures n / r == (n - 1) / r + (if n % r == 0 then 1 else 0)
  {
    DivModDefinition(n - 1, r);
    var q, d := (n - 1) / r, (n - 1) % r;
    if d == r - 1 {
      assert n == r * (q + 1) + 0;
      DivUnique(n, r, q + 1, 0);
    } else {
      DivUnique(n, r, q, d + 1);
    }
  }

  /** Where row `i` stands: after the rows before it and one blank line for each block before its own. */
  function LineNumber(i: nat, rows: nat): nat
    requires rows > 0
  {
    i + i / rows
  }

  lemma LineNumberStep(n: nat, rows: nat)
    requires rows > 0
    ensures LineNumber(0, rows) == 0
    ensures n > 0 ==> LineNumber(n, rows) == LineNumber(n - 1, rows) + (if n % rows == 0 then 2 else 1)
  {
    if n > 0 { QuotientStep(n, rows); }
  }

  lemma {:induction false} RowLinesCount(body: Body, w: seq<nat>, l: Layout, n: nat)
    requires l.Valid() && Even(body, |w|) && 0 < n <= |body|
    ensures |RowLines(body, w, l, n)| == LineNumber(n - 1, l.rows) + 1
  {
    hide LineOf, Framed, LineNumber, InnerWidth, Even;
    LineNumberStep(n - 1, l.rows);
    if n > 1 {
      RowLinesCount(body, w, l, n - 1);
    }
  }

  lemma {:induction false} RowLineAt(body: Body, w: seq<nat>, l: Layout, n: nat, i: nat)
    requires l.Valid() && Even(body, |w|) && i < n <= |body|
    ensures LineNumber(i, l.rows) < |RowLines(body, w, l, n)|
    ensures RowLines(body, w, l, n)[LineNumber(i, l.rows)] == LineOf(body[i], w, l.size)
    decreases n
  {
    hide LineOf, Framed, LineNumber, InnerWidth;
    RowLinesCount(body, w, l, n);
    if i < n - 1 {
      RowLineAt(body, w, l, n - 1, i);
    }
  }

  lemma BodyCell(l: Layout, elems: seq<string>, n: nat, i: nat, j: nat)
    requires l.Valid() && i < n && j < Columns(l)
    ensures BodyOf(l, elems, n)[i][j] == CellText(l, elems, i / l.rows, i % l.rows, j)
  {
    hide CellText;
  }

  lemma RowCoordinates(l: Layout, b: nat, r: nat)
    requires l.Valid() && b < l.blocks && r < l.rows
    ensures var i := Flat(b, r, l.rows);
            i < TotalRows(l) && i / l.rows == b && i % l.rows == r && LineNumber(i, l.rows) == i + b
  {
    DigitBound(b, l.blocks, r, l.rows);
    DivUnique(b * l.rows + r, l.rows, b, r);
  }

  lemma ColumnCoordinates(l: Layout, g: nat, x: nat)
    requires l.Valid() && g < l.groups && x < l.size
    ensures var j := Flat(g, x, l.size); j < Columns(l) && j / l.size == g && j % l.size == x
  {
    DigitBound(g, l.groups, x, l.size);
    DivUnique(g * l.size + x, l.size, g, x);
  }

  /** A cell of the picture shows the element its coordinates name. */
  lemma CellShows(l: Layout, elems: seq<string>, n: nat, i: nat, j: nat, g: nat, b: nat, r: nat, x: nat)
    requires l.Valid() && i < n && j < Columns(l)
    requires i / l.rows == b && i % l.rows == r && j / l.size == g && j % l.size == x
    requires l.Index(g, b, r, x) < |elems|
    ensures BodyOf(l, elems, n)[i][j] == elems[l.Index(g, b, r, x)]
  {
    hide BodyOf, Columns, Layout.Index;
    BodyCell(l, elems, n, i, j);
  }

  /** The text fills the places from `from` to `end`, pushed to the right behind spaces. */
  predicate RightAligned(line: string, from: nat, end: nat, text: string) {
    && from + |text| <= end <= |line|
    && line[end - |text|..end] == text
    && forall i :: from <= i < end - |text| ==> line[i] == ' '
  }

  /** Element `k` stands right-aligned in column `j` of a line of the picture; in front of the column
      there is a bar where a group starts, and a space elsewhere. */
  predicate ShownAt(l: Layout, elems: seq<string>, k: nat, line: nat, j: nat)
    requires l.Valid()
  {
    EvenBody(l, elems, TotalRows(l));
    var picture := Picture(l, elems);
    var w := Widths(BodyOf(l, elems, TotalRows(l)), Columns(l));
    && line < |picture| && j < |w| && k < |elems|
    && RightAligned(picture[line], 1 + StartOf(w, j), 1 + StartOf(w, j) + w[j], elems[k])
    && picture[line][StartOf(w, j)] == if j == 0 then '║' else if j % l.size == 0 then '│' else ' '
  }

  /** Behind the top line come the rows, one blank line being put between two blocks. */
  lemma CellAppears(l: Layout, elems: seq<string>, g: nat, b: nat, r: nat, x: nat)
    requires l.Valid() && |elems| == l.Cells()
    requires g < l.groups && b < l.blocks && r < l.rows && x < l.size
    ensures ShownAt(l, elems, l.Index(g, b, r, x), 1 + Flat(b, r, l.rows) + b, Flat(g, x, l.size))
  {
    hide *;
    RowCoordinates(l, b, r);
    ColumnCoordinates(l, g, x);
    IndexInRange(l, g, b, r, x);
    CellAt(l, elems, Flat(b, r, l.rows), Flat(g, x, l.size), g, b, r, x);
  }

  lemma CellAt(l: Layout, elems: seq<string>, i: nat, j: nat, g: nat, b: nat, r: nat, x: nat)
    requires l.Valid() && l.Index(g, b, r, x) < |elems| && i < TotalRows(l) && j < Columns(l)
    requires i / l.rows == b && i % l.rows == r && j / l.size == g && j % l.size == x
    ensures ShownAt(l, elems, l.Index(g, b, r, x), 1 + LineNumber(i, l.rows), j)
  {
    hide Widths, RowText, RowLines, BodyOf, Pad, StartOf, LineOf, LineNumber, Columns, Layout.Index, TotalRows,
         RightAligned;
    var n := TotalRows(l);
    CellShows(l, elems, n, i, j, g, b, r, x);
    var body := BodyOf(l, elems, n);
    EvenBody(l, elems, n);
    var w := Widths(body, Columns(l));
    WidthsFit(body, Columns(l));
    RowLineAt(body, w, l, n, i);
    CellInLine(body[i], w, l.size, j);
  }

  lemma PadAligned(cell: string, width: nat)
    requires |cell| <= width
    ensures RightAligned(Pad(cell, width), 0, width, cell)
  {
  }

  lemma AlignedWithin(line: string, from: nat, end: nat, text: string)
    requires from <= end <= |line| && RightAligned(line[from..end], 0, end - from, text)
    ensures RightAligned(line, from, end, text)
  {
    var part := line[from..end];
    assert forall i :: from <= i < end ==> line[i] == part[i - from];
  }

  lemma CellInLine(row: seq<string>, w: seq<nat>, size: nat, j: nat)
    requires size > 0 && j < |row| == |w|
    requires forall j :: 0 <= j < |row| ==> |row[j]| <= w[j]
    ensures var line := LineOf(row, w, size);
            && RightAligned(line, 1 + StartOf(w, j), 1 + StartOf(w, j) + w[j], row[j])
            && line[StartOf(w, j)] == if j == 0 then '║' else if j % size == 0 then '│' else ' '
  {
    hide RowText, StartOf, Pad, RightAligned;
    CellShown(row, w, size, |row|, j);
    var t, a, z := RowText(row, w, size, |row|), StartOf(w, j), StartOf(w, j) + w[j];
    var line := LineOf(row, w, size);
    assert line[1 + a..1 + z] == t[a..z];
    PadAligned(row[j], w[j]);
    AlignedWithin(line, 1 + a, 1 + z, row[j]);
    if j == 0 {
      StartOfFirst(w);
    } else {
      SeparatorShown(row, w, size, |row|, j);
    }
  }

  lemma StartOfFirst(w: seq<nat>)
    ensures StartOf(w, 0) == 0
  {
  }

  lemma SumStep(w: seq<nat>, j: nat)
    requires 0 < j <= |w|
    ensures StartOf(w, j) == StartOf(w, j - 1) + w[j - 1] + 1
  {
    assert w[..j][..j - 1] == w[..j - 1];
  }

  /** What stands in front of a column that is not the first. */
  lemma {:induction false} SeparatorShown(row: seq<string>, w: seq<nat>, size: nat, n: nat, j: nat)
    requires size > 0 && 0 < j < n <= |row| == |w|
    requires forall j :: 0 <= j < |row| ==> |row[j]| <= w[j]
    ensures var t := RowText(row, w, size, n);
            0 < StartOf(w, j) <= |t| && t[StartOf(w, j) - 1] == if j % size == 0 then '│' else ' '
    decreases n
  {
    hide StartOf, Pad;
    BeforeCell(row, w, size, n - 1);
    SumStep(w, j);
    var front, tail := RowText(row, w, size, n - 1), Separator(n - 1, size) + Pad(row[n - 1], w[n - 1]);
    assert RowText(row, w, size, n) == front + tail;
    if j < n - 1 {
      SeparatorShown(row, w, size, n - 1, j);
    }
  }

  /** Each element is printed exactly once: one cell shows it, and no other cell does. */
  lemma ElementShownOnce(l: Layout, elems: seq<string>, k: nat) returns (g: nat, b: nat, r: nat, x: nat)
    requires l.Valid() && |elems| == l.Cells() && k < |elems|
    ensures g < l.groups && b < l.blocks && r < l.rows && x < l.size && k == l.Index(g, b, r, x)
    ensures forall g', b', r', x' {:trigger l.Index(g', b', r', x')} ::
              0 <= g' < l.groups && 0 <= b' < l.blocks && 0 <= r' < l.rows && 0 <= x' < l.size
              && l.Index(g', b', r', x') == k
              ==> g' == g && b' == b && r' == r && x' == x
  {
    g, b, r, x := IndexSurjective(l, k);
    forall g', b', r', x' | 0 <= g' < l.groups && 0 <= b' < l.blocks && 0 <= r' < l.rows && 0 <= x' < l.size
                            && l.Index(g', b', r', x') == k
      ensures g' == g && b' == b && r' == r && x' == x
    {
      IndexInjective(l, g, b, r, x, g', b', r', x');
    }
  }

  // ---------------------------------------------------------------- the box

  /** A line between two ends that is one character throughout. */
  predicate Ruled(line: string, first: char, inside: char, last: char) {
    && |line| >= 2 && line[0] == first && line[|line| - 1] == last
    && forall i :: 0 < i < |line| - 1 ==> line[i] == inside
  }

  predicate AllFramed(lines: seq<string>) {
    forall i :: 0 <= i < |lines| ==> |lines[i]| >= 2 && lines[i][0] == '║' && lines[i][|lines[i]| - 1] == '║'
  }

  lemma {:induction false} RowLinesFramed(body: Body, w: seq<nat>, l: Layout, n: nat)
    requires l.Valid() && Even(body, |w|) && n <= |body|
    ensures AllFramed(RowLines(body, w, l, n))
  {
    hide RowText, InnerWidth, Even;
    if n == 0 {
    } else {
      RowLinesFramed(body, w, l, n - 1);
    }
  }

  /** In front of the first row of each block but the first stands a blank line. */
  lemma {:induction false} GapAt(body: Body, w: seq<nat>, l: Layout, n: nat, i: nat)
    requires l.Valid() && Even(body, |w|) && 0 < i < n <= |body| && i % l.rows == 0
    ensures 0 < LineNumber(i, l.rows) <= |RowLines(body, w, l, n)|
    ensures Ruled(RowLines(body, w, l, n)[LineNumber(i, l.rows) - 1], '║', ' ', '║')
    decreases n
  {
    hide LineOf, LineNumber, InnerWidth, Ruled;
    RowLinesCount(body, w, l, n - 1);
    LineNumberStep(i, l.rows);
    LineNumberPositive(i, l.rows);
    if i < n - 1 {
      RowLinesCount(body, w, l, n);
      GapAt(body, w, l, n - 1, i);
    } else {
      GapRuled(InnerWidth(w));
    }
  }

  lemma LineNumberPositive(i: nat, rows: nat)
    requires rows > 0 && i > 0
    ensures LineNumber(i, rows) > 0
  {
  }

  lemma GapRuled(n: nat)
    ensures Ruled(Framed(Repeat(' ', n)), '║', ' ', '║')
    ensures Ruled(Top(n), '╔', '═', '╗') && Ruled(Bottom(n), '╚', '═', '╝')
  {
  }

  /** The box: a ruled top and bottom, a bar at both ends of every line between them, one line for
      each row and one blank line between two blocks. */
  lemma PictureBox(l: Layout, elems: seq<string>)
    requires l.Valid()
    ensures var p := Picture(l, elems);
            && |p| == 2 + TotalRows(l) + (l.blocks - 1)
            && Ruled(p[0], '╔', '═', '╗') && Ruled(p[|p| - 1], '╚', '═', '╝')
            && AllFramed(p[1..|p| - 1])
  {
    var n := TotalRows(l);
    RowCoordinates(l, l.blocks - 1, l.rows - 1);
    assert Flat(l.blocks - 1, l.rows - 1, l.rows) == n - 1 by { LastRow(l); }
    hide Widths, RowLines, BodyOf, InnerWidth, Columns, Ruled, Top, Bottom, TotalRows, LineNumber, Flat;
    EvenBody(l, elems, n);
    var body := BodyOf(l, elems, n);
    var w := Widths(body, Columns(l));
    RowLinesCount(body, w, l, n);
    RowLinesFramed(body, w, l, n);
    GapRuled(InnerWidth(w));
    var p := Picture(l, elems);
    assert p[1..|p| - 1] == RowLines(body, w, l, n);
  }

  lemma LastRow(l: Layout)
    requires l.Valid()
    ensures Flat(l.blocks - 1, l.rows - 1, l.rows) == TotalRows(l) - 1
  {
    Distribute(l.rows, l.blocks - 1, 1);
  }

  /** Block `b` begins behind a blank line, unless it is the first. */
  lemma BlocksApart(l: Layout, elems: seq<string>, b: nat)
    requires l.Valid() && 0 < b < l.blocks
    ensures Flat(b, 0, l.rows) + b < |Picture(l, elems)|
    ensures Ruled(Picture(l, elems)[Flat(b, 0, l.rows) + b], '║', ' ', '║')
  {
    hide Widths, RowLines, BodyOf, InnerWidth, Columns, Ruled, TotalRows, LineNumber, Flat, Even;
    RowCoordinates(l, b, 0);
    var n, i := TotalRows(l), Flat(b, 0, l.rows);
    EvenBody(l, elems, n);
    var body := BodyOf(l, elems, n);
    var w := Widths(body, Columns(l));
    assert i > 0 by { FlatPositive(b, l.rows); }
    GapAt(body, w, l, n, i);
  }

  lemma FlatPositive(b: nat, rows: nat)
    requires b > 0 && rows > 0
    ensures Flat(b, 0, rows) > 0
  {
    MulPositive(b, rows);
  }

  // ---------------------------------------------------------------- the text of the picture

  predicate Unbroken(lines: seq<string>) { forall line :: line in lines ==> '\n' !in line }

  lemma PadUnbroken(cell: string, width: nat)
    requires '\n' !in cell
    ensures '\n' !in Pad(cell, width)
  {
  }

  lemma {:induction false} RowTextUnbroken(row: seq<string>, w: seq<nat>, size: nat, n: nat)
    requires size > 0 && n <= |row| == |w| && Unbroken(row)
    ensures '\n' !in RowText(row, w, size, n)
  {
    if n == 0 {
    } else {
      RowTextUnbroken(row, w, size, n - 1);
      assert row[n - 1] in row;
      PadUnbroken(row[n - 1], w[n - 1]);
      hide Pad;
    }
  }

  lemma {:induction false} RowLinesUnbroken(body: Body, w: seq<nat>, l: Layout, n: nat)
    requires l.Valid() && Even(body, |w|) && n <= |body|
    requires forall i :: 0 <= i < |body| ==> Unbroken(body[i])
    ensures Unbroken(RowLines(body, w, l, n))
  {
    if n == 0 {
    } else {
      RowLinesUnbroken(body, w, l, n - 1);
      RowTextUnbroken(body[n - 1], w, l.size, |w|);
    }
  }

  lemma BodyUnbroken(l: Layout, elems: seq<string>, n: nat)
    requires l.Valid() && Unbroken(elems)
    ensures forall i :: 0 <= i < n ==> Unbroken(BodyOf(l, elems, n)[i])
  {
  }

  /** For cells without newlines the lines of the printed text are the lines of the picture. */
  lemma PrintedLines(l: Layout, elems: seq<string>)
    requires l.Valid() && Unbroken(elems)
    ensures Split(Join(Picture(l, elems), '\n'), '\n') == Picture(l, elems)
  {
    hide Widths, RowText, RowLines, BodyOf, LineOf, Split, Join;
    var n := TotalRows(l);
    var body := BodyOf(l, elems, n);
    BodyUnbroken(l, elems, n);
    EvenBody(l, elems, n);
    var w := Widths(body, Columns(l));
    RowLinesUnbroken(body, w, l, |body|);
    SplitUnique(Picture(l, elems), '\n');
  }
}
