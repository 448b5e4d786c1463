/** The loops of `format_conform_nd` (kap-core/src/lib.rs), proved to print the picture. The
    source writes them twice, for ranks 3 and 4 and for the ranks above; they differ only in
    how a cell finds its element, which is `CellIndex`. */
module Drawing {
  import opened Arithmetic
  import opened Lines
  import opened Render
  import opened Pictures

  lemma FlatFacts(q: nat, d: nat, m: nat, n: nat)
    requires q < m && d < n
    ensures Flat(q, d, n) < Flat(m, 0, n)
    ensures Flat(q, d + 1, n) == Flat(q, d, n) + 1
    ensures Flat(q, d, n) / n == q && Flat(q, d, n) % n == d
    ensures Flat(q, d, n) == 0 <==> q == 0 && d == 0
  {
    DigitBound(q, m, d, n);
    DivUnique(q * n + d, n, q, d);
    if q > 0 { MulPositive(q, n); }
  }

  lemma FlatCarry(q: nat, m: nat, n: nat)
    requires q < m
    ensures Flat(q, n, n) == Flat(q + 1, 0, n) <= Flat(m, 0, n)
    ensures Flat(0, 0, n) == 0
  {
    MulMono(n, q + 1, m);
    assert n * (q + 1) == q * n + n;
    assert n * m == m * n;
  }

  lemma FlatZero(n: nat)
    ensures Flat(0, 0, n) == 0
  {
  }

  /** Column `g * size + x` of row `r` in block `b`, read through the element index. */
  method ReadCell(dims: seq<nat>, m: seq<nat>, elems: seq<string>, b: nat, r: nat, g: nat, x: nat)
    returns (cell: string)
    requires Drawable(dims) && AreMultipliers(m, dims) && |elems| == Product(dims)
    requires var l := LayoutOf(dims); b < l.blocks && g < l.groups && r < l.rows && x < l.size
    ensures LayoutOf(dims).Valid()
    ensures var l := LayoutOf(dims); var row := BodyRow(l, elems, b, r);
            Flat(g, x, l.size) < |row| && cell == row[Flat(g, x, l.size)]
  {
    var l := LayoutOf(dims);
    LayoutHolds(dims);
    var idx := CellIndex(dims, m, b, g, r, x);
    cell := elems[idx];
    DigitBound(g, l.groups, x, l.size);
    DivUnique(g * l.size + x, l.size, g, x);
  }

  /** The widths after the first `col` cells of a row have been looked at. */
  predicate PartlyWidened(w: seq<nat>, before: seq<nat>, row: seq<string>, col: nat) {
    && |w| == |before| == |row| && col <= |row|
    && (forall j :: 0 <= j < col ==> w[j] == Max(before[j], |row[j]|))
    && (forall j :: col <= j < |row| ==> w[j] == before[j])
  }

  lemma WidenStart(w: seq<nat>, row: seq<string>)
    requires |w| == |row|
    ensures PartlyWidened(w, w, row, 0)
  {
  }

  lemma WidenStep(w: seq<nat>, v: seq<nat>, before: seq<nat>, row: seq<string>, col: nat)
    requires PartlyWidened(w, before, row, col) && col < |row|
    requires v == w[col := Max(w[col], |row[col]|)]
    ensures PartlyWidened(v, before, row, col + 1)
  {
  }

  lemma WidenEnd(w: seq<nat>, before: seq<nat>, row: seq<string>)
    requires PartlyWidened(w, before, row, |row|)
    ensures w == Widen(before, row)
  {
  }

  lemma RowSize(l: Layout, elems: seq<string>, b: nat, r: nat)
    requires l.Valid()
    ensures |BodyRow(l, elems, b, r)| == Columns(l) == Flat(l.groups, 0, l.size)
  {
  }

  method WidenRow(dims: seq<nat>, m: seq<nat>, elems: seq<string>, b: nat, r: nat, w: array<nat>)
    requires Drawable(dims) && AreMultipliers(m, dims) && |elems| == Product(dims)
    requires b < LayoutOf(dims).blocks && r < LayoutOf(dims).rows
    requires LayoutOf(dims).Valid() && w.Length == Columns(LayoutOf(dims))
    modifies w
    ensures w[..] == Widen(old(w[..]), BodyRow(LayoutOf(dims), elems, b, r))
  {
    hide LayoutOf, AreMultipliers, CellText, Widen, Product, Flat, Columns, PartlyWidened, BodyRow, Positive;
    var l := LayoutOf(dims);
    ghost var before, row := w[..], BodyRow(l, elems, b, r);
    RowSize(l, elems, b, r);
    WidenStart(before, row);
    FlatZero(l.size);
    for g := 0 to l.groups
      invariant PartlyWidened(w[..], before, row, Flat(g, 0, l.size))
    {
      for x := 0 to l.size
        invariant PartlyWidened(w[..], before, row, Flat(g, x, l.size))
      {
        FlatFacts(g, x, l.groups, l.size);
        var cell := ReadCell(dims, m, elems, b, r, g, x);
        var col := Flat(g, x, l.size);
        ghost var now := w[..];
        if |cell| > w[col] {
          w[col] := |cell|;
        }
        WidenStep(now, w[..], before, row, col);
      }
      FlatCarry(g, l.groups, l.size);
    }
    WidenEnd(w[..], before, row);
  }

  lemma NextRow(l: Layout, elems: seq<string>, b: nat, r: nat)
    requires l.Valid() && b < l.blocks && r < l.rows
    ensures var i := Flat(b, r, l.rows);
            && i < TotalRows(l)
            && BodyOf(l, elems, TotalRows(l))[i] == BodyRow(l, elems, b, r)
            && BodyOf(l, elems, i + 1)[i] == BodyRow(l, elems, b, r)
            && BodyOf(l, elems, i + 1)[..i] == BodyOf(l, elems, i)
  {
    FlatFacts(b, r, l.blocks, l.rows);
  }

  lemma NextWidths(l: Layout, elems: seq<string>, b: nat, r: nat)
    requires l.Valid() && b < l.blocks && r < l.rows
    ensures WidthsOf(l, elems, Flat(b, r, l.rows) + 1)
            == Widen(WidthsOf(l, elems, Flat(b, r, l.rows)), BodyRow(l, elems, b, r))
  {
    hide BodyRow, Flat;
    NextRow(l, elems, b, r);
  }

  /** The column widths after `n` rows. */
  function WidthsOf(l: Layout, elems: seq<string>, n: nat): (w: seq<nat>)
    requires l.Valid()
    ensures |w| == Columns(l)
  {
    EvenBody(l, elems, n);
    Widths(BodyOf(l, elems, n), Columns(l))
  }

  lemma NoWidths(l: Layout, elems: seq<string>, w: seq<nat>)
    requires l.Valid() && |w| == Columns(l) && forall j :: 0 <= j < |w| ==> w[j] == 0
    ensures WidthsOf(l, elems, 0) == w
  {
  }

  method ColumnWidths(dims: seq<nat>, m: seq<nat>, elems: seq<string>) returns (w: array<nat>)
    requires Drawable(dims) && AreMultipliers(m, dims) && |elems| == Product(dims)
    ensures LayoutOf(dims).Valid() && fresh(w)
    ensures w[..] == WidthsOf(LayoutOf(dims), elems, TotalRows(LayoutOf(dims)))
  {
    assert |dims| >= 3;
    LayoutValid(dims);
    hide *;
    var l := LayoutOf(dims);
    w := new nat[Columns(l)](_ => 0);
    NoWidths(l, elems, w[..]);
    FlatZero(l.rows);
    for b := 0 to l.blocks
      invariant w[..] == WidthsOf(l, elems, Flat(b, 0, l.rows))
    {
      for r := 0 to l.rows
        invariant w[..] == WidthsOf(l, elems, Flat(b, r, l.rows))
      {
        FlatFacts(b, r, l.blocks, l.rows);
        NextWidths(l, elems, b, r);
        WidenRow(dims, m, elems, b, r, w);
      }
      FlatCarry(b, l.blocks, l.rows);
    }
    TotalIsFlat(l);
  }

  lemma SeparatorAt(g: nat, x: nat, groups: nat, size: nat)
    requires g < groups && x < size
    ensures Separator(Flat(g, x, size), size) == if x > 0 then " " else if g > 0 then "│" else ""
  {
    FlatFacts(g, x, groups, size);
  }

  lemma RowTextStep(row: seq<string>, w: seq<nat>, size: nat, n: nat)
    requires size > 0 && n < |row| == |w|
    ensures RowText(row, w, size, n + 1) == RowText(row, w, size, n) + Separator(n, size) + Pad(row[n], w[n])
    ensures RowText(row, w, size, 0) == ""
  {
  }

  method PrintRow(dims: seq<nat>, m: seq<nat>, elems: seq<string>, b: nat, r: nat, w: array<nat>)
    returns (line: string)
    requires Drawable(dims) && AreMultipliers(m, dims) && |elems| == Product(dims)
    requires b < LayoutOf(dims).blocks && r < LayoutOf(dims).rows
    requires LayoutOf(dims).Valid() && w.Length == Columns(LayoutOf(dims))
    ensures line == LineOf(BodyRow(LayoutOf(dims), elems, b, r), w[..], LayoutOf(dims).size)
  {
    hide LayoutOf, AreMultipliers, CellText, Product, Pad, Flat, Columns, BodyRow, RowText, Separator, Framed, Positive;
    var l := LayoutOf(dims);
    ghost var row := BodyRow(l, elems, b, r);
    RowSize(l, elems, b, r);
    FlatZero(l.size);
    var text := "";
    ghost var widths := w[..];
    RowTextNone(row, widths, l.size);
    for g := 0 to l.groups
      invariant Flat(g, 0, l.size) <= |row| && text == RowText(row, widths, l.size, Flat(g, 0, l.size))
    {
      FlatCarry(g, l.groups, l.size);
      if g > 0 {
        text := text + "│";
      }
      for x := 0 to l.size
        invariant Flat(g, x, l.size) <= |row|
        invariant text == RowText(row, widths, l.size, Flat(g, x, l.size)) + (if g > 0 && x == 0 then "│" else "")
      {
        FlatFacts(g, x, l.groups, l.size);
        SeparatorAt(g, x, l.groups, l.size);
        RowTextStep(row, widths, l.size, Flat(g, x, l.size));
        if x > 0 {
          text := text + " ";
        }
        var cell := ReadCell(dims, m, elems, b, r, g, x);
        text := text + Pad(cell, w[Flat(g, x, l.size)]);
      }
    }
    line := Framed(text);
  }

  lemma RowTextNone(row: seq<string>, w: seq<nat>, size: nat)
    requires size > 0 && |row| == |w|
    ensures RowText(row, w, size, 0) == ""
  {
  }

  /** The blank line that opens every block but the first. */
  function Gap(b: nat, inner: nat): seq<string> {
    if b > 0 then [Framed(Repeat(' ', inner))] else []
  }

  lemma RowLinesStep(l: Layout, elems: seq<string>, w: seq<nat>, b: nat, r: nat)
    requires l.Valid() && b < l.blocks && r < l.rows && |w| == Columns(l)
    ensures var body, i := BodyOf(l, elems, TotalRows(l)), Flat(b, r, l.rows);
            && Even(body, |w|) && i < |body|
            && RowLines(body, w, l, i + 1)
               == RowLines(body, w, l, i) + (if r == 0 then Gap(b, InnerWidth(w)) else [])
                  + [LineOf(BodyRow(l, elems, b, r), w, l.size)]
  {
    hide LineOf, Framed, InnerWidth, BodyRow, BodyOf, Flat;
    EvenBody(l, elems, TotalRows(l));
    NextRow(l, elems, b, r);
    FlatFacts(b, r, l.blocks, l.rows);
  }

  /** The rows of the picture that have been printed. */
  function Printed(l: Layout, elems: seq<string>, w: seq<nat>, n: nat): seq<string>
    requires l.Valid() && |w| == Columns(l) && n <= TotalRows(l)
  {
    EvenBody(l, elems, TotalRows(l));
    RowLines(BodyOf(l, elems, TotalRows(l)), w, l, n)
  }

  method PrintBlock(dims: seq<nat>, m: seq<nat>, elems: seq<string>, b: nat, w: array<nat>, lines: seq<string>)
    returns (more: seq<string>)
    requires Drawable(dims) && AreMultipliers(m, dims) && |elems| == Product(dims)
    requires LayoutOf(dims).Valid() && w.Length == Columns(LayoutOf(dims)) && b < LayoutOf(dims).blocks
    requires Flat(b, 0, LayoutOf(dims).rows) <= TotalRows(LayoutOf(dims))
    requires lines == Printed(LayoutOf(dims), elems, w[..], Flat(b, 0, LayoutOf(dims).rows))
    ensures Flat(b + 1, 0, LayoutOf(dims).rows) <= TotalRows(LayoutOf(dims))
    ensures more == Printed(LayoutOf(dims), elems, w[..], Flat(b + 1, 0, LayoutOf(dims).rows))
  {
    hide LayoutOf, AreMultipliers, Product, BodyRow, BodyOf, LineOf, InnerWidth, Flat, Columns, TotalRows, RowLines;
    hide Positive;
    var l := LayoutOf(dims);
    ghost var widths := w[..];
    TotalIsFlat(l);
    more := lines + Gap(b, InnerWidth(w[..]));
    for r := 0 to l.rows
      invariant Flat(b, r, l.rows) <= TotalRows(l)
      invariant more == Printed(l, elems, widths, Flat(b, r, l.rows))
                        + (if r == 0 then Gap(b, InnerWidth(widths)) else [])
    {
      FlatFacts(b, r, l.blocks, l.rows);
      RowLinesStep(l, elems, widths, b, r);
      var line := PrintRow(dims, m, elems, b, r, w);
      more := more + [line];
    }
    FlatCarry(b, l.blocks, l.rows);
  }

  lemma TotalIsFlat(l: Layout)
    ensures TotalRows(l) == Flat(l.blocks, 0, l.rows)
  {
  }

  method PrintBlocks(dims: seq<nat>, m: seq<nat>, elems: seq<string>, w: array<nat>) returns (lines: seq<string>)
    requires Drawable(dims) && AreMultipliers(m, dims) && |elems| == Product(dims)
    requires LayoutOf(dims).Valid() && w.Length == Columns(LayoutOf(dims))
    ensures lines == Printed(LayoutOf(dims), elems, w[..], TotalRows(LayoutOf(dims)))
  {
    assert |dims| >= 3;
    hide *;
    var l := LayoutOf(dims);
    ghost var widths := w[..];
    FlatZero(l.rows);
    TotalIsFlat(l);
    NothingPrinted(l, elems, widths);
    lines := [];
    for b := 0 to l.blocks
      invariant Flat(b, 0, l.rows) <= TotalRows(l)
      invariant lines == Printed(l, elems, widths, Flat(b, 0, l.rows))
    {
      lines := PrintBlock(dims, m, elems, b, w, lines);
    }
  }

  /** `format_conform_nd`, for the shapes its caller lets through. */
  method FormatConformNd(dims: seq<nat>, elems: seq<string>) returns (text: string)
    requires |dims| >= 3 && (forall i :: 0 <= i < |dims| ==> dims[i] > 0) && |elems| == Product(dims)
    ensures LayoutOf(dims).Valid() && text == Join(Picture(LayoutOf(dims), elems), '\n')
  {
    assert Drawable(dims);
    hide *;
    LayoutValid(dims);
    var mult := Multipliers(dims);
    var m := mult[..];
    var w := ColumnWidths(dims, m, elems);
    var inner := InnerWidth(w[..]);
    var lines := PrintBlocks(dims, m, elems, w);
    var content := [Top(inner)] + lines + [Bottom(inner)];
    PictureIs(LayoutOf(dims), elems, lines);
    text := Join(content, '\n');
  }

  lemma PictureIs(l: Layout, elems: seq<string>, lines: seq<string>)
    requires l.Valid() && lines == Printed(l, elems, WidthsOf(l, elems, TotalRows(l)), TotalRows(l))
    ensures var inner := InnerWidth(WidthsOf(l, elems, TotalRows(l)));
            Picture(l, elems) == [Top(inner)] + lines + [Bottom(inner)]
  {
  }

  lemma NothingPrinted(l: Layout, elems: seq<string>, w: seq<nat>)
    requires l.Valid() && |w| == Columns(l)
    ensures Printed(l, elems, w, 0) == []
  {
  }
}
