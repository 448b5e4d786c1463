/** The table built from CSV rows: their rectangular padding (kap-core/src/csv.rs). */
module CsvTables {
  import opened Common
  import opened Csv

  datatype Cell<+N> = Str(text: string) | Num(number: N)

  datatype Table<+N> = Table(nrows: nat, ncols: nat, cells: seq<Cell<N>>,
                             rowLabels: Option<Row>, colLabels: Option<Row>)

  /** Short rows read as empty text. */
  function FieldAt(row: Row, i: nat): string { if i < |row| then row[i] else "" }

  /** `convert`; reading a number from text is a parameter. */
  function Convert<N>(s: string, flags: Flags, parse: string -> Option<N>): Cell<N> {
    if flags.parseNumbers && parse(s).Some? then Num(parse(s).value) else Str(s)
  }

  predicate IsWidth(w: nat, rows: seq<Row>) {
    (forall r :: r in rows ==> |r| <= w) && (w == 0 || exists r :: r in rows && |r| == w)
  }

  method Width(rows: seq<Row>) returns (w: nat)
    ensures IsWidth(w, rows)
  {
    w := 0;
    for i := 0 to |rows|
      invariant IsWidth(w, rows[..i])
    {
      assert rows[..i + 1] == rows[..i] + [rows[i]];
      if |rows[i]| > w {
        w := |rows[i]|;
        assert rows[i] in rows[..i + 1];
      } else if w > 0 {
        var r :| r in rows[..i] && |r| == w;
        assert r in rows[..i + 1];
      }
    }
    assert rows[..|rows|] == rows;
  }

  function PaddedRow<N>(row: Row, ncols: nat, colOff: nat, flags: Flags, parse: string -> Option<N>): seq<Cell<N>> {
    seq(ncols, c requires 0 <= c => Convert(FieldAt(row, c + colOff), flags, parse))
  }

  /** One padded row of cells after another. */
  function RowMajor<N>(body: seq<Row>, ncols: nat, colOff: nat, flags: Flags, parse: string -> Option<N>)
    : seq<Cell<N>>
  {
    if body == [] then []
    else RowMajor(body[..|body| - 1], ncols, colOff, flags, parse)
         + PaddedRow(body[|body| - 1], ncols, colOff, flags, parse)
  }

  lemma {:induction false} RowMajorLength<N>(body: seq<Row>, ncols: nat, colOff: nat, flags: Flags,
                                             parse: string -> Option<N>)
    ensures |RowMajor(body, ncols, colOff, flags, parse)| == |body| * ncols
  {
    if body == [] {
    } else {
      RowMajorLength(body[..|body| - 1], ncols, colOff, flags, parse);
      assert |body| * ncols == (|body| - 1) * ncols + ncols;
    }
  }

  lemma Converted<N>(row: Row, i: nat, flags: Flags, parse: string -> Option<N>)
    ensures var text := if i < |row| then row[i] else "";
            Convert(FieldAt(row, i), flags, parse) ==
            if flags.parseNumbers && parse(text).Some? then Num(parse(text).value) else Str(text)
  {
  }

  /** The table holds nrows * ncols cells, and cell (r, c) is field c of row r, or empty text past its
      end, as a number if numbers are asked for and it is one. */
  lemma {:induction false} CellAt<N>(body: seq<Row>, ncols: nat, colOff: nat, flags: Flags, parse: string -> Option<N>,
                                     r: nat, c: nat)
    requires r < |body| && c < ncols
    ensures var cells := RowMajor(body, ncols, colOff, flags, parse);
            var text := if c + colOff < |body[r]| then body[r][c + colOff] else "";
            && |cells| == |body| * ncols && r * ncols + c < |cells|
            && cells[r * ncols + c] ==
               if flags.parseNumbers && parse(text).Some? then Num(parse(text).value) else Str(text)
    decreases |body|
  {
    hide Convert, FieldAt;
    Converted(body[r], c + colOff, flags, parse);
    RowMajorLength(body, ncols, colOff, flags, parse);
    var front := body[..|body| - 1];
    RowMajorLength(front, ncols, colOff, flags, parse);
    assert |body| * ncols == (|body| - 1) * ncols + ncols;
    if r < |body| - 1 {
      CellAt(front, ncols, colOff, flags, parse, r, c);
    }
  }

  function ColumnLabels(header: Row, ncols: nat, colOff: nat): Row {
    seq(ncols, i requires 0 <= i => FieldAt(header, i + colOff))
  }

  function RowLabels(body: seq<Row>): Row {
    seq(|body|, i requires 0 <= i < |body| => FieldAt(body[i], 0))
  }

  /** A column is labelled by its field of the header row, a row by its first field. */
  lemma LabelsAt(header: Row, ncols: nat, colOff: nat, body: seq<Row>)
    ensures |ColumnLabels(header, ncols, colOff)| == ncols && |RowLabels(body)| == |body|
    ensures forall i :: 0 <= i < ncols ==>
              ColumnLabels(header, ncols, colOff)[i] == if i + colOff < |header| then header[i + colOff] else ""
    ensures forall i :: 0 <= i < |body| ==> RowLabels(body)[i] == if body[i] == [] then "" else body[i][0]
  {
    forall i | 0 <= i < ncols
      ensures ColumnLabels(header, ncols, colOff)[i] == if i + colOff < |header| then header[i + colOff] else ""
    {
      assert ColumnLabels(header, ncols, colOff)[i] == FieldAt(header, i + colOff);
    }
  }

  method FillCells<N>(rows: seq<Row>, rowOff: nat, ncols: nat, colOff: nat, flags: Flags, parse: string -> Option<N>)
    returns (cells: seq<Cell<N>>)
    requires rowOff <= |rows|
    ensures cells == RowMajor(rows[rowOff..], ncols, colOff, flags, parse)
  {
    hide Convert, FieldAt;
    ghost var body := rows[rowOff..];
    cells := [];
    for ri := 0 to |rows| - rowOff
      invariant cells == RowMajor(body[..ri], ncols, colOff, flags, parse)
    {
      var row := rows[ri + rowOff];
      ghost var done, padded := cells, PaddedRow(row, ncols, colOff, flags, parse);
      for ci := 0 to ncols
        invariant cells == done + padded[..ci]
      {
        cells := cells + [Convert(FieldAt(row, ci + colOff), flags, parse)];
      }
      assert padded[..ncols] == padded;
      assert body[..ri + 1][..ri] == body[..ri] && body[..ri + 1][ri] == row;
    }
    assert body[..|rows| - rowOff] == body;
  }

  method ReadColumnLabels(header: Row, ncols: nat, colOff: nat) returns (labels: Row)
    ensures labels == ColumnLabels(header, ncols, colOff)
  {
    labels := [];
    for i := 0 to ncols
      invariant |labels| == i && forall k :: 0 <= k < i ==> labels[k] == FieldAt(header, k + colOff)
    {
      labels := labels + [if i + colOff < |header| then header[i + colOff] else ""];
    }
  }

  method ReadRowLabels(body: seq<Row>) returns (labels: Row)
    ensures labels == RowLabels(body)
  {
    labels := [];
    for i := 0 to |body|
      invariant |labels| == i && forall k :: 0 <= k < i ==> labels[k] == FieldAt(body[k], 0)
    {
      labels := labels + [if body[i] == [] then "" else body[i][0]];
    }
  }

  /** `build_table`. */
  method BuildTable<N>(rows: seq<Row>, flags: Flags, parse: string -> Option<N>) returns (t: Table<N>)
    ensures rows == [] ==> t == Table(0, 0, [], None, None)
    ensures rows != [] ==>
              var rowOff, colOff := if flags.colHeaders then 1 else 0, if flags.rowHeaders then 1 else 0;
              && t.nrows == |rows| - rowOff
              && t.cells == RowMajor(rows[rowOff..], t.ncols, colOff, flags, parse)
              && if IsWidth(0, rows) then t.ncols == 0 && t.rowLabels == None && t.colLabels == None
                 else
                   && IsWidth(t.ncols + colOff, rows)
                   && t.colLabels == (if flags.colHeaders then Some(ColumnLabels(rows[0], t.ncols, colOff)) else None)
                   && t.rowLabels == (if flags.rowHeaders then Some(RowLabels(rows[rowOff..])) else None)
  {
    if rows == [] {
      return Table(0, 0, [], None, None);
    }
    var rowOff := if flags.colHeaders then 1 else 0;
    var colOff := if flags.rowHeaders then 1 else 0;
    var nrows := |rows| - rowOff;
    var width := Width(rows);
    if width == 0 {
      RowMajorLength(rows[rowOff..], 0, colOff, flags, parse);
      return Table(nrows, 0, [], None, None);
    }
    var ncols := width - colOff;
    var cells := FillCells(rows, rowOff, ncols, colOff, flags, parse);
    var colLabels: Option<Row> := None;
    if flags.colHeaders {
      var labels := ReadColumnLabels(rows[0], ncols, colOff);
      colLabels := Some(labels);
    }
    var rowLabels: Option<Row> := None;
    if flags.rowHeaders {
      var labels := ReadRowLabels(rows[rowOff..]);
      rowLabels := Some(labels);
    }
    return Table(nrows, ncols, cells, rowLabels, colLabels);
  }
}
