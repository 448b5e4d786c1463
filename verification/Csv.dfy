/** The CSV reader (kap-core/src/csv.rs). The specification works on what is left of the
    current line and the lines after it; `ReadRows` is the source's cursor loop. */
module Csv {
  import opened Common
  import opened Text
  import opened Lines

  datatype Flags = Flags(separator: char, quote: char, trim: bool, parseNumbers: bool,
                         colHeaders: bool, rowHeaders: bool)

  datatype CsvError = EndOfFile | Unterminated | SyntaxError

  datatype Outcome<+T> = Done(value: T) | Failed(error: CsvError) {
    predicate IsFailure() { Failed? }

    function PropagateFailure<U>(): Outcome<U>
      requires Failed?
    {
      Failed(error)
    }

    function Extract(): T
      requires Done?
    {
      value
    }
  }

  type Row = seq<string>

  predicate IsBlank(c: char, sep: char) { c != sep && IsWhitespace(c) }

  function SkipBlanks(s: string, sep: char): (t: string)
    ensures |t| <= |s|
    ensures t == "" || !IsBlank(t[0], sep)
  {
    if s != "" && IsBlank(s[0], sep) then SkipBlanks(s[1..], sep) else s
  }

  function SkipIf(s: string, flags: Flags): (t: string)
    ensures |t| <= |s|
  {
    if flags.trim then SkipBlanks(s, flags.separator) else s
  }

  /** A field, the rest of the line it ended on, and the lines after that one. */
  datatype Scan = Scan(field: string, rest: string, more: seq<string>)

  /** The inside of a quoted field: the doubled quote is always `"`, whatever quote is in use. */
  function Quoted(s: string, more: seq<string>, buf: string, quote: char): (r: Outcome<Scan>)
    ensures r.Done? ==> |r.value.more| < |more| || (r.value.more == more && |r.value.rest| < |s|)
    decreases |more|, |s|
  {
    if s == "" then
      if more == [] then Failed(EndOfFile) else Quoted(more[0], more[1..], buf + "\n", quote)
    else if s[0] == quote then
      if |s| == 1 || s[1] != '"' then Done(Scan(buf, s[1..], more)) else Quoted(s[2..], more, buf + "\"", quote)
    else if s[0] == '\\' then
      if |s| == 1 then Failed(Unterminated) else Quoted(s[2..], more, buf + [s[1]], quote)
    else Quoted(s[1..], more, buf + [s[0]], quote)
  }

  /** An unquoted field: blanks are held back until something follows them. */
  function Unquoted(s: string, buf: string, held: string, flags: Flags): (r: (string, string))
    ensures |r.1| <= |s|
    ensures r.1 == "" || r.1[0] == flags.separator
    decreases |s|
  {
    if s == "" then (buf, s)
    else if s[0] == flags.separator then (if flags.trim then buf else buf + held, s)
    else if IsBlank(s[0], flags.separator) then Unquoted(s[1..], buf, held + [s[0]], flags)
    else Unquoted(s[1..], buf + held + [s[0]], "", flags)
  }

  function ReadField(s: string, more: seq<string>, flags: Flags): (r: Outcome<Scan>)
    requires s != ""
    ensures r.Done? ==> |r.value.more| < |more| || (r.value.more == more && |r.value.rest| <= |s|)
    ensures r.Done? && r.value.more == more && |r.value.rest| == |s| ==> r.value.rest == s && s[0] == flags.separator
  {
    if s[0] == flags.quote then Quoted(s[1..], more, "", flags.quote)
    else if s[0] == flags.separator then Done(Scan("", s, more))
    else var (field, rest) := Unquoted(s[1..], [s[0]], "", flags); Done(Scan(field, rest, more))
  }

  /** The fields of one row, and the lines left after it. */
  function ReadRow(s: string, more: seq<string>, fields: Row, flags: Flags): (r: Outcome<(Row, seq<string>)>)
    ensures r.Done? ==> |r.value.1| <= |more|
    decreases |more|, |s|
  {
    var start := SkipIf(s, flags);
    if start == "" then Done((fields, more))
    else
      var scan :- ReadField(start, more, flags);
      var after := SkipIf(scan.rest, flags);
      if after == "" then Done((fields + [scan.field], scan.more))
      else if after[0] != flags.separator then Failed(SyntaxError)
      else ReadRow(after[1..], scan.more, fields + [scan.field], flags)
  }

  function ReadLines(lines: seq<string>, rows: seq<Row>, flags: Flags): Outcome<seq<Row>>
    decreases |lines|
  {
    if lines == [] then Done(rows)
    else
      var (row, more) :- ReadRow(lines[0], lines[1..], [], flags);
      ReadLines(more, rows + [row], flags)
  }

  function ReadText(text: string, flags: Flags): Outcome<seq<Row>> {
    ReadLines(LinesOf(text, '\n'), [], flags)
  }

  // ---------------------------------------------------------------- the cursor loops

  method AdvanceBlanks(cur: string, from: nat, flags: Flags) returns (pos: nat)
    requires from <= |cur|
    ensures from <= pos <= |cur| && cur[pos..] == SkipIf(cur[from..], flags)
  {
    pos := from;
    if flags.trim {
      while pos < |cur| && IsBlank(cur[pos], flags.separator)
        invariant from <= pos <= |cur|
        invariant SkipBlanks(cur[pos..], flags.separator) == SkipBlanks(cur[from..], flags.separator)
      {
        assert cur[pos..][1..] == cur[pos + 1..];
        pos := pos + 1;
      }
    }
  }

  method ReadUnquoted(cur: string, from: nat, initial: char, flags: Flags) returns (buf: string, pos: nat)
    requires from <= |cur|
    ensures from <= pos <= |cur| && (buf, cur[pos..]) == Unquoted(cur[from..], [initial], "", flags)
  {
    buf, pos := [initial], from;
    var held := "";
    while pos < |cur|
      invariant from <= pos <= |cur|
      invariant Unquoted(cur[pos..], buf, held, flags) == Unquoted(cur[from..], [initial], "", flags)
    {
      var c := cur[pos];
      assert cur[pos..][1..] == cur[pos + 1..];
      if c == flags.separator {
        if !flags.trim {
          buf := buf + held;
        }
        return;
      } else if IsBlank(c, flags.separator) {
        held := held + [c];
      } else {
        buf := buf + held;
        held := "";
        buf := buf + [c];
      }
      pos := pos + 1;
    }
  }

  /** `line`, `pos` and `li` come back because a quoted field may run over several lines. */
  method ReadQuoted(lines: seq<string>, li0: nat, cur0: string, pos0: nat, quote: char)
    returns (error: Option<CsvError>, buf: string, cur: string, pos: nat, li: nat)
    requires pos0 <= |cur0| && li0 <= |lines|
    ensures error == None ==> pos <= |cur| && li <= |lines|
    ensures Quoted(cur0[pos0..], lines[li0..], "", quote) ==
            (if error == None then Done(Scan(buf, cur[pos..], lines[li..])) else Failed(error.value))
  {
    buf, cur, pos, li := "", cur0, pos0, li0;
    error := None;
    ghost var goal := Quoted(cur0[pos0..], lines[li0..], "", quote);
    while true
      invariant pos <= |cur| && li <= |lines|
      invariant Quoted(cur[pos..], lines[li..], buf, quote) == goal
      decreases |lines| - li, |cur| - pos
    {
      ghost var mark, left := li, |cur| - pos;
      while pos >= |cur|
        invariant pos <= |cur| && mark <= li <= |lines|
        invariant li == mark ==> |cur| - pos == left
        invariant Quoted(cur[pos..], lines[li..], buf, quote) == goal
        decreases |lines| - li
      {
        if li >= |lines| {
          error := Some(EndOfFile);
          return;
        }
        assert lines[li..][1..] == lines[li + 1..];
        cur := lines[li];
        li := li + 1;
        pos := 0;
        buf := buf + "\n";
        assert cur[0..] == cur;
      }
      var c := cur[pos];
      ghost var s := cur[pos..];
      assert s[1..] == cur[pos + 1..];
      pos := pos + 1;
      if c == quote {
        if pos >= |cur| || cur[pos] != '"' {
          return;
        } else {
          assert s[2..] == cur[pos + 1..];
          buf := buf + "\"";
          pos := pos + 1;
        }
      } else if c == '\\' {
        if pos >= |cur| {
          error := Some(Unterminated);
          return;
        }
        assert s[2..] == cur[pos + 1..];
        buf := buf + [cur[pos]];
        pos := pos + 1;
      } else {
        buf := buf + [c];
      }
    }
  }

  /** `read_rows`: it ends on every input, and yields what the specification yields. */
  method ReadRows(text: string, flags: Flags) returns (r: Outcome<seq<Row>>)
    ensures r == ReadText(text, flags)
  {
    var lines := LinesOf(text, '\n');
    var rows: seq<Row> := [];
    var li := 0;
    while li < |lines|
      invariant li <= |lines|
      invariant ReadLines(lines[li..], rows, flags) == ReadText(text, flags)
    {
      assert lines[li..][1..] == lines[li + 1..];
      var row;
      row, li := ReadFields(lines, li + 1, lines[li], flags);
      if row.Failed? {
        return Failed(row.error);
      }
      rows := rows + [row.value];
    }
    return Done(rows);
  }

  method ReadOne(lines: seq<string>, li0: nat, cur0: string, pos0: nat, flags: Flags)
    returns (error: Option<CsvError>, field: string, cur: string, pos: nat, li: nat)
    requires pos0 < |cur0| && li0 <= |lines|
    ensures error == None ==> pos <= |cur| && li <= |lines|
    ensures ReadField(cur0[pos0..], lines[li0..], flags) ==
            (if error == None then Done(Scan(field, cur[pos..], lines[li..])) else Failed(error.value))
  {
    var ch := cur0[pos0];
    assert cur0[pos0..][1..] == cur0[pos0 + 1..];
    if ch == flags.quote {
      error, field, cur, pos, li := ReadQuoted(lines, li0, cur0, pos0 + 1, flags.quote);
    } else {
      error, cur, li := None, cur0, li0;
      if ch == flags.separator {
        field, pos := "", pos0;
      } else {
        field, pos := ReadUnquoted(cur, pos0 + 1, ch, flags);
      }
    }
  }

  /** The loop over the fields of one row, starting on the line `first`. */
  method ReadFields(lines: seq<string>, li0: nat, first: string, flags: Flags)
    returns (r: Outcome<Row>, li: nat)
    requires li0 <= |lines|
    ensures li <= |lines|
    ensures ReadRow(first, lines[li0..], [], flags)
            == (if r.Done? then Done((r.value, lines[li..])) else Failed(r.error))
  {
    hide Quoted, Unquoted, SkipBlanks, ReadRow, SkipIf, ReadField;
    var fields: Row := [];
    var cur: string, pos: nat := first, 0;
    li := li0;
    assert cur[pos..] == first;
    while true
      invariant pos <= |cur| && li <= |lines|
      invariant ReadRow(cur[pos..], lines[li..], fields, flags) == ReadRow(first, lines[li0..], [], flags)
      decreases |lines| - li, |cur| - pos
    {
      StepRow(cur[pos..], lines[li..], fields, flags);
      pos := AdvanceBlanks(cur, pos, flags);
      if pos >= |cur| {
        return Done(fields), li;
      }
      var error, field;
      error, field, cur, pos, li := ReadOne(lines, li, cur, pos, flags);
      if error.Some? {
        return Failed(error.value), li0;
      }
      fields := fields + [field];
      pos := AdvanceBlanks(cur, pos, flags);
      if pos < |cur| {
        if cur[pos] != flags.separator {
          return Failed(SyntaxError), li;
        }
        assert cur[pos..][1..] == cur[pos + 1..];
        pos := pos + 1;
      } else {
        assert cur[pos..] == "";
      }
    }
  }

  lemma EndRow(more: seq<string>, fields: Row, flags: Flags)
    ensures ReadRow("", more, fields, flags) == Done((fields, more))
  {
  }

  /** One turn of the loop over fields; the empty rest of a line ends the row on the next turn. */
  lemma StepRow(s: string, more: seq<string>, fields: Row, flags: Flags)
    ensures var start := SkipIf(s, flags);
            ReadRow(s, more, fields, flags) ==
            if start == "" then Done((fields, more))
            else if ReadField(start, more, flags).Failed? then Failed(ReadField(start, more, flags).error)
            else
              var scan := ReadField(start, more, flags).value;
              var after := SkipIf(scan.rest, flags);
              if after != "" && after[0] != flags.separator then Failed(SyntaxError)
              else ReadRow(if after == "" then "" else after[1..], scan.more, fields + [scan.field], flags)
  {
  }
}
