/** A canonical CSV writer, undone by the reader for every list of rows
    (kap-core/src/csv.rs). */
module CsvRoundTrip {
  import opened Text
  import opened Lines
  import opened Csv
  import opened CsvPlainLines
  import opened CsvSpelling

  // ---------------------------------------------------------------- the canonical writer

  /** A field's characters with `"` and `\` doubled. */
  function Escape(field: string): string {
    if field == "" then ""
    else (if field[0] == '"' || field[0] == '\\' then [field[0], field[0]] else [field[0]]) + Escape(field[1..])
  }

  function WriteField(field: string): string { "\"" + Escape(field) + "\"" }

  function WriteRow(row: Row, sep: char): string {
    if row == [] then ""
    else WriteField(row[0]) + (if |row| == 1 then "" else [sep] + WriteRow(row[1..], sep))
  }

  /** Every row ends in a newline; a row without fields is an empty line. */
  function Write(rows: seq<Row>, sep: char): string {
    if rows == [] then "" else WriteRow(rows[0], sep) + "\n" + Write(rows[1..], sep)
  }

  // ---------------------------------------------------------------- reading what was written

  function MarkOf(c: char): Mark { if c == '"' then Paired else if c == '\\' then Escaped else Plain }

  function MarksOf(field: string): (marks: seq<Mark>)
    ensures AllSuit(field, marks, '"')
  {
    seq(|field|, i requires 0 <= i < |field| => MarkOf(field[i]))
  }

  /** Doubling is one way of spelling a field. */
  lemma {:induction false} EscapeIsSpelling(field: string)
    ensures Escape(field) == Spell(field, MarksOf(field), '"')
  {
    if field != "" {
      EscapeIsSpelling(field[1..]);
      assert MarksOf(field)[1..] == MarksOf(field[1..]);
    }
  }

  /** Inside a quoted field, escaping is undone up to the closing quote. */
  lemma ReadEscaped(s: string, more: seq<string>, buf: string, field: string, text: string)
    requires Stands(s, more, Escape(field) + "\"" + text)
    requires text != "" && text[0] != '"'
    ensures var r := Quoted(s, more, buf, '"');
            r.Done? && r.value.field == buf + field && Stands(r.value.rest, r.value.more, text)
  {
    hide Stands, Quoted, Escape, Spell;
    EscapeIsSpelling(field);
    ReadSpelled(s, more, buf, field, MarksOf(field), '"', text);
  }

  /** A row as items; a row without fields is a single empty one. */
  function ItemsOf(row: Row): (items: seq<Item>)
    ensures items != []
  {
    if row == [] then [Bare("")] else Items(row)
  }

  function Items(row: Row): (items: seq<Item>)
    ensures |items| == |row|
  {
    seq(|row|, i requires 0 <= i < |row| => InQuotes("", row[i], MarksOf(row[i]), ""))
  }

  lemma ItemsWritable(row: Row, flags: Flags)
    requires flags.quote == '"'
    ensures AllWritable(ItemsOf(row), flags)
  {
    hide MarksOf;
  }

  lemma {:induction false} RowIsItems(row: Row, flags: Flags)
    requires flags.quote == '"' && row != [] && AllWritable(Items(row), flags)
    ensures WriteItems(Items(row), flags) == WriteRow(row, flags.separator)
    ensures FieldsOf(Items(row), flags) == row
    decreases |row|
  {
    hide MarksOf, Spell, Escape;
    FieldIsItem(row[0], flags);
    if |row| == 1 {
      assert row == [row[0]];
    } else {
      assert Items(row)[1..] == Items(row[1..]);
      RowIsItems(row[1..], flags);
      assert row == [row[0]] + row[1..];
    }
  }

  lemma FieldIsItem(field: string, flags: Flags)
    requires flags.quote == '"'
    ensures var item := InQuotes("", field, MarksOf(field), "");
            Writable(item, flags) && WriteItem(item, flags) == WriteField(field)
  {
    hide MarksOf, Spell, Escape;
    EscapeIsSpelling(field);
    assert WriteField(field) == ['"'] + (Escape(field) + ['"']);
    assert Escape(field) + ['"'] + "" == Escape(field) + ['"'];
  }

  lemma AnyRowIsItems(row: Row, flags: Flags)
    requires flags.quote == '"' && AllWritable(ItemsOf(row), flags)
    ensures WriteItems(ItemsOf(row), flags) == WriteRow(row, flags.separator)
    ensures FieldsOf(ItemsOf(row), flags) == row
  {
    if row != [] {
      RowIsItems(row, flags);
    } else {
      assert LastField("", flags) == "";
    }
  }

  lemma {:induction false} ReadWritten(rows: seq<Row>, before: seq<Row>, flags: Flags)
    requires flags.quote == '"' && flags.separator != '"' && flags.separator != '\n'
    ensures ReadLines(LinesOf(Write(rows, flags.separator), '\n'), before, flags) == Done(before + rows)
    decreases |rows|
  {
    hide WriteRow, ReadRow, ReadLines, LinesOf, ItemsOf, WriteItems, FieldsOf, AllWritable;
    if rows == [] {
      ReadNothing(before, flags);
      assert before + rows == before;
    } else {
      ItemsWritable(rows[0], flags);
      AnyRowIsItems(rows[0], flags);
      TextTerminated(rows[1..], flags.separator);
      ReadFirstRow(ItemsOf(rows[0]), Write(rows[1..], flags.separator), before, flags);
      ReadWritten(rows[1..], before + [rows[0]], flags);
      assert before + [rows[0]] + rows[1..] == before + rows;
    }
  }

  lemma {:induction false} TextTerminated(rows: seq<Row>, sep: char)
    ensures rows != [] ==> Terminated(Write(rows, sep), '\n')
  {
    if |rows| > 1 {
      TextTerminated(rows[1..], sep);
    }
  }

  /** Every list of rows comes back, and a separator that is a quote or a newline is all that prevents it. */
  lemma RoundTrip(flags: Flags)
    requires flags.quote == '"'
    ensures (forall rows :: ReadText(Write(rows, flags.separator), flags) == Done(rows))
            <==> flags.separator != '"' && flags.separator != '\n'
  {
    if flags.separator != '"' && flags.separator != '\n' {
      forall rows ensures ReadText(Write(rows, flags.separator), flags) == Done(rows) {
        ReadWritten(rows, [], flags);
        assert [] + rows == rows;
      }
    } else {
      TwoEmptyFields(flags);
      assert ReadText(Write([["", ""]], flags.separator), flags) != Done([["", ""]]);
    }
  }

  lemma ReadEmptyField(more: seq<string>, flags: Flags)
    requires flags.quote == '"'
    ensures ReadRow("\"\"", more, [], flags) == Done(([""], more))
  {
    hide Unquoted;
    var s := "\"\"";
    assert s[1..][1..] == "" && [] + [""] == [""];
    assert SkipIf(s, flags) == s;
    assert ReadField(s, more, flags) == Done(Scan("", "", more));
  }

  lemma TwoEmptyText(sep: char)
    ensures Write([["", ""]], sep) == "\"\"" + [sep] + "\"\"" + "\n"
  {
    var row: Row := ["", ""];
    assert row[1..] == [""];
    assert WriteField("") == "\"\"";
    assert WriteRow([""], sep) == "\"\"";
    assert WriteRow(row, sep) == "\"\"" + ([sep] + "\"\"");
    assert [row][1..] == [] && Write([], sep) == "";
    assert Write([row], sep) == WriteRow(row, sep) + "\n" + "";
  }

  /** A newline as the separator makes two rows of one. */
  lemma TwoRows(flags: Flags)
    requires flags.quote == '"'
    ensures ReadLines(["\"\"", "\"\""], [], flags) == Done([[""], [""]])
  {
    hide ReadRow;
    var s := "\"\"";
    ReadEmptyField([s], flags);
    ReadEmptyField([], flags);
    assert [s] + [s] == [s, s] && [s] + [] == [s];
    StepLines(s, [], [[""]], [""], [], flags);
    assert [] + [[""]] == [[""]] && [[""]] + [[""]] == [[""], [""]];
    StepLines(s, [s], [], [""], [s], flags);
  }

  lemma StepLines(s: string, more: seq<string>, before: seq<Row>, row: Row, left: seq<string>, flags: Flags)
    requires ReadRow(s, more, [], flags) == Done((row, left))
    ensures ReadLines([s] + more, before, flags) == ReadLines(left, before + [row], flags)
  {
    hide ReadRow;
    assert ([s] + more)[1..] == more;
  }

  lemma TwoLines()
    ensures LinesOf("\"\"" + ['\n'] + "\"\"" + "\n", '\n') == ["\"\"", "\"\""]
  {
    var s := "\"\"";
    assert s + ['\n'] + s + "\n" == s + ['\n'] + (s + ['\n'] + "");
    LinesAfter(s, '\n', s + ['\n'] + "");
    LinesAfter(s, '\n', "");
    LinesLast("", '\n');
  }

  /** A quote as the separator is swallowed by the doubling rule, and the field never ends. */
  lemma FiveQuotes(flags: Flags)
    requires flags.quote == '"'
    ensures ReadText("\"\"\"\"" + "\"" + "\n", flags) == Failed(EndOfFile)
  {
    hide *;
    var s := "\"\"\"\"" + "\"";
    OneLine(s);
    FiveQuotesRow(flags);
    OneFailingRow(s, flags);
  }

  lemma OneLine(s: string)
    requires '\n' !in s && s != ""
    ensures LinesOf(s + "\n", '\n') == [s]
  {
    assert s + "\n" == s + ['\n'] + "";
    LinesAfter(s, '\n', "");
    LinesLast("", '\n');
  }

  lemma OneFailingRow(s: string, flags: Flags)
    requires LinesOf(s + "\n", '\n') == [s] && ReadRow(s, [], [], flags).Failed?
    ensures ReadText(s + "\n", flags) == Failed(ReadRow(s, [], [], flags).error)
  {
    hide ReadRow, LinesOf;
    assert [s][1..] == [];
  }

  lemma FiveQuotesRow(flags: Flags)
    requires flags.quote == '"'
    ensures ReadRow("\"\"\"\"" + "\"", [], [], flags) == Failed(EndOfFile)
  {
    hide Quoted, Unquoted;
    var s := "\"\"\"\"" + "\"";
    TwoDoubled();
    assert s[1..] == "\"\"\"\"";
    assert SkipIf(s, flags) == s;
  }

  lemma TwoDoubled()
    ensures Quoted("\"\"\"\"", [], "", '"') == Failed(EndOfFile)
  {
    var s := "\"\"\"\"";
    assert s[2..] == "\"\"" && "\"\""[2..] == "";
    assert Quoted("", [], "\"" + "\"", '"') == Failed(EndOfFile);
    assert Quoted("\"\"", [], "" + "\"", '"') == Quoted("", [], "" + "\"" + "\"", '"');
  }

  lemma TwoEmptyFields(flags: Flags)
    requires flags.quote == '"' && (flags.separator == '"' || flags.separator == '\n')
    ensures ReadText(Write([["", ""]], flags.separator), flags) != Done([["", ""]])
  {
    hide Write, LinesOf, ReadLines;
    TwoEmptyText(flags.separator);
    if flags.separator == '\n' {
      TwoLines();
      TwoRows(flags);
      assert [[""], [""]] != [["", ""]];
    } else {
      assert "\"\"" + ['"'] + "\"\"" == "\"\"\"\"" + "\"";
      FiveQuotes(flags);
    }
  }

  // ---------------------------------------------------------------- what cannot be read

  predicate Ordinary(s: string, quote: char) { quote !in s && '\\' !in s }

  /** A quoted field that no line closes ends in the end-of-file error, however many lines follow. */
  lemma {:induction false} NeverClosed(s: string, more: seq<string>, buf: string, quote: char)
    requires Ordinary(s, quote) && forall line :: line in more ==> Ordinary(line, quote)
    ensures Quoted(s, more, buf, quote) == Failed(EndOfFile)
    decreases |more|, |s|
  {
    if s != "" {
      NeverClosed(s[1..], more, buf + [s[0]], quote);
    } else if more != [] {
      NeverClosed(more[0], more[1..], buf + "\n", quote);
    }
  }

  /** A backslash at the end of a line escapes nothing. */
  lemma {:induction false} DanglingBackslash(s: string, more: seq<string>, buf: string, quote: char)
    requires Ordinary(s, quote) && quote != '\\'
    ensures Quoted(s + "\\", more, buf, quote) == Failed(Unterminated)
    decreases |s|
  {
    if s == "" {
      assert s + "\\" == "\\";
    } else {
      assert (s + "\\")[1..] == s[1..] + "\\";
      DanglingBackslash(s[1..], more, buf + [s[0]], quote);
    }
  }

  lemma {:induction false} ClosedField(s: string, rest: string, more: seq<string>, buf: string, quote: char)
    requires Ordinary(s, quote) && quote != '\\' && (rest == "" || rest[0] != '"')
    ensures Quoted(s + [quote] + rest, more, buf, quote) == Done(Scan(buf + s, rest, more))
    decreases |s|
  {
    var t := s + [quote] + rest;
    if s == "" {
      assert t == [quote] + rest && t[1..] == rest && buf + s == buf;
    } else {
      assert t[1..] == s[1..] + [quote] + rest;
      ClosedField(s[1..], rest, more, buf + [s[0]], quote);
      assert buf + [s[0]] + s[1..] == buf + s;
    }
  }

  /** Only blanks, the separator or the end of the line may follow a closing quote. */
  lemma TextAfterQuote(s: string, rest: string, more: seq<string>, fields: Row, flags: Flags)
    requires Ordinary(s, flags.quote) && flags.quote != '\\' && !IsBlank(flags.quote, flags.separator)
    requires rest != "" && rest[0] != '"' && rest[0] != flags.separator && !IsBlank(rest[0], flags.separator)
    ensures ReadRow([flags.quote] + (s + [flags.quote] + rest), more, fields, flags) == Failed(SyntaxError)
  {
    hide Quoted, Unquoted, IsWhitespace;
    var line := [flags.quote] + (s + [flags.quote] + rest);
    assert line[1..] == s + [flags.quote] + rest;
    ClosedField(s, rest, more, "", flags.quote);
    StepRow(line, more, fields, flags);
  }
}
