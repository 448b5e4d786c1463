/** Every way of spelling a row of fields (kap-core/src/csv.rs): quoted with doubled quotes and
    backslashes at will, or bare, with blanks around. The reader undoes them all. */
module CsvSpelling {
  import opened Text
  import opened Lines
  import opened Csv
  import opened CsvPlainLines

  // ---------------------------------------------------------------- where the reader stands

  /** The reader stands at the start of `text`: the rest of its line, then the later lines. */
  predicate Stands(s: string, more: seq<string>, text: string) {
    Terminated(text, '\n') && [s] + more == LinesOf(text, '\n')
  }

  lemma TakeChar(s: string, more: seq<string>, c: char, text: string)
    requires Stands(s, more, [c] + text) && c != '\n' && text != ""
    ensures s != "" && s[0] == c && Stands(s[1..], more, text)
  {
    assert text[|text| - 1] == ([c] + text)[|text|];
    LinesCons(c, text, '\n');
    var lines := LinesOf(text, '\n');
    assert s == ([s] + more)[0] == [c] + lines[0];
    assert more == ([s] + more)[1..] == lines[1..];
  }

  lemma TakeNewline(s: string, more: seq<string>, text: string)
    requires Stands(s, more, "\n" + text)
    ensures s == "" && more == LinesOf(text, '\n')
    ensures text != "" ==> more != [] && Stands(more[0], more[1..], text)
  {
    if text != "" {
      assert text[|text| - 1] == ("\n" + text)[|text|];
      TerminatedSplit(text, '\n');
    }
    LinesCons('\n', text, '\n');
    assert more == ([s] + more)[1..];
  }

  lemma FirstChar(s: string, more: seq<string>, text: string)
    requires Stands(s, more, text) && s != ""
    ensures s[0] == text[0]
  {
    assert text == [text[0]] + text[1..];
    if text[0] == '\n' {
      TakeNewline(s, more, text[1..]);
    } else {
      TakeChar(s, more, text[0], text[1..]);
    }
  }

  // ---------------------------------------------------------------- quoted fields

  /** How one character is spelled inside quotes: as itself, as a quote and `"`, or behind a backslash. */
  datatype Mark = Plain | Paired | Escaped

  predicate Suits(c: char, m: Mark, quote: char) {
    match m
    case Plain => c != quote && c != '\\'
    case Paired => c == '"'
    case Escaped => c != '\n'
  }

  predicate AllSuit(field: string, marks: seq<Mark>, quote: char) {
    |marks| == |field| && forall i :: 0 <= i < |field| ==> Suits(field[i], marks[i], quote)
  }

  function SpellChar(c: char, m: Mark, quote: char): string {
    match m
    case Plain => [c]
    case Paired => [quote, '"']
    case Escaped => ['\\', c]
  }

  function Spell(field: string, marks: seq<Mark>, quote: char): string
    requires |marks| == |field|
  {
    if field == "" then "" else SpellChar(field[0], marks[0], quote) + Spell(field[1..], marks[1..], quote)
  }

  lemma {:induction false} TakeRun(s: string, more: seq<string>, run: string, text: string)
    requires Stands(s, more, run + text) && '\n' !in run && text != ""
    ensures |run| <= |s| && s == run + s[|run|..] && Stands(s[|run|..], more, text)
    decreases |run|
  {
    hide LinesOf, Stands;
    if run == "" {
      assert run + text == text && s == "" + s[0..];
    } else {
      assert run + text == [run[0]] + (run[1..] + text);
      TakeChar(s, more, run[0], run[1..] + text);
      TakeRun(s[1..], more, run[1..], text);
      assert s[1..][|run| - 1..] == s[|run|..];
      assert s == [s[0]] + s[1..] && run == [run[0]] + run[1..];
    }
  }

  /** The reader takes one spelled character to its buffer. */
  lemma ReadSpelledChar(s: string, more: seq<string>, buf: string, c: char, m: Mark, quote: char, text: string)
    requires Suits(c, m, quote) && quote != '\\' && quote != '\n' && text != ""
    requires Stands(s, more, SpellChar(c, m, quote) + text)
    ensures c == '\n' ==> s == "" && more != [] && Stands(more[0], more[1..], text)
                          && Quoted(s, more, buf, quote) == Quoted(more[0], more[1..], buf + [c], quote)
    ensures c != '\n' ==> |SpellChar(c, m, quote)| <= |s| && Stands(s[|SpellChar(c, m, quote)|..], more, text)
                          && Quoted(s, more, buf, quote)
                             == Quoted(s[|SpellChar(c, m, quote)|..], more, buf + [c], quote)
  {
    hide LinesOf, Stands;
    if c == '\n' {
      assert SpellChar(c, m, quote) + text == "\n" + text;
      hide Quoted;
      TakeNewline(s, more, text);
      QuotedNewline(more, buf, quote);
    } else {
      hide Quoted;
      var w := SpellChar(c, m, quote);
      assert '\n' !in w;
      TakeRun(s, more, w, text);
      QuotedChar(s[|w|..], more, buf, c, m, quote);
    }
  }

  lemma QuotedNewline(more: seq<string>, buf: string, quote: char)
    requires more != []
    ensures Quoted("", more, buf, quote) == Quoted(more[0], more[1..], buf + ['\n'], quote)
  {
  }

  lemma QuotedChar(rest: string, more: seq<string>, buf: string, c: char, m: Mark, quote: char)
    requires Suits(c, m, quote) && quote != '\\'
    ensures Quoted(SpellChar(c, m, quote) + rest, more, buf, quote) == Quoted(rest, more, buf + [c], quote)
  {
    var s := SpellChar(c, m, quote) + rest;
    if m == Plain {
      assert s[1..] == rest;
    } else {
      assert s[2..] == rest && buf + "\"" == buf + ['"'];
    }
  }

  lemma SpellNothing(marks: seq<Mark>, quote: char)
    requires marks == []
    ensures Spell("", marks, quote) == ""
  {
  }

  lemma SpellFirst(field: string, marks: seq<Mark>, quote: char)
    requires |marks| == |field| && field != ""
    ensures Spell(field, marks, quote) == SpellChar(field[0], marks[0], quote) + Spell(field[1..], marks[1..], quote)
  {
  }

  lemma CloseQuote(s: string, more: seq<string>, buf: string, quote: char, text: string)
    requires quote != '\n' && Stands(s, more, [quote] + text) && text != "" && text[0] != '"'
    ensures s != "" && s[0] == quote && Stands(s[1..], more, text)
    ensures Quoted(s, more, buf, quote) == Done(Scan(buf, s[1..], more))
  {
    hide LinesOf, Stands;
    TakeChar(s, more, quote, text);
    if |s| > 1 {
      assert s[1..][0] == s[1];
      FirstChar(s[1..], more, text);
    }
  }

  /** What the reader makes of a field depends on what stands behind its spelled characters. */
  lemma {:induction false} ReachEnd(s: string, more: seq<string>, buf: string, field: string, marks: seq<Mark>,
                                    quote: char, text: string) returns (rest: string, left: seq<string>)
    requires AllSuit(field, marks, quote) && quote != '\\' && quote != '\n'
    requires Stands(s, more, Spell(field, marks, quote) + text) && text != ""
    ensures Stands(rest, left, text) && Quoted(s, more, buf, quote) == Quoted(rest, left, buf + field, quote)
    decreases |field|
  {
    hide LinesOf, Stands, Quoted, Spell;
    if field == "" {
      SpellNothing(marks, quote);
      assert "" + text == text && buf + field == buf;
      rest, left := s, more;
    } else {
      var c, m := field[0], marks[0];
      var tail := Spell(field[1..], marks[1..], quote) + text;
      assert Spell(field, marks, quote) + text == SpellChar(c, m, quote) + tail by {
        SpellFirst(field, marks, quote);
      }
      ReadSpelledChar(s, more, buf, c, m, quote, tail);
      assert buf + [c] + field[1..] == buf + field;
      if c == '\n' {
        rest, left := ReachEnd(more[0], more[1..], buf + [c], field[1..], marks[1..], quote, text);
      } else {
        rest, left := ReachEnd(s[|SpellChar(c, m, quote)|..], more, buf + [c], field[1..], marks[1..], quote, text);
      }
    }
  }

  /** Whatever the spelling, a quoted field is restored up to its closing quote. */
  lemma ReadSpelled(s: string, more: seq<string>, buf: string, field: string, marks: seq<Mark>, quote: char,
                    text: string)
    requires AllSuit(field, marks, quote) && quote != '\\' && quote != '\n'
    requires Stands(s, more, Spell(field, marks, quote) + [quote] + text) && text != "" && text[0] != '"'
    ensures var r := Quoted(s, more, buf, quote);
            r.Done? && r.value.field == buf + field && Stands(r.value.rest, r.value.more, text)
  {
    hide Stands, Spell, Quoted;
    assert Spell(field, marks, quote) + [quote] + text == Spell(field, marks, quote) + ([quote] + text);
    var rest, left := ReachEnd(s, more, buf, field, marks, quote, [quote] + text);
    CloseQuote(rest, left, buf + field, quote, text);
  }

  /** A field that the text ends in the middle of is the end-of-file error, whatever its spelling. */
  lemma SpelledNeverClosed(s: string, more: seq<string>, buf: string, field: string, marks: seq<Mark>, quote: char)
    requires AllSuit(field, marks, quote) && quote != '\\' && quote != '\n'
    requires Stands(s, more, Spell(field, marks, quote) + "\n")
    ensures Quoted(s, more, buf, quote) == Failed(EndOfFile)
  {
    hide Stands, Spell, AllSuit;
    var rest, left := ReachEnd(s, more, buf, field, marks, quote, "\n");
    assert "\n" + "" == "\n";
    TakeNewline(rest, left, "");
    LinesLast("", '\n');
  }

  /** A backslash at the end of a line is the unterminated-string error, whatever precedes it. */
  lemma SpelledDangling(s: string, more: seq<string>, buf: string, field: string, marks: seq<Mark>, quote: char,
                        text: string)
    requires AllSuit(field, marks, quote) && quote != '\\' && quote != '\n'
    requires Stands(s, more, Spell(field, marks, quote) + ("\\" + ("\n" + text)))
    ensures Quoted(s, more, buf, quote) == Failed(Unterminated)
  {
    hide Stands, Spell, AllSuit;
    var rest, left := ReachEnd(s, more, buf, field, marks, quote, "\\" + ("\n" + text));
    assert "\\" + ("\n" + text) == ['\\'] + ("\n" + text);
    TakeChar(rest, left, '\\', "\n" + text);
    TakeNewline(rest[1..], left, text);
    assert rest == "\\";
  }

  // ---------------------------------------------------------------- rows of items

  /** What stands between two separators. */
  datatype Item =
    | InQuotes(before: string, field: string, marks: seq<Mark>, after: string)
    | Bare(text: string)

  /** Characters that make no sense as a quote or separator of a file with quoted fields. */
  predicate Workable(flags: Flags) {
    && flags.quote != flags.separator && flags.separator != '\n' && flags.separator != '"'
    && flags.quote != '\\' && flags.quote != '\n' && !IsWhitespace(flags.quote)
  }

  /** Blanks around a quoted field, which only a reader that trims accepts. */
  predicate Margin(s: string, flags: Flags) {
    (s != "" ==> flags.trim) && forall c :: c in s ==> IsBlank(c, flags.separator) && c != '\n'
  }

  predicate Writable(item: Item, flags: Flags) {
    match item
    case InQuotes(before, field, marks, after) =>
      Margin(before, flags) && AllSuit(field, marks, flags.quote) && Margin(after, flags)
    case Bare(text) =>
      && flags.separator !in text && '\n' !in text
      && (Start(text, flags) == "" || Start(text, flags)[0] != flags.quote)
  }

  predicate AllWritable(items: seq<Item>, flags: Flags) { forall i :: 0 <= i < |items| ==> Writable(items[i], flags) }

  function WriteItem(item: Item, flags: Flags): string
    requires Writable(item, flags)
  {
    match item
    case InQuotes(before, field, marks, after) =>
      before + ([flags.quote] + (Spell(field, marks, flags.quote) + [flags.quote] + after))
    case Bare(text) => text
  }

  function WriteItems(items: seq<Item>, flags: Flags): string
    requires items != [] && AllWritable(items, flags)
  {
    if |items| == 1 then WriteItem(items[0], flags)
    else WriteItem(items[0], flags) + [flags.separator] + WriteItems(items[1..], flags)
  }

  /** The fields a row of items stands for: a bare last item that comes out empty gives none. */
  function FieldsOf(items: seq<Item>, flags: Flags): Row
    requires items != []
  {
    if |items| > 1 then
      [if items[0].InQuotes? then items[0].field else MiddleField(items[0].text, flags)] + FieldsOf(items[1..], flags)
    else if items[0].InQuotes? then [items[0].field]
    else if LastField(items[0].text, flags) == "" then []
    else [LastField(items[0].text, flags)]
  }

  lemma {:induction false} SkipMargin(before: string, rest: string, flags: Flags)
    requires Margin(before, flags) && (rest == "" || !IsBlank(rest[0], flags.separator))
    ensures SkipIf(before + rest, flags) == rest
    decreases |before|
  {
    hide IsWhitespace;
    if before == "" {
      assert before + rest == rest;
    } else {
      assert before[0] in before && (before + rest)[1..] == before[1..] + rest;
      assert forall c :: c in before[1..] ==> c in before;
      SkipMargin(before[1..], rest, flags);
    }
  }

  /** A separator or the end of the line, with the fields that follow. */
  predicate Ends(s: string, more: seq<string>, text: string, flags: Flags) {
    text != "" && (text[0] == flags.separator || text[0] == '\n') && Stands(s, more, text)
  }

  lemma EndsHow(s: string, more: seq<string>, text: string, flags: Flags)
    requires Ends(s, more, text, flags)
    ensures text[0] == '\n' ==> s == ""
    ensures text[0] != '\n' ==> s != "" && s[0] == flags.separator
  {
    hide LinesOf, Stands;
    assert text == [text[0]] + text[1..];
    if text[0] == '\n' {
      TakeNewline(s, more, text[1..]);
    } else if s == "" {
      NotAtEnd(s, more, text);
    } else {
      FirstChar(s, more, text);
    }
  }

  lemma NotAtEnd(s: string, more: seq<string>, text: string)
    requires Stands(s, more, text) && s == "" && text != ""
    ensures text[0] == '\n'
  {
    hide LinesOf;
    if text[0] != '\n' {
      assert |text| > 1;
      assert text == [text[0]] + text[1..];
      TakeChar(s, more, text[0], text[1..]);
    }
  }

  /** A quoted item: blanks around it go, and its field comes out. */
  lemma ReadQuotedItem(s: string, more: seq<string>, item: Item, text: string, flags: Flags)
    returns (rest: string, left: seq<string>)
    requires Workable(flags) && item.InQuotes? && Writable(item, flags)
    requires text != "" && (text[0] == flags.separator || text[0] == '\n')
    requires Stands(s, more, WriteItem(item, flags) + text)
    ensures SkipIf(s, flags) != "" && Ends(rest, left, text, flags)
    ensures var r := ReadField(SkipIf(s, flags), more, flags);
            r.Done? && r.value.field == item.field && r.value.more == left && SkipIf(r.value.rest, flags) == rest
  {
    hide LinesOf, Stands, Quoted, Unquoted, Spell, IsWhitespace, SkipIf;
    var quote := flags.quote;
    var inner := Spell(item.field, item.marks, quote) + [quote] + (item.after + text);
    assert WriteItem(item, flags) + text == item.before + ([quote] + inner);
    TakeRun(s, more, item.before, [quote] + inner);
    var t := s[|item.before|..];
    TakeChar(t, more, quote, inner);
    assert !IsBlank(quote, flags.separator);
    SkipMargin(item.before, t, flags);
    MarginFirst(item.after, text, flags);
    ReadSpelled(t[1..], more, "", item.field, item.marks, quote, item.after + text);
    assert "" + item.field == item.field;
    var scan := Quoted(t[1..], more, "", quote).value;
    TakeRun(scan.rest, scan.more, item.after, text);
    rest, left := scan.rest[|item.after|..], scan.more;
    EndsHow(rest, left, text, flags);
    SkipMargin(item.after, rest, flags);
  }

  lemma MarginFirst(after: string, text: string, flags: Flags)
    requires Workable(flags) && Margin(after, flags)
    requires text != "" && (text[0] == flags.separator || text[0] == '\n')
    ensures (after + text)[0] != '"'
  {
    if after != "" {
      assert after[0] in after && !IsWhitespace('"');
    }
  }

  /** A bare item: its text up to the separator or the end of the line, trimmed as configured. */
  lemma ReadBareItem(s: string, more: seq<string>, item: Item, text: string, flags: Flags) returns (rest: string)
    requires Workable(flags) && item.Bare? && Writable(item, flags)
    requires text != "" && (text[0] == flags.separator || text[0] == '\n')
    requires Stands(s, more, item.text + text)
    ensures Ends(rest, more, text, flags) && SkipIf(rest, flags) == rest
    ensures SkipIf(s, flags) == "" <==> LastField(item.text, flags) == "" && text[0] == '\n'
    ensures SkipIf(s, flags) != "" ==>
              ReadField(SkipIf(s, flags), more, flags)
              == Done(Scan(if text[0] == '\n' then LastField(item.text, flags) else MiddleField(item.text, flags),
                           rest, more))
  {
    hide LinesOf, Stands, Start, LastField, MiddleField, SkipIf, ReadField, IsWhitespace;
    TakeRun(s, more, item.text, text);
    rest := s[|item.text|..];
    EndsHow(rest, more, text, flags);
    assert Unquotable([item.text], flags);
    PlainField(item.text, rest, more, flags);
    if text[0] == '\n' {
      assert rest == "" && Start(item.text, flags) + "" == Start(item.text, flags);
      EmptyStays(flags);
    } else {
      assert rest == [flags.separator] + rest[1..];
      SeparatorStays(rest[1..], flags);
    }
  }

  lemma WriteItemsFirst(items: seq<Item>, flags: Flags, text: string)
    requires items != [] && AllWritable(items, flags)
    ensures WriteItems(items, flags) + "\n" + text ==
            WriteItem(items[0], flags)
            + if |items| == 1 then "\n" + text else [flags.separator] + (WriteItems(items[1..], flags) + "\n" + text)
  {
  }

  /** A row of items comes back as its fields, leaving the lines behind it. */
  lemma {:induction false} ReadItems(s: string, more: seq<string>, items: seq<Item>, fields: Row, text: string,
                                     flags: Flags)
    requires Workable(flags) && items != [] && AllWritable(items, flags)
    requires Stands(s, more, WriteItems(items, flags) + "\n" + text)
    ensures ReadRow(s, more, fields, flags) == Done((fields + FieldsOf(items, flags), LinesOf(text, '\n')))
    decreases |items|
  {
    hide LinesOf, Stands, Quoted, Unquoted, ReadField, ReadRow, SkipIf, WriteItems, WriteItem, Writable, LastField,
         MiddleField, Workable;
    WriteItemsFirst(items, flags, text);
    StepRow(s, more, fields, flags);
    var sep, item := flags.separator, items[0];
    assert Writable(item, flags);
    var tail := if |items| == 1 then "\n" + text else [sep] + (WriteItems(items[1..], flags) + "\n" + text);
    SeparatorIs(flags);
    var rest, left;
    if item.InQuotes? {
      rest, left := ReadQuotedItem(s, more, item, tail, flags);
    } else {
      BareText(item, flags);
      rest := ReadBareItem(s, more, item, tail, flags);
      left := more;
    }
    EndsHow(rest, left, tail, flags);
    if |items| == 1 {
      TakeNewline(rest, left, text);
      EndRow(left, fields + FieldsOf(items, flags), flags);
      assert fields + [] == fields;
    } else {
      TakeChar(rest, left, sep, WriteItems(items[1..], flags) + "\n" + text);
      var f := if item.InQuotes? then item.field else MiddleField(item.text, flags);
      ReadItems(rest[1..], left, items[1..], fields + [f], text, flags);
      assert fields + [f] + FieldsOf(items[1..], flags) == fields + FieldsOf(items, flags);
    }
  }

  lemma SeparatorIs(flags: Flags)
    requires Workable(flags)
    ensures flags.separator != '\n'
  {
  }

  lemma BareText(item: Item, flags: Flags)
    requires item.Bare? && Writable(item, flags)
    ensures WriteItem(item, flags) == item.text
  {
  }

  // ---------------------------------------------------------------- whole texts

  /** Every row ends in a newline. */
  function WriteAll(rows: seq<seq<Item>>, flags: Flags): string
    requires forall i :: 0 <= i < |rows| ==> rows[i] != [] && AllWritable(rows[i], flags)
  {
    if rows == [] then "" else WriteItems(rows[0], flags) + "\n" + WriteAll(rows[1..], flags)
  }

  function AllFields(rows: seq<seq<Item>>, flags: Flags): seq<Row>
    requires forall i :: 0 <= i < |rows| ==> rows[i] != []
  {
    if rows == [] then [] else [FieldsOf(rows[0], flags)] + AllFields(rows[1..], flags)
  }

  lemma {:induction false} WriteTerminated(rows: seq<seq<Item>>, flags: Flags)
    requires forall i :: 0 <= i < |rows| ==> rows[i] != [] && AllWritable(rows[i], flags)
    ensures rows != [] ==> Terminated(WriteAll(rows, flags), '\n')
  {
    hide WriteItems, AllWritable;
    if |rows| > 1 {
      WriteTerminated(rows[1..], flags);
    }
  }

  lemma ReadFirstRow(items: seq<Item>, text: string, before: seq<Row>, flags: Flags)
    requires Workable(flags) && items != [] && AllWritable(items, flags)
    requires text == "" || Terminated(text, '\n')
    ensures ReadLines(LinesOf(WriteItems(items, flags) + "\n" + text, '\n'), before, flags)
            == ReadLines(LinesOf(text, '\n'), before + [FieldsOf(items, flags)], flags)
  {
    hide WriteItems, ReadRow, Split, AllWritable, FieldsOf, Workable;
    var whole := WriteItems(items, flags) + "\n" + text;
    assert Terminated(whole, '\n');
    TerminatedSplit(whole, '\n');
    var lines := LinesOf(whole, '\n');
    assert lines != [] && [lines[0]] + lines[1..] == lines;
    ReadItems(lines[0], lines[1..], items, [], text, flags);
    assert [] + FieldsOf(items, flags) == FieldsOf(items, flags);
  }

  lemma ReadNothing(before: seq<Row>, flags: Flags)
    ensures ReadLines(LinesOf("", '\n'), before, flags) == Done(before)
  {
  }

  /** Rows of items of any spelling come back as their fields, row by row. */
  lemma {:induction false} ReadAll(rows: seq<seq<Item>>, before: seq<Row>, flags: Flags)
    requires Workable(flags)
    requires forall i :: 0 <= i < |rows| ==> rows[i] != [] && AllWritable(rows[i], flags)
    ensures ReadLines(LinesOf(WriteAll(rows, flags), '\n'), before, flags) == Done(before + AllFields(rows, flags))
    decreases |rows|
  {
    hide WriteItems, ReadRow, ReadLines, LinesOf, Terminated, AllWritable, FieldsOf, Workable;
    if rows == [] {
      ReadNothing(before, flags);
      assert before + AllFields(rows, flags) == before;
    } else {
      WriteTerminated(rows[1..], flags);
      ReadFirstRow(rows[0], WriteAll(rows[1..], flags), before, flags);
      ReadAll(rows[1..], before + [FieldsOf(rows[0], flags)], flags);
      assert before + [FieldsOf(rows[0], flags)] + AllFields(rows[1..], flags) == before + AllFields(rows, flags);
    }
  }

  /** The newline behind the last row may be missing. */
  lemma FinalNewline(text: string, flags: Flags)
    requires text != "" && text[|text| - 1] != '\n'
    ensures ReadText(text, flags) == ReadText(text + "\n", flags)
  {
    hide ReadLines;
    SameLines(text, '\n');
  }

  lemma {:induction false} SplitLast<T>(text: seq<T>, nl: T)
    ensures Split(text + [nl], nl) == Split(text, nl) + [[]]
    decreases |text|
  {
    if text == [] {
      assert [nl][1..] == [] && Split<T>([], nl) == [[]];
      assert Split([nl], nl) == [[]] + [[]];
      assert text + [nl] == [nl];
    } else {
      assert (text + [nl])[1..] == text[1..] + [nl];
      SplitLast(text[1..], nl);
      var rest := Split(text[1..], nl);
      assert (rest + [[]])[0] == rest[0] && (rest + [[]])[1..] == rest[1..] + [[]];
    }
  }

  lemma {:induction false} SplitEnd<T>(text: seq<T>, nl: T)
    requires text != [] && text[|text| - 1] != nl
    ensures var parts := Split(text, nl); parts[|parts| - 1] != []
    decreases |text|
  {
    if |text| > 1 {
      SplitEnd(text[1..], nl);
    }
  }

  lemma SameLines<T>(text: seq<T>, nl: T)
    requires text != [] && text[|text| - 1] != nl
    ensures LinesOf(text + [nl], nl) == LinesOf(text, nl)
  {
    hide Split;
    SplitLast(text, nl);
    SplitEnd(text, nl);
    var parts := Split(text, nl);
    assert (parts + [[]])[..|parts|] == parts;
  }
}
