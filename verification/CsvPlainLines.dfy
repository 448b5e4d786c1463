/** CSV lines without quotes: the reader splits them at their separators
    (kap-core/src/csv.rs). */
module CsvPlainLines {
  import opened Text
  import opened Lines
  import opened Csv

  function MiddleField(part: string, flags: Flags): string {
    if flags.trim then Trim(part) else part
  }

  /** At the end of a line trailing whitespace goes in any case, but never the first character. */
  function LastField(part: string, flags: Flags): string {
    if flags.trim then Trim(part) else if part == "" then "" else part[..1] + TrimEnd(part[1..])
  }

  /** The fields of a line cut at its separators: an empty last piece gives no field. */
  function PlainFields(parts: seq<string>, flags: Flags): Row
    requires |parts| >= 1
  {
    if |parts| > 1 then [MiddleField(parts[0], flags)] + PlainFields(parts[1..], flags)
    else if LastField(parts[0], flags) == "" then []
    else [LastField(parts[0], flags)]
  }

  function Start(part: string, flags: Flags): string {
    if flags.trim then TrimStart(part) else part
  }

  predicate Unquotable(parts: seq<string>, flags: Flags) {
    forall p :: p in parts ==> Start(p, flags) == "" || Start(p, flags)[0] != flags.quote
  }

  lemma {:induction false} SkipBlanksRun(p: string, sep: char, rest: string)
    requires sep !in p && (rest == "" || rest[0] == sep)
    ensures SkipBlanks(p + rest, sep) == TrimStart(p) + rest
    ensures TrimStart(p) != "" ==> sep !in TrimStart(p)
  {
    if p == "" {
      assert p + rest == rest;
    } else {
      assert (p + rest)[1..] == p[1..] + rest;
      if IsWhitespace(p[0]) {
        SkipBlanksRun(p[1..], sep, rest);
      }
    }
  }

  lemma UnquotedStep(c: char, p: string, rest: string, buf: string, held: string, flags: Flags)
    requires flags.separator != c
    ensures Unquoted([c] + p + rest, buf, held, flags) ==
            if IsWhitespace(c) then Unquoted(p + rest, buf, held + [c], flags)
            else Unquoted(p + rest, buf + held + [c], "", flags)
  {
    hide IsWhitespace;
    assert ([c] + p + rest)[1..] == p + rest;
  }

  /** The text a run of characters contributes, given the blanks held back before it. */
  function RunText(p: string, rest: string, held: string, flags: Flags): string {
    if rest != "" && !flags.trim then held + p else TrimEnd(held + p)
  }

  lemma RunTextStep(c: char, q: string, rest: string, buf: string, held: string, flags: Flags)
    ensures RunText(q, rest, held + [c], flags) == RunText([c] + q, rest, held, flags)
    ensures !IsWhitespace(c) ==>
              buf + held + [c] + RunText(q, rest, "", flags) == buf + RunText([c] + q, rest, held, flags)
  {
    hide IsWhitespace, TrimEnd;
    assert held + [c] + q == held + ([c] + q);
    assert "" + q == q;
    if !IsWhitespace(c) {
      TrimEndAfter(held + [c], q);
      var t := RunText(q, rest, "", flags);
      assert buf + held + [c] + t == buf + (held + [c] + t);
    }
  }

  /** What an unquoted field makes of the characters up to the separator or the end of the line. */
  lemma {:induction false} UnquotedRun(p: string, rest: string, buf: string, held: string, flags: Flags)
    requires flags.separator !in p && (rest == "" || rest[0] == flags.separator)
    requires AllBlank(held)
    ensures Unquoted(p + rest, buf, held, flags) == (buf + RunText(p, rest, held, flags), rest)
    decreases |p|
  {
    hide IsWhitespace, TrimEnd;
    if p == "" {
      assert p + rest == rest && held + p == held;
      TrimEndBlank(held);
      assert buf + "" == buf;
    } else {
      hide Unquoted, RunText;
      var c, q := p[0], p[1..];
      assert p == [c] + q;
      UnquotedStep(c, q, rest, buf, held, flags);
      RunTextStep(c, q, rest, buf, held, flags);
      if IsWhitespace(c) {
        UnquotedRun(q, rest, buf, held + [c], flags);
      } else {
        UnquotedRun(q, rest, buf + held + [c], "", flags);
      }
    }
  }

  lemma StartBehind(p: string, rest: string, flags: Flags)
    requires flags.separator !in p && (rest == "" || rest[0] == flags.separator)
    ensures SkipIf(p + rest, flags) == Start(p, flags) + rest && flags.separator !in Start(p, flags)
  {
    hide IsWhitespace, SkipBlanks;
    SkipBlanksRun(p, flags.separator, rest);
  }

  /** What is made of a piece whose blanks at the start are gone. */
  lemma RunFields(p: string, rest: string, flags: Flags)
    requires Start(p, flags) != ""
    ensures var t := Start(p, flags);
            [t[0]] + RunText(t[1..], rest, "", flags)
            == if rest == "" then LastField(p, flags) else MiddleField(p, flags)
    ensures LastField(p, flags) != ""
  {
    hide IsWhitespace, TrimStart, TrimEnd;
    var t := Start(p, flags);
    assert t == [t[0]] + t[1..] && t[..1] == [t[0]] && "" + t[1..] == t[1..];
    if flags.trim {
      assert !IsWhitespace(t[0]);
      TrimEndAfter([t[0]], t[1..]);
    }
  }

  /** One piece read as a field, up to the separator or the end of the line. */
  lemma PlainField(p: string, rest: string, more: seq<string>, flags: Flags)
    requires flags.separator !in p && (rest == "" || rest[0] == flags.separator)
    requires flags.quote != flags.separator && Unquotable([p], flags)
    ensures SkipIf(p + rest, flags) == Start(p, flags) + rest
    ensures Start(p, flags) + rest != "" ==>
              ReadField(Start(p, flags) + rest, more, flags)
              == Done(Scan(if rest == "" then LastField(p, flags) else MiddleField(p, flags), rest, more))
    ensures Start(p, flags) == "" <==> LastField(p, flags) == ""
  {
    hide Start, LastField, MiddleField, SkipIf, ReadField, RunText, IsWhitespace;
    assert p in [p];
    StartBehind(p, rest, flags);
    if Start(p, flags) == "" {
      NoField(p, flags);
      assert "" + rest == rest;
      if rest != "" {
        EmptyField(rest, more, flags);
      }
    } else {
      RunFields(p, rest, flags);
      TextField(Start(p, flags), rest, more, flags);
    }
  }

  lemma NoField(p: string, flags: Flags)
    requires Start(p, flags) == ""
    ensures LastField(p, flags) == "" && MiddleField(p, flags) == ""
  {
  }

  lemma EmptyField(rest: string, more: seq<string>, flags: Flags)
    requires flags.quote != flags.separator && rest != "" && rest[0] == flags.separator
    ensures ReadField(rest, more, flags) == Done(Scan("", rest, more))
  {
    hide Unquoted, Quoted;
  }

  lemma TextField(t: string, rest: string, more: seq<string>, flags: Flags)
    requires t != "" && t[0] != flags.quote && flags.separator !in t && (rest == "" || rest[0] == flags.separator)
    ensures ReadField(t + rest, more, flags) == Done(Scan([t[0]] + RunText(t[1..], rest, "", flags), rest, more))
  {
    hide IsWhitespace, Unquoted, Quoted, RunText;
    assert (t + rest)[1..] == t[1..] + rest;
    UnquotedRun(t[1..], rest, [t[0]], "", flags);
  }

  /** A line in which no piece starts with the quote is split at its separators. */
  lemma {:induction false} PlainLine(s: string, more: seq<string>, fields: Row, flags: Flags)
    requires flags.quote != flags.separator && Unquotable(Split(s, flags.separator), flags)
    ensures ReadRow(s, more, fields, flags)
            == Done((fields + PlainFields(Split(s, flags.separator), flags), more))
    decreases |s|
  {
    hide IsWhitespace, ReadRow, ReadField, SkipIf, Start, LastField, MiddleField, Split;
    var sep := flags.separator;
    var parts := Split(s, sep);
    SplitParts(s, sep);
    var p := parts[0];
    assert p in parts;
    StepRow(s, more, fields, flags);
    if |parts| == 1 {
      PlainField(p, "", more, flags);
      assert p + "" == s && Start(p, flags) + "" == Start(p, flags);
      assert SkipIf("", flags) == "" by { EmptyStays(flags); }
      EndRow(more, fields + [LastField(p, flags)], flags);
      assert fields + [] == fields;
    } else {
      var tail := Join(parts[1..], sep);
      var rest := [sep] + tail;
      assert s == p + rest;
      PlainField(p, rest, more, flags);
      SeparatorStays(tail, flags);
      SplitUnique(parts[1..], sep);
      PlainLine(tail, more, fields + [MiddleField(p, flags)], flags);
      assert rest[1..] == tail;
      assert fields + [MiddleField(p, flags)] + PlainFields(parts[1..], flags)
          == fields + ([MiddleField(p, flags)] + PlainFields(parts[1..], flags));
    }
  }

  lemma EmptyStays(flags: Flags)
    ensures SkipIf("", flags) == ""
  {
  }

  lemma SeparatorStays(tail: string, flags: Flags)
    ensures SkipIf([flags.separator] + tail, flags) == [flags.separator] + tail
  {
  }

  /** Without trimming, a line gives its pieces back unchanged exactly when the last one is not empty
      and has no blanks at its end behind its first character. */
  lemma {:induction false} NothingLost(parts: seq<string>, flags: Flags)
    requires |parts| >= 1 && !flags.trim
    ensures PlainFields(parts, flags) == parts <==>
            var last := parts[|parts| - 1]; last != "" && TrimEnd(last[1..]) == last[1..]
    decreases |parts|
  {
    if |parts| == 1 {
      var last := parts[0];
      if last != "" {
        assert last == last[..1] + last[1..];
        LastFieldKept(last);
      }
    } else {
      NothingLost(parts[1..], flags);
      assert parts == [parts[0]] + parts[1..];
      assert PlainFields(parts, flags)[1..] == PlainFields(parts[1..], flags);
    }
  }

  lemma LastFieldKept(last: string)
    requires last != ""
    ensures last[..1] + TrimEnd(last[1..]) == last <==> TrimEnd(last[1..]) == last[1..]
  {
    hide TrimEnd;
    assert last == last[..1] + last[1..];
    if last[..1] + TrimEnd(last[1..]) == last {
      assert (last[..1] + TrimEnd(last[1..]))[1..] == TrimEnd(last[1..]);
    }
  }
}
