/** Splitting a text at its newlines, shared by the readers that work line by line. */
module Lines {

  /** Rust's `split`: the pieces between separators, always at least one. */
  function Split<T(==)>(s: seq<T>, sep: T): (parts: seq<seq<T>>)
    ensures |parts| >= 1
  {
    if s == [] then [[]]
    else
      var rest := Split(s[1..], sep);
      if s[0] == sep then [[]] + rest else [[s[0]] + rest[0]] + rest[1..]
  }

  function Join<T>(parts: seq<seq<T>>, sep: T): seq<T>
    requires |parts| >= 1
  {
    if |parts| == 1 then parts[0] else parts[0] + [sep] + Join(parts[1..], sep)
  }

  lemma {:induction false} SplitParts<T>(s: seq<T>, sep: T)
    ensures Join(Split(s, sep), sep) == s
    ensures forall p :: p in Split(s, sep) ==> sep !in p
  {
    if s != [] {
      SplitParts(s[1..], sep);
      var rest := Split(s[1..], sep);
      assert s == [s[0]] + s[1..];
      if s[0] == sep {
        assert ([[]] + rest)[1..] == rest;
      } else {
        hide Join;
        JoinPut(s[0], rest, sep);
        assert sep !in [s[0]] + rest[0];
      }
    }
  }

  /** A symbol put before the first piece stands before the joined text. */
  lemma JoinPut<T>(c: T, parts: seq<seq<T>>, sep: T)
    requires |parts| >= 1
    ensures Join([[c] + parts[0]] + parts[1..], sep) == [c] + Join(parts, sep)
  {
    var whole := [[c] + parts[0]] + parts[1..];
    assert whole[0] == [c] + parts[0] && whole[1..] == parts[1..];
    if |parts| == 1 {
      assert Join(whole, sep) == whole[0];
    } else {
      assert Join(whole, sep) == whole[0] + [sep] + Join(parts[1..], sep);
      assert Join(parts, sep) == parts[0] + [sep] + Join(parts[1..], sep);
      hide Join;
      PutFront(c, parts[0], [sep], Join(parts[1..], sep));
    }
  }

  lemma PutFront<T>(c: T, p: seq<T>, q: seq<T>, tail: seq<T>)
    ensures [c] + p + q + tail == [c] + (p + q + tail)
  {
  }

  /** A piece up to its separator is split off whole. */
  lemma {:induction false} SplitAfter<T>(p: seq<T>, sep: T, tail: seq<T>)
    requires sep !in p
    ensures Split(p + [sep] + tail, sep) == [p] + Split(tail, sep)
  {
    var s := p + [sep] + tail;
    if p == [] {
      assert s[1..] == tail;
    } else {
      assert s[1..] == p[1..] + [sep] + tail;
      SplitAfter(p[1..], sep, tail);
      assert [s[0]] + p[1..] == p;
      assert ([p[1..]] + Split(tail, sep))[1..] == Split(tail, sep);
    }
  }

  lemma {:induction false} SplitNone<T>(p: seq<T>, sep: T)
    requires sep !in p
    ensures Split(p, sep) == [p]
  {
    if p != [] {
      SplitNone(p[1..], sep);
      assert [p[0]] + p[1..] == p;
    }
  }

  /** Splitting is the only way to cut a text into pieces free of the separator. */
  lemma {:induction false} SplitUnique<T>(parts: seq<seq<T>>, sep: T)
    requires |parts| >= 1
    requires forall p :: p in parts ==> sep !in p
    ensures Split(Join(parts, sep), sep) == parts
  {
    if |parts| == 1 {
      SplitNone(parts[0], sep);
    } else {
      SplitUnique(parts[1..], sep);
      SplitAfter(parts[0], sep, Join(parts[1..], sep));
      assert parts == [parts[0]] + parts[1..];
    }
  }

  /** The lines of a text: a final separator ends the last line, it does not start another. */
  function LinesOf<T(==)>(text: seq<T>, nl: T): seq<seq<T>> {
    var parts := Split(text, nl);
    if parts[|parts| - 1] == [] then parts[..|parts| - 1] else parts
  }

  predicate Terminated<T(==)>(text: seq<T>, nl: T) {
    text != [] && text[|text| - 1] == nl
  }

  lemma SplitCons<T>(c: T, text: seq<T>, sep: T)
    ensures var rest := Split(text, sep);
            Split([c] + text, sep) == if c == sep then [[]] + rest else [[c] + rest[0]] + rest[1..]
  {
    assert ([c] + text)[1..] == text;
  }

  lemma {:induction false} TerminatedSplit<T>(text: seq<T>, nl: T)
    requires Terminated(text, nl)
    ensures var parts := Split(text, nl); |parts| >= 2 && parts[|parts| - 1] == []
  {
    var tail := text[1..];
    assert text == [text[0]] + tail;
    if tail == [] {
      assert Split(tail, nl) == [[]];
      hide Split;
      SplitCons(text[0], tail, nl);
    } else {
      hide Split;
      TerminatedSplit(tail, nl);
      SplitCons(text[0], tail, nl);
    }
  }

  /** How the lines change when one symbol is put before a text that is empty or terminated. */
  lemma LinesCons<T>(c: T, text: seq<T>, nl: T)
    requires text == [] || Terminated(text, nl)
    ensures c == nl ==> LinesOf([c] + text, nl) == [[]] + LinesOf(text, nl)
    ensures c != nl && text != [] ==>
              && LinesOf(text, nl) != []
              && LinesOf([c] + text, nl) == [[c] + LinesOf(text, nl)[0]] + LinesOf(text, nl)[1..]
  {
    SplitCons(c, text, nl);
    if text == [] {
      assert Split(text, nl) == [[]];
    } else {
      hide Split, Terminated;
      TerminatedSplit(text, nl);
      var parts := Split(text, nl);
      if c == nl {
        FrontPart([], parts);
      } else {
        FrontPart([c] + parts[0], parts[1..]);
        assert parts[..|parts| - 1][1..] == parts[1..][..|parts| - 2];
      }
    }
  }

  lemma FrontPart<T>(p: seq<T>, parts: seq<seq<T>>)
    requires parts != []
    ensures ([p] + parts)[..|parts|] == [p] + parts[..|parts| - 1]
    ensures ([p] + parts)[|parts|] == parts[|parts| - 1]
  {
  }

  /** A line with its terminator comes off the front. */
  lemma LinesAfter<T>(p: seq<T>, nl: T, tail: seq<T>)
    requires nl !in p
    ensures LinesOf(p + [nl] + tail, nl) == [p] + LinesOf(tail, nl)
  {
    SplitAfter(p, nl, tail);
    var parts := Split(tail, nl);
    assert ([p] + parts)[..|parts|] == [p] + parts[..|parts| - 1];
  }

  lemma LinesLast<T>(p: seq<T>, nl: T)
    requires nl !in p
    ensures LinesOf(p, nl) == if p == [] then [] else [p]
  {
    SplitNone(p, nl);
  }
}
