/** The characters `lex_number` collects for a number literal (kap-core/src/lex_helpers.rs), and
    what it can hand to the decimal reader. */
module LiteralRuns {
  import opened Common
  import opened Decimals
  import opened Text
  import opened DecimalReaders

  const HIGH_MINUS := '\U{00AF}'

  /** The part of the run behind its `j`: dots and exponents are counted afresh there. */
  function Part(buf: string): string { if 'j' in buf then buf[IndexOf(buf, 'j') + 1..] else buf }

  function Last(buf: string): char { if buf == "" then ' ' else buf[|buf| - 1] }

  /** Whether the run goes on with `c`. */
  predicate Accepts(buf: string, c: char) {
    || IsDigit(c)
    || (c == HIGH_MINUS && (buf == "" || Last(buf) == 'e' || Last(buf) == 'j'))
    || (c == '-' && Last(buf) == 'e')
    || (c == '.' && '.' !in Part(buf) && 'r' !in buf)
    || ((c == 'r' || c == 'R') && 'r' !in buf && 'j' !in buf)
    || ((c == 'j' || c == 'J') && 'j' !in buf)
    || ((c == 'e' || c == 'E') && 'e' !in Part(buf))
  }

  /** How an accepted character is written down. */
  function Folded(c: char): char {
    if c == HIGH_MINUS then '-' else if c == 'R' then 'r' else if c == 'J' then 'j' else if c == 'E' then 'e' else c
  }

  function RunFrom(chars: string, j: nat, buf: string): (string, nat)
    requires j <= |chars|
    decreases |chars| - j
  {
    if j < |chars| && Accepts(buf, chars[j]) then RunFrom(chars, j + 1, buf + [Folded(chars[j])]) else (buf, j)
  }

  lemma PartPush(buf: string, c: char)
    requires c != 'j'
    ensures Part(buf + [c]) == Part(buf) + [c]
  {
    if 'j' in buf {
      var k := IndexOf(buf, 'j');
      assert buf == buf[..k] + ['j'] + buf[k + 1..];
      assert buf + [c] == buf[..k] + ['j'] + (buf[k + 1..] + [c]);
      IndexAfter(buf[..k], 'j', buf[k + 1..] + [c]);
    }
  }

  lemma PartFresh(buf: string)
    requires 'j' !in buf
    ensures Part(buf + ['j']) == ""
  {
    assert buf + ['j'] == buf + ['j'] + "";
    IndexAfter(buf, 'j', "");
  }

  /** The loop of `lex_number` behind the radix prefixes, with the flags it keeps. */
  method CollectRun(chars: string, start: nat) returns (buf: string, j: nat)
    requires start <= |chars|
    ensures (buf, j) == RunFrom(chars, start, "")
  {
    hide Part, IndexOf;
    buf, j := "", start;
    var seenDot, seenR, seenJ, seenE := false, false, false, false;
    assert Part("") == "" by { NoPart(); }
    while j < |chars|
      invariant start <= j <= |chars| && |buf| == j - start
      invariant RunFrom(chars, j, buf) == RunFrom(chars, start, "")
      invariant (seenDot <==> '.' in Part(buf)) && (seenE <==> 'e' in Part(buf))
      invariant (seenR <==> 'r' in buf) && (seenJ <==> 'j' in buf)
      invariant 'E' !in buf
    {
      var c := chars[j];
      var ends := if buf == "" then ' ' else buf[|buf| - 1];
      var push := c;
      if IsDigit(c) {
      } else if c == HIGH_MINUS && (j == start || ends == 'e' || ends == 'E' || ends == 'j') {
        push := '-';
      } else if c == '-' && (ends == 'e' || ends == 'E') {
      } else if c == '.' && !seenDot && !seenR {
        seenDot := true;
      } else if (c == 'r' || c == 'R') && !seenR && !seenJ {
        seenR, push := true, 'r';
      } else if (c == 'j' || c == 'J') && !seenJ {
        seenJ, seenDot, seenE, push := true, false, false, 'j';
      } else if (c == 'e' || c == 'E') && !seenE {
        seenE, push := true, 'e';
      } else {
        break;
      }
      if push == 'j' { PartFresh(buf); } else { PartPush(buf, push); }
      buf := buf + [push];
      j := j + 1;
    }
  }

  lemma NoPart()
    ensures Part("") == ""
  {
  }

  /** What stands before the `r`. */
  function Numerator(buf: string): string { buf[..IndexOf(buf, 'r')] }

  /** Digits, dots and exponent marks, and a minus only at the start or behind an exponent mark. */
  predicate FitsAt(t: string, i: nat)
    requires i < |t|
  {
    IsDigit(t[i]) || t[i] == '.' || t[i] == 'e' || (t[i] == '-' && (i == 0 || t[i - 1] == 'e'))
  }

  predicate OneDot(t: string) { forall i, k :: 0 <= i < k < |t| ==> !(t[i] == '.' && t[k] == '.') }

  predicate Passable(t: string) { (forall i :: 0 <= i < |t| ==> FitsAt(t, i)) && OneDot(t) }

  predicate Good(buf: string) { 'j' in buf || Passable(Numerator(buf)) }

  lemma NumeratorPush(buf: string, c: char)
    ensures 'r' in buf ==> Numerator(buf + [c]) == Numerator(buf)
    ensures 'r' !in buf ==> Numerator(buf) == buf && Numerator(buf + [c]) == if c == 'r' then buf else buf + [c]
  {
    if 'r' in buf {
      var k := IndexOf(buf, 'r');
      assert buf == buf[..k] + ['r'] + buf[k + 1..];
      assert buf + [c] == buf[..k] + ['r'] + (buf[k + 1..] + [c]);
      IndexAfter(buf[..k], 'r', buf[k + 1..] + [c]);
    } else {
      IndexMissing(buf, 'r');
      if c == 'r' {
        assert buf + ['r'] == buf + ['r'] + "";
        IndexAfter(buf, 'r', "");
      } else {
        IndexMissing(buf + [c], 'r');
      }
    }
  }

  lemma PassablePush(t: string, p: char)
    requires Passable(t)
    requires IsDigit(p) || p == 'e' || (p == '.' && '.' !in t) || (p == '-' && (t == "" || Last(t) == 'e'))
    ensures Passable(t + [p])
  {
    var u := t + [p];
    forall i | 0 <= i < |u| ensures FitsAt(u, i) {
      if i < |t| {
        assert FitsAt(t, i);
      }
    }
    assert OneDot(u) by {
      hide FitsAt;
      assert forall i :: 0 <= i < |t| ==> u[i] == t[i] && t[i] in t;
    }
  }

  lemma GoodPush(buf: string, c: char)
    requires Good(buf) && Accepts(buf, c)
    ensures Good(buf + [Folded(c)])
  {
    hide IndexOf, Passable;
    var p := Folded(c);
    NumeratorPush(buf, p);
    if 'j' in buf || p == 'j' {
      assert 'j' in buf + [p];
    } else if 'r' !in buf && p != 'r' {
      PassablePush(buf, p);
    }
  }

  lemma {:induction false} RunGood(chars: string, j: nat, buf: string)
    requires j <= |chars| && Good(buf)
    ensures Good(RunFrom(chars, j, buf).0)
    decreases |chars| - j
  {
    hide Good, Accepts, Folded;
    if j < |chars| && Accepts(buf, chars[j]) {
      GoodPush(buf, chars[j]);
      RunGood(chars, j + 1, buf + [Folded(chars[j])]);
    }
  }

  lemma {:induction false} WithoutHas(s: string, c: char, d: char)
    requires d in s && d != c
    ensures d in Without(s, c)
  {
    WithoutKeeps(s, c);
  }

  /** On every text of this shape the two decimal readers agree. */
  lemma PassableAgrees(t: string)
    requires Passable(t)
    ensures SameReading(t)
  {
    hide IndexOf, ParseDecimal, LexDecimal, Tidy, SameReading;
    TrimPassable(t);
    if 'e' in t {
      ExponentRefused(t);
    } else {
      PassableTidy(t);
      ReadAlike(t);
    }
  }

  lemma TrimPassable(t: string)
    requires Passable(t)
    ensures Trim(t) == t
  {
    if t != "" {
      assert FitsAt(t, 0) && FitsAt(t, |t| - 1);
    }
  }

  lemma ExponentRefused(t: string)
    requires Passable(t) && 'e' in t
    ensures SameReading(t)
  {
    hide IndexOf, Passable, Without, ParseDigits, Trim;
    TrimPassable(t);
    ReadAlike(t);
    var d := Digits(t);
    assert t != "" && 'e' in d by {
      assert t[0] == '-' ==> t == ['-'] + t[1..];
    }
    WithoutHas(d, '.', 'e');
    NoBigInt(Without(d, '.'));
  }

  lemma NoBigInt(m: string)
    requires 'e' in m
    ensures ParseBigInt(m) == None
  {
    hide ParseDigits;
    NoUnsigned(m);
    if m[0] == '-' {
      assert m == ['-'] + m[1..];
      NoUnsigned(m[1..]);
    }
  }

  lemma NoUnsigned(m: string)
    requires 'e' in m
    ensures ParseUnsigned(m) == None
  {
    hide ParseDigits, Without;
    var t := if m[0] == '+' && !(|m| > 1 && m[1] == '+') then m[1..] else m;
    assert 'e' in t by {
      assert m == [m[0]] + m[1..];
    }
    WithoutHas(t, '_', 'e');
    if AllDigits(Without(t, '_')) {
      DigitsLack(Without(t, '_'), 'e');
    }
  }

  lemma BareCut(t: string)
    requires Passable(t) && 'e' !in t
    ensures Bare(t) == t[(if t != "" && t[0] == '-' then 1 else 0)..]
  {
    hide IndexOf;
    TrimPassable(t);
    hide Trim;
    if t != "" {
      assert FitsAt(t, 0);
    }
    if |t| > 1 {
      assert FitsAt(t, 1) && t[0] in t;
    }
  }

  lemma NoMarks(t: string, i: nat)
    requires Passable(t) && 'e' !in t && i < |t|
    ensures IsDigit(t[i]) || t[i] == '.' || (t[i] == '-' && i == 0)
  {
    assert FitsAt(t, i) && t[i] in t;
    assert i > 0 ==> t[i - 1] in t;
  }

  lemma PassableTidy(t: string)
    requires Passable(t) && 'e' !in t
    ensures Tidy(t)
  {
    hide IndexOf, Passable, Bare;
    BareCut(t);
    var cut := if t != "" && t[0] == '-' then 1 else 0;
    var b := Bare(t);
    forall i | 0 <= i < |b| ensures IsDigit(b[i]) || b[i] == '.' {
      NoMarks(t, cut + i);
    }
    DotsBehind(t, cut);
  }

  lemma DotsBehind(t: string, cut: nat)
    requires Passable(t) && cut <= |t|
    ensures var b := t[cut..]; '.' !in b[(if IndexOf(b, '.') < |b| then IndexOf(b, '.') + 1 else 0)..]
  {
    hide IndexOf, FitsAt;
    var b := t[cut..];
    var dot := IndexOf(b, '.');
    if dot < |b| {
      assert t[cut + dot] == '.';
      assert forall k :: dot + 1 <= k < |b| ==> b[k] == t[cut + k];
    } else {
      assert b[..dot] == b && b[0..] == b;
    }
  }

  /** Whatever number literal `lex_number` collects, the text it hands to the decimal reader is one
      both readers treat alike. */
  lemma LiteralsAgree(chars: string, start: nat)
    requires start <= |chars|
    ensures var buf := RunFrom(chars, start, "").0; 'j' !in buf ==> SameReading(Numerator(buf))
  {
    hide SameReading, Passable;
    EmptyGood();
    RunGood(chars, start, "");
    var buf := RunFrom(chars, start, "").0;
    if 'j' !in buf {
      PassableAgrees(Numerator(buf));
    }
  }

  lemma EmptyGood()
    ensures Good("")
  {
  }
}
