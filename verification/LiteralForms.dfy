/** Number literals as they are written (kap-core/src/lex_helpers.rs): the collecting loop takes each
    of them whole. */
module LiteralForms {
  import opened Decimals
  import opened LiteralRuns

  datatype Sign = NoSign | High | Hyphen {
    function Text(): string {
      match this
      case NoSign => ""
      case High => "¯"
      case Hyphen => "-"
    }

    function Kept(): string { if this == NoSign then "" else "-" }
  }

  datatype Exponent = NoExponent | Exponent(upper: bool, sign: Sign, digits: string) {
    predicate Valid() { Exponent? ==> AllDigits(digits) }

    function Text(): string {
      if NoExponent? then ""
      else [if upper then 'E' else 'e'] + (sign.Text() + digits)
    }

    function Kept(): string {
      if NoExponent? then "" else ['e'] + (sign.Kept() + digits)
    }
  }

  /** A real part: high minus, digits, point, digits, exponent. */
  datatype Real = Real(neg: bool, ip: string, dotted: bool, fp: string, exp: Exponent) {
    predicate Valid() { AllDigits(ip) && AllDigits(fp) && (!dotted ==> fp == "") && exp.Valid() }

    function Head(): string { if neg then "¯" else "" }

    function HeadKept(): string { if neg then "-" else "" }

    function Fraction(): string { if dotted then "." + fp else "" }

    function Text(): string { Head() + (ip + (Fraction() + exp.Text())) }

    function Kept(): string { HeadKept() + (ip + (Fraction() + exp.Kept())) }
  }

  /** A real number, a quotient with the denominator behind an r, or a complex number with the
      imaginary part behind a j. */
  datatype Literal =
    | Single(re: Real)
    | Quotient(numer: Real, upper: bool, denom: string)
    | Pair(re: Real, upper: bool, im: Real)
  {
    predicate Valid() {
      match this
      case Single(re) => re.Valid()
      case Quotient(numer, _, denom) => numer.Valid() && AllDigits(denom)
      case Pair(re, _, im) => re.Valid() && im.Valid()
    }

    function Text(): string {
      match this
      case Single(re) => re.Text()
      case Quotient(numer, upper, denom) => numer.Text() + ([if upper then 'R' else 'r'] + denom)
      case Pair(re, upper, im) => re.Text() + ([if upper then 'J' else 'j'] + im.Text())
    }

    function Kept(): string {
      match this
      case Single(re) => re.Kept()
      case Quotient(numer, _, denom) => numer.Kept() + (['r'] + denom)
      case Pair(re, _, im) => re.Kept() + (['j'] + im.Kept())
    }
  }

  /** The run goes on through `t`, standing at `j`, and writes `kept` behind `buf`. */
  predicate Takes(chars: string, j: nat, t: string, buf: string, kept: string) {
    j + |t| <= |chars| && RunFrom(chars, j, buf) == RunFrom(chars, j + |t|, buf + kept)
  }

  predicate StandsAt(chars: string, j: nat, t: string) { j + |t| <= |chars| && chars[j..j + |t|] == t }

  lemma StandsParts(chars: string, j: nat, a: string, b: string)
    requires StandsAt(chars, j, a + b)
    ensures StandsAt(chars, j, a) && StandsAt(chars, j + |a|, b)
  {
    var all := chars[j..j + |a + b|];
    assert all[..|a|] == a && all[|a|..] == b;
  }

  lemma TakeNone(chars: string, j: nat, buf: string)
    requires j <= |chars|
    ensures Takes(chars, j, "", buf, "")
  {
    assert buf + "" == buf;
  }

  lemma TakeOne(chars: string, j: nat, c: char, buf: string)
    requires StandsAt(chars, j, [c]) && Accepts(buf, c)
    ensures Takes(chars, j, [c], buf, [Folded(c)])
  {
    hide Accepts;
    assert chars[j] == chars[j..j + 1][0];
  }

  lemma TakeTwo(chars: string, j: nat, a: string, b: string, buf: string, ka: string, kb: string)
    requires Takes(chars, j, a, buf, ka) && Takes(chars, j + |a|, b, buf + ka, kb)
    ensures Takes(chars, j, a + b, buf, ka + kb)
  {
    assert buf + ka + kb == buf + (ka + kb);
  }

  lemma {:induction false} TakeDigits(chars: string, j: nat, d: string, buf: string)
    requires StandsAt(chars, j, d) && AllDigits(d)
    ensures Takes(chars, j, d, buf, d)
    decreases |d|
  {
    hide Takes, RunFrom;
    if d == "" {
      TakeNone(chars, j, buf);
    } else {
      assert d == [d[0]] + d[1..];
      StandsParts(chars, j, [d[0]], d[1..]);
      TakeOne(chars, j, d[0], buf);
      TakeDigits(chars, j + 1, d[1..], buf + [d[0]]);
      TakeTwo(chars, j, [d[0]], d[1..], buf, [d[0]], d[1..]);
    }
  }

  lemma {:induction false} PartAppend(buf: string, t: string)
    requires 'j' !in t
    ensures Part(buf + t) == Part(buf) + t
    decreases |t|
  {
    hide Part;
    if t == "" {
      assert buf + t == buf && Part(buf) + t == Part(buf);
    } else {
      PartPush(buf, t[0]);
      PartAppend(buf + [t[0]], t[1..]);
      assert buf + [t[0]] + t[1..] == buf + t;
      assert Part(buf) + [t[0]] + t[1..] == Part(buf) + t;
    }
  }

  /** Where a real part may begin: at the start of the run or behind its j. */
  predicate Fresh(buf: string) {
    (buf == "" || Last(buf) == 'j') && Part(buf) == "" && 'r' !in buf
  }

  lemma TakeSign(chars: string, j: nat, r: Real, buf: string)
    requires Fresh(buf) && j <= |chars| && StandsAt(chars, j, r.Head())
    ensures Takes(chars, j, r.Head(), buf, r.HeadKept())
  {
    hide Takes, RunFrom, Part;
    if r.neg { TakeOne(chars, j, HIGH_MINUS, buf); } else { TakeNone(chars, j, buf); }
  }

  lemma TakeFraction(chars: string, j: nat, r: Real, buf: string)
    requires r.Valid() && j <= |chars| && '.' !in Part(buf) && 'r' !in buf
    requires StandsAt(chars, j, r.Fraction())
    ensures Takes(chars, j, r.Fraction(), buf, r.Fraction())
  {
    hide Takes, RunFrom, Part;
    if r.dotted {
      StandsParts(chars, j, ".", r.fp);
      TakeOne(chars, j, '.', buf);
      TakeDigits(chars, j + 1, r.fp, buf + ".");
      TakeTwo(chars, j, ".", r.fp, buf, ".", r.fp);
    } else {
      TakeNone(chars, j, buf);
    }
  }

  lemma TakeExponent(chars: string, j: nat, x: Exponent, buf: string)
    requires x.Valid() && j <= |chars| && 'e' !in Part(buf)
    requires StandsAt(chars, j, x.Text())
    ensures Takes(chars, j, x.Text(), buf, x.Kept())
  {
    hide Takes, RunFrom, Part, StandsAt, Sign.Text, Sign.Kept;
    if x.NoExponent? {
      TakeNone(chars, j, buf);
    } else {
      TakeMarked(chars, j, if x.upper then 'E' else 'e', x.sign, x.digits, buf);
    }
  }

  lemma TakeMarked(chars: string, j: nat, e: char, sign: Sign, digits: string, buf: string)
    requires (e == 'e' || e == 'E') && 'e' !in Part(buf) && AllDigits(digits)
    requires StandsAt(chars, j, [e] + (sign.Text() + digits))
    ensures Takes(chars, j, [e] + (sign.Text() + digits), buf, ['e'] + (sign.Kept() + digits))
  {
    hide Takes, RunFrom, Part, StandsAt, Sign.Text, Sign.Kept, AllDigits;
    var a, k, b := sign.Text(), sign.Kept(), buf + ['e'];
    StandsParts(chars, j, [e], a + digits);
    StandsParts(chars, j + 1, a, digits);
    TakeOne(chars, j, e, buf);
    TakeExponentSign(chars, j + 1, sign, b);
    TakeDigits(chars, j + 1 + |a|, digits, b + k);
    TakeTwo(chars, j + 1, a, digits, b, k, digits);
    TakeTwo(chars, j, [e], a + digits, buf, ['e'], k + digits);
  }

  lemma TakeExponentSign(chars: string, j: nat, sign: Sign, buf: string)
    requires buf != "" && Last(buf) == 'e' && StandsAt(chars, j, sign.Text())
    ensures Takes(chars, j, sign.Text(), buf, sign.Kept())
  {
    StandsBound(chars, j, sign.Text());
    hide Takes, RunFrom, Part;
    match sign
    case NoSign => TakeNone(chars, j, buf);
    case High => TakeOne(chars, j, HIGH_MINUS, buf);
    case Hyphen => TakeOne(chars, j, '-', buf);
  }

  lemma RealMarks(r: Real)
    requires r.Valid()
    ensures var a := r.HeadKept() + r.ip;
            && 'j' !in a && 'r' !in a && '.' !in a && 'e' !in a
            && 'j' !in r.Fraction() && 'r' !in r.Fraction() && 'e' !in r.Fraction()
            && 'j' !in r.exp.Kept() && 'r' !in r.exp.Kept()
            && 'j' !in r.Kept() && 'r' !in r.Kept()
  {
    DigitsLack(r.ip, 'j');
    DigitsLack(r.ip, 'r');
    DigitsLack(r.ip, '.');
    DigitsLack(r.ip, 'e');
    DigitsLack(r.fp, 'j');
    DigitsLack(r.fp, 'r');
    DigitsLack(r.fp, 'e');
    if r.exp.Exponent? {
      DigitsLack(r.exp.digits, 'j');
      DigitsLack(r.exp.digits, 'r');
    }
  }

  lemma TakeReal(chars: string, j: nat, r: Real, buf: string)
    requires r.Valid() && Fresh(buf) && StandsAt(chars, j, r.Text())
    ensures Takes(chars, j, r.Text(), buf, r.Kept())
  {
    hide Takes, RunFrom, Part, StandsAt, Fresh, Real.Head, Real.HeadKept, Real.Fraction, Exponent.Text, Exponent.Kept,
         AllDigits, Exponent.Valid;
    var a, k := r.Head(), r.HeadKept();
    StandsParts(chars, j, a, r.ip + (r.Fraction() + r.exp.Text()));
    StandsBound(chars, j, a);
    TakeSign(chars, j, r, buf);
    TakeBody(chars, j + |a|, r, buf);
    TakeTwo(chars, j, a, r.ip + (r.Fraction() + r.exp.Text()), buf, k, r.ip + (r.Fraction() + r.exp.Kept()));
  }

  /** Behind the sign and the first digits a point and an exponent may still come. */
  lemma FreshBody(buf: string, r: Real)
    requires Fresh(buf) && r.Valid()
    ensures var c := buf + r.HeadKept() + r.ip; '.' !in Part(c) && 'e' !in Part(c) && 'r' !in c
  {
    RealMarks(r);
    hide Part, Real.Kept, Real.Fraction, Exponent.Kept, AllDigits;
    PartAppend(buf, r.HeadKept() + r.ip);
    assert buf + (r.HeadKept() + r.ip) == buf + r.HeadKept() + r.ip;
  }

  /** What stands behind the sign. */
  lemma TakeBody(chars: string, j: nat, r: Real, buf: string)
    requires r.Valid() && Fresh(buf) && StandsAt(chars, j, r.ip + (r.Fraction() + r.exp.Text()))
    ensures Takes(chars, j, r.ip + (r.Fraction() + r.exp.Text()), buf + r.HeadKept(),
                  r.ip + (r.Fraction() + r.exp.Kept()))
  {
    hide Takes, RunFrom, Part, StandsAt, Fresh, Real.HeadKept, Real.Fraction, Exponent.Text, Exponent.Kept, AllDigits,
         Exponent.Valid, Real.Kept, Real.Text;
    var t, k, c := r.Fraction() + r.exp.Text(), r.Fraction() + r.exp.Kept(), buf + r.HeadKept();
    StandsParts(chars, j, r.ip, t);
    TakeDigits(chars, j, r.ip, c);
    FreshBody(buf, r);
    TakeTail(chars, j + |r.ip|, r, c + r.ip);
    TakeTwo(chars, j, r.ip, t, c, r.ip, k);
  }

  lemma TakeTail(chars: string, j: nat, r: Real, buf: string)
    requires r.Valid() && '.' !in Part(buf) && 'e' !in Part(buf) && 'r' !in buf
    requires StandsAt(chars, j, r.Fraction() + r.exp.Text())
    ensures Takes(chars, j, r.Fraction() + r.exp.Text(), buf, r.Fraction() + r.exp.Kept())
  {
    RealMarks(r);
    hide Takes, RunFrom, Part, StandsAt, Real.Fraction, Exponent.Text, Exponent.Kept, AllDigits, Exponent.Valid,
         Real.Kept, Real.HeadKept;
    var f, x := r.Fraction(), r.exp.Text();
    StandsParts(chars, j, f, x);
    StandsBound(chars, j + |f|, x);
    PartAppend(buf, f);
    TakeFraction(chars, j, r, buf);
    TakeExponent(chars, j + |f|, r.exp, buf + f);
    TakeTwo(chars, j, f, x, buf, f, r.exp.Kept());
  }

  lemma StandsBound(chars: string, j: nat, t: string)
    requires StandsAt(chars, j, t)
    ensures j + |t| <= |chars|
  {
  }

  /** The loop takes a whole literal, folds its signs and letters, and stops where nothing fits on. */
  lemma LiteralCollected(chars: string, start: nat, lit: Literal)
    requires lit.Valid() && StandsAt(chars, start, lit.Text())
    requires start + |lit.Text()| < |chars| ==> !Accepts(lit.Kept(), chars[start + |lit.Text()|])
    ensures RunFrom(chars, start, "") == (lit.Kept(), start + |lit.Text()|)
  {
    StandsBound(chars, start, lit.Text());
    TakeLiteral(chars, start, lit);
    assert "" + lit.Kept() == lit.Kept();
    hide Accepts;
  }

  lemma TakeLiteral(chars: string, start: nat, lit: Literal)
    requires lit.Valid() && StandsAt(chars, start, lit.Text())
    ensures Takes(chars, start, lit.Text(), "", lit.Kept())
  {
    FreshStart();
    hide Takes, RunFrom, Part, StandsAt, Fresh;
    match lit
    case Single(re) => TakeReal(chars, start, re, "");
    case Quotient(numer, upper, denom) => TakeQuotient(chars, start, numer, if upper then 'R' else 'r', denom);
    case Pair(re, upper, im) => TakePair(chars, start, re, if upper then 'J' else 'j', im);
  }

  lemma FreshStart()
    ensures Fresh("")
  {
    NoPart();
  }

  /** Two parts with a letter between them. */
  lemma TakeJoined(chars: string, start: nat, a: string, c: char, b: string, ka: string, kc: char, kb: string)
    requires Takes(chars, start, a, "", ka)
    requires Takes(chars, start + |a|, [c], ka, [kc]) && Takes(chars, start + |a| + 1, b, ka + [kc], kb)
    ensures Takes(chars, start, a + ([c] + b), "", ka + ([kc] + kb))
  {
    hide Takes;
    assert "" + ka == ka;
    TakeTwo(chars, start + |a|, [c], b, ka, [kc], kb);
    TakeTwo(chars, start, a, [c] + b, "", ka, [kc] + kb);
  }

  lemma TakeLetter(chars: string, j: nat, c: char, buf: string)
    requires StandsAt(chars, j, [c]) && 'r' !in buf && 'j' !in buf
    ensures c == 'r' || c == 'R' ==> Takes(chars, j, [c], buf, ['r'])
    ensures c == 'j' || c == 'J' ==> Takes(chars, j, [c], buf, ['j'])
  {
    hide Takes, StandsAt, Part;
    if c == 'r' || c == 'R' || c == 'j' || c == 'J' { TakeOne(chars, j, c, buf); }
  }

  lemma TakeQuotient(chars: string, start: nat, numer: Real, c: char, denom: string)
    requires numer.Valid() && AllDigits(denom) && (c == 'r' || c == 'R')
    requires StandsAt(chars, start, numer.Text() + ([c] + denom))
    ensures Takes(chars, start, numer.Text() + ([c] + denom), "", numer.Kept() + (['r'] + denom))
  {
    hide *;
    var a, n := numer.Text(), start + |numer.Text()|;
    Pieces(chars, start, a, c, denom);
    TakeFirst(chars, start, numer, c);
    TakeDigits(chars, n + 1, denom, numer.Kept() + ['r']);
    TakeJoined(chars, start, a, c, denom, numer.Kept(), 'r', denom);
  }

  lemma FreshBehind(buf: string)
    requires 'j' !in buf && 'r' !in buf
    ensures Fresh(buf + ['j'])
  {
    PartFresh(buf);
  }

  lemma TakePair(chars: string, start: nat, re: Real, c: char, im: Real)
    requires re.Valid() && im.Valid() && (c == 'j' || c == 'J')
    requires StandsAt(chars, start, re.Text() + ([c] + im.Text()))
    ensures Takes(chars, start, re.Text() + ([c] + im.Text()), "", re.Kept() + (['j'] + im.Kept()))
  {
    hide *;
    var a, b, n := re.Text(), im.Text(), start + |re.Text()|;
    Pieces(chars, start, a, c, b);
    TakeFirst(chars, start, re, c);
    assert Takes(chars, n + 1, b, re.Kept() + ['j'], im.Kept()) by {
      RealMarks(re);
      FreshBehind(re.Kept());
      TakeReal(chars, n + 1, im, re.Kept() + ['j']);
    }
    TakeJoined(chars, start, a, c, b, re.Kept(), 'j', im.Kept());
  }

  lemma Pieces(chars: string, start: nat, a: string, c: char, b: string)
    requires StandsAt(chars, start, a + ([c] + b))
    ensures StandsAt(chars, start, a) && StandsAt(chars, start + |a|, [c]) && StandsAt(chars, start + |a| + 1, b)
  {
    hide StandsAt;
    StandsParts(chars, start, a, [c] + b);
    StandsParts(chars, start + |a|, [c], b);
  }

  /** The first part and the letter behind it. */
  lemma TakeFirst(chars: string, start: nat, re: Real, c: char)
    requires re.Valid() && StandsAt(chars, start, re.Text()) && StandsAt(chars, start + |re.Text()|, [c])
    ensures Takes(chars, start, re.Text(), "", re.Kept())
    ensures c == 'r' || c == 'R' ==> Takes(chars, start + |re.Text()|, [c], re.Kept(), ['r'])
    ensures c == 'j' || c == 'J' ==> Takes(chars, start + |re.Text()|, [c], re.Kept(), ['j'])
  {
    hide *;
    FreshStart();
    RealMarks(re);
    TakeReal(chars, start, re, "");
    TakeLetter(chars, start + |re.Text()|, c, re.Kept());
  }
}
