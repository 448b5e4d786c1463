/** Numbers as text: `format` and `parse_kap_number_string` (kap-core/src/number.rs).
    Printing and reading one double is a parameter. */
module NumberText {
  import opened Common
  import opened Decimals
  import opened Doubles
  import opened Rationals
  import opened Numbers
  import opened Text
  import opened NumberArithmetic

  /** `s.replace('-', "¯")`. */
  function HighMinus(s: string): string {
    if s == "" then "" else [if s[0] == '-' then '\U{00AF}' else s[0]] + HighMinus(s[1..])
  }

  function Format(n: KapNumber, readable: bool, formatDouble: Double -> string): string {
    var s :=
      match n
      case Long(v) => IntToString(v)
      case Dbl(d) => formatDouble(d)
      case BigInt(v) => IntToString(v)
      case Rational(r) => IntToString(r.numer) + "/" + IntToString(r.denom)
      case Complex(re, im) => formatDouble(re) + "J" + formatDouble(im);
    if readable then HighMinus(s) else s
  }

  function StripMinus(s: string): string { if s != "" && s[0] == '-' then s[1..] else s }

  /** The suffix `[eE]-?[0-9]+`. */
  predicate ExpSuffix(s: string) {
    var body := if s != "" && (s[0] == 'e' || s[0] == 'E') then s[1..] else s;
    var digits := StripMinus(body);
    digits != "" && AllDigits(digits)
  }

  /** `s.find('e').or_else(|| s.find('E'))`. */
  function FindExponent(s: string): (k: nat)
    ensures k <= |s|
  {
    if IndexOf(s, 'e') < |s| then IndexOf(s, 'e') else IndexOf(s, 'E')
  }

  predicate DoubleShape(s: string) {
    if s != "" && s[|s| - 1] == '.' then
      |s| > 1 && AllDigits(s[..|s| - 1])
    else
      var dot := IndexOf(s, '.');
      if dot < |s| then
        var frac := s[dot + 1..];
        var e := FindExponent(frac);
        if !AllDigits(s[..dot]) then false
        else if e < |frac| then e > 0 && AllDigits(frac[..e]) && ExpSuffix(frac[e..])
        else frac != "" && AllDigits(frac)
      else
        var e := FindExponent(s);
        e < |s| && e > 0 && AllDigits(s[..e]) && ExpSuffix(s[e..])
  }

  function NumDigitsOnly(s: string): Option<nat> {
    var digits := StripMinus(s);
    if digits == "" || !AllDigits(digits) then None else Some(ParseDigits(digits))
  }

  function SignedDigits(s: string): Option<int> {
    var n :- NumDigitsOnly(s);
    Some(if s[0] == '-' then 0 - n else n)
  }

  datatype Reading = Read(n: KapNumber) | NotANumber | ZeroDenominator

  /** `parse_kap_number_string`; a zero denominator panics in `BigRational::new`. */
  function Parse(s: string, parseDouble: string -> Option<Double>): Reading {
    if NumDigitsOnly(s).Some? then Read(FromInt(SignedDigits(s).value))
    else if DoubleShape(StripMinus(s)) && parseDouble(s).Some? then Read(Dbl(parseDouble(s).value))
    else
      var slash := IndexOf(s, '/');
      if slash == |s| then NotANumber
      else
        var num, den := SignedDigits(s[..slash]), SignedDigits(s[slash + 1..]);
        if num == None || den == None then NotANumber
        else if den.value == 0 then ZeroDenominator
        else Read(FromRational(Make(num.value, den.value)))
  }

  // ---------------------------------------------------------------- the shape of a double

  datatype Exponent = NoExponent | Exponent(upper: bool, neg: bool, digits: string) {
    predicate Valid() { Exponent? ==> digits != "" && AllDigits(digits) }

    function Text(): string {
      if NoExponent? then "" else (if upper then "E" else "e") + ((if neg then "-" else "") + digits)
    }
  }

  /** The three alternatives after the optional sign: digits `.` digits exponent?, digits exponent, digits `.`. */
  datatype DoubleForm =
    | Fractional(ip: string, fp: string, exp: Exponent)
    | Scientific(ip: string, exp: Exponent)
    | Trailing(ip: string)
  {
    predicate Valid() {
      && AllDigits(ip)
      && (Fractional? ==> fp != "" && AllDigits(fp) && exp.Valid())
      && (Scientific? ==> ip != "" && exp.Exponent? && exp.Valid())
      && (Trailing? ==> ip != "")
    }

    function Text(): string {
      match this
      case Fractional(_, _, _) => ip + "." + (fp + exp.Text())
      case Scientific(_, _) => ip + exp.Text()
      case Trailing(_) => ip + "."
    }
  }

  lemma ExponentChars(x: Exponent)
    requires x.Exponent? && x.Valid()
    ensures x.Text() != "" && x.Text()[0] == (if x.upper then 'E' else 'e')
    ensures forall i :: 0 < i < |x.Text()| ==> IsDigit(x.Text()[i]) || x.Text()[i] == '-'
    ensures IsDigit(x.Text()[|x.Text()| - 1])
  {
  }

  lemma ExpSuffixOfText(x: Exponent)
    requires x.Exponent? && x.Valid()
    ensures ExpSuffix(x.Text())
  {
    var tail := (if x.neg then "-" else "") + x.digits;
    assert x.Text()[1..] == tail;
    if x.neg {
      assert tail[1..] == x.digits;
    } else {
      assert tail == x.digits && tail[0] != '-';
    }
  }

  lemma ExponentOf(s: string) returns (x: Exponent)
    requires s != "" && (s[0] == 'e' || s[0] == 'E') && ExpSuffix(s)
    ensures x.Exponent? && x.Valid() && x.Text() == s
  {
    var body := s[1..];
    x := Exponent(s[0] == 'E', body[0] == '-', StripMinus(body));
    assert s == [s[0]] + body;
    if body[0] == '-' {
      assert body == "-" + body[1..];
    } else {
      assert body == "" + body;
    }
  }

  /** In digits followed by an optional exponent, the exponent is found where it starts. */
  lemma FindExponentAt(p: string, x: Exponent)
    requires AllDigits(p) && x.Valid()
    ensures FindExponent(p + x.Text()) == |p|
  {
    DigitsLack(p, 'e');
    DigitsLack(p, 'E');
    var t := x.Text();
    if x.NoExponent? {
      assert p + t == p;
      IndexMissing(p, 'e');
      IndexMissing(p, 'E');
    } else {
      ExponentChars(x);
      assert t == [t[0]] + t[1..];
      assert p + t == p + [t[0]] + t[1..];
      IndexAfter(p, t[0], t[1..]);
      if x.upper {
        assert forall i :: 0 < i < |t| ==> t[i] != 'e';
        IndexMissing(p + t, 'e');
      }
    }
  }

  lemma TextEnds(p: string, x: Exponent)
    requires AllDigits(p) && p != "" && x.Valid()
    ensures var t := p + x.Text(); t != "" && t[|t| - 1] != '.' && '.' !in t
  {
    DigitsLack(p, '.');
    if x.Exponent? {
      ExponentChars(x);
    } else {
      assert p + x.Text() == p;
    }
  }

  lemma ShapeOfFractional(f: DoubleForm)
    requires f.Valid() && f.Fractional?
    ensures DoubleShape(f.Text())
  {
    hide AllDigits, IndexOf, FindExponent, ExpSuffix;
    var frac := f.fp + f.exp.Text();
    var s := f.Text();
    TextEnds(f.fp, f.exp);
    assert s[|s| - 1] == frac[|frac| - 1];
    DigitsLack(f.ip, '.');
    assert s == f.ip + ['.'] + frac;
    IndexAfter(f.ip, '.', frac);
    assert s[|f.ip| + 1..] == frac && s[..|f.ip|] == f.ip;
    FindExponentAt(f.fp, f.exp);
    assert frac[..|f.fp|] == f.fp && frac[|f.fp|..] == f.exp.Text();
    if f.exp.Exponent? {
      ExpSuffixOfText(f.exp);
      ExponentChars(f.exp);
    } else {
      assert frac == f.fp;
    }
  }

  lemma ShapeOfScientific(f: DoubleForm)
    requires f.Valid() && f.Scientific?
    ensures DoubleShape(f.Text())
  {
    hide AllDigits, IndexOf, FindExponent, ExpSuffix;
    var s := f.Text();
    TextEnds(f.ip, f.exp);
    IndexMissing(s, '.');
    FindExponentAt(f.ip, f.exp);
    assert s[..|f.ip|] == f.ip && s[|f.ip|..] == f.exp.Text();
    ExpSuffixOfText(f.exp);
    ExponentChars(f.exp);
  }

  lemma FoundExponent(s: string)
    ensures var e := FindExponent(s); e < |s| ==> s[e] == 'e' || s[e] == 'E'
  {
  }

  lemma CutAt(s: string, i: nat)
    requires i <= |s|
    ensures s == s[..i] + s[i..]
  {
  }

  /** Digits with an exponent after them. */
  lemma ExponentSplit(s: string) returns (x: Exponent)
    requires FindExponent(s) < |s| && ExpSuffix(s[FindExponent(s)..])
    ensures x.Exponent? && x.Valid() && s == s[..FindExponent(s)] + x.Text()
  {
    FoundExponent(s);
    hide IndexOf, AllDigits, ExpSuffix, FindExponent;
    var e := FindExponent(s);
    CutAt(s, e);
    var t := s[e..];
    assert t[0] == s[e];
    x := ExponentOf(t);
  }

  lemma FractionText(ip: string, frac: string) returns (f: DoubleForm)
    requires AllDigits(ip)
    requires if FindExponent(frac) < |frac| then
               FindExponent(frac) > 0 && AllDigits(frac[..FindExponent(frac)]) && ExpSuffix(frac[FindExponent(frac)..])
             else frac != "" && AllDigits(frac)
    ensures f.Valid() && f.Text() == ip + "." + frac
  {
    hide AllDigits, ExpSuffix, FindExponent;
    if FindExponent(frac) < |frac| {
      var x := ExponentSplit(frac);
      f := Fractional(ip, frac[..FindExponent(frac)], x);
    } else {
      f := Fractional(ip, frac, NoExponent);
      assert frac + "" == frac;
    }
  }

  lemma FormOfFraction(s: string) returns (f: DoubleForm)
    requires DoubleShape(s) && s[|s| - 1] != '.' && IndexOf(s, '.') < |s|
    ensures f.Valid() && f.Text() == s
  {
    hide AllDigits, IndexOf, ExpSuffix, FindExponent;
    var dot := IndexOf(s, '.');
    f := FractionText(s[..dot], s[dot + 1..]);
    assert s == s[..dot] + "." + s[dot + 1..];
  }

  lemma FormOf(s: string) returns (f: DoubleForm)
    requires DoubleShape(s)
    ensures f.Valid() && f.Text() == s
  {
    hide AllDigits, IndexOf, ExpSuffix, FindExponent;
    if s != "" && s[|s| - 1] == '.' {
      f := Trailing(s[..|s| - 1]);
      assert s == s[..|s| - 1] + ".";
    } else if IndexOf(s, '.') < |s| {
      f := FormOfFraction(s);
    } else {
      var x := ExponentSplit(s);
      f := Scientific(s[..FindExponent(s)], x);
    }
  }

  lemma ShapeOfForm(f: DoubleForm)
    requires f.Valid()
    ensures DoubleShape(f.Text())
  {
    match f
    case Fractional(_, _, _) => ShapeOfFractional(f);
    case Scientific(_, _) => ShapeOfScientific(f);
    case Trailing(ip) => assert f.Text()[..|f.Text()| - 1] == ip;
  }

  /** `double_shape` accepts exactly the documented pattern. */
  lemma DoubleShapeIsPattern(s: string)
    ensures DoubleShape(s) <==> exists f: DoubleForm :: f.Valid() && f.Text() == s
  {
    hide DoubleShape;
    forall f: DoubleForm | f.Valid() && f.Text() == s ensures DoubleShape(s) {
      ShapeOfForm(f);
    }
    if DoubleShape(s) {
      var f := FormOf(s);
    }
  }

  // ---------------------------------------------------------------- integers and fractions

  /** An optional minus sign and at least one digit. */
  datatype SignedText = SignedText(neg: bool, digits: string) {
    predicate Valid() { digits != "" && AllDigits(digits) }

    function Text(): string { if neg then "-" + digits else digits }

    function Denotes(): int
      requires Valid()
    {
      if neg then 0 - ParseDigits(digits) else ParseDigits(digits)
    }
  }

  lemma ReadSigned(t: SignedText)
    requires t.Valid()
    ensures NumDigitsOnly(t.Text()).Some? && SignedDigits(t.Text()) == Some(t.Denotes())
    ensures '/' !in t.Text() && '.' !in t.Text()
  {
    DigitsLack(t.digits, '/');
    DigitsLack(t.digits, '.');
    assert t.neg ==> t.Text()[1..] == t.digits;
  }

  lemma SignedOf(s: string) returns (t: SignedText)
    requires NumDigitsOnly(s).Some?
    ensures t.Valid() && t.Text() == s && SignedDigits(s) == Some(t.Denotes())
  {
    t := SignedText(s[0] == '-', StripMinus(s));
    if s[0] == '-' {
      assert s == "-" + s[1..];
    }
  }

  /** No double contains a slash, so a fraction is never mistaken for one. */
  lemma DoublesHaveNoSlash(s: string)
    requires DoubleShape(s)
    ensures '/' !in s
  {
    hide DoubleShape;
    var f := FormOf(s);
    DigitsLack(f.ip, '/');
    if f.Fractional? {
      DigitsLack(f.fp, '/');
    }
    if !f.Trailing? && f.exp.Exponent? {
      DigitsLack(f.exp.digits, '/');
    }
  }

  lemma StripKeepsSlash(s: string)
    ensures '/' in s ==> '/' in StripMinus(s)
  {
    if '/' in s {
      var i :| 0 <= i < |s| && s[i] == '/';
      if s[0] == '-' {
        assert s[1..][i - 1] == '/';
      }
    }
  }

  lemma IntegerParses(t: SignedText, parseDouble: string -> Option<Double>)
    requires t.Valid()
    ensures Parse(t.Text(), parseDouble) == Read(FromInt(t.Denotes()))
  {
    ReadSigned(t);
  }

  lemma NoIntegerHasSlash(s: string)
    requires '/' in s
    ensures NumDigitsOnly(s) == None
  {
    StripKeepsSlash(s);
    if AllDigits(StripMinus(s)) {
      DigitsLack(StripMinus(s), '/');
    }
  }

  lemma FractionSplits(n: SignedText, d: SignedText)
    requires n.Valid() && d.Valid()
    ensures var s := n.Text() + "/" + d.Text();
            var slash := IndexOf(s, '/');
            slash < |s| && s[..slash] == n.Text() && s[slash + 1..] == d.Text() && '/' in s
  {
    hide IndexOf;
    ReadSigned(n);
    var s := n.Text() + ['/'] + d.Text();
    IndexAfter(n.Text(), '/', d.Text());
    assert s[|n.Text()|] == '/';
  }

  /** `n/d` reads as the reduced quotient, collapsed when whole; a zero denominator panics. */
  lemma FractionParses(n: SignedText, d: SignedText, parseDouble: string -> Option<Double>)
    requires n.Valid() && d.Valid()
    ensures Parse(n.Text() + "/" + d.Text(), parseDouble) ==
            if d.Denotes() == 0 then ZeroDenominator else Read(FromRational(Make(n.Denotes(), d.Denotes())))
  {
    hide DoubleShape, IndexOf, NumDigitsOnly, SignedDigits, Make, ParseDigits, FromRational;
    var s := n.Text() + "/" + d.Text();
    FractionSplits(n, d);
    ReadSigned(n);
    ReadSigned(d);
    NoIntegerHasSlash(s);
    StripKeepsSlash(s);
    if DoubleShape(StripMinus(s)) {
      DoublesHaveNoSlash(StripMinus(s));
    }
  }

  /** The reader panics on the fractions with a zero denominator, and on nothing else. */
  lemma ParsePanics(s: string, parseDouble: string -> Option<Double>)
    ensures Parse(s, parseDouble) == ZeroDenominator <==>
            exists n: SignedText, d: SignedText ::
              n.Valid() && d.Valid() && d.Denotes() == 0 && s == n.Text() + "/" + d.Text()
  {
    hide DoubleShape, NumDigitsOnly, ParseDigits, Make;
    forall n: SignedText, d: SignedText | n.Valid() && d.Valid() && d.Denotes() == 0 && s == n.Text() + "/" + d.Text()
      ensures Parse(s, parseDouble) == ZeroDenominator
    {
      FractionParses(n, d, parseDouble);
    }
    if Parse(s, parseDouble) == ZeroDenominator {
      var slash := IndexOf(s, '/');
      var n := SignedOf(s[..slash]);
      var d := SignedOf(s[slash + 1..]);
      assert s == n.Text() + "/" + d.Text();
    }
  }

  function Signed(neg: bool, f: DoubleForm): string { if neg then "-" + f.Text() else f.Text() }

  lemma DoubleText(neg: bool, f: DoubleForm)
    requires f.Valid()
    ensures var t := Signed(neg, f);
            StripMinus(t) == f.Text() && NumDigitsOnly(t) == None && IndexOf(t, '/') == |t|
  {
    var t := Signed(neg, f);
    FormStart(f);
    assert StripMinus(t) == f.Text() by { assert neg ==> t[1..] == f.Text(); }
    FormHasMark(f);
    ShapeOfForm(f);
    DoublesHaveNoSlash(f.Text());
    hide IndexOf, DoubleShape;
    IndexMissing(t, '/');
  }

  /** A point or an exponent tells a double from an integer. */
  lemma FormHasMark(f: DoubleForm)
    requires f.Valid()
    ensures !AllDigits(f.Text())
  {
    match f
    case Fractional(ip, _, _) => assert f.Text()[|ip|] == '.';
    case Scientific(ip, exp) =>
      ExponentChars(exp);
      assert f.Text()[|ip|] == exp.Text()[0];
    case Trailing(ip) => assert f.Text()[|ip|] == '.';
  }

  /** A text of double shape, signed or not, reads as the double it spells, if it spells one. */
  lemma DoubleParses(neg: bool, f: DoubleForm, parseDouble: string -> Option<Double>)
    requires f.Valid()
    ensures var t := Signed(neg, f);
            Parse(t, parseDouble) == if parseDouble(t).Some? then Read(Dbl(parseDouble(t).value)) else NotANumber
  {
    DoubleText(neg, f);
    ShapeOfForm(f);
    hide DoubleShape, NumDigitsOnly, IndexOf;
  }

  ghost predicate SpellsInteger(s: string) { exists t: SignedText :: t.Valid() && t.Text() == s }

  ghost predicate SpellsDouble(s: string) { exists neg: bool, f: DoubleForm :: f.Valid() && Signed(neg, f) == s }

  ghost predicate SpellsFraction(s: string) {
    exists n: SignedText, d: SignedText :: n.Valid() && d.Valid() && n.Text() + "/" + d.Text() == s
  }

  /** What is no number: everything but integers, doubles the float reader accepts, and fractions. */
  lemma NoOtherNumbers(s: string, parseDouble: string -> Option<Double>)
    ensures Parse(s, parseDouble) != NotANumber <==>
            SpellsInteger(s) || (SpellsDouble(s) && parseDouble(s).Some?) || SpellsFraction(s)
  {
    hide *;
    if SpellsInteger(s) || (SpellsDouble(s) && parseDouble(s).Some?) || SpellsFraction(s) {
      SpelledReads(s, parseDouble);
    }
    if Parse(s, parseDouble) != NotANumber {
      ReadIsSpelled(s, parseDouble);
    }
  }

  lemma SpelledReads(s: string, parseDouble: string -> Option<Double>)
    requires SpellsInteger(s) || (SpellsDouble(s) && parseDouble(s).Some?) || SpellsFraction(s)
    ensures Parse(s, parseDouble) != NotANumber
  {
    hide Parse, FromInt, FromRational, Make;
    if SpellsInteger(s) {
      var t: SignedText :| t.Valid() && t.Text() == s;
      IntegerParses(t, parseDouble);
    } else if SpellsFraction(s) {
      var n: SignedText, d: SignedText :| n.Valid() && d.Valid() && n.Text() + "/" + d.Text() == s;
      FractionParses(n, d, parseDouble);
    } else {
      var neg: bool, f: DoubleForm :| f.Valid() && Signed(neg, f) == s;
      DoubleParses(neg, f, parseDouble);
    }
  }

  lemma ReadIsSpelled(s: string, parseDouble: string -> Option<Double>)
    requires Parse(s, parseDouble) != NotANumber
    ensures SpellsInteger(s) || (SpellsDouble(s) && parseDouble(s).Some?) || SpellsFraction(s)
  {
    hide DoubleShape, NumDigitsOnly, ParseDigits, Make, IndexOf, SignedDigits, StripMinus, FromInt, FromRational;
    if NumDigitsOnly(s).Some? {
      var t := SignedOf(s);
    } else if DoubleShape(StripMinus(s)) && parseDouble(s).Some? {
      var f := FormOf(StripMinus(s));
      MinusBack(s, f);
    } else {
      SlashFound(s);
      var slash := IndexOf(s, '/');
      SignedSome(s[..slash]);
      SignedSome(s[slash + 1..]);
      var n := SignedOf(s[..slash]);
      var d := SignedOf(s[slash + 1..]);
      assert s == n.Text() + "/" + d.Text();
    }
  }

  lemma SlashFound(s: string)
    ensures IndexOf(s, '/') < |s| ==> s[IndexOf(s, '/')] == '/'
  {
  }

  lemma SignedSome(s: string)
    ensures SignedDigits(s).Some? ==> NumDigitsOnly(s).Some?
  {
    hide NumDigitsOnly;
  }

  lemma MinusBack(s: string, f: DoubleForm)
    requires f.Valid() && f.Text() == StripMinus(s)
    ensures SpellsDouble(s)
  {
    hide DoubleForm.Text, DoubleForm.Valid;
    if s != "" && s[0] == '-' {
      assert s == "-" + s[1..];
      assert Signed(true, f) == s;
    } else {
      assert Signed(false, f) == s;
    }
  }

  // ---------------------------------------------------------------- printing and reading back

  /** What reading back makes of an exact number: the smallest kind that holds it. */
  function NormalForm(n: KapNumber): KapNumber
    requires Exact(n)
  {
    match n
    case Long(l) => n
    case BigInt(b) => FromInt(b)
    case Rational(r) => FromRational(r)
  }

  function Printed(v: int): SignedText { SignedText(v < 0, ToDigits(Abs(v))) }

  lemma PrintedText(v: int)
    ensures Printed(v).Valid() && Printed(v).Text() == IntToString(v) && Printed(v).Denotes() == v
  {
    ParseToDigits(Abs(v));
  }

  /** A printed exact number reads back as its normal form. */
  lemma FormatParses(n: KapNumber, formatDouble: Double -> string, parseDouble: string -> Option<Double>)
    requires Exact(n)
    ensures Parse(Format(n, false, formatDouble), parseDouble) == Read(NormalForm(n))
  {
    hide Parse, IntToString, Make, Gcd, ParseDigits;
    match n
    case Long(v) =>
      PrintedText(v);
      IntegerParses(Printed(v), parseDouble);
    case BigInt(v) =>
      PrintedText(v);
      IntegerParses(Printed(v), parseDouble);
    case Rational(r) =>
      PrintedText(r.numer);
      PrintedText(r.denom);
      FractionParses(Printed(r.numer), Printed(r.denom), parseDouble);
      MakeExact(r.numer, r.denom);
  }

  /** Doubles print as the formatter prints them, complex numbers as two of those with a J between. */
  lemma FloatForms(n: KapNumber, formatDouble: Double -> string)
    ensures n.Dbl? ==> Format(n, false, formatDouble) == formatDouble(n.d)
    ensures n.Complex? ==> Format(n, false, formatDouble) == formatDouble(n.re) + ['J'] + formatDouble(n.im)
  {
  }

  /** The readable style only replaces every minus sign by the high minus, U+00AF. */
  lemma ReadableForm(n: KapNumber, formatDouble: Double -> string)
    ensures var s, t := Format(n, false, formatDouble), Format(n, true, formatDouble);
            |t| == |s| && forall i :: 0 <= i < |s| ==> t[i] == if s[i] == '-' then '\U{00AF}' else s[i]
  {
    HighMinusAt(Format(n, false, formatDouble));
  }

  lemma {:induction false} HighMinusAt(s: string)
    ensures |HighMinus(s)| == |s|
    ensures forall i :: 0 <= i < |s| ==> HighMinus(s)[i] == if s[i] == '-' then '\U{00AF}' else s[i]
  {
    if s != "" {
      HighMinusAt(s[1..]);
    }
  }

  predicate Negative(n: KapNumber)
    requires Exact(n)
  {
    match n
    case Long(l) => l < 0
    case BigInt(b) => b < 0
    case Rational(r) => r.numer < 0
  }

  lemma {:induction false} HighMinusAbsent(s: string)
    requires '-' !in s
    ensures HighMinus(s) == s
  {
    if s != "" {
      HighMinusAbsent(s[1..]);
      assert s == [s[0]] + s[1..];
    }
  }

  lemma FormStart(f: DoubleForm)
    requires f.Valid()
    ensures f.Text() != "" && (IsDigit(f.Text()[0]) || f.Text()[0] == '.')
  {
    assert f.ip != "" ==> f.Text()[0] == f.ip[0];
    if f.Scientific? {
      ExponentChars(f.exp);
    }
  }

  lemma HighMinusUnreadable(s: string, parseDouble: string -> Option<Double>)
    requires s != "" && s[0] == '\U{00AF}'
    ensures Parse(s, parseDouble) == NotANumber
  {
    hide DoubleShape, IndexOf;
    assert !IsDigit(s[0]);
    if DoubleShape(s) {
      var f := FormOf(s);
      FormStart(f);
    }
    var slash := IndexOf(s, '/');
    assert slash < |s| ==> s[..slash][0] == s[0];
  }

  lemma PrintedSigns(n: KapNumber, formatDouble: Double -> string)
    requires Exact(n)
    ensures var s := Format(n, false, formatDouble);
            if Negative(n) then s != "" && s[0] == '-' else '-' !in s
  {
    hide ToDigits;
    match n
    case Long(v) => DigitsLack(ToDigits(Abs(v)), '-');
    case BigInt(v) => DigitsLack(ToDigits(Abs(v)), '-');
    case Rational(r) =>
      DigitsLack(ToDigits(Abs(r.numer)), '-');
      DigitsLack(ToDigits(r.denom), '-');
  }

  /** The readable style, with its high minus, reads back exactly for the numbers that print no sign. */
  lemma ReadableParses(n: KapNumber, formatDouble: Double -> string, parseDouble: string -> Option<Double>)
    requires Exact(n)
    ensures Parse(Format(n, true, formatDouble), parseDouble) == Read(NormalForm(n)) <==> !Negative(n)
  {
    var s := Format(n, false, formatDouble);
    PrintedSigns(n, formatDouble);
    assert Format(n, true, formatDouble) == HighMinus(s);
    hide Parse, Format, NormalForm;
    if Negative(n) {
      HighMinusUnreadable(HighMinus(s), parseDouble);
    } else {
      HighMinusAbsent(s);
      FormatParses(n, formatDouble, parseDouble);
    }
  }
}
