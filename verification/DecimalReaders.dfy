/** The two readers of decimal text, one for database columns (kap-core/src/sql.rs) and one
    for literals (kap-core/src/lex_helpers.rs). */
module DecimalReaders {
  import opened Common
  import opened Arithmetic
  import opened Rationals
  import opened Decimals
  import opened Text
  import opened Terminating

  /** `parse_decimal`: the reader for database columns. */
  function ParseDecimal(s: string): Option<BigRational> {
    var t := Trim(s);
    if t == "" then None
    else
      var body := if t[0] == '-' || t[0] == '+' then t[1..] else t;
      if 'e' in body || 'E' in body then None
      else
        var dot := IndexOf(body, '.');
        var ip, fp := body[..dot], if dot < |body| then body[dot + 1..] else "";
        if !AllDigits(ip) || !AllDigits(fp) || (ip == "" && fp == "") then None
        else
          var r := Make(ParseDigits((if ip == "" then "0" else ip) + fp), Pow(10, |fp|));
          Some(if t[0] == '-' then Negate(r) else r)
  }

  function Without(s: string, c: char): string {
    if s == "" then "" else (if s[0] == c then "" else [s[0]]) + Without(s[1..], c)
  }

  /** `BigUint::from_str_radix`: a leading `+` is dropped, underscores after the first digit are skipped. */
  function ParseUnsigned(s: string): Option<nat> {
    var t := if s != "" && s[0] == '+' && !(|s| > 1 && s[1] == '+') then s[1..] else s;
    var digits := Without(t, '_');
    if t == "" || t[0] == '_' || !AllDigits(digits) then None else Some(ParseDigits(digits))
  }

  /** `BigInt::parse_bytes(_, 10)`. */
  function ParseBigInt(s: string): Option<int> {
    if s != "" && s[0] == '-' && !(|s| > 1 && s[1] == '+') then
      var n :- ParseUnsigned(s[1..]);
      Some(0 - n)
    else
      ParseUnsigned(s)
  }

  /** Digits, with underscores anywhere but in front. */
  predicate Spaced(t: string) {
    t != "" && t[0] != '_' && forall i :: 0 <= i < |t| ==> IsDigit(t[i]) || t[i] == '_'
  }

  lemma {:induction false} WithoutDigits(t: string)
    requires forall i :: 0 <= i < |t| ==> IsDigit(t[i]) || t[i] == '_'
    ensures AllDigits(Without(t, '_'))
  {
    if t != "" {
      WithoutDigits(t[1..]);
    }
  }

  lemma {:induction false} DigitsWithout(t: string)
    requires AllDigits(Without(t, '_'))
    ensures forall i :: 0 <= i < |t| ==> IsDigit(t[i]) || t[i] == '_'
  {
    if t != "" {
      var w := Without(t[1..], '_');
      if t[0] == '_' {
        assert Without(t, '_') == w;
      } else {
        assert Without(t, '_') == [t[0]] + w;
        assert forall i :: 0 <= i < |w| ==> w[i] == ([t[0]] + w)[i + 1];
        assert ([t[0]] + w)[0] == t[0];
      }
      DigitsWithout(t[1..]);
    }
  }

  /** A big integer is written with at most one sign and with underscores among its digits. */
  lemma SpacedParses(t: string)
    requires Spaced(t)
    ensures AllDigits(Without(t, '_'))
    ensures ParseBigInt(t) == Some(ParseDigits(Without(t, '_')))
    ensures ParseBigInt("+" + t) == Some(ParseDigits(Without(t, '_')))
    ensures ParseBigInt("-" + t) == Some(0 - ParseDigits(Without(t, '_')))
  {
    WithoutDigits(t);
    hide ParseDigits, Without;
    assert ("+" + t)[1..] == t && ("-" + t)[1..] == t;
    assert IsDigit(t[0]);
  }

  /** ...and nothing else is one. */
  lemma OnlySpaced(s: string)
    requires ParseBigInt(s).Some?
    ensures s != "" && (Spaced(s) || ((s[0] == '+' || s[0] == '-') && Spaced(s[1..])))
  {
    hide ParseDigits, Without;
    var body := if s != "" && s[0] == '-' && !(|s| > 1 && s[1] == '+') then s[1..] else s;
    var t := if body != "" && body[0] == '+' && !(|body| > 1 && body[1] == '+') then body[1..] else body;
    DigitsWithout(t);
  }

  /** `decimal_str_to_rational`: the reader for number literals. */
  function LexDecimal(s: string): Result<BigRational> {
    var t := Trim(s);
    var neg := t != "" && t[0] == '-';
    var digits := if neg then t[1..] else t;
    var dot := IndexOf(digits, '.');
    var fracLen := if dot < |digits| then |digits| - dot - 1 else 0;
    var mant := Without(digits, '.');
    if mant == "" || ParseBigInt(mant) == None then Err
    else
      var r := Make(ParseBigInt(mant).value, Pow(10, fracLen));
      Ok(if neg then Negate(r) else r)
  }

  /** A signed digit string with at most one dot and at least one digit. */
  datatype Numeral = Numeral(sign: string, ip: string, dotted: bool, fp: string) {
    predicate Valid() {
      && (sign == "" || sign == "-" || sign == "+")
      && AllDigits(ip) && AllDigits(fp) && ip + fp != "" && (!dotted ==> fp == "")
    }

    function Text(): string { sign + Unsigned() }

    function Unsigned(): string { ip + (if dotted then "." + fp else "") }

    /** All digits as one integer, over a power of ten. */
    function Denotes(): real
      requires Valid()
    {
      var n := ParseDigits(ip + fp);
      (if sign == "-" then 0 - n else n) as real / Pow(10, |fp|) as real
    }
  }

  lemma UnsignedParts(n: Numeral)
    requires n.Valid()
    ensures var body := n.Unsigned();
            var dot := IndexOf(body, '.');
            body[..dot] == n.ip && (if dot < |body| then body[dot + 1..] else "") == n.fp
  {
    DigitsLack(n.ip, '.');
    hide AllDigits, IndexOf;
    var body := n.Unsigned();
    if n.dotted {
      assert body == n.ip + ['.'] + n.fp;
      IndexAfter(n.ip, '.', n.fp);
    } else {
      assert body == n.ip;
      IndexMissing(body, '.');
    }
  }

  lemma UnsignedChars(n: Numeral)
    requires n.Valid()
    ensures forall c :: c in n.Unsigned() ==> IsDigit(c) || c == '.'
  {
  }

  lemma UnsignedStart(n: Numeral)
    requires n.Valid()
    ensures var body := n.Unsigned();
            body != "" && body[0] != '-' && body[0] != '+' && 'e' !in body && 'E' !in body
  {
    hide AllDigits;
    UnsignedChars(n);
    var body := n.Unsigned();
    assert body != "" by { assert n.ip == "" ==> n.fp != ""; }
    assert body[0] in body;
  }

  lemma SignFirst(sign: string, body: string)
    requires sign == "" || sign == "-" || sign == "+"
    requires body != "" && body[0] != '-' && body[0] != '+'
    ensures var t := sign + body;
            && t != "" && (t[0] == '-' <==> sign == "-") && (t[0] == '+' <==> sign == "+")
            && body == (if t[0] == '-' || t[0] == '+' then t[1..] else t)
  {
    if sign == "" { assert sign + body == body; } else { assert (sign + body)[1..] == body; }
  }

  /** The sign comes off, and the text splits at its only dot. */
  lemma NumeralParts(n: Numeral)
    requires n.Valid()
    ensures var t, body := n.Text(), n.Unsigned();
            && t != "" && (t[0] == '-' <==> n.sign == "-") && (t[0] == '+' <==> n.sign == "+")
            && body == (if t[0] == '-' || t[0] == '+' then t[1..] else t)
            && 'e' !in body && 'E' !in body
            && var dot := IndexOf(body, '.');
               body[..dot] == n.ip && (if dot < |body| then body[dot + 1..] else "") == n.fp
  {
    hide AllDigits, IndexOf, Numeral.Unsigned;
    UnsignedParts(n);
    UnsignedStart(n);
    SignFirst(n.sign, n.Unsigned());
  }

  function Magnitude(n: Numeral): BigRational
    requires n.Valid()
  {
    Make(ParseDigits(n.ip + n.fp), Pow(10, |n.fp|))
  }

  lemma ZeroPrefix(n: Numeral)
    requires n.Valid()
    ensures var digits := (if n.ip == "" then "0" else n.ip) + n.fp;
            AllDigits(digits) && ParseDigits(digits) == ParseDigits(n.ip + n.fp)
  {
    if n.ip == "" {
      LeadingZeros(1, n.fp);
      assert Zeros(1) == "0" && "" + n.fp == n.fp;
    }
  }

  lemma ParseNumeral(s: string, n: Numeral)
    requires n.Valid() && Trim(s) == n.Text()
    ensures ParseDecimal(s) == Some(if n.sign == "-" then Negate(Magnitude(n)) else Magnitude(n))
  {
    hide Trim, Make, Negate, ParseDigits, Pow, AllDigits, IndexOf, Numeral.Unsigned, Numeral.Text;
    NumeralParts(n);
    ZeroPrefix(n);
  }

  lemma SplitAt(s: string, i: nat)
    requires i < |s|
    ensures s == s[..i] + ([s[i]] + s[i + 1..])
  {
  }

  lemma SplitAtDot(body: string)
    ensures var dot := IndexOf(body, '.');
            if dot < |body| then body == body[..dot] + ("." + body[dot + 1..]) else body[..dot] == body
  {
    hide IndexOf;
    var dot := IndexOf(body, '.');
    if dot < |body| {
      SplitAt(body, dot);
      assert [body[dot]] == ".";
    }
  }

  lemma SignOff(t: string)
    requires t != ""
    ensures (if t[0] == '-' || t[0] == '+' then [t[0]] + t[1..] else "" + t) == t
  {
  }

  lemma BodyNumeral(sign: string, body: string) returns (n: Numeral)
    requires sign == "" || sign == "-" || sign == "+"
    requires var dot := IndexOf(body, '.');
             var ip, fp := body[..dot], if dot < |body| then body[dot + 1..] else "";
             AllDigits(ip) && AllDigits(fp) && (ip != "" || fp != "")
    ensures n.Valid() && n.Text() == sign + body
  {
    hide IndexOf, AllDigits;
    SplitAtDot(body);
    var dot := IndexOf(body, '.');
    n := Numeral(sign, body[..dot], dot < |body|, if dot < |body| then body[dot + 1..] else "");
    NonEmpty(n.ip, n.fp);
    if !n.dotted {
      assert n.ip + "" == n.ip;
    }
  }

  lemma NumeralOf(s: string) returns (n: Numeral)
    requires ParseDecimal(s).Some?
    ensures n.Valid() && Trim(s) == n.Text()
  {
    hide Trim, Make, Negate, ParseDigits, Pow, AllDigits, IndexOf, Gcd, Reduced;
    var t := Trim(s);
    SignOff(t);
    if t[0] == '-' || t[0] == '+' {
      n := BodyNumeral([t[0]], t[1..]);
    } else {
      n := BodyNumeral("", t);
    }
  }

  lemma NonEmpty(a: string, b: string)
    requires a != "" || b != ""
    ensures a + b != ""
  {
    assert |a + b| == |a| + |b|;
  }

  /** `parse_decimal` accepts exactly the numerals, blanks around them aside, and gives their value. */
  lemma ParseDecimalAccepts(s: string)
    ensures ParseDecimal(s).Some? <==> exists n: Numeral :: n.Valid() && Trim(s) == n.Text()
    ensures forall n: Numeral :: n.Valid() && Trim(s) == n.Text() ==>
              ParseDecimal(s).Some? && Value(ParseDecimal(s).value) == n.Denotes()
  {
    hide Trim, ParseDecimal;
    forall n: Numeral | n.Valid() && Trim(s) == n.Text()
      ensures ParseDecimal(s).Some? && Value(ParseDecimal(s).value) == n.Denotes()
    {
      ParseNumeral(s, n);
      NumeralValue(n);
    }
    if ParseDecimal(s).Some? {
      var n := NumeralOf(s);
      assert n.Valid() && Trim(s) == n.Text();
    }
  }

  lemma NumeralValue(n: Numeral)
    requires n.Valid()
    ensures Value(if n.sign == "-" then Negate(Magnitude(n)) else Magnitude(n)) == n.Denotes()
  {
    hide Make, Pow, ParseDigits;
    MakeExact(ParseDigits(n.ip + n.fp), Pow(10, |n.fp|));
    NegateValue(Magnitude(n));
  }

  /** Everything `parse_decimal` returns can be bound to a column again. */
  lemma ParsedBinds(s: string)
    requires ParseDecimal(s).Some?
    ensures IsDecimal(ParseDecimal(s).value)
  {
    hide Trim, ParseDecimal, Make, Pow, ParseDigits;
    var n := NumeralOf(s);
    ParseNumeral(s, n);
    var num: int := ParseDigits(n.ip + n.fp);
    MakeExact(num, Pow(10, |n.fp|));
    var r := ParseDecimal(s).value;
    assert IsDecimalBy(r, if n.sign == "-" then 0 - num else num, |n.fp|) by {
      hide Gcd;
      NegatedCross(Magnitude(n), num, Pow(10, |n.fp|));
    }
  }

  lemma NegatedCross(m: BigRational, num: int, p: int)
    requires m.numer * p == num * m.denom
    ensures (0 - num) * m.denom == (0 - m.numer) * p
  {
  }

  lemma {:induction false} WithoutAbsent(a: string, c: char)
    requires c !in a
    ensures Without(a, c) == a
  {
    if a != "" {
      WithoutAbsent(a[1..], c);
      assert [a[0]] + a[1..] == a;
    }
  }

  lemma {:induction false} WithoutAppend(a: string, b: string, c: char)
    ensures Without(a + b, c) == Without(a, c) + Without(b, c)
  {
    if a == "" {
      assert a + b == b;
    } else {
      assert (a + b)[1..] == a[1..] + b;
      WithoutAppend(a[1..], b, c);
    }
  }

  lemma ParsePlainDigits(d: string)
    requires AllDigits(d) && d != ""
    ensures ParseBigInt(d) == Some(ParseDigits(d)) && ParseBigInt("+" + d) == Some(ParseDigits(d))
  {
    hide ParseDigits, Without;
    DigitsLack(d, '_');
    WithoutAbsent(d, '_');
    assert ("+" + d)[1..] == d;
  }

  lemma MantissaOf(n: Numeral)
    requires n.Valid()
    ensures Without(n.Unsigned(), '.') == n.ip + n.fp
  {
    DigitsLack(n.ip, '.');
    DigitsLack(n.fp, '.');
    hide AllDigits, Without;
    WithoutAbsent(n.ip, '.');
    WithoutAbsent(n.fp, '.');
    if n.dotted {
      WithoutFirst('.', n.fp, '.');
      assert "" + n.fp == n.fp;
      WithoutAppend(n.ip, ['.'] + n.fp, '.');
    } else {
      assert n.Unsigned() == n.ip && n.ip + n.fp == n.ip;
    }
  }

  lemma WithoutFirst(d: char, s: string, c: char)
    ensures Without([d] + s, c) == (if d == c then "" else [d]) + Without(s, c)
  {
    assert ([d] + s)[1..] == s;
  }

  /** The length of the fraction survives a `+` left on the text. */
  lemma FractionLength(n: Numeral, prefix: string)
    requires n.Valid() && (prefix == "" || prefix == "+")
    ensures var digits := prefix + n.Unsigned();
            var dot := IndexOf(digits, '.');
            (if dot < |digits| then |digits| - dot - 1 else 0) == |n.fp|
  {
    DigitsLack(n.ip, '.');
    if n.dotted {
      assert prefix + n.Unsigned() == (prefix + n.ip) + ['.'] + n.fp;
      IndexAfter(prefix + n.ip, '.', n.fp);
    } else {
      assert n.Unsigned() == n.ip;
      IndexMissing(prefix + n.Unsigned(), '.');
    }
  }

  /** The text after the sign, as the literal reader sees it: only `-` has come off. */
  lemma LexDigits(n: Numeral) returns (prefix: string)
    requires n.Valid()
    ensures prefix == "" || prefix == "+"
    ensures n.Text() != "" && (n.Text()[0] == '-' <==> n.sign == "-")
    ensures (if n.Text()[0] == '-' then n.Text()[1..] else n.Text()) == prefix + n.Unsigned()
  {
    hide AllDigits, IndexOf;
    NumeralParts(n);
    prefix := if n.sign == "+" then "+" else "";
  }

  lemma LexMantissa(n: Numeral, prefix: string)
    requires n.Valid() && (prefix == "" || prefix == "+")
    ensures var mant := Without(prefix + n.Unsigned(), '.');
            mant != "" && ParseBigInt(mant) == Some(ParseDigits(n.ip + n.fp))
  {
    DigitsAppend(n.ip, n.fp);
    hide AllDigits, Without, ParseBigInt, ParseDigits;
    MantissaOf(n);
    ParsePlainDigits(n.ip + n.fp);
    if prefix == "" {
      assert "" + n.Unsigned() == n.Unsigned();
    } else {
      WithoutFirst('+', n.Unsigned(), '.');
    }
  }

  lemma LexNumeral(s: string, n: Numeral)
    requires n.Valid() && Trim(s) == n.Text()
    ensures LexDecimal(s) == Ok(if n.sign == "-" then Negate(Magnitude(n)) else Magnitude(n))
  {
    DigitsAppend(n.ip, n.fp);
    hide Trim, Make, Negate, ParseDigits, Pow, AllDigits, IndexOf, Without, ParseBigInt, LexDecimal, Magnitude;
    hide Gcd, Reduced;
    var prefix := LexDigits(n);
    FractionLength(n, prefix);
    LexMantissa(n, prefix);
    LexFrom(s, prefix + n.Unsigned(), n);
  }

  lemma LexFrom(s: string, digits: string, n: Numeral)
    requires n.Valid()
    requires Trim(s) != "" && (Trim(s)[0] == '-' <==> n.sign == "-")
    requires digits == if Trim(s)[0] == '-' then Trim(s)[1..] else Trim(s)
    requires var dot := IndexOf(digits, '.'); (if dot < |digits| then |digits| - dot - 1 else 0) == |n.fp|
    requires Without(digits, '.') != "" && ParseBigInt(Without(digits, '.')) == Some(ParseDigits(n.ip + n.fp))
    ensures LexDecimal(s) == Ok(if n.sign == "-" then Negate(Magnitude(n)) else Magnitude(n))
  {
    hide Trim, Make, Negate, ParseDigits, Pow, AllDigits, IndexOf, Without, ParseBigInt, Gcd, Reduced;
  }

  lemma DigitsAppend(a: string, b: string)
    requires AllDigits(a) && AllDigits(b)
    ensures AllDigits(a + b)
  {
  }

  /** Whatever the column reader accepts, the literal reader reads as the same number. */
  lemma ReadersAgree(s: string)
    requires ParseDecimal(s).Some?
    ensures LexDecimal(s) == Ok(ParseDecimal(s).value)
  {
    hide Trim, ParseDecimal, LexDecimal;
    var n := NumeralOf(s);
    ParseNumeral(s, n);
    LexNumeral(s, n);
  }

  /** What the literal reader looks at: the text without blanks around it and without a minus sign. */
  function Digits(s: string): string {
    var t := Trim(s);
    if t != "" && t[0] == '-' then t[1..] else t
  }

  /** ...and without a plus sign, when there was no minus sign. */
  function Bare(s: string): string {
    var d := Digits(s);
    if d != "" && d[0] == '+' && d == Trim(s) then d[1..] else d
  }

  /** No underscore, no second sign, no second dot. */
  predicate Tidy(s: string) {
    var b := Bare(s);
    '_' !in b && '-' !in b && '+' !in b && '.' !in b[(if IndexOf(b, '.') < |b| then IndexOf(b, '.') + 1 else 0)..]
  }

  /** The two readers give the same number, or both refuse. */
  predicate SameReading(s: string) {
    ParseDecimal(s) == if LexDecimal(s).Ok? then Some(LexDecimal(s).value) else None
  }

  /** Behind the first dot of a numeral there is no other. */
  lemma NumeralDots(n: Numeral)
    requires n.Valid()
    ensures var b := n.Unsigned(); '.' !in b[(if IndexOf(b, '.') < |b| then IndexOf(b, '.') + 1 else 0)..]
  {
    DigitsLack(n.ip, '.');
    DigitsLack(n.fp, '.');
    hide AllDigits, IndexOf;
    var b := n.Unsigned();
    if n.dotted {
      assert b == n.ip + ['.'] + n.fp;
      IndexAfter(n.ip, '.', n.fp);
      assert b[|n.ip| + 1..] == n.fp;
    } else {
      assert b == n.ip && b[0..] == b;
      IndexMissing(b, '.');
    }
  }

  lemma NumeralTidy(s: string, n: Numeral)
    requires n.Valid() && Trim(s) == n.Text()
    ensures Tidy(s)
  {
    hide AllDigits, IndexOf, Trim, Bare, Numeral.Unsigned, Numeral.Text;
    BareIsUnsigned(s, n);
    NumeralDots(n);
    UnsignedChars(n);
  }

  lemma BareIsUnsigned(s: string, n: Numeral)
    requires n.Valid() && Trim(s) == n.Text()
    ensures Bare(s) == n.Unsigned()
  {
    hide AllDigits, IndexOf, Trim;
    UnsignedStart(n);
    var u := n.Unsigned();
    if n.sign == "" {
      assert n.Text() == u;
    } else {
      assert n.Text()[1..] == u;
    }
  }

  lemma {:induction false} WithoutKeeps(s: string, c: char)
    ensures forall d :: d in s && d != c ==> d in Without(s, c)
    ensures Without(s, c) == "" ==> forall d :: d in s ==> d == c
  {
    if s != "" {
      WithoutKeeps(s[1..], c);
      assert s == [s[0]] + s[1..];
    }
  }

  /** A tidy text the literal reader accepts is a numeral. */
  lemma TidyNumeral(s: string) returns (n: Numeral)
    requires Tidy(s) && LexDecimal(s).Ok?
    ensures n.Valid() && Trim(s) == n.Text()
  {
    hide Trim, IndexOf, Make, Pow, ParseDigits, Negate, AllDigits, Without, ParseBigInt, Gcd, Reduced;
    var b := Bare(s);
    var t := Trim(s);
    BareDigits(s);
    var dot := IndexOf(b, '.');
    DottedDigits(b);
    var sign := if b == t then "" else [t[0]];
    assert t == sign + b by { SignOffText(s); }
    n := BodyNumeral(sign, b);
  }

  lemma SignOffText(s: string)
    ensures var b, t := Bare(s), Trim(s);
            && |b| <= |t| && (b != t ==> t != "" && (t[0] == '-' || t[0] == '+'))
            && t == (if b == t then "" else [t[0]]) + b
  {
    hide Trim, IndexOf;
    var b, t := Bare(s), Trim(s);
    if t != "" {
      assert t == [t[0]] + t[1..];
    }
    assert t == "" + t;
  }

  /** What the big-integer reader leaves after the sign: digits, dots aside, and at least one. */
  lemma BareDigits(s: string)
    requires Tidy(s) && LexDecimal(s).Ok?
    ensures AllDigits(Without(Bare(s), '.')) && Without(Bare(s), '.') != ""
  {
    hide Trim, IndexOf, Make, Pow, ParseDigits, Negate, Gcd, Reduced, AllDigits;
    var d, b := Digits(s), Bare(s);
    var mant := Without(d, '.');
    assert ParseBigInt(mant).Some?;
    if b != d {
      assert d == ['+'] + b;
      WithoutFirst('+', b, '.');
      PlusDigits(Without(b, '.'), b);
    } else {
      PlainOrSigned(d);
    }
  }

  lemma {:induction false} WithoutSubset(s: string, c: char)
    ensures forall d :: d in Without(s, c) ==> d in s && d != c
  {
    if s != "" {
      WithoutSubset(s[1..], c);
    }
  }

  lemma PlusDigits(w: string, b: string)
    requires w == Without(b, '.') && '_' !in b && '-' !in b && '+' !in b
    requires ParseBigInt("+" + w).Some?
    ensures AllDigits(w) && w != ""
  {
    hide AllDigits, ParseDigits;
    WithoutSubset(b, '.');
    WithoutAbsent(w, '_');
    assert ("+" + w)[1..] == w;
  }

  lemma PlainOrSigned(d: string)
    requires '_' !in d && '-' !in d && '+' !in d && ParseBigInt(Without(d, '.')).Some?
    ensures AllDigits(Without(d, '.')) && Without(d, '.') != ""
  {
    hide AllDigits, ParseDigits;
    WithoutSubset(d, '.');
    var w := Without(d, '.');
    WithoutAbsent(w, '_');
    assert w != "" ==> w[0] in w;
  }

  /** Digits but for one dot: both sides of the dot are digits. */
  lemma DottedDigits(b: string)
    requires AllDigits(Without(b, '.')) && Without(b, '.') != ""
    requires '.' !in b[(if IndexOf(b, '.') < |b| then IndexOf(b, '.') + 1 else 0)..]
    ensures var dot := IndexOf(b, '.');
            var ip, fp := b[..dot], if dot < |b| then b[dot + 1..] else "";
            AllDigits(ip) && AllDigits(fp) && (ip != "" || fp != "")
  {
    hide IndexOf;
    var dot := IndexOf(b, '.');
    var ip := b[..dot];
    if dot < |b| {
      var fp := b[dot + 1..];
      SplitAtDot(b);
      WithoutAppend(ip, ['.'] + fp, '.');
      WithoutFirst('.', fp, '.');
      WithoutAbsent(ip, '.');
      WithoutAbsent(fp, '.');
      assert "" + fp == fp;
      assert Without(b, '.') == ip + fp;
      DigitsOfParts(ip, fp);
    } else {
      assert ip == b;
      WithoutAbsent(b, '.');
    }
  }

  lemma DigitsOfParts(a: string, b: string)
    requires AllDigits(a + b)
    ensures AllDigits(a) && AllDigits(b)
  {
    assert forall i :: 0 <= i < |a| ==> (a + b)[i] == a[i];
    assert forall i :: 0 <= i < |b| ==> (a + b)[|a| + i] == b[i];
  }

  /** Tidy texts are read alike; and of the texts the literal reader accepts, only those. */
  lemma ReadAlike(s: string)
    ensures Tidy(s) ==> SameReading(s)
    ensures LexDecimal(s).Ok? ==> (SameReading(s) <==> Tidy(s))
    ensures SameReading(s) <==> LexDecimal(s).Err? || Tidy(s)
  {
    hide Trim, ParseDecimal, LexDecimal, Tidy;
    if ParseDecimal(s).Some? {
      var n := NumeralOf(s);
      NumeralTidy(s, n);
      ReadersAgree(s);
    } else if LexDecimal(s).Ok? && Tidy(s) {
      var n := TidyNumeral(s);
      ParseNumeral(s, n);
    }
  }

  /** An untidy family the literal reader accepts: two dots in front of any digits. */
  lemma TwoDots(d: string)
    requires AllDigits(d) && d != ""
    ensures LexDecimal(".." + d).Ok? && ParseDecimal(".." + d) == None && !Tidy(".." + d)
  {
    hide AllDigits, Trim, IndexOf, Make, Pow, ParseDigits, Negate, Gcd, Reduced, Without, ParseBigInt, Tidy;
    hide ParseDecimal;
    var s := ".." + d;
    DottedTrim(d);
    assert s == ['.'] + (['.'] + d);
    WithoutFirst('.', ['.'] + d, '.');
    WithoutFirst('.', d, '.');
    DigitsLack(d, '.');
    WithoutAbsent(d, '.');
    assert "" + d == d && "" + ("" + d) == d;
    ParsePlainDigits(d);
    assert LexDecimal(s).Ok?;
    TwoDotsUntidy(d);
    ReadAlike(s);
    if ParseDecimal(s).Some? {
      ReadersAgree(s);
    }
  }

  lemma DottedTrim(d: string)
    requires AllDigits(d) && d != ""
    ensures Trim(".." + d) == ".." + d
  {
    var s := ".." + d;
    assert !IsWhitespace(s[0]);
    assert s[|s| - 1] == d[|d| - 1];
  }

  lemma TwoDotsUntidy(d: string)
    requires AllDigits(d) && d != ""
    ensures !Tidy(".." + d)
  {
    hide AllDigits, Trim;
    DottedTrim(d);
    var s := ".." + d;
    assert Bare(s) == s && IndexOf(s, '.') == 0;
    assert s[1..][0] == '.';
  }
}
