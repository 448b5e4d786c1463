/** ISO-8601 timestamps (kap-core/src/time.rs): epoch milliseconds as text and back
    (compare section 5.6 of RFC 3339). Texts are sequences of one-byte characters. */
module Timestamps {
  import opened Common
  import opened Arithmetic
  import opened Decimals
  import opened Calendar

  const DAY := 86_400_000

  function Two(s: string): Option<int> {
    if |s| == 2 && AllDigits(s) then Some(ParseDigits(s)) else None
  }

  predicate Within(x: int, lo: int, hi: int) { lo <= x <= hi }

  function ParseTimestamp(s: string): Option<int> {
    if |s| != 20 && |s| != 24 then None
    else if s[|s| - 1] != 'Z' then None
    else if s[4] != '-' || s[7] != '-' || s[10] != 'T' || s[13] != ':' || s[16] != ':' then None
    else
      var year :- ParseSigned(s[0..4]);
      var month :- Two(s[5..7]);
      var day :- Two(s[8..10]);
      var hour :- Two(s[11..13]);
      var min :- Two(s[14..16]);
      var sec :- Two(s[17..19]);
      var ms :- if |s| == 20 then Some(0)
                else if s[19] != '.' then None
                else
                  var f :- ParseSigned(s[20..23]);
                  if AllDigits(s[20..23]) then Some(f) else None;
      if !Within(month, 1, 12) || !Within(day, 1, 31) then None
      else if hour > 23 || min > 59 || sec > 59 || !Within(ms, 0, 999) then None
      else if day > DaysInMonth(year, month) then None
      else Some(DaysFromCivil(year, month, day) * DAY + hour * 3_600_000 + min * 60_000 + sec * 1000 + ms)
  }

  /** The text with its separators; `frac` is empty or the three millisecond digits. */
  function Layout(y: string, mo: string, d: string, h: string, mi: string, s: string, frac: string): string {
    y + "-" + mo + "-" + d + "T" + h + ":" + mi + ":" + s + (if frac == "" then "" else "." + frac) + "Z"
  }

  function FormatTimestamp(millis: int): string {
    var date := CivilFromDays(millis / DAY);  // div_euclid
    var rem := millis % DAY;                  // rem_euclid
    Layout(PadInt(date.y, 4), PadInt(date.m, 2), PadInt(date.d, 2), PadDigits(rem / 3_600_000, 2),
           PadDigits((rem % 3_600_000) / 60_000, 2), PadDigits((rem % 60_000) / 1000, 2),
           if rem % 1000 == 0 then "" else PadDigits(rem % 1000, 3))
  }

  function Year(millis: int): int { CivilFromDays(millis / DAY).y }

  lemma LayoutSlices(y: string, mo: string, d: string, h: string, mi: string, s: string, frac: string)
    requires |y| == 4 && |mo| == 2 && |d| == 2 && |h| == 2 && |mi| == 2 && |s| == 2
    requires |frac| == 0 || |frac| == 3
    ensures var t := Layout(y, mo, d, h, mi, s, frac);
            && |t| == (if frac == "" then 20 else 24)
            && t[0..4] == y && t[5..7] == mo && t[8..10] == d
            && t[11..13] == h && t[14..16] == mi && t[17..19] == s
            && t[4] == '-' && t[7] == '-' && t[10] == 'T' && t[13] == ':' && t[16] == ':'
            && t[|t| - 1] == 'Z'
            && (frac != "" ==> t[19] == '.' && t[20..23] == frac)
  {
    var a := y + "-" + mo + "-" + d + "T";
    var b := h + ":" + mi + ":" + s;
    var c := (if frac == "" then "" else "." + frac) + "Z";
    var t := Layout(y, mo, d, h, mi, s, frac);
    assert t == a + b + c;
    assert |a| == 11 && |b| == 8;
    assert a[0..4] == y && a[5..7] == mo && a[8..10] == d;
    assert b[0..2] == h && b[3..5] == mi && b[6..8] == s;
    assert t[0..4] == a[0..4] && t[5..7] == a[5..7] && t[8..10] == a[8..10];
    assert t[11..13] == b[0..2] && t[14..16] == b[3..5] && t[17..19] == b[6..8];
    assert frac != "" ==> c[1..4] == frac && t[20..23] == c[1..4];
  }

  /** Every text with the separators in place is a layout of its slices. */
  lemma LayoutOfSlices(t: string)
    requires |t| == 20 || (|t| == 24 && t[19] == '.')
    requires t[4] == '-' && t[7] == '-' && t[10] == 'T' && t[13] == ':' && t[16] == ':'
    requires t[|t| - 1] == 'Z'
    ensures t == Layout(t[0..4], t[5..7], t[8..10], t[11..13], t[14..16], t[17..19],
                        if |t| == 20 then "" else t[20..23])
  {
    var frac := if |t| == 20 then "" else t[20..23];
    var u := Layout(t[0..4], t[5..7], t[8..10], t[11..13], t[14..16], t[17..19], frac);
    LayoutSlices(t[0..4], t[5..7], t[8..10], t[11..13], t[14..16], t[17..19], frac);
    SlicesDetermine(t, u);
  }

  lemma SlicesDetermine(t: string, u: string)
    requires |t| == |u| && (|t| == 20 || |t| == 24)
    requires t[0..4] == u[0..4] && t[5..7] == u[5..7] && t[8..10] == u[8..10]
    requires t[11..13] == u[11..13] && t[14..16] == u[14..16] && t[17..19] == u[17..19]
    requires t[4] == u[4] && t[7] == u[7] && t[10] == u[10] && t[13] == u[13] && t[16] == u[16]
    requires t[|t| - 1] == u[|u| - 1]
    requires |t| == 24 ==> t[19] == u[19] && t[20..23] == u[20..23]
    ensures t == u
  {
    assert t == t[0..4] + [t[4]] + t[5..7] + [t[7]] + t[8..10] + [t[10]] + t[11..13] + [t[13]]
                + t[14..16] + [t[16]] + t[17..19] + t[19..];
    assert u == u[0..4] + [u[4]] + u[5..7] + [u[7]] + u[8..10] + [u[10]] + u[11..13] + [u[13]]
                + u[14..16] + [u[16]] + u[17..19] + u[19..];
    assert t[19..] == if |t| == 20 then [t[19]] else [t[19]] + t[20..23] + [t[23]];
    assert u[19..] == if |u| == 20 then [u[19]] else [u[19]] + u[20..23] + [u[23]];
  }

  /** The year field is four characters exactly for the years -999 to 9999. */
  lemma YearField(y: int)
    ensures -999 <= y <= 9999 ==> |PadInt(y, 4)| == 4 && ParseSigned(PadInt(y, 4)) == Some(y)
    ensures !(-999 <= y <= 9999) ==> |PadInt(y, 4)| > 4 && PadInt(y, 4)[4] != '-'
  {
    PowersOfTen();
    if y < 0 {
      var digits := PadDigits(-y, 3);
      ParsePadDigits(-y, 3);
      assert PadInt(y, 4)[1..] == digits;
    } else {
      ParsePadDigits(y, 4);
    }
  }

  lemma TwoField(n: nat)
    requires n < 100
    ensures |PadDigits(n, 2)| == 2 && Two(PadDigits(n, 2)) == Some(n)
  {
    PowersOfTen();
    ParsePadDigits(n, 2);
  }

  lemma ThreeField(n: nat)
    requires n < 1000
    ensures |PadDigits(n, 3)| == 3 && ParseSigned(PadDigits(n, 3)) == Some(n)
  {
    PowersOfTen();
    ParsePadDigits(n, 3);
  }

  lemma TimeOfDay(rem: int)
    requires 0 <= rem < DAY
    ensures var h, mi, s, ms := rem / 3_600_000, (rem % 3_600_000) / 60_000, (rem % 60_000) / 1000, rem % 1000;
            && 0 <= h < 24 && 0 <= mi < 60 && 0 <= s < 60 && 0 <= ms < 1000
            && rem == h * 3_600_000 + mi * 60_000 + s * 1000 + ms
  {
    DivUnique(rem % 3_600_000, 60_000, (rem % 3_600_000) / 60_000, rem % 60_000);
    NestedRemainder(rem, 60_000, 60);
    NestedRemainder(rem, 1000, 60);
  }

  lemma NestedRemainder(x: int, k: int, n: int)
    requires 0 < k && 0 < n
    ensures 0 < k * n && (x % (k * n)) % k == x % k
  {
    MulPositive(k, n);
    DivModDefinition(x, k * n);
    var r := x % (k * n);
    DivModDefinition(r, k);
    assert x == k * (n * (x / (k * n)) + r / k) + r % k by {
      assert (k * n) * (x / (k * n)) == k * (n * (x / (k * n)));
    }
    DivUnique(x, k, n * (x / (k * n)) + r / k, r % k);
  }

  /** `parse_timestamp` undoes `format_timestamp` exactly for the years -999 to 9999,
      and rejects the text of every other year. */
  lemma ParseFormat(ms: int)
    ensures ParseTimestamp(FormatTimestamp(ms)) == if -999 <= Year(ms) <= 9999 then Some(ms) else None
  {
    hide CivilFromDays, DaysFromCivil, DaysInMonth, IsLeap, PadInt, PadDigits, ParseSigned, Two, Layout;
    var date := CivilFromDays(ms / DAY);
    var rem := ms % DAY;
    var h, mi, s, f := rem / 3_600_000, (rem % 3_600_000) / 60_000, (rem % 60_000) / 1000, rem % 1000;
    CivilFromDaysValid(ms / DAY);
    DaysInMonthBound(date);
    TimeOfDay(rem);
    YearField(date.y);
    MonthDayFields(date);
    TwoField(h);
    TwoField(mi);
    TwoField(s);
    ThreeField(f);
    var frac := if f == 0 then "" else PadDigits(f, 3);
    var y, mo, d := PadInt(date.y, 4), PadInt(date.m, 2), PadInt(date.d, 2);
    if -999 <= date.y <= 9999 {
      LayoutSlices(y, mo, d, PadDigits(h, 2), PadDigits(mi, 2), PadDigits(s, 2), frac);
      DivModDefinition(ms, DAY);
    } else {
      LayoutPrefix(y, mo, d, PadDigits(h, 2), PadDigits(mi, 2), PadDigits(s, 2), frac);
      assert FormatTimestamp(ms)[4] != '-';
    }
  }

  lemma LayoutPrefix(y: string, mo: string, d: string, h: string, mi: string, s: string, frac: string)
    requires |y| > 4
    ensures |Layout(y, mo, d, h, mi, s, frac)| > 4 && Layout(y, mo, d, h, mi, s, frac)[4] == y[4]
  {
  }

  lemma DaysInMonthBound(t: Date)
    requires ValidDate(t)
    ensures 1 <= t.m <= 12 && 1 <= t.d <= 31
  {
  }

  lemma MonthDayFields(t: Date)
    requires ValidDate(t)
    ensures |PadInt(t.m, 2)| == 2 && Two(PadInt(t.m, 2)) == Some(t.m)
    ensures |PadInt(t.d, 2)| == 2 && Two(PadInt(t.d, 2)) == Some(t.d)
  {
    TwoField(t.m);
    TwoField(t.d);
  }

  /** Every text with these separators and fields in range is accepted, with the instant it names; the
      year is any four characters that read as a number, and the milliseconds may be left out. */
  lemma FieldsAccepted(y: string, date: Date, h: nat, mi: nat, s: nat, frac: string)
    requires |y| == 4 && ParseSigned(y) == Some(date.y) && ValidDate(date) && h < 24 && mi < 60 && s < 60
    requires frac == "" || (|frac| == 3 && AllDigits(frac))
    ensures var text := y + "-" + PadDigits(date.m, 2) + "-" + PadDigits(date.d, 2) + "T" + PadDigits(h, 2) + ":"
                        + PadDigits(mi, 2) + ":" + PadDigits(s, 2) + (if frac == "" then "" else "." + frac) + "Z";
            ParseTimestamp(text)
            == Some(DaysFromCivil(date.y, date.m, date.d) * 86_400_000
                    + ((h * 60 + mi) * 60 + s) * 1000 + ParseDigits(frac))
  {
    DaysInMonthBound(date);
    hide PadDigits, ParseDigits, ParseSigned, ParseTimestamp, DaysFromCivil, Layout, AllDigits, ValidDate;
    LayoutIs(y, PadDigits(date.m, 2), PadDigits(date.d, 2), PadDigits(h, 2), PadDigits(mi, 2), PadDigits(s, 2), frac);
    LayoutAccepted(y, date, h, mi, s, frac);
  }

  lemma LayoutAccepted(y: string, date: Date, h: nat, mi: nat, s: nat, frac: string)
    requires |y| == 4 && ParseSigned(y) == Some(date.y) && ValidDate(date) && h < 24 && mi < 60 && s < 60
    requires frac == "" || (|frac| == 3 && AllDigits(frac))
    ensures AllDigits(frac)
    ensures var text := Layout(y, PadDigits(date.m, 2), PadDigits(date.d, 2), PadDigits(h, 2), PadDigits(mi, 2),
                               PadDigits(s, 2), frac);
            ParseTimestamp(text)
            == Some(DaysFromCivil(date.y, date.m, date.d) * DAY + ((h * 60 + mi) * 60 + s) * 1000 + ParseDigits(frac))
  {
    hide PadDigits, ParseDigits, ParseSigned, ParseTimestamp, DaysFromCivil, Layout, AllDigits, ValidDate, Two;
    NoDigits();
    if frac != "" { PlainDigits(frac); }
    DaysInMonthBound(date);
    TwoField(date.m);
    TwoField(date.d);
    TwoField(h);
    TwoField(mi);
    TwoField(s);
    LayoutParses(y, PadDigits(date.m, 2), PadDigits(date.d, 2), PadDigits(h, 2), PadDigits(mi, 2), PadDigits(s, 2),
                 frac, date, h, mi, s, ParseDigits(frac));
  }

  lemma LayoutParses(y: string, mo: string, d: string, hh: string, mm: string, ss: string, frac: string,
                     date: Date, h: nat, mi: nat, s: nat, ms: nat)
    requires |y| == 4 && |mo| == 2 && |d| == 2 && |hh| == 2 && |mm| == 2 && |ss| == 2
    requires ParseSigned(y) == Some(date.y) && Two(mo) == Some(date.m) && Two(d) == Some(date.d)
    requires Two(hh) == Some(h) && Two(mm) == Some(mi) && Two(ss) == Some(s)
    requires if frac == "" then ms == 0 else |frac| == 3 && AllDigits(frac) && ParseSigned(frac) == Some(ms)
    requires ValidDate(date) && h < 24 && mi < 60 && s < 60 && ms < 1000
    ensures ParseTimestamp(Layout(y, mo, d, hh, mm, ss, frac))
            == Some(DaysFromCivil(date.y, date.m, date.d) * DAY + ((h * 60 + mi) * 60 + s) * 1000 + ms)
  {
    hide ParseSigned, ParseTimestamp, DaysFromCivil, Layout, AllDigits, ValidDate, Two;
    LayoutSlices(y, mo, d, hh, mm, ss, frac);
    ParseBySlices(Layout(y, mo, d, hh, mm, ss, frac), date, h, mi, s, ms);
  }

  lemma ParseBySlices(t: string, date: Date, h: nat, mi: nat, s: nat, ms: nat)
    requires |t| == 20 || |t| == 24
    requires t[4] == '-' && t[7] == '-' && t[10] == 'T' && t[13] == ':' && t[16] == ':' && t[|t| - 1] == 'Z'
    requires ParseSigned(t[0..4]) == Some(date.y) && Two(t[5..7]) == Some(date.m) && Two(t[8..10]) == Some(date.d)
    requires Two(t[11..13]) == Some(h) && Two(t[14..16]) == Some(mi) && Two(t[17..19]) == Some(s)
    requires if |t| == 20 then ms == 0
             else t[19] == '.' && AllDigits(t[20..23]) && ParseSigned(t[20..23]) == Some(ms)
    requires ValidDate(date) && h < 24 && mi < 60 && s < 60 && ms < 1000
    ensures ParseTimestamp(t)
            == Some(DaysFromCivil(date.y, date.m, date.d) * DAY + ((h * 60 + mi) * 60 + s) * 1000 + ms)
  {
    DaysInMonthBound(date);
    hide DaysFromCivil, DaysInMonth, IsLeap, ParseSigned, Two, AllDigits;
  }

  lemma LayoutIs(y: string, mo: string, d: string, h: string, mi: string, s: string, frac: string)
    ensures Layout(y, mo, d, h, mi, s, frac) ==
            y + "-" + mo + "-" + d + "T" + h + ":" + mi + ":" + s + (if frac == "" then "" else "." + frac) + "Z"
  {
  }

  lemma NoDigits()
    ensures AllDigits("") && ParseDigits("") == 0
  {
  }

  lemma PlainDigits(t: string)
    requires |t| == 3 && AllDigits(t)
    ensures ParseSigned(t) == Some(ParseDigits(t)) && ParseDigits(t) < 1000
  {
    PowersOfTen();
    ParseBound(t);
  }

  /** The spellings `format_timestamp` never produces: a plus sign, a negative zero year,
      and an explicit zero millisecond field. */
  predicate Canonical(s: string)
    requires |s| == 20 || |s| == 24
  {
    s[0] != '+' && s[0..4] != "-000" && !(|s| == 24 && s[20..23] == "000")
  }

  /** What acceptance says about the pieces of the text. */
  lemma AcceptedPieces(s: string) returns (date: Date, h: int, mi: int, sec: int, ms: int)
    requires ParseTimestamp(s).Some?
    ensures |s| == 20 || |s| == 24
    ensures s[4] == '-' && s[7] == '-' && s[10] == 'T' && s[13] == ':' && s[16] == ':' && s[|s| - 1] == 'Z'
    ensures |s| == 24 ==> s[19] == '.' && AllDigits(s[20..23]) && ms == ParseDigits(s[20..23])
    ensures |s| == 20 ==> ms == 0
    ensures ValidDate(date) && 0 <= h < 24 && 0 <= mi < 60 && 0 <= sec < 60 && 0 <= ms < 1000
    ensures ParseSigned(s[0..4]) == Some(date.y)
    ensures Two(s[5..7]) == Some(date.m) && Two(s[8..10]) == Some(date.d)
    ensures Two(s[11..13]) == Some(h) && Two(s[14..16]) == Some(mi) && Two(s[17..19]) == Some(sec)
    ensures ParseTimestamp(s) ==
            Some(DaysFromCivil(date.y, date.m, date.d) * DAY + h * 3_600_000 + mi * 60_000 + sec * 1000 + ms)
  {
    hide DaysFromCivil, DaysInMonth;
    date := Date(ParseSigned(s[0..4]).value, Two(s[5..7]).value, Two(s[8..10]).value);
    h, mi, sec := Two(s[11..13]).value, Two(s[14..16]).value, Two(s[17..19]).value;
    ms := if |s| == 20 then 0 else ParseSigned(s[20..23]).value;
    if |s| == 24 {
      assert AllDigits(s[20..23]);
      assert s[20..23][0] == s[20];
    }
  }

  lemma TwoInverse(t: string)
    requires Two(t).Some?
    ensures Two(t).value >= 0 && PadDigits(Two(t).value, 2) == t
  {
    PadParseDigits(t);
  }

  /** The year field survives exactly when it has no plus sign and is not a negative zero. */
  lemma YearInverse(t: string)
    requires |t| == 4 && ParseSigned(t).Some?
    ensures PadInt(ParseSigned(t).value, 4) == t <==> t[0] != '+' && t != "-000"
  {
    hide PadInt, ParseSigned;
    if t[0] == '+' {
      PlusYear(t);
    } else if t[0] == '-' {
      MinusYear(t);
    } else {
      PlainYear(t);
    }
  }

  lemma PlainYear(t: string)
    requires |t| == 4 && ParseSigned(t).Some? && t[0] != '-' && t[0] != '+'
    ensures PadInt(ParseSigned(t).value, 4) == t
  {
    hide PadDigits, ParseDigits;
    PadParseDigits(t);
  }

  lemma PlusYear(t: string)
    requires |t| == 4 && ParseSigned(t).Some? && t[0] == '+'
    ensures PadInt(ParseSigned(t).value, 4) != t
  {
    hide PadDigits, ParseDigits;
    var s := PadDigits(ParseSigned(t).value, 4);
    assert IsDigit(s[0]);
  }

  lemma MinusYear(t: string)
    requires |t| == 4 && ParseSigned(t).Some? && t[0] == '-'
    ensures PadInt(ParseSigned(t).value, 4) == t <==> t != "-000"
  {
    hide PadDigits, ParseDigits;
    PadParseDigits(t[1..]);
    ZeroDigits(t[1..]);
    assert t == "-" + t[1..];
    assert "-000"[1..] == "000";
  }

  lemma ZeroDigits(t: string)
    requires |t| == 3 && AllDigits(t)
    ensures ParseDigits(t) == 0 <==> t == "000"
    ensures ParseDigits(t) == 0 ==> PadInt(0, 4)[0] != '-'
  {
    assert ParseDigits("000") == 0 by {
      assert "000"[..2] == "00" && "00"[..1] == "0" && "0"[..0] == "";
    }
    if ParseDigits(t) == 0 { ParseInjective(t, "000"); }
    assert AllDigits(PadDigits(0, 4));
  }

  /** `format_timestamp` undoes `parse_timestamp` on exactly the canonical accepted texts. */
  lemma FormatParse(s: string)
    requires ParseTimestamp(s).Some?
    ensures |s| == 20 || |s| == 24
    ensures FormatTimestamp(ParseTimestamp(s).value) == s <==> Canonical(s)
  {
    hide CivilFromDays, DaysFromCivil, DaysInMonth, IsLeap, PadInt, PadDigits, ParseSigned, Two, Layout, ParseTimestamp;
    var date, h, mi, sec, ms := AcceptedPieces(s);
    var total := ParseTimestamp(s).value;
    var rem := h * 3_600_000 + mi * 60_000 + sec * 1000 + ms;
    DivUnique(total, DAY, DaysFromCivil(date.y, date.m, date.d), rem);
    DaysFromCivilInverse(date);
    ClockParts(h, mi, sec, ms);
    TwoInverse(s[5..7]);
    TwoInverse(s[8..10]);
    TwoInverse(s[11..13]);
    TwoInverse(s[14..16]);
    TwoInverse(s[17..19]);
    MonthDayPadding(date);
    LayoutOfSlices(s);
    var frac := if |s| == 20 then "" else s[20..23];
    if |s| == 24 {
      PadParseDigits(frac);
      ZeroDigits(frac);
    }
    YearInverse(s[0..4]);
    YearField(date.y);
    var y := PadInt(date.y, 4);
    var frac' := if ms == 0 then "" else PadDigits(ms, 3);
    assert FormatTimestamp(total) == Layout(y, s[5..7], s[8..10], s[11..13], s[14..16], s[17..19], frac');
    YearRange(s[0..4]);
    if ms != 0 { ThreeField(ms); }
    LayoutSlices(y, s[5..7], s[8..10], s[11..13], s[14..16], s[17..19], frac');
    assert s[0..4][0] == s[0];
  }

  lemma YearRange(t: string)
    requires |t| == 4 && ParseSigned(t).Some?
    ensures -999 <= ParseSigned(t).value <= 9999
  {
    PowersOfTen();
    ParseBound(if t[0] == '-' || t[0] == '+' then t[1..] else t);
  }

  lemma MonthDayPadding(t: Date)
    requires ValidDate(t)
    ensures PadInt(t.m, 2) == PadDigits(t.m, 2) && PadInt(t.d, 2) == PadDigits(t.d, 2)
  {
  }

  lemma ClockParts(h: int, mi: int, s: int, ms: int)
    requires 0 <= h < 24 && 0 <= mi < 60 && 0 <= s < 60 && 0 <= ms < 1000
    ensures var rem := h * 3_600_000 + mi * 60_000 + s * 1000 + ms;
            && rem / 3_600_000 == h && (rem % 3_600_000) / 60_000 == mi
            && (rem % 60_000) / 1000 == s && rem % 1000 == ms && 0 <= rem < DAY
  {
    var rem := h * 3_600_000 + mi * 60_000 + s * 1000 + ms;
    DivUnique(rem, 3_600_000, h, mi * 60_000 + s * 1000 + ms);
    DivUnique(rem, 60_000, h * 60 + mi, s * 1000 + ms);
    DivUnique(rem, 1000, h * 3600 + mi * 60 + s, ms);
    DivUnique(rem % 3_600_000, 60_000, mi, s * 1000 + ms);
    DivUnique(rem % 60_000, 1000, s, ms);
  }
}
