/** Civil dates and day numbers (kap-core/src/time.rs), over every integer day. */
module Calendar {
  import opened Common
  import opened Arithmetic

  datatype Date = Date(y: int, m: int, d: int)

  /** Days since 1970-01-01, with Rust's truncating division. */
  function DaysFromCivil(y0: int, m: int, d: int): int {
    var y := if m <= 2 then y0 - 1 else y0;
    var era := TruncDiv(if y >= 0 then y else y - 399, 400);
    var yoe := y - era * 400;
    var mp := TruncRem(m + 9, 12);
    var doy := TruncDiv(153 * mp + 2, 5) + d - 1;
    var doe := yoe * 365 + TruncDiv(yoe, 4) - TruncDiv(yoe, 100) + doy;
    era * 146097 + doe - 719468
  }

  function CivilFromDays(z0: int): Date {
    var z := z0 + 719468;
    var era := TruncDiv(if z >= 0 then z else z - 146096, 146097);
    var doe := z - era * 146097;
    var yoe := TruncDiv(doe - TruncDiv(doe, 1460) + TruncDiv(doe, 36524) - TruncDiv(doe, 146096), 365);
    var y := yoe + era * 400;
    var doy := doe - (365 * yoe + TruncDiv(yoe, 4) - TruncDiv(yoe, 100));
    var mp := TruncDiv(5 * doy + 2, 153);
    var d := doy - TruncDiv(153 * mp + 2, 5) + 1;
    var m := if mp < 10 then mp + 3 else mp - 9;
    Date(if m <= 2 then y + 1 else y, m, d)
  }

  /** The Gregorian rule, as `parse_timestamp` spells it. */
  predicate IsLeap(y: int) {
    (TruncRem(y, 4) == 0 && TruncRem(y, 100) != 0) || TruncRem(y, 400) == 0
  }

  function DaysInMonth(y: int, m: int): int {
    match m
    case 2 => if IsLeap(y) then 29 else 28
    case 4 => 30
    case 6 => 30
    case 9 => 30
    case 11 => 30
    case _ => 31
  }

  predicate ValidDate(t: Date) {
    1 <= t.m <= 12 && 1 <= t.d <= DaysInMonth(t.y, t.m)
  }

  function DaysInYear(y: int): int { if IsLeap(y) then 366 else 365 }

  /** The naive count: add or take away whole years from 1970, then whole months. */
  function YearStart(y: int): int
    decreases Abs(y - 1970)
  {
    if y == 1970 then 0
    else if y > 1970 then YearStart(y - 1) + DaysInYear(y - 1)
    else YearStart(y + 1) - DaysInYear(y)
  }

  function MonthStart(y: int, m: nat): int {
    if m <= 1 then 0 else MonthStart(y, m - 1) + DaysInMonth(y, m - 1)
  }

  function NaiveDays(t: Date): int
    requires t.m >= 0
  {
    YearStart(t.y) + MonthStart(t.y, t.m) + t.d - 1
  }

  /** Days before the March-based year y of the proleptic calendar, with floored division. */
  function MarchYear(y: int): int { 365 * y + y / 4 - y / 100 + y / 400 }

  /** A year split into 400-year eras: quotients and remainders by 4, 100 and 400. */
  lemma CycleOf400(era: int, y: int)
    ensures (400 * era + y) / 4 == 100 * era + y / 4 && (400 * era + y) % 4 == y % 4
    ensures (400 * era + y) / 100 == 4 * era + y / 100 && (400 * era + y) % 100 == y % 100
    ensures (400 * era + y) / 400 == era + y / 400 && (400 * era + y) % 400 == y % 400
  {
    DivUnique(400 * era + y, 4, 100 * era + y / 4, y % 4);
    DivUnique(400 * era + y, 100, 4 * era + y / 100, y % 100);
    DivUnique(400 * era + y, 400, era + y / 400, y % 400);
  }

  /** The bias before the truncating division makes it round down. */
  lemma BiasedDivision(z: int, k: int)
    requires k > 0
    ensures TruncDiv(if z >= 0 then z else z - (k - 1), k) == z / k
  {
    if z < 0 {
      var p := -z + (k - 1);
      DivModDefinition(p, k);
      DivUnique(z, k, -(p / k), k - 1 - p % k);
    }
  }

  /** A number and its negation have the same divisors. */
  lemma NegatedMultiple(y: int, k: int)
    requires k > 0 && y % k == 0
    ensures (-y) % k == 0
  {
    DivModDefinition(y, k);
    var q := y / k;
    assert -y == k * (-q) + 0;
    DivUnique(-y, k, -q, 0);
  }

  lemma TruncRemNegates(y: int, k: int)
    requires k > 0 && y < 0
    ensures TruncRem(y, k) == 0 - (-y) % k
  {
    DivModDefinition(-y, k);
    var q := (-y) / k;
    assert k * (-q) == -(k * q);
  }

  lemma TruncRemZero(y: int, k: int)
    requires k > 0
    ensures TruncRem(y, k) == 0 <==> y % k == 0
  {
    if y >= 0 {
      DivModDefinition(y, k);
    } else {
      hide TruncRem;
      TruncRemNegates(y, k);
      if (-y) % k == 0 { NegatedMultiple(-y, k); }
      if y % k == 0 { NegatedMultiple(y, k); }
    }
  }

  /** The truncating form with its bias for negative years is the floored count. */
  lemma DaysFromCivilFloored(y0: int, m: int, d: int)
    requires 1 <= m <= 12
    ensures DaysFromCivil(y0, m, d) ==
            MarchYear(if m <= 2 then y0 - 1 else y0)
            + (153 * ((m + 9) % 12) + 2) / 5 + d - 1 - 719468
  {
    var y := if m <= 2 then y0 - 1 else y0;
    BiasedDivision(y, 400);
    DivModDefinition(y, 400);
    CycleOf400(y / 400, y % 400);
  }

  lemma LeapFloored(y: int)
    ensures IsLeap(y) <==> (y % 4 == 0 && y % 100 != 0) || y % 400 == 0
  {
    hide TruncRem;
    TruncRemZero(y, 4);
    TruncRemZero(y, 100);
    TruncRemZero(y, 400);
  }

  lemma QuotientStep(y: int, k: int)
    requires k > 1
    ensures y / k == (y - 1) / k + (if y % k == 0 then 1 else 0)
  {
    DivModDefinition(y, k);
    if y % k == 0 {
      Distribute(k, y / k, -1);
      DivUnique(y - 1, k, y / k - 1, k - 1);
    } else {
      DivUnique(y - 1, k, y / k, y % k - 1);
    }
  }

  lemma MultiplesNest(y: int)
    ensures y % 400 == 0 ==> y % 100 == 0
    ensures y % 100 == 0 ==> y % 4 == 0
  {
    if y % 400 == 0 { DivUnique(y, 100, 4 * (y / 400), 0); }
    if y % 100 == 0 { DivUnique(y, 4, 25 * (y / 100), 0); }
  }

  lemma MarchYearStep(y: int)
    ensures MarchYear(y) == MarchYear(y - 1) + DaysInYear(y)
  {
    hide IsLeap;
    LeapFloored(y);
    QuotientStep(y, 4);
    QuotientStep(y, 100);
    QuotientStep(y, 400);
    MultiplesNest(y);
  }

  lemma {:induction false} YearStartClosed(y: int)
    ensures YearStart(y) == MarchYear(y - 1) + 306 - 719468
    decreases Abs(y - 1970)
  {
    hide MarchYear, IsLeap;
    if y == 1970 {
      MarchEpoch();
    } else if y > 1970 {
      YearStartClosed(y - 1);
      MarchYearStep(y - 1);
    } else {
      YearStartClosed(y + 1);
      MarchYearStep(y);
    }
  }

  lemma MarchEpoch()
    ensures MarchYear(1969) == 719162
  {
  }

  lemma MonthStartClosed(y: int, m: nat)
    requires 1 <= m <= 12
    ensures MonthStart(y, m) ==
            if m <= 2 then 31 * (m - 1)
            else (153 * (m - 3) + 2) / 5 + 59 + (if IsLeap(y) then 1 else 0)
  {
    if m > 1 {
      MonthStartClosed(y, m - 1);
    }
  }

  /** The closed form counts exactly the days of the naive calendar. */
  lemma DaysFromCivilIsNaive(t: Date)
    requires 1 <= t.m <= 12
    ensures DaysFromCivil(t.y, t.m, t.d) == NaiveDays(t)
  {
    hide MarchYear, DaysFromCivil, YearStart, MonthStart, IsLeap;
    DaysFromCivilFloored(t.y, t.m, t.d);
    YearStartClosed(t.y);
    MonthStartClosed(t.y, t.m);
    MarchYearStep(t.y);
  }

  /** A day of the 400-year era by century, four-year group, year and day of the March year. */
  predicate EraDigits(doe: int, c: int, q: int, k: int, t: int) {
    && 0 <= c <= 3 && 0 <= q <= 24 && 0 <= k <= 3 && 0 <= t <= 365
    && (t == 365 ==> k == 3 && (q < 24 || c == 3))
    && doe == 36524 * c + 1461 * q + 365 * k + t
  }

  lemma EraDigitsExist(doe: int) returns (c: int, q: int, k: int, t: int)
    requires 0 <= doe < 146097
    ensures EraDigits(doe, c, q, k, t)
  {
    c := if doe / 36524 < 4 then doe / 36524 else 3;
    var r := doe - 36524 * c;
    q := r / 1461;
    var s := r - 1461 * q;
    k := if s / 365 < 4 then s / 365 else 3;
    t := s - 365 * k;
  }

  /** The year-of-era formula undoes the digits. */
  lemma YearOfEra(doe: int, c: int, q: int, k: int, t: int)
    requires EraDigits(doe, c, q, k, t)
    ensures (doe - doe / 1460 + doe / 36524 - doe / 146096) / 365 == 100 * c + 4 * q + k
  {
    assert doe / 36524 - doe / 146096 == c;
    var w := (24 * c + q + 365 * k + t) / 1460;
    assert doe / 1460 == 25 * c + q + w;
    assert 0 <= t - w < 365;
  }

  lemma EraYearDays(c: int, q: int, k: int)
    requires 0 <= c <= 3 && 0 <= q <= 24 && 0 <= k <= 3
    ensures var yoe := 100 * c + 4 * q + k;
            365 * yoe + yoe / 4 - yoe / 100 == 36524 * c + 1461 * q + 365 * k
  {
  }

  /** Month and day of a March-based day of the year; 365 is the 29th of February. */
  function MonthOf(doy: int): int { (5 * doy + 2) / 153 }

  function MonthOffset(mp: int): int { (153 * mp + 2) / 5 }

  lemma MonthOfDay(doy: int)
    requires 0 <= doy <= 365
    ensures 0 <= MonthOf(doy) <= 11
    ensures MonthOffset(MonthOf(doy)) <= doy < MonthOffset(MonthOf(doy) + 1)
  {
  }

  lemma DayOfMonth(mp: int, doy: int)
    requires 0 <= mp <= 11 && MonthOffset(mp) <= doy < MonthOffset(mp + 1)
    ensures MonthOf(doy) == mp
  {
  }

  /** What `civil_from_days` returns, in era digits. */
  lemma CivilFromDaysDigits(z: int) returns (era: int, c: int, q: int, k: int, t: int)
    ensures EraDigits(z + 719468 - era * 146097, c, q, k, t)
    ensures CivilFromDays(z) ==
            (var y := 400 * era + 100 * c + 4 * q + k;
             var mp := MonthOf(t);
             var m := if mp < 10 then mp + 3 else mp - 9;
             Date(if m <= 2 then y + 1 else y, m, t - MonthOffset(mp) + 1))
  {
    var z' := z + 719468;
    era := z' / 146097;
    DivModDefinition(z', 146097);
    var doe := z' - era * 146097;
    hide CivilFromDays;
    c, q, k, t := EraDigitsExist(doe);
    YearOfEra(doe, c, q, k, t);
    EraYearDays(c, q, k);
    MonthOfDay(t);
    CivilFloored(z, era, doe, 100 * c + 4 * q + k, t);
  }

  /** The body of `civil_from_days` once every dividend is known not to be negative. */
  lemma CivilFloored(z: int, era: int, doe: int, yoe: int, doy: int)
    requires era == (z + 719468) / 146097
    requires doe == z + 719468 - era * 146097 && 0 <= doe
    requires yoe == (doe - doe / 1460 + doe / 36524 - doe / 146096) / 365 && 0 <= yoe
    requires doy == doe - (365 * yoe + yoe / 4 - yoe / 100) && 0 <= doy
    ensures CivilFromDays(z) ==
            (var y := 400 * era + yoe;
             var mp := MonthOf(doy);
             var m := if mp < 10 then mp + 3 else mp - 9;
             Date(if m <= 2 then y + 1 else y, m, doy - MonthOffset(mp) + 1))
  {
    hide TruncDiv;
    BiasedDivision(z + 719468, 146097);
    YearNumerator(doe);
    NonNegativeDivision(yoe, 4);
    NonNegativeDivision(yoe, 100);
    NonNegativeDivision(5 * doy + 2, 153);
    NonNegativeDivision(153 * ((5 * doy + 2) / 153) + 2, 5);
    NonNegativeDivision(doe - doe / 1460 + doe / 36524 - doe / 146096, 365);
  }

  lemma NonNegativeDivision(a: int, b: int)
    requires 0 <= a && 0 < b
    ensures TruncDiv(a, b) == a / b
  {
  }

  lemma YearNumerator(doe: int)
    requires 0 <= doe
    ensures doe - TruncDiv(doe, 1460) + TruncDiv(doe, 36524) - TruncDiv(doe, 146096)
            == doe - doe / 1460 + doe / 36524 - doe / 146096 >= 0
  {
  }

  lemma RemainderOfDigits(c: int, q: int, k: int)
    requires 0 <= c <= 3 && 0 <= q <= 24 && 0 <= k <= 3
    ensures var y := 100 * c + 4 * q + k + 1;
            && (y % 4 == 0 <==> k == 3)
            && (y % 100 == 0 <==> k == 3 && q == 24)
            && (y % 400 == 0 <==> k == 3 && q == 24 && c == 3)
  {
  }

  lemma LeapOfDigits(era: int, c: int, q: int, k: int)
    requires 0 <= c <= 3 && 0 <= q <= 24 && 0 <= k <= 3
    ensures IsLeap(400 * era + 100 * c + 4 * q + k + 1) <==> k == 3 && (q < 24 || c == 3)
  {
    hide IsLeap;
    var y := 100 * c + 4 * q + k + 1;
    LeapFloored(400 * era + y);
    CycleOf400(era, y);
    RemainderOfDigits(c, q, k);
  }

  /** Every integer is the day of exactly the valid date computed for it. */
  lemma CivilFromDaysValid(z: int)
    ensures ValidDate(CivilFromDays(z))
    ensures var t := CivilFromDays(z); DaysFromCivil(t.y, t.m, t.d) == z
  {
    hide CivilFromDays, DaysFromCivil, IsLeap;
    var era, c, q, k, t := CivilFromDaysDigits(z);
    var date := CivilFromDays(z);
    MonthOfDay(t);
    LeapOfDigits(era, c, q, k);
    ValidFromOffset(date, MonthOf(t), t);
    DaysFromCivilFloored(date.y, date.m, date.d);
    MarchYearDigits(era, c, q, k);
  }

  lemma ValidFromOffset(date: Date, mp: int, doy: int)
    requires 0 <= mp <= 11 && 0 <= doy <= 365
    requires MonthOffset(mp) <= doy < MonthOffset(mp + 1)
    requires date.m == if mp < 10 then mp + 3 else mp - 9
    requires date.d == doy - MonthOffset(mp) + 1
    requires doy == 365 ==> IsLeap(date.y)
    ensures ValidDate(date)
    ensures (date.m + 9) % 12 == mp
  {
    hide IsLeap;
  }

  lemma MarchYearDigits(era: int, c: int, q: int, k: int)
    requires 0 <= c <= 3 && 0 <= q <= 24 && 0 <= k <= 3
    ensures MarchYear(400 * era + 100 * c + 4 * q + k) == 146097 * era + 36524 * c + 1461 * q + 365 * k
  {
    CycleOf400(era, 100 * c + 4 * q + k);
    EraYearDays(c, q, k);
  }

  /** ...and no two valid dates share a day, so the other composition is the identity too. */
  lemma DaysFromCivilInverse(t: Date)
    requires ValidDate(t)
    ensures CivilFromDays(DaysFromCivil(t.y, t.m, t.d)) == t
  {
    hide CivilFromDays, DaysFromCivil;
    var z := DaysFromCivil(t.y, t.m, t.d);
    CivilFromDaysValid(z);
    DaysInjective(t, CivilFromDays(z));
  }

  /** A March-based year and day of year. */
  lemma MarchForm(t: Date) returns (y: int, doy: int)
    requires ValidDate(t)
    ensures y == if t.m <= 2 then t.y - 1 else t.y
    ensures doy == MonthOffset((t.m + 9) % 12) + t.d - 1
    ensures 0 <= doy < DaysInYear(y + 1)
    ensures MonthOf(doy) == (t.m + 9) % 12
    ensures DaysFromCivil(t.y, t.m, t.d) == MarchYear(y) + doy - 719468
  {
    hide IsLeap, DaysFromCivil, MarchYear;
    y := if t.m <= 2 then t.y - 1 else t.y;
    var mp := (t.m + 9) % 12;
    doy := MonthOffset(mp) + t.d - 1;
    DaysFromCivilFloored(t.y, t.m, t.d);
    OffsetFromValid(t, mp, doy);
    DayOfMonth(mp, doy);
  }

  lemma OffsetFromValid(t: Date, mp: int, doy: int)
    requires ValidDate(t) && mp == (t.m + 9) % 12 && doy == MonthOffset(mp) + t.d - 1
    ensures 0 <= mp <= 11 && MonthOffset(mp) <= doy < MonthOffset(mp + 1)
    ensures doy < DaysInYear(if t.m <= 2 then t.y else t.y + 1)
  {
    hide IsLeap;
  }

  lemma {:induction false} MarchYearMonotone(x: int, y: int)
    requires x < y
    ensures MarchYear(x) + DaysInYear(x + 1) <= MarchYear(y)
    decreases y - x
  {
    hide MarchYear, IsLeap;
    MarchYearStep(x + 1);
    if x + 1 < y {
      MarchYearMonotone(x + 1, y);
    }
  }

  lemma DaysInjective(a: Date, b: Date)
    requires ValidDate(a) && ValidDate(b)
    requires DaysFromCivil(a.y, a.m, a.d) == DaysFromCivil(b.y, b.m, b.d)
    ensures a == b
  {
    hide IsLeap, DaysFromCivil, MarchYear, MonthOf, MonthOffset;
    var ya, da := MarchForm(a);
    var yb, db := MarchForm(b);
    if ya < yb {
      MarchYearMonotone(ya, yb);
    } else if yb < ya {
      MarchYearMonotone(yb, ya);
    }
  }
}
