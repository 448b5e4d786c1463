/** IEEE-754 binary64 values by their bit fields, with the operations the number
    comparisons use: `f64::total_cmp`, the exact value, and Rust's saturating `as i64`. */
module Doubles {
  import opened Common
  import opened Arithmetic
  import opened Rationals

  const FRACTION: int := 0x10_0000_0000_0000  // 2^52
  const EXPONENTS: int := 0x800

  datatype Bits = Bits(neg: bool, exp: nat, mant: nat)

  type Double = d: Bits | d.exp < EXPONENTS && d.mant < FRACTION
    witness Bits(false, 0, 0)

  predicate IsNaN(d: Double) { d.exp == 0x7ff && d.mant != 0 }

  predicate IsInfinite(d: Double) { d.exp == 0x7ff && d.mant == 0 }

  predicate IsFinite(d: Double) { d.exp != 0x7ff }

  /** `d == 0.0`, true of both zeros. */
  predicate IsZero(d: Double) { d.exp == 0 && d.mant == 0 }

  /** The bit pattern below the sign bit, an integer that grows with the magnitude. */
  function Magnitude(d: Double): nat { d.exp * FRACTION + d.mant }

  /** `m << k` and `m >> k` on unbounded integers. */
  function Shl(m: nat, k: nat): nat { if k == 0 then m else 2 * Shl(m, k - 1) }

  function Shr(m: nat, k: nat): nat { if k == 0 then m else Shr(m, k - 1) / 2 }

  /** |d| in units of 2^-1074, the spacing of the subnormals. */
  function Scaled(d: Double): nat {
    if d.exp == 0 then d.mant else Shl(FRACTION + d.mant, d.exp - 1)
  }

  function Signed(d: Double): int { if d.neg then 0 - Scaled(d) else Scaled(d) }

  function Unit(): nat
    ensures Unit() > 0
  {
    ShlIsProduct(1, 1074);
    Shl(1, 1074)
  }

  /** The exact value of a finite double. */
  function ValueOf(d: Double): real { Signed(d) as real / Unit() as real }

  lemma {:induction false} ShlIsProduct(m: nat, k: nat)
    ensures Shl(m, k) == m * Pow(2, k)
  {
    if k == 0 {
    } else {
      ShlIsProduct(m, k - 1);
      assert m * Pow(2, k) == 2 * (m * Pow(2, k - 1));
    }
  }

  lemma {:induction false} ShlMono(m: nat, n: nat, k: nat)
    ensures Shl(m, k) < Shl(n, k) <==> m < n
    ensures Shl(m, k) == Shl(n, k) <==> m == n
  {
    if k == 0 {
    } else {
      ShlMono(m, n, k - 1);
    }
  }

  lemma {:induction false} ShlAdd(m: nat, j: nat, k: nat)
    ensures Shl(Shl(m, j), k) == Shl(m, j + k)
  {
    if k == 0 {
    } else {
      ShlAdd(m, j, k - 1);
    }
  }

  /** The floor of a division by a power of two. */
  lemma {:induction false} ShrFloor(m: nat, k: nat)
    ensures Shl(Shr(m, k), k) <= m < Shl(Shr(m, k) + 1, k)
  {
    if k == 0 {
    } else {
      ShrFloor(m, k - 1);
      var h := Shr(m, k - 1);
      ShlHalf(Shr(m, k), k);
      ShlHalf(Shr(m, k) + 1, k);
      ShlMono(h, 2 * Shr(m, k), k - 1);
      ShlMono(h + 1, 2 * Shr(m, k) + 2, k - 1);
    }
  }

  lemma {:induction false} ShlHalf(m: nat, k: nat)
    requires k > 0
    ensures Shl(m, k) == Shl(2 * m, k - 1)
  {
    if k == 1 {
      assert Shl(m, 0) == m;
    } else {
      ShlHalf(m, k - 1);
    }
  }

  /** `double_to_rational`: non-finite values give 0/1, as in the source. */
  function ToRational(d: Double): BigRational {
    var sign := if d.neg then -1 else 1;
    if !IsFinite(d) then Make(0, 1)
    else if d.exp == 0 then Make(sign * d.mant, Unit())
    else
      var exp := d.exp - 1075;
      var top := FRACTION + d.mant;
      if exp >= 0 then Make(sign * Shl(top, exp), 1)
      else
        ShlMono(0, 1, -exp);
        Make(sign * top, Shl(1, -exp))
  }

  /** sign * m with k shifts pending, over 1: the shift may be done on either side. */
  lemma ShiftedQuotient(sign: int, m: nat, k: nat, u: nat)
    requires sign == 1 || sign == -1
    ensures Shl(1, u) > 0
    ensures (sign * Shl(m, k)) as real / 1.0 == (sign * Shl(m, k + u)) as real / Shl(1, u) as real
  {
    ShlAdd(m, k, u);
    ShlIsProduct(Shl(m, k), u);
    ShlIsProduct(1, u);
    SignedProduct(sign, Shl(m, k), Shl(1, u));
    CrossEqual(sign * Shl(m, k), 1, sign * Shl(m, k + u), Shl(1, u));
  }

  lemma SignedProduct(sign: int, x: int, y: int)
    requires sign == 1 || sign == -1
    ensures sign * x * y == sign * (x * y)
  {
  }

  lemma ScaledQuotient(sign: int, m: nat, k: nat, u: nat)
    requires sign == 1 || sign == -1
    requires k <= u
    ensures Shl(1, u) > 0 && Shl(1, u - k) > 0
    ensures (sign * m) as real / Shl(1, u - k) as real == (sign * Shl(m, k)) as real / Shl(1, u) as real
  {
    ShlIsProduct(m, k);
    ShlIsProduct(1, u);
    ShlIsProduct(1, u - k);
    PowAdd(2, k, u - k);
    QuotientCross(sign, m, Pow(2, k), Pow(2, u - k));
    CrossEqual(sign * m, Shl(1, u - k), sign * Shl(m, k), Shl(1, u));
  }

  lemma QuotientCross(sign: int, m: int, x: int, y: int)
    ensures sign * m * (x * y) == sign * (m * x) * y
  {
  }

  /** `double_to_rational` loses nothing. */
  lemma ToRationalExact(d: Double)
    requires IsFinite(d)
    ensures Value(ToRational(d)) == ValueOf(d)
  {
    hide Make, Shl, Reduced;
    var sign := if d.neg then -1 else 1;
    var top := FRACTION + d.mant;
    if d.exp == 0 {
      MakeExact(sign * d.mant, Unit());
    } else if d.exp >= 1075 {
      MakeExact(sign * Shl(top, d.exp - 1075), 1);
      ShiftedQuotient(sign, top, d.exp - 1075, 1074);
    } else {
      ShlMono(0, 1, 1075 - d.exp);
      ScaledQuotient(sign, top, d.exp - 1, 1074);
      MakeExact(sign * top, Shl(1, 1075 - d.exp));
    }
  }

  lemma ToRationalOfSpecial(d: Double)
    requires !IsFinite(d)
    ensures ToRational(d) == Fraction(0, 1)
  {
    assert Gcd(0, 1) == 1;
  }

  /** `f64::total_cmp`: compare the patterns as sign-magnitude integers, -0.0 below 0.0
      (totalOrder, section 5.10 of IEEE 754-2008). */
  function TotalCmp(a: Double, b: Double): Ordering { CmpInt(Rank(a), Rank(b)) }

  function Rank(d: Double): int { if d.neg then -1 - Magnitude(d) else Magnitude(d) }

  /** Equal ranks are equal bit patterns. */
  lemma RankInjective(a: Double, b: Double)
    requires Rank(a) == Rank(b)
    ensures a == b
  {
    assert a.neg == b.neg;
    DivUnique(Magnitude(a), FRACTION, a.exp, a.mant);
    DivUnique(Magnitude(b), FRACTION, b.exp, b.mant);
  }

  /** Larger bit patterns denote strictly larger magnitudes, across binades and subnormals. */
  lemma ScaledMonotone(a: Double, b: Double)
    requires Magnitude(a) < Magnitude(b)
    ensures Scaled(a) < Scaled(b)
  {
    if a.exp == b.exp {
      if a.exp != 0 {
        ShlMono(FRACTION + a.mant, FRACTION + b.mant, a.exp - 1);
      }
    } else {
      assert a.exp < b.exp;
      ShlAdd(FRACTION, a.exp, b.exp - 1 - a.exp);
      ShlMono(FRACTION, FRACTION + b.mant, b.exp - 1);
      ShlGrows(Shl(FRACTION, a.exp), b.exp - 1 - a.exp);
      if a.exp != 0 {
        ShlHalf(FRACTION, a.exp);
        ShlMono(FRACTION + a.mant, 2 * FRACTION, a.exp - 1);
      }
    }
  }

  lemma {:induction false} ShlGrows(m: nat, k: nat)
    ensures m <= Shl(m, k)
  {
    if k == 0 {
    } else {
      ShlGrows(m, k - 1);
    }
  }

  lemma ScaledOrder(a: Double, b: Double)
    ensures CmpInt(Scaled(a), Scaled(b)) == CmpInt(Magnitude(a), Magnitude(b))
  {
    if Magnitude(a) < Magnitude(b) {
      ScaledMonotone(a, b);
    } else if Magnitude(b) < Magnitude(a) {
      ScaledMonotone(b, a);
    } else {
      DivUnique(Magnitude(a), FRACTION, a.exp, a.mant);
      DivUnique(Magnitude(b), FRACTION, b.exp, b.mant);
    }
  }

  lemma ScaledZero(d: Double)
    ensures Scaled(d) == 0 <==> IsZero(d)
  {
    if d.exp != 0 {
      ShlGrows(FRACTION + d.mant, d.exp - 1);
    }
  }

  lemma ValueOrder(a: Double, b: Double)
    ensures CmpReal(ValueOf(a), ValueOf(b)) == CmpInt(Signed(a), Signed(b))
  {
    SameDenominator(Signed(a), Signed(b), Unit());
  }

  lemma SameDenominator(x: int, y: int, u: int)
    requires u > 0
    ensures CmpReal(x as real / u as real, y as real / u as real) == CmpInt(x, y)
  {
    CrossLess(x, u, y, u);
    CrossLess(y, u, x, u);
    SameScale(x, y, u);
  }

  lemma SameScale(x: int, y: int, u: int)
    requires u > 0
    ensures x * u < y * u <==> x < y
    ensures y * u < x * u <==> y < x
  {
  }

  lemma ZeroValue(d: Double)
    ensures ValueOf(d) == 0.0 <==> IsZero(d)
  {
    ScaledZero(d);
    ValueOrder(d, Bits(false, 0, 0));
  }

  /** Apart from the two zeros, totalOrder on finite doubles is the order of their values. */
  lemma TotalCmpIsValueOrder(a: Double, b: Double)
    requires IsFinite(a) && IsFinite(b)
    ensures TotalCmp(a, b) ==
            if IsZero(a) && IsZero(b) then CmpInt(if a.neg then 0 else 1, if b.neg then 0 else 1)
            else CmpReal(ValueOf(a), ValueOf(b))
  {
    ScaledOrder(a, b);
    ValueOrder(a, b);
    ScaledZero(a);
    ScaledZero(b);
  }

  /** The integer part of |d|, and whether there is nothing else (`d.fract() == 0.0`). */
  function WholePart(d: Double): nat { Shr(Scaled(d), 1074) }

  predicate IsWhole(d: Double) { Shl(WholePart(d), 1074) == Scaled(d) }

  /** `i64::MIN as f64 <= d <= i64::MAX as f64`; the upper bound rounds up to 2^63. */
  predicate WithinI64Bounds(d: Double) { Scaled(d) <= Shl(TWO_63, 1074) }

  /** Rust's `d as i64`: truncate toward zero, saturate at both ends, NaN to 0. */
  function AsI64(d: Double): i64 {
    if IsNaN(d) then 0
    else if d.neg then (if WholePart(d) > TWO_63 then -TWO_63 else 0 - WholePart(d))
    else (if WholePart(d) >= TWO_63 then TWO_63 - 1 else WholePart(d))
  }

  lemma WholeValue(d: Double)
    requires IsFinite(d) && IsWhole(d)
    ensures ValueOf(d) == (if d.neg then 0 - WholePart(d) else WholePart(d)) as real
    ensures WithinI64Bounds(d) <==> WholePart(d) <= TWO_63
  {
    hide Shr;
    var w := WholePart(d);
    ShlMono(TWO_63, w, 1074);
    ShiftedQuotient(if d.neg then -1 else 1, w, 0, 1074);
  }

  /** 2^63 as a double: biased exponent 1086, no fraction bits. */
  const TwoTo63 := Bits(false, 1086, 0)

  lemma ScaledTwoTo63()
    ensures Scaled(TwoTo63) == Shl(TWO_63, 1074)
  {
    ShlAdd(FRACTION, 11, 1074);
    assert Shl(FRACTION, 4) == 16 * FRACTION;
    assert Shl(16 * FRACTION, 4) == 256 * FRACTION;
    assert Shl(256 * FRACTION, 3) == TWO_63;
    ShlAdd(FRACTION, 4, 4);
    ShlAdd(FRACTION, 8, 3);
  }

  lemma ValueTwoTo63()
    ensures WholePart(TwoTo63) == TWO_63 && IsWhole(TwoTo63) && WithinI64Bounds(TwoTo63)
    ensures ValueOf(TwoTo63) == TWO_63 as real
  {
    hide Shl, Shr, ValueOf, Scaled;
    ScaledTwoTo63();
    var w := WholePart(TwoTo63);
    ShrFloor(Scaled(TwoTo63), 1074);
    ShlMono(TWO_63, w, 1074);
    ShlMono(TWO_63, w + 1, 1074);
    WholeValue(TwoTo63);
  }

  /** The value 2^63 has one representation. */
  lemma TwoTo63Unique(d: Double)
    requires IsFinite(d)
    ensures ValueOf(d) == TWO_63 as real <==> d == TwoTo63
  {
    ValueTwoTo63();
    if ValueOf(d) == TWO_63 as real {
      TotalCmpIsValueOrder(d, TwoTo63);
      RankInjective(d, TwoTo63);
    }
  }

  /** The largest double below 2^63, which is 2^63 - 1024. */
  const BelowTwoTo63 := Bits(false, 1085, FRACTION - 1)

  lemma ScaledBelowTwoTo63()
    ensures Scaled(BelowTwoTo63) == Shl(TWO_63 - 1024, 1074)
  {
    var m := FRACTION + (FRACTION - 1);
    ShlAdd(m, 10, 1074);
    ShlIsProduct(m, 10);
    assert Pow(2, 5) == 32;
    PowAdd(2, 5, 5);
  }

  lemma ValueBelowTwoTo63()
    ensures ValueOf(BelowTwoTo63) == (TWO_63 - 1024) as real
  {
    ScaledBelowTwoTo63();
    hide Shl, Scaled;
    ShiftedQuotient(1, TWO_63 - 1024, 0, 1074);
    assert Shl(TWO_63 - 1024, 0) == TWO_63 - 1024 by { ShlIsProduct(TWO_63 - 1024, 0); }
  }

  /** No double lies in the gap below 2^63. */
  lemma NoDoubleBelow(d: Double)
    requires IsFinite(d) && ValueOf(d) < TWO_63 as real
    ensures ValueOf(d) <= (TWO_63 - 1024) as real
  {
    hide ValueOf;
    ValueTwoTo63();
    ValueBelowTwoTo63();
    if ValueOf(d) > (TWO_63 - 1024) as real {
      TotalCmpIsValueOrder(d, TwoTo63);
      TotalCmpIsValueOrder(BelowTwoTo63, d);
    }
  }
}
