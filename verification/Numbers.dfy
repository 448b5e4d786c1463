/** The five scalar number kinds and their comparisons (kap-core/src/number.rs). */
module Numbers {
  import opened Common
  import opened Rationals
  import opened Doubles

  datatype KapNumber =
    | Long(l: i64)
    | Dbl(d: Double)
    | BigInt(b: int)
    | Rational(r: BigRational)
    | Complex(re: Double, im: Double)

  /** The kinds that hold a number exactly. */
  predicate Exact(n: KapNumber) { n.Long? || n.BigInt? || n.Rational? }

  function ExactValue(n: KapNumber): real
    requires Exact(n)
  {
    match n
    case Long(l) => l as real
    case BigInt(b) => b as real
    case Rational(r) => Value(r)
  }

  predicate IsComplex(n: KapNumber) { n.Complex? && !IsZero(n.im) }

  /** Complex with a zero imaginary part, the `2J0.0` literals. */
  predicate ZeroImaginary(n: KapNumber) { n.Complex? && IsZero(n.im) }

  /** `Double` against an exact integer: the `Long` and `BigInt` comparators share one body. */
  function CmpDoubleInteger(a: Double, b: int, td: bool): Ordering {
    if !IsFinite(a) then (if IsInfinite(a) && !a.neg then Greater else Less)
    else if td && IsZero(a) && b == 0 then Less
    else
      var r := if IsWhole(a) && WithinI64Bounds(a) then CmpInt(AsI64(a), b)
               else CmpRational(ToRational(a), Fraction(b, 1));
      if td && r == Equal then Less else r
  }

  function CmpDoubleRational(a: Double, b: BigRational, td: bool): Ordering {
    if !IsFinite(a) then (if IsInfinite(a) && !a.neg then Greater else Less)
    else if td && IsZero(a) && b == Fraction(0, 1) then Less
    else
      var r := CmpRational(ToRational(a), b);
      if td && r == Equal then Less else r
  }

  /** The float `<`: false as soon as a NaN takes part, and the two zeros are equal. */
  predicate FloatLess(a: Double, b: Double) {
    !IsNaN(a) && !IsNaN(b) && !(IsZero(a) && IsZero(b)) && Rank(a) < Rank(b)
  }

  /** A complex number with a zero imaginary part is compared by its real part. */
  function Realify(n: KapNumber): KapNumber {
    if ZeroImaginary(n) then Dbl(n.re) else n
  }

  function NumericCmp(self: KapNumber, other: KapNumber, td: bool): Result<Ordering> {
    if IsComplex(self) || IsComplex(other) then Err
    else
      match (Realify(self), Realify(other))
      case (Long(x), Long(y)) => Ok(CmpInt(x, y))
      case (Long(x), BigInt(y)) => Ok(CmpInt(x, y))
      case (Long(x), Rational(y)) => Ok(CmpRational(Fraction(x, 1), y))
      case (Long(x), Dbl(y)) => Ok(CmpDoubleInteger(y, x, td).Reverse())
      case (BigInt(x), Long(y)) => Ok(CmpInt(x, y))
      case (BigInt(x), BigInt(y)) => Ok(CmpInt(x, y))
      case (BigInt(x), Rational(y)) => Ok(CmpRational(Fraction(x, 1), y))
      case (BigInt(x), Dbl(y)) => Ok(CmpDoubleInteger(y, x, td).Reverse())
      case (Rational(x), Long(y)) => Ok(CmpRational(x, Fraction(y, 1)))
      case (Rational(x), BigInt(y)) => Ok(CmpRational(x, Fraction(y, 1)))
      case (Rational(x), Rational(y)) => Ok(CmpRational(x, y))
      case (Rational(x), Dbl(y)) => Ok(CmpDoubleRational(y, x, td).Reverse())
      case (Dbl(x), Long(y)) => Ok(CmpDoubleInteger(x, y, td))
      case (Dbl(x), BigInt(y)) => Ok(CmpDoubleInteger(x, y, td))
      case (Dbl(x), Rational(y)) => Ok(CmpDoubleRational(x, y, td))
      case (Dbl(x), Dbl(y)) =>
        if td then Ok(TotalCmp(x, y))
        else Ok(if FloatLess(x, y) then Less else if FloatLess(y, x) then Greater else Equal)
      case _ => Err
  }

  function TypePosition(n: KapNumber): nat {
    match n
    case Long(_) => 0
    case BigInt(_) => 1
    case Rational(_) => 2
    case Dbl(_) => 3
    case Complex(_, _) => 4
  }

  predicate NumericCompareValid(n: KapNumber) {
    match n
    case Complex(_, im) => IsZero(im)
    case Dbl(d) => !IsNaN(d)
    case _ => true
  }

  /** `cmp_doubles_nan`: all NaNs are equal and above every other double. */
  function CmpDoublesNaN(a: Double, b: Double): Ordering {
    if IsNaN(a) then (if IsNaN(b) then Equal else Greater)
    else if IsNaN(b) then Less
    else TotalCmp(a, b)
  }

  function NumberOrdering(a: KapNumber, b: KapNumber): Ordering {
    var direct := if NumericCompareValid(a) && NumericCompareValid(b) then NumericCmp(a, b, true) else Err;
    if direct.Ok? then direct.value
    else if a.Complex? && b.Complex? then
      CmpDoublesNaN(a.im, b.im).Then(CmpDoublesNaN(a.re, b.re))
    else if a.Dbl? && b.Dbl? then CmpDoublesNaN(a.d, b.d)
    else CmpInt(TypePosition(a), TypePosition(b))
  }
}
