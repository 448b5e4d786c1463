/** Exact arithmetic on the number kinds (kap-core/src/number.rs). An operation gives None
    where the source leaves exact arithmetic for 64-bit floats. */
module NumberArithmetic {
  import opened Common
  import opened Arithmetic
  import opened Rationals
  import opened Numbers

  predicate IsZeroExact(n: KapNumber)
    requires Exact(n)
  {
    match n
    case Long(l) => l == 0
    case BigInt(b) => b == 0
    case Rational(r) => r.numer == 0
  }

  /** The one pair of exact kinds that the operators do not keep exact. */
  predicate BigWithRational(a: KapNumber, b: KapNumber) {
    (a.BigInt? && b.Rational?) || (a.Rational? && b.BigInt?)
  }

  /** `bigint_to_kap`. */
  function FromInt(v: int): KapNumber { if FitsI64(v) then Long(v) else BigInt(v) }

  /** `rational_to_kap` and `reduce_rational`: whole rationals become integers. */
  function FromRational(r: BigRational): KapNumber {
    if r.denom == 1 then FromInt(r.numer) else Rational(r)
  }

  function Whole(v: int): BigRational { Fraction(v, 1) }

  function AddRationals(a: BigRational, b: BigRational): BigRational {
    DenominatorNonZero(a.denom, b.denom);
    Make(a.numer * b.denom + b.numer * a.denom, a.denom * b.denom)
  }

  function MulRationals(a: BigRational, b: BigRational): BigRational {
    DenominatorNonZero(a.denom, b.denom);
    Make(a.numer * b.numer, a.denom * b.denom)
  }

  function DivRationals(a: BigRational, b: BigRational): BigRational
    requires b.numer != 0
  {
    DenominatorNonZero(a.denom, b.numer);
    Make(a.numer * b.denom, a.denom * b.numer)
  }

  lemma DenominatorNonZero(a: int, b: int)
    requires a != 0 && b != 0
    ensures a * b != 0
  {
  }

  function Add(self: KapNumber, other: KapNumber): Option<KapNumber> {
    match (self, other)
    case (Long(a), Long(b)) => Some(FromInt(a + b))
    case (BigInt(a), BigInt(b)) => Some(BigInt(a + b))
    case (Long(a), BigInt(b)) => Some(BigInt(a + b))
    case (BigInt(b), Long(a)) => Some(BigInt(a + b))
    case (Rational(a), Rational(b)) => Some(FromRational(AddRationals(a, b)))
    case (Long(a), Rational(b)) => Some(FromRational(AddRationals(b, Whole(a))))
    case (Rational(b), Long(a)) => Some(FromRational(AddRationals(b, Whole(a))))
    case _ => None
  }

  function Sub(self: KapNumber, other: KapNumber): Option<KapNumber> {
    match (self, other)
    case (Long(a), Long(b)) => Some(FromInt(a - b))
    case (BigInt(a), BigInt(b)) => Some(BigInt(a - b))
    case (Long(a), BigInt(b)) => Some(BigInt(a - b))
    case (BigInt(a), Long(b)) => Some(BigInt(a - b))
    case (Rational(a), Rational(b)) => Some(FromRational(AddRationals(a, Negate(b))))
    case (Long(a), Rational(b)) => Some(FromRational(AddRationals(Whole(a), Negate(b))))
    case (Rational(b), Long(a)) => Some(FromRational(AddRationals(b, Negate(Whole(a)))))
    case _ => None
  }

  function Mul(self: KapNumber, other: KapNumber): Option<KapNumber> {
    match (self, other)
    case (Long(a), Long(b)) => Some(FromInt(a * b))
    case (BigInt(a), BigInt(b)) => Some(BigInt(a * b))
    case (Long(a), BigInt(b)) => Some(BigInt(a * b))
    case (BigInt(b), Long(a)) => Some(BigInt(a * b))
    case (Rational(a), Rational(b)) => Some(FromRational(MulRationals(a, b)))
    case (Long(a), Rational(b)) => Some(FromRational(MulRationals(b, Whole(a))))
    case (Rational(b), Long(a)) => Some(FromRational(MulRationals(b, Whole(a))))
    case _ => None
  }

  function AsRational(n: KapNumber): BigRational
    requires Exact(n)
  {
    match n
    case Long(l) => Whole(l)
    case BigInt(b) => Whole(b)
    case Rational(r) => r
  }

  function AsBigInt(n: KapNumber): int
    requires n.Long? || n.BigInt?
  {
    if n.Long? then n.l else n.b
  }

  function Div(self: KapNumber, other: KapNumber): Option<KapNumber> {
    if self.Long? && other.Long? then
      var a, b := self.l, other.l;
      if b == 0 then Some(Long(0))
      else if a == -TWO_63 && b == -1 then Some(BigInt(TWO_63))
      else if TruncRem(a, b) == 0 then (TruncDivFits(a, b); Some(Long(TruncDiv(a, b))))
      else Some(Rational(Make(a, b)))
    else if !Exact(self) || !Exact(other) then None
    else if self.Rational? || other.Rational? then
      if AsRational(other).numer == 0 then Some(Long(0))
      else Some(FromRational(DivRationals(AsRational(self), AsRational(other))))
    else
      var a, b := AsBigInt(self), AsBigInt(other);
      if b == 0 then Some(Long(0))
      else if TruncRem(a, b) == 0 then Some(BigInt(TruncDiv(a, b)))
      else Some(Rational(DivRationals(Whole(a), Whole(b))))
  }

  /** `BigRational::floor`, then `reduce_rational`. */
  function Floor(n: KapNumber): Option<KapNumber> {
    match n
    case Long(_) => Some(n)
    case BigInt(_) => Some(n)
    case Rational(r) =>
      var shifted := if r.numer < 0 then r.numer - r.denom + 1 else r.numer;
      Some(FromRational(Whole(TruncDiv(shifted, r.denom))))
    case _ => None
  }

  /** Rust's `%` on 64-bit integers, which panics on a zero divisor and when the quotient that goes
      with the remainder does not fit. */
  function CheckedRem(a: i64, b: i64): (r: Option<i64>) {
    if b == 0 || !FitsI64(TruncDiv(a, b)) then None
    else
      TruncRemSmall(a, b);
      Some(TruncRem(a, b))
  }

  /** Outcome of `modulo`: a residue, a panic of `%`, or float arithmetic. */
  datatype Residue = Residue(n: KapNumber) | Panics | Floats

  function Modulo(self: KapNumber, other: KapNumber): Residue {
    if self.Long? && other.Long? then
      var a, b := self.l, other.l;
      if a == 0 then Residue(Long(b))
      else
        var result := CheckedRem(b, a);
        if result == None then Panics
        else
          TruncRemSmall(b, a);
          var rem := result.value;
          if (a < 0) != (b < 0) && rem != 0 then Residue(Long(a + rem)) else Residue(Long(rem))
    else if self.Long? && other.BigInt? then
      var a, b := self.l, other.b;
      if a == 0 then Residue(BigInt(b))
      else
        var result := TruncRem(b, a);
        if (a < 0) != (result < 0) && result != 0 then Residue(BigInt(a + result)) else Residue(BigInt(result))
    else Floats
  }

  // ---------------------------------------------------------------- truncating division

  lemma TruncFacts(a: int, b: int)
    requires b != 0
    ensures a == b * TruncDiv(a, b) + TruncRem(a, b)
    ensures Abs(TruncRem(a, b)) < Abs(b)
    ensures TruncRem(a, b) != 0 ==> (TruncRem(a, b) < 0 <==> a < 0)
  {
    if a >= 0 {
      EuclidFacts(a, b);
    } else {
      EuclidFacts(-a, b);
      var q := (-a) / b;
      assert b * (-q) == -(b * q);
    }
  }

  lemma EuclidFacts(a: int, b: int)
    requires b != 0
    ensures a == b * (a / b) + a % b && 0 <= a % b < Abs(b)
  {
  }

  lemma TruncDivFits(a: i64, b: i64)
    requires b != 0 && !(a == -TWO_63 && b == -1)
    ensures FitsI64(TruncDiv(a, b))
  {
    if b == 1 {
    } else if b == -1 {
      assert (-a) / -1 == a && a / -1 == -a;
    } else {
      QuotientSmaller(Abs(a), b);
    }
  }

  lemma QuotientSmaller(a: nat, b: int)
    requires b < -1 || b > 1
    ensures 0 - a <= 2 * (a / b) <= a
  {
    EuclidFacts(a, b);
    var q := a / b;
    if b > 1 {
      MulMono(q, 2, b);
    } else {
      assert (-b) * (-q) == b * q;
      MulMono(-q, 2, -b);
    }
  }

  lemma TruncRemSmall(b: i64, a: i64)
    requires a != 0
    ensures FitsI64(TruncRem(b, a))
    ensures (a < 0) != (b < 0) && TruncRem(b, a) != 0 ==> FitsI64(a + TruncRem(b, a))
  {
    hide TruncRem, TruncDiv;
    TruncFacts(b, a);
  }

  // ---------------------------------------------------------------- exactness

  /** Arithmetic never leaves a whole rational behind. */
  predicate Collapsed(n: KapNumber) { n.Rational? ==> n.r.denom != 1 }

  lemma FromIntExact(v: int)
    ensures Exact(FromInt(v)) && ExactValue(FromInt(v)) == v as real && Collapsed(FromInt(v))
  {
  }

  lemma FromRationalExact(r: BigRational)
    ensures Exact(FromRational(r)) && ExactValue(FromRational(r)) == Value(r) && Collapsed(FromRational(r))
  {
  }

  lemma WholeValue(v: int)
    ensures Value(Whole(v)) == v as real
  {
  }

  lemma QuotientSum(a: real, b: real, c: real, d: real)
    requires b != 0.0 && d != 0.0 && b * d != 0.0
    ensures (a * d + c * b) / (b * d) == a / b + c / d
  {
    var x, y := a / b, c / d;
    assert a == x * b && c == y * d;
    assert a * d + c * b == (x + y) * (b * d);
    RealCancel(x + y, b * d);
  }

  lemma RealCancel(x: real, k: real)
    requires k != 0.0
    ensures x * k / k == x
  {
  }

  lemma QuotientProduct(a: real, b: real, c: real, d: real)
    requires b != 0.0 && d != 0.0 && b * d != 0.0
    ensures (a * c) / (b * d) == (a / b) * (c / d)
  {
    var x, y := a / b, c / d;
    assert a == x * b && c == y * d;
    assert (x * b) * (y * d) == (x * y) * (b * d);
    RealCancel(x * y, b * d);
  }

  lemma ProductAsReal(a: int, b: int)
    ensures (a * b) as real == a as real * b as real
  {
  }

  lemma IntQuotientSum(a: int, b: int, c: int, d: int)
    requires b != 0 && d != 0 && b * d != 0
    ensures (a * d + c * b) as real / (b * d) as real == a as real / b as real + c as real / d as real
  {
    ProductAsReal(a, d);
    ProductAsReal(c, b);
    ProductAsReal(b, d);
    QuotientSum(a as real, b as real, c as real, d as real);
  }

  lemma IntQuotientProduct(a: int, b: int, c: int, d: int)
    requires b != 0 && d != 0 && b * d != 0
    ensures (a * c) as real / (b * d) as real == (a as real / b as real) * (c as real / d as real)
  {
    ProductAsReal(a, c);
    ProductAsReal(b, d);
    QuotientProduct(a as real, b as real, c as real, d as real);
  }

  lemma MakeValue(n: int, d: int)
    requires d != 0
    ensures Value(Make(n, d)) == n as real / d as real
  {
    hide Gcd, Make, Reduced;
    MakeExact(n, d);
  }

  lemma AddRationalsExact(a: BigRational, b: BigRational)
    ensures Value(AddRationals(a, b)) == Value(a) + Value(b)
  {
    hide Gcd, Make;
    DenominatorNonZero(a.denom, b.denom);
    IntQuotientSum(a.numer, a.denom, b.numer, b.denom);
    MakeValue(a.numer * b.denom + b.numer * a.denom, a.denom * b.denom);
  }

  lemma MulRationalsExact(a: BigRational, b: BigRational)
    ensures Value(MulRationals(a, b)) == Value(a) * Value(b)
  {
    hide Gcd, Make;
    DenominatorNonZero(a.denom, b.denom);
    IntQuotientProduct(a.numer, a.denom, b.numer, b.denom);
    MakeValue(a.numer * b.numer, a.denom * b.denom);
  }

  lemma DivRationalsExact(a: BigRational, b: BigRational)
    requires b.numer != 0
    ensures Value(DivRationals(a, b)) * Value(b) == Value(a)
  {
    hide Gcd, Make;
    DenominatorNonZero(a.denom, b.numer);
    IntQuotientProduct(a.numer, a.denom, b.denom, b.numer);
    MakeValue(a.numer * b.denom, a.denom * b.numer);
    var n, d := b.numer as real, b.denom as real;
    QuotientTimes(d, n);
    QuotientTimes(n, d);
    Inverse(Value(a), n, d, d / n, n / d, Value(DivRationals(a, b)));
  }

  lemma Inverse(x: real, n: real, d: real, u: real, v: real, q: real)
    requires n != 0.0 && d != 0.0 && u * n == d && v * d == n && q == x * u
    ensures q * v == x
  {
    Reciprocals(n, d, u, v);
    Associate(x, u, v);
  }

  lemma Reciprocals(n: real, d: real, u: real, v: real)
    requires n != 0.0 && d != 0.0 && u * n == d && v * d == n
    ensures u * v == 1.0
  {
    assert u * v * d == d;
    RealCancel(u * v, d);
    assert d / d == 1.0;
  }

  lemma QuotientTimes(a: real, b: real)
    requires b != 0.0
    ensures a / b * b == a
  {
  }

  lemma Associate(x: real, u: real, v: real)
    requires u * v == 1.0
    ensures x * u * v == x
  {
    assert x * u * v == x * (u * v);
  }

  /** Addition is exact for every pair of exact kinds but big integer with rational. */
  lemma AddExact(a: KapNumber, b: KapNumber)
    requires Exact(a) && Exact(b)
    ensures Add(a, b).Some? <==> !BigWithRational(a, b)
    ensures Add(a, b).Some? ==>
              && Exact(Add(a, b).value) && Collapsed(Add(a, b).value)
              && ExactValue(Add(a, b).value) == ExactValue(a) + ExactValue(b)
  {
    hide AddRationals, FromRational, FromInt, Value;
    if a.Long? && b.Long? {
      FromIntExact(a.l + b.l);
    } else if (a.Rational? || b.Rational?) && !BigWithRational(a, b) {
      var x, y := if a.Rational? then a.r else b.r, if a.Rational? then AsRational(b) else AsRational(a);
      AddRationalsExact(x, y);
      FromRationalExact(AddRationals(x, y));
      if a.Long? { WholeValue(a.l); }
      if b.Long? { WholeValue(b.l); }
    }
  }

  lemma SubExact(a: KapNumber, b: KapNumber)
    requires Exact(a) && Exact(b)
    ensures Sub(a, b).Some? <==> !BigWithRational(a, b)
    ensures Sub(a, b).Some? ==>
              && Exact(Sub(a, b).value) && Collapsed(Sub(a, b).value)
              && ExactValue(Sub(a, b).value) == ExactValue(a) - ExactValue(b)
  {
    hide AddRationals, FromRational, FromInt, Value, Negate;
    if a.Long? && b.Long? {
      FromIntExact(a.l - b.l);
    } else if (a.Rational? || b.Rational?) && !BigWithRational(a, b) {
      var x, y := AsRational(a), AsRational(b);
      NegateValue(y);
      AddRationalsExact(x, Negate(y));
      FromRationalExact(AddRationals(x, Negate(y)));
      if a.Long? { WholeValue(a.l); }
      if b.Long? { WholeValue(b.l); }
    }
  }

  lemma MulIntegers(a: KapNumber, b: KapNumber)
    requires Exact(a) && Exact(b) && !a.Rational? && !b.Rational?
    ensures Mul(a, b).Some? && Exact(Mul(a, b).value) && Collapsed(Mul(a, b).value)
    ensures ExactValue(Mul(a, b).value) == ExactValue(a) * ExactValue(b)
  {
    hide MulRationals, FromRational, FromInt, Value, Make;
    var x, y := AsBigInt(a), AsBigInt(b);
    ProductAsReal(x, y);
    FromIntExact(x * y);
  }

  lemma MulWithRational(a: KapNumber, b: KapNumber)
    requires Exact(a) && Exact(b) && (a.Rational? || b.Rational?) && !BigWithRational(a, b)
    ensures Mul(a, b).Some? && Exact(Mul(a, b).value) && Collapsed(Mul(a, b).value)
    ensures ExactValue(Mul(a, b).value) == ExactValue(a) * ExactValue(b)
  {
    hide *;
    AsRationalValue(a);
    AsRationalValue(b);
    var (x, y) := if a.Rational? then (AsRational(a), AsRational(b)) else (AsRational(b), AsRational(a));
    MulAsRationals(a, b, x, y);
    MulRationalsExact(x, y);
    FromRationalExact(MulRationals(x, y));
    if !a.Rational? {
      Commutes(ExactValue(a), ExactValue(b));
    }
  }

  lemma Commutes(x: real, y: real)
    ensures x * y == y * x
  {
  }

  lemma MulAsRationals(a: KapNumber, b: KapNumber, x: BigRational, y: BigRational)
    requires Exact(a) && Exact(b) && (a.Rational? || b.Rational?) && !BigWithRational(a, b)
    requires x == if a.Rational? then AsRational(a) else AsRational(b)
    requires y == if a.Rational? then AsRational(b) else AsRational(a)
    ensures Mul(a, b) == Some(FromRational(MulRationals(x, y)))
  {
    hide MulRationals, FromRational, Value, Make, Whole;
  }

  lemma MulExact(a: KapNumber, b: KapNumber)
    requires Exact(a) && Exact(b)
    ensures Mul(a, b).Some? <==> !BigWithRational(a, b)
    ensures Mul(a, b).Some? ==>
              && Exact(Mul(a, b).value) && Collapsed(Mul(a, b).value)
              && ExactValue(Mul(a, b).value) == ExactValue(a) * ExactValue(b)
  {
    if BigWithRational(a, b) {
      hide MulRationals, FromRational, FromInt, Value, Make;
    } else {
      hide Mul, ExactValue, Collapsed, Exact;
      if a.Rational? || b.Rational? {
        MulWithRational(a, b);
      } else {
        MulIntegers(a, b);
      }
    }
  }

  /** Overflow is what makes two longs give a big integer, and the only thing;
      a big operand makes the result big even when it would fit. */
  lemma IntegerKinds(a: KapNumber, b: KapNumber)
    requires (a.Long? || a.BigInt?) && (b.Long? || b.BigInt?)
    ensures Add(a, b).Some? && Sub(a, b).Some? && Mul(a, b).Some?
    ensures var longs, x, y := a.Long? && b.Long?, AsBigInt(a), AsBigInt(b);
            && (Add(a, b).value.Long? <==> longs && FitsI64(x + y)) && !Add(a, b).value.Rational?
            && (Sub(a, b).value.Long? <==> longs && FitsI64(x - y)) && !Sub(a, b).value.Rational?
            && (Mul(a, b).value.Long? <==> longs && FitsI64(x * y)) && !Mul(a, b).value.Rational?
  {
  }

  /** The smallest kind that holds the number: no whole rational, no big integer that fits 64 bits. */
  predicate Smallest(n: KapNumber) { Exact(n) && Collapsed(n) && (n.BigInt? ==> !FitsI64(n.b)) }

  /** With a rational operand every result has the smallest kind. */
  lemma RationalKinds(a: KapNumber, b: KapNumber)
    requires Exact(a) && Exact(b) && (a.Rational? || b.Rational?)
    ensures !BigWithRational(a, b) ==> Add(a, b).Some? && Sub(a, b).Some? && Mul(a, b).Some?
    ensures !BigWithRational(a, b) ==>
              Smallest(Add(a, b).value) && Smallest(Sub(a, b).value) && Smallest(Mul(a, b).value)
    ensures Div(a, b).Some? && Smallest(Div(a, b).value)
  {
    hide AddRationals, MulRationals, DivRationals, Make, Negate;
  }

  /** Dividing integers: a whole quotient of two longs is a long, but for the one that leaves 64 bits;
      with a big operand it stays big even when it would fit; any other quotient is a rational. */
  lemma DivisionKinds(a: KapNumber, b: KapNumber)
    requires (a.Long? || a.BigInt?) && (b.Long? || b.BigInt?) && AsBigInt(b) != 0
    ensures Div(a, b).Some?
    ensures var q, whole := Div(a, b).value, TruncRem(AsBigInt(a), AsBigInt(b)) == 0;
            && (q.Rational? <==> !whole)
            && (q.Long? <==> whole && a.Long? && b.Long? && !(a.l == -TWO_63 && b.l == -1))
  {
    hide Make, TruncDiv, DivRationals;
    if a.Long? && b.Long? && b.l == -1 {
      MinusOneDivides(a.l);
    }
  }

  lemma MinusOneDivides(a: int)
    ensures TruncRem(a, -1) == 0
  {
    TruncFacts(a, -1);
  }

  lemma QuotientExact(a: int, b: int)
    requires b != 0
    ensures TruncRem(a, b) == 0 ==> TruncDiv(a, b) as real * b as real == a as real
    ensures Value(Make(a, b)) * b as real == a as real
    ensures TruncRem(a, b) != 0 ==> Make(a, b).denom != 1
  {
    hide Gcd, Make, Reduced, TruncDiv, TruncRem, Value;
    TruncFacts(a, b);
    MakeValue(a, b);
    assert a as real / b as real * b as real == a as real;
    if TruncRem(a, b) == 0 {
      ProductAsReal(b, TruncDiv(a, b));
    } else if Make(a, b).denom == 1 {
      MakeExact(a, b);
      NotMultiple(a, b, Make(a, b).numer);
    }
  }

  lemma NotMultiple(a: int, b: int, q: int)
    requires b != 0 && a == q * b
    ensures TruncRem(a, b) == 0
  {
    hide TruncDiv, TruncRem;
    TruncFacts(a, b);
    SmallMultiple(b, q - TruncDiv(a, b), TruncRem(a, b));
  }

  lemma SmallMultiple(b: int, k: int, r: int)
    requires r == b * k && Abs(r) < Abs(b)
    ensures r == 0
  {
    if k > 0 {
      MulMono(Abs(b), 1, k);
    } else if k < 0 {
      MulMono(Abs(b), 1, -k);
    }
  }

  lemma DivIntegers(a: KapNumber, b: KapNumber)
    requires !a.Rational? && !b.Rational? && Exact(a) && Exact(b) && !IsZeroExact(b)
    ensures Div(a, b).Some? && Exact(Div(a, b).value) && Collapsed(Div(a, b).value)
    ensures ExactValue(Div(a, b).value) * ExactValue(b) == ExactValue(a)
  {
    hide TruncDiv, TruncRem, DivRationals, Make, Value, Gcd;
    var x, y := AsBigInt(a), AsBigInt(b);
    QuotientExact(x, y);
    WholeQuotient(x, y);
    ProductAsReal(TWO_63, -1);
  }

  lemma DivByRational(a: KapNumber, b: KapNumber)
    requires Exact(a) && Exact(b) && (a.Rational? || b.Rational?) && AsRational(b).numer != 0
    ensures Div(a, b) == Some(FromRational(DivRationals(AsRational(a), AsRational(b))))
  {
    hide TruncDiv, TruncRem, DivRationals, Make, FromRational, Value, Gcd, Reduced;
  }

  lemma DivWithRational(a: KapNumber, b: KapNumber)
    requires Exact(a) && Exact(b) && (a.Rational? || b.Rational?) && !IsZeroExact(b)
    ensures Div(a, b).Some? && Exact(Div(a, b).value) && Collapsed(Div(a, b).value)
    ensures ExactValue(Div(a, b).value) * ExactValue(b) == ExactValue(a)
  {
    hide *;
    AsRationalValue(a);
    AsRationalValue(b);
    DivByRational(a, b);
    DivRationalsExact(AsRational(a), AsRational(b));
    FromRationalExact(DivRationals(AsRational(a), AsRational(b)));
  }

  /** Division of exact kinds is exact, and 0 for a zero divisor. */
  lemma DivExactly(a: KapNumber, b: KapNumber)
    requires Exact(a) && Exact(b)
    ensures Div(a, b).Some? && Exact(Div(a, b).value) && Collapsed(Div(a, b).value)
    ensures IsZeroExact(b) ==> Div(a, b) == Some(Long(0))
    ensures !IsZeroExact(b) ==> ExactValue(Div(a, b).value) * ExactValue(b) == ExactValue(a)
  {
    if IsZeroExact(b) {
      hide TruncDiv, TruncRem, DivRationals, Make, FromRational, Value, Gcd;
    } else {
      hide *;
      if a.Rational? || b.Rational? {
        DivWithRational(a, b);
      } else {
        DivIntegers(a, b);
      }
    }
  }

  lemma AsRationalValue(n: KapNumber)
    requires Exact(n)
    ensures Value(AsRational(n)) == ExactValue(n)
    ensures AsRational(n).numer == 0 <==> IsZeroExact(n)
  {
  }

  lemma WholeQuotient(a: int, b: int)
    requires b != 0
    ensures DivRationals(Whole(a), Whole(b)) == Make(a, b)
  {
    hide Make;
    assert a * 1 == a && 1 * b == b;
  }

  // ---------------------------------------------------------------- floor and residue

  /** The integer a floor result holds. */
  predicate IsFloorOf(n: KapNumber, x: real) {
    (n.Long? || n.BigInt?) && AsBigInt(n) as real <= x < AsBigInt(n) as real + 1.0
  }

  lemma RationalFloor(n: int, d: int)
    requires d > 0
    ensures var q := if n < 0 then TruncDiv(n - d + 1, d) else TruncDiv(n, d);
            d * q <= n < d * q + d
  {
    if n < 0 {
      DivModDefinition(d - 1 - n, d);
      var q := (d - 1 - n) / d;
      assert d * (-q) == -(d * q);
    } else {
      DivModDefinition(n, d);
    }
  }

  lemma ShiftedQuotient(x: real, a: real, b: real, q: real, r: real)
    requires x * a == b && b == a * q + r
    ensures (x - q) * a == r
  {
  }

  lemma NegatedFactor(y: real, a: real, r: real)
    requires y * a == r
    ensures y * (0.0 - a) == 0.0 - r
  {
  }

  lemma UnitInterval(y: real, k: real, r: real)
    requires k > 0.0 && y * k == r && 0.0 <= r < k
    ensures 0.0 <= y < 1.0
  {
    if y < 0.0 { RealMulMono(y, 0.0, k); }
    if y > 1.0 { RealMulMono(1.0, y, k); }
  }

  lemma RealBounds(n: int, d: int, q: int)
    requires d > 0 && d * q <= n < d * q + d
    ensures q as real <= n as real / d as real < q as real + 1.0
  {
    var x := n as real / d as real;
    QuotientTimes(n as real, d as real);
    ProductAsReal(d, q);
    ShiftedQuotient(x, d as real, n as real, q as real, (n - d * q) as real);
    UnitInterval(x - q as real, d as real, (n - d * q) as real);
  }

  /** Floor: the largest integer not above the number, as an integer kind. */
  lemma FloorExact(n: KapNumber)
    requires Exact(n)
    ensures Floor(n).Some? && IsFloorOf(Floor(n).value, ExactValue(n))
  {
    if n.Rational? {
      hide TruncDiv, Gcd;
      RationalFloor(n.r.numer, n.r.denom);
      var q := TruncDiv(if n.r.numer < 0 then n.r.numer - n.r.denom + 1 else n.r.numer, n.r.denom);
      RealBounds(n.r.numer, n.r.denom, q);
    }
  }

  /** An integer is its own floor, and the floor of a rational has the smallest kind. */
  lemma FloorKinds(n: KapNumber)
    requires Exact(n)
    ensures if n.Rational? then Smallest(Floor(n).value) else Floor(n) == Some(n)
  {
    hide TruncDiv;
  }

  /** `floor(b / a)`, by the two operations above. */
  function FloorQuotient(b: KapNumber, a: KapNumber): (n: int)
    requires Exact(a) && Exact(b)
  {
    DivExactly(b, a);
    FloorExact(Div(b, a).value);
    AsBigInt(Floor(Div(b, a).value).value)
  }

  /** The residue with the modulus's sign, computed the way the source does. */
  function SignedResidue(a: int, b: int): int
    requires a != 0
  {
    var r := TruncRem(b, a);
    if (a < 0) != (r < 0) && r != 0 then a + r else r
  }

  /** It differs from `b` by a multiple of `a`, is smaller than `a`, and has its sign. */
  lemma SignedResidueFacts(a: int, b: int) returns (q: int)
    requires a != 0
    ensures b == a * q + SignedResidue(a, b)
    ensures if a > 0 then 0 <= SignedResidue(a, b) < a else a < SignedResidue(a, b) <= 0
  {
    TruncFacts(b, a);
    var t := TruncDiv(b, a);
    q := if SignedResidue(a, b) == TruncRem(b, a) then t else t - 1;
    assert a * (t - 1) == a * t - a;
  }

  lemma FloorUnique(x: real, p: int, q: int)
    requires p as real <= x < p as real + 1.0 && q as real <= x < q as real + 1.0
    ensures p == q
  {
  }

  lemma FloorFromResidue(a: int, b: int, q: int, r: int, x: real)
    requires a != 0 && b == a * q + r && (if a > 0 then 0 <= r < a else a < r <= 0)
    requires x * a as real == b as real
    ensures q as real <= x < q as real + 1.0
  {
    ProductAsReal(a, q);
    ShiftedQuotient(x, a as real, b as real, q as real, r as real);
    if a > 0 {
      UnitInterval(x - q as real, a as real, r as real);
    } else {
      NegatedFactor(x - q as real, a as real, r as real);
      UnitInterval(x - q as real, (-a) as real, (-r) as real);
    }
  }

  predicate IsModuloPair(a: KapNumber, b: KapNumber) { a.Long? && (b.Long? || b.BigInt?) }

  /** The one pair whose quotient leaves 64 bits. */
  lemma RemPanics(a: i64, b: i64)
    requires b != 0
    ensures CheckedRem(a, b) == None <==> a == -TWO_63 && b == -1
  {
    if a == -TWO_63 && b == -1 {
      assert TruncDiv(a, b) == TWO_63;
    } else {
      TruncDivFits(a, b);
    }
  }

  /** `modulo` panics for the one long pair whose remainder overflows, and never otherwise; the
      zero modulus is answered before the division. */
  lemma ModuloPanics(a: KapNumber, b: KapNumber)
    ensures Modulo(a, b) == Panics <==> a == Long(-1) && b == Long(-TWO_63)
  {
    hide CheckedRem, TruncRem;
    if a.Long? && b.Long? && a.l != 0 {
      RemPanics(b.l, a.l);
    }
  }

  lemma ModuloIsResidue(a: KapNumber, b: KapNumber)
    requires IsModuloPair(a, b) && Modulo(a, b) != Panics
    ensures Modulo(a, b).Residue?
    ensures var n := Modulo(a, b).n;
            && (n.Long? || n.BigInt?) && (n.Long? <==> b.Long?)
            && AsBigInt(n) == if a.l == 0 then AsBigInt(b) else SignedResidue(a.l, AsBigInt(b))
  {
    hide TruncRem, TruncDiv;
    if a.l != 0 {
      TruncFacts(AsBigInt(b), a.l);
    }
  }

  lemma FloorQuotientIs(a: KapNumber, b: KapNumber, q: int, r: int)
    requires IsModuloPair(a, b) && a.l != 0
    requires AsBigInt(b) == a.l * q + r && (if a.l > 0 then 0 <= r < a.l else a.l < r <= 0)
    ensures FloorQuotient(b, a) == q
  {
    hide Div, Floor, FromRational, Make, Gcd, Reduced, Collapsed;
    DivExactly(b, a);
    var x := ExactValue(Div(b, a).value);
    FloorExact(Div(b, a).value);
    FloorFromResidue(a.l, AsBigInt(b), q, r, x);
    FloorUnique(x, q, FloorQuotient(b, a));
  }

  /** Residue plus modulus times floored quotient is the dividend, a zero modulus included;
      the residue is smaller than the modulus and has its sign. */
  lemma ModuloFloor(a: KapNumber, b: KapNumber)
    requires IsModuloPair(a, b) && Modulo(a, b) != Panics
    ensures Modulo(a, b).Residue? && Exact(Modulo(a, b).n) && !Modulo(a, b).n.Rational?
    ensures Modulo(a, b).n.Long? <==> b.Long?
    ensures var r := AsBigInt(Modulo(a, b).n);
            && r + a.l * FloorQuotient(b, a) == AsBigInt(b)
            && (a.l > 0 ==> 0 <= r < a.l) && (a.l < 0 ==> a.l < r <= 0)
  {
    hide SignedResidue, Div, Floor, Modulo, FloorQuotient;
    ModuloIsResidue(a, b);
    if a.l != 0 {
      var q := SignedResidueFacts(a.l, AsBigInt(b));
      FloorQuotientIs(a, b, q, SignedResidue(a.l, AsBigInt(b)));
    }
  }
}
