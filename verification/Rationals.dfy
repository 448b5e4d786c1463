/** `num_rational::BigRational`: fractions in lowest terms with a positive denominator. */
module Rationals {
  import opened Common
  import opened Arithmetic

  datatype Fraction = Fraction(numer: int, denom: int)

  function Gcd(a: nat, b: nat): nat
    decreases b
  {
    if b == 0 then a else Gcd(b, a % b)
  }

  predicate Reduced(r: Fraction) {
    r.denom > 0 && Gcd(Abs(r.numer), r.denom) == 1
  }

  type BigRational = r: Fraction | Reduced(r) witness Fraction(0, 1)

  ghost predicate Divides(d: int, n: int) {
    exists k: int :: d * k == n
  }

  /** Bezout coefficients, by the same recursion as `Gcd`. */
  lemma {:induction false} Bezout(a: nat, b: nat) returns (x: int, y: int)
    ensures x * a + y * b == Gcd(a, b)
    decreases b
  {
    if b == 0 {
      x, y := 1, 0;
    } else {
      var x', y' := Bezout(b, a % b);
      var q := a / b;
      x, y := y', x' - y' * q;
      calc {
        x * a + y * b;
        y' * a + (x' - y' * q) * b;
        y' * a + x' * b - y' * q * b;
        x' * b + y' * (a - q * b);
        { assert a - q * b == a % b; }
        x' * b + y' * (a % b);
      }
    }
  }

  lemma {:induction false} GcdDivides(a: nat, b: nat) returns (p: nat, q: nat)
    ensures a == Gcd(a, b) * p
    ensures b == Gcd(a, b) * q
    ensures a + b > 0 ==> Gcd(a, b) > 0
    decreases b
  {
    if b == 0 {
      p, q := 1, 0;
    } else {
      var p', q' := GcdDivides(b, a % b);
      q := p';
      p := (a / b) * p' + q';
      DivModDefinition(a, b);
      GcdStep(a, b, a / b, a % b, Gcd(b, a % b), p', q');
    }
  }

  lemma GcdStep(a: int, b: int, k: int, r: int, g: int, p: int, q: int)
    requires a == b * k + r && b == g * p && r == g * q
    ensures a == g * (k * p + q)
  {
    calc {
      a;
      (g * p) * k + g * q;
      g * (k * p + q);
    }
  }

  /** Dividing two numbers by their gcd leaves a coprime pair. */
  lemma CoprimeQuotients(a: nat, b: nat, p: nat, q: nat)
    requires a + b > 0
    requires a == Gcd(a, b) * p && b == Gcd(a, b) * q
    ensures Gcd(p, q) == 1
  {
    var g := Gcd(a, b);
    var _, _ := GcdDivides(a, b);
    var x, y := Bezout(a, b);
    ScaledCombination(g, x, p, y, q);
    MulCancel(g, x * p + y * q, 1);
    var s, t := GcdDivides(p, q);
    var h := Gcd(p, q);
    ScaledCombination(h, x, s, y, t);
    UnitFactor(h, x * s + y * t);
  }

  lemma ScaledCombination(g: int, x: int, p: int, y: int, q: int)
    ensures x * (g * p) + y * (g * q) == g * (x * p + y * q)
  {
  }

  lemma UnitFactor(h: nat, m: int)
    requires h * m == 1
    ensures h == 1
  {
    if m < 1 {
      MulMono(h, m, 0);
    } else if h > 1 {
      MulMono(h, 1, m);
    }
  }

  /** `BigRational::new`: reduce, and move the sign into the numerator.
      The zero denominator, on which the library panics, is the caller's case. */
  function Make(n: int, d: int): BigRational
    requires d != 0
  {
    var g := Gcd(Abs(n), Abs(d));
    MakeFacts(n, d);
    var s := if (n < 0) == (d < 0) then 1 else -1;
    Fraction(s * (Abs(n) / g), Abs(d) / g)
  }

  /** Reduction keeps the value, and leaves a reduced fraction alone. */
  lemma MakeExact(n: int, d: int)
    requires d != 0
    ensures Make(n, d).numer * d == n * Make(n, d).denom
    ensures Value(Make(n, d)) == n as real / d as real
    ensures Reduced(Fraction(n, d)) ==> Make(n, d) == Fraction(n, d)
  {
    MakeFacts(n, d);
  }

  lemma MakeFacts(n: int, d: int)
    requires d != 0
    ensures var g := Gcd(Abs(n), Abs(d));
            var s := if (n < 0) == (d < 0) then 1 else -1;
            && g > 0
            && Reduced(Fraction(s * (Abs(n) / g), Abs(d) / g))
            && s * (Abs(n) / g) * d == n * (Abs(d) / g)
            && (s * (Abs(n) / g)) as real / (Abs(d) / g) as real == n as real / d as real
  {
    var g := Gcd(Abs(n), Abs(d));
    var s: int := if (n < 0) == (d < 0) then 1 else -1;
    var p, q := GcdDivides(Abs(n), Abs(d));
    DivExact(g, p, Abs(n));
    DivExact(g, q, Abs(d));
    CoprimeQuotients(Abs(n), Abs(d), p, q);
    FactorPositive(g, q);
    assert Abs(s * p) == p;
    MakeCross(n, d, g, p, q, s);
    CrossEqual(s * p, q, n, d);
  }

  lemma DivExact(g: nat, p: nat, a: nat)
    requires g > 0 && a == g * p
    ensures a / g == p
  {
    DivUnique(a, g, p, 0);
  }

  lemma FactorPositive(g: nat, q: nat)
    requires g * q > 0
    ensures q > 0
  {
  }

  lemma MakeCross(n: int, d: int, g: nat, p: nat, q: nat, s: int)
    requires Abs(n) == g * p && Abs(d) == g * q
    requires s == if (n < 0) == (d < 0) then 1 else -1
    ensures s * p * d == n * q
  {
    assert p * Abs(d) == Abs(n) * q by {
      assert p * (g * q) == (g * p) * q;
    }
  }

  /** Equal cross products are equal real quotients. */
  lemma CrossEqual(a: int, b: int, c: int, d: int)
    requires b != 0 && d != 0
    requires a * d == c * b
    ensures a as real / b as real == c as real / d as real
  {
    var x, y := a as real / b as real, c as real / d as real;
    assert x * b as real == a as real;
    assert y * d as real == c as real;
    assert (a * d) as real == a as real * d as real;
    assert (c * b) as real == c as real * b as real;
    assert (x - y) * (b as real * d as real) == 0.0;
    NonZeroProduct(b as real, d as real);
  }

  lemma NonZeroProduct(b: real, d: real)
    requires b != 0.0 && d != 0.0
    ensures b * d != 0.0
  {
  }

  /** The exact value a fraction denotes. */
  function Value(r: Fraction): real
    requires r.denom != 0
  {
    r.numer as real / r.denom as real
  }

  /** `BigRational::cmp`, by cross multiplication of positive denominators. */
  function CmpRational(a: BigRational, b: BigRational): Ordering {
    CmpInt(a.numer * b.denom, b.numer * a.denom)
  }

  lemma CmpRationalByValue(a: BigRational, b: BigRational)
    ensures CmpRational(a, b) == CmpReal(Value(a), Value(b))
  {
    CrossLess(a.numer, a.denom, b.numer, b.denom);
    CrossLess(b.numer, b.denom, a.numer, a.denom);
  }

  lemma CrossLess(a: int, b: int, c: int, d: int)
    requires b > 0 && d > 0
    ensures a as real / b as real < c as real / d as real <==> a * d < c * b
  {
    var x, y := a as real / b as real, c as real / d as real;
    var k := b as real * d as real;
    assert k > 0.0;
    assert x * k == (a * d) as real by {
      assert x * b as real == a as real;
      assert (a * d) as real == a as real * d as real;
    }
    assert y * k == (c * b) as real by {
      assert y * d as real == c as real;
      assert (c * b) as real == c as real * b as real;
    }
    if x < y { RealMulMono(x, y, k); }
    if y < x { RealMulMono(y, x, k); }
  }

  lemma RealMulMono(x: real, y: real, k: real)
    requires x < y && k > 0.0
    ensures x * k < y * k
  {
    assert (y - x) * k > 0.0;
  }

  /** If a prime-to-n number divides n*m then it divides m. */
  lemma EuclidLemma(d: nat, n: nat, m: nat, k: int)
    requires Gcd(n, d) == 1 && d * k == n * m
    ensures Divides(d, m)
  {
    var x, y := Bezout(n, d);
    EuclidStep(d, n, m, k, x, y);
    assert d * (x * k + m * y) == m;
  }

  lemma EuclidStep(d: int, n: int, m: int, k: int, x: int, y: int)
    requires x * n + y * d == 1 && d * k == n * m
    ensures d * (x * k + m * y) == m
  {
    calc {
      d * (x * k + m * y);
      x * (d * k) + m * (y * d);
      x * (n * m) + m * (y * d);
      m * (x * n + y * d);
    }
  }

  lemma MutualDivisors(a: nat, b: nat)
    requires a > 0 && b > 0
    requires Divides(a, b) && Divides(b, a)
    ensures a == b
  {
    DivisorBound(a, b);
    DivisorBound(b, a);
  }

  lemma DivisorBound(d: nat, n: nat)
    requires n > 0 && Divides(d, n)
    ensures d <= n
  {
    var k: int :| d * k == n;
    if k < 1 {
      MulMono(d, k, 0);
    } else {
      MulMono(d, 1, k);
    }
  }

  /** Lowest terms are canonical: equal value means the same fraction. */
  lemma ReducedUnique(a: BigRational, b: BigRational)
    ensures Value(a) == Value(b) <==> a == b
  {
    if Value(a) == Value(b) {
      CrossLess(a.numer, a.denom, b.numer, b.denom);
      CrossLess(b.numer, b.denom, a.numer, a.denom);
      CrossUnique(a, b);
    }
  }

  lemma CrossUnique(a: BigRational, b: BigRational)
    requires a.numer * b.denom == b.numer * a.denom
    ensures a == b
  {
    hide Gcd;
    DenominatorDivides(a, b);
    DenominatorDivides(b, a);
    MutualDivisors(a.denom, b.denom);
    MulCancel(a.denom, a.numer, b.numer);
  }

  lemma DenominatorDivides(a: BigRational, b: BigRational)
    requires a.numer * b.denom == b.numer * a.denom
    ensures Divides(a.denom, b.denom)
  {
    var k := if a.numer < 0 then -b.numer else b.numer;
    assert a.denom * k == Abs(a.numer) * b.denom;
    EuclidLemma(a.denom, Abs(a.numer), b.denom, k);
  }

  function Negate(r: BigRational): BigRational { Fraction(0 - r.numer, r.denom) }

  lemma NegateValue(r: BigRational)
    ensures Value(Negate(r)) == 0.0 - Value(r)
  {
  }
}
