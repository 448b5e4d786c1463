/** Rationals as terminating decimals: the divide-out loops that decide which ones bind to
    a database column (kap-core/src/sql.rs). */
module Terminating {
  import opened Common
  import opened Arithmetic
  import opened Rationals

  // ---------------------------------------------------------------- terminating decimals

  /** Some power of ten clears the denominator: r == n / 10^k. */
  ghost predicate IsDecimal(r: BigRational) {
    exists k: nat, n: int :: IsDecimalBy(r, n, k)
  }

  predicate IsDecimalBy(r: BigRational, n: int, k: nat) { n * r.denom == r.numer * Pow(10, k) }

  lemma {:induction false} PowTen(k: nat)
    ensures Pow(10, k) == Pow(2, k) * Pow(5, k)
  {
    if k > 0 {
      PowTen(k - 1);
      var x, y := Pow(2, k - 1), Pow(5, k - 1);
      assert (2 * x) * (5 * y) == 10 * (x * y);
    }
  }

  /** 2^a * 5^b divides 10^(a + b). */
  lemma TwosAndFives(a: nat, b: nat)
    ensures Divides(Pow(2, a) * Pow(5, b), Pow(10, a + b))
  {
    PowTen(a + b);
    PowAdd(2, a, b);
    PowAdd(5, a, b);
    Regroup(Pow(2, a), Pow(2, b), Pow(5, a), Pow(5, b));
  }

  lemma Regroup(a: int, b: int, c: int, d: int)
    ensures (a * d) * (b * c) == (a * b) * (c * d)
  {
    assert (a * d) * (b * c) == a * (d * (b * c));
    assert d * (b * c) == b * (c * d);
    assert a * (b * (c * d)) == (a * b) * (c * d);
  }

  lemma GcdUnfold(a: nat, b: nat)
    requires b > 0
    ensures Gcd(a, b) == Gcd(b, a % b)
  {
  }

  lemma CoprimeTwo(m: nat)
    requires m % 2 != 0
    ensures Gcd(2, m) == 1
  {
    if m == 1 {
      assert Gcd(1, 0) == 1;
    } else {
      assert Gcd(2, m) == Gcd(m, 2) == Gcd(2, m % 2) == Gcd(2, 1) == Gcd(1, 0);
    }
  }

  lemma SmallGcds()
    ensures Gcd(5, 1) == 1 && Gcd(5, 2) == 1 && Gcd(5, 3) == 1 && Gcd(5, 4) == 1
  {
    assert Gcd(1, 0) == 1;
    assert Gcd(2, 1) == 1;
    assert Gcd(3, 2) == 1;
    assert Gcd(4, 1) == 1;
  }

  lemma CoprimeFive(m: nat)
    requires m % 5 != 0
    ensures Gcd(5, m) == 1
  {
    hide Gcd;
    SmallGcds();
    if m > 5 {
      GcdUnfold(5, m);
      GcdUnfold(m, 5);
      assert m % 5 == 1 || m % 5 == 2 || m % 5 == 3 || m % 5 == 4;
    }
  }

  /** Coprime to 2 and 5, yet a divisor of a power of ten: only 1. */
  lemma {:induction false} OnlyOne(m: nat, k: nat)
    requires m % 2 != 0 && m % 5 != 0
    requires Divides(m, Pow(10, k))
    ensures m == 1
  {
    if k == 0 {
      DivisorBound(m, 1);
    } else {
      hide Gcd;
      var p := Pow(10, k - 1);
      var j :| m * j == 10 * p;
      CoprimeTwo(m);
      CoprimeFive(m);
      EuclidLemma(m, 2, 5 * p, j);
      var i :| m * i == 5 * p;
      EuclidLemma(m, 5, p, i);
      OnlyOne(m, k - 1);
    }
  }

  lemma MulSwap(n: int, j: int, d: int)
    ensures (n * j) * d == n * (d * j)
  {
  }

  lemma ClearedByPower(r: BigRational, k: nat)
    requires Divides(r.denom, Pow(10, k))
    ensures IsDecimal(r)
  {
    hide Gcd, Pow;
    var j: int :| r.denom * j == Pow(10, k);
    MulSwap(r.numer, j, r.denom);
    assert IsDecimalBy(r, r.numer * j, k);
  }

  lemma PowerCleared(r: BigRational, n: int, k: nat)
    requires IsDecimalBy(r, n, k)
    ensures Divides(r.denom, Pow(10, k))
  {
    hide Gcd;
    var m := if r.numer < 0 then -n else n;
    assert r.denom * m == Abs(r.numer) * Pow(10, k);
    EuclidLemma(r.denom, Abs(r.numer), Pow(10, k), m);
  }

  /** In lowest terms a fraction is a decimal exactly when its denominator divides a power of ten. */
  lemma DecimalDenominator(r: BigRational)
    ensures IsDecimal(r) <==> exists k: nat :: Divides(r.denom, Pow(10, k))
  {
    hide Divides, Pow, IsDecimalBy;
    if IsDecimal(r) {
      var k: nat, n: int :| IsDecimalBy(r, n, k);
      PowerCleared(r, n, k);
    } else if k: nat :| Divides(r.denom, Pow(10, k)) {
      ClearedByPower(r, k);
    }
  }

  lemma DivisorOfDivisor(d: int, m: int, n: int)
    requires Divides(d * m, n)
    ensures Divides(m, n)
  {
    var j: int :| d * m * j == n;
    assert m * (d * j) == n;
  }

  lemma ProductStep(p: int, q: int, den: nat, f: nat)
    requires f > 0 && den % f == 0
    ensures p * q * den == (f * p) * q * (den / f) && p * q * den == p * (f * q) * (den / f)
  {
    var e := den / f;
    assert den == f * e;
    assert p * q * (f * e) == (p * q * f) * e;
    assert p * q * f == (f * p) * q == p * (f * q);
  }

  lemma StillOdd(den: nat, f: nat, odd: nat)
    requires f > 0 && odd > 0 && den % f == 0 && den % odd != 0
    ensures (den / f) % odd != 0
  {
    if (den / f) % odd == 0 {
      var e := den / f;
      assert den == f * e && e == odd * (e / odd);
      assert den == odd * (f * (e / odd));
      DivUnique(den, odd, f * (e / odd), 0);
    }
  }

  /** The rational arm of `kap_to_sql`: divide out 2, then 5, and accept when 1 is left. */
  method BindsAsDecimal(r: BigRational) returns (accepted: bool)
    ensures accepted <==> IsDecimal(r)
  {
    hide Gcd;
    var den: nat := r.denom;
    ghost var a: nat, b: nat := 0, 0;
    while den % 2 == 0
      invariant den > 0 && r.denom == Pow(2, a) * Pow(5, b) * den
      decreases den
    {
      ProductStep(Pow(2, a), Pow(5, b), den, 2);
      den := den / 2;
      a := a + 1;
    }
    while den % 5 == 0
      invariant den > 0 && den % 2 != 0 && r.denom == Pow(2, a) * Pow(5, b) * den
      decreases den
    {
      ProductStep(Pow(2, a), Pow(5, b), den, 5);
      StillOdd(den, 5, 2);
      den := den / 5;
      b := b + 1;
    }
    accepted := den == 1;
    DecimalDenominator(r);
    if accepted {
      TwosAndFives(a, b);
      assert Divides(r.denom, Pow(10, a + b));
    } else if k: nat :| Divides(r.denom, Pow(10, k)) {
      DivisorOfDivisor(Pow(2, a) * Pow(5, b), den, Pow(10, k));
      OnlyOne(den, k);
    }
  }
}
