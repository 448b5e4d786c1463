/** `number_ordering` is lexicographic comparison of one key, hence a total preorder;
    where it is not, the inputs that fail are named exactly. */
module NumberOrder {
  import opened Common
  import opened Rationals
  import opened Doubles
  import opened Numbers

  /** Class (-inf, finite, +inf, NaN, complex), then exact value, then the tie-break
      -0.0 < other doubles < exact kinds. Complex: imaginary part, then real part. */
  datatype Key = Key(cls: int, major: real, minor: int)

  function CmpKey(a: Key, b: Key): Ordering {
    CmpInt(a.cls, b.cls).Then(CmpReal(a.major, b.major)).Then(CmpInt(a.minor, b.minor))
  }

  function NaNRank(d: Double): int { if IsNaN(d) then TWO_64 else Rank(d) }

  function KeyOf(n: KapNumber): Key {
    match n
    case Dbl(d) =>
      if IsNaN(d) then Key(3, 0.0, 0)
      else if IsInfinite(d) then Key(if d.neg then 0 else 2, 0.0, 0)
      else Key(1, ValueOf(d), if IsZero(d) && d.neg then 0 else 1)
    case Complex(re, im) => Key(4, NaNRank(im) as real, NaNRank(re))
    case _ => Key(1, ExactValue(n), 2)
  }

  /** The pair that the saturating cast misorders: 2^63 as a double against 2^63 - 1. */
  predicate Saturates(a: KapNumber, b: KapNumber) {
    a == Dbl(TwoTo63) && (b == BigInt(TWO_63 - 1) || b == Long(TWO_63 - 1))
  }

  predicate Misordered(a: KapNumber, b: KapNumber) { Saturates(a, b) || Saturates(b, a) }

  lemma FractionOne(n: int)
    ensures Value(Fraction(n, 1)) == n as real
  {
  }

  /** Inside the bounds the cast is exact, except that 2^63 saturates. */
  lemma CastOutcome(a: Double)
    requires IsFinite(a) && IsWhole(a) && WithinI64Bounds(a)
    ensures AsI64(a) as real == if a == TwoTo63 then (TWO_63 - 1) as real else ValueOf(a)
  {
    hide ValueOf, IsWhole, WithinI64Bounds;
    WholeValue(a);
    ValueTwoTo63();
    TwoTo63Unique(a);
  }

  /** What the integer comparators answer on a finite double, saturation included. */
  lemma DoubleIntegerOutcome(a: Double, b: int, td: bool)
    requires IsFinite(a)
    ensures CmpDoubleInteger(a, b, td) ==
            (var o := CmpReal(if a == TwoTo63 then (TWO_63 - 1) as real else ValueOf(a), b as real);
             if td && o == Equal then Less else o)
  {
    hide ValueOf, IsWhole, WithinI64Bounds, AsI64, ToRational, CmpRational;
    if td && IsZero(a) && b == 0 {
      ZeroValue(a);
    } else if IsWhole(a) && WithinI64Bounds(a) {
      CastOutcome(a);
      IntegersAsReals(AsI64(a), b);
    } else {
      ValueTwoTo63();
      ToRationalExact(a);
      FractionOne(b);
      CmpRationalByValue(ToRational(a), Fraction(b, 1));
    }
  }

  lemma IntegersAsReals(x: int, y: int)
    ensures CmpInt(x, y) == CmpReal(x as real, y as real)
  {
  }

  lemma DoubleRationalOutcome(a: Double, b: BigRational, td: bool)
    requires IsFinite(a)
    ensures CmpDoubleRational(a, b, td) ==
            (var o := CmpReal(ValueOf(a), Value(b)); if td && o == Equal then Less else o)
  {
    hide ValueOf, ToRational, CmpRational;
    ToRationalExact(a);
    ZeroValue(a);
    CmpRationalByValue(ToRational(a), b);
  }

  /** Doubles: totalOrder is the key order, infinities included. */
  lemma DoubleKeys(a: Double, b: Double)
    requires !IsNaN(a) && !IsNaN(b)
    ensures TotalCmp(a, b) == CmpKey(KeyOf(Dbl(a)), KeyOf(Dbl(b)))
  {
    hide ValueOf;
    if IsFinite(a) && IsFinite(b) {
      TotalCmpIsValueOrder(a, b);
      ZeroValue(a);
      ZeroValue(b);
    } else if IsFinite(a) {
      MagnitudeBelow(a, b);
    } else if IsFinite(b) {
      MagnitudeBelow(b, a);
    }
  }

  lemma MagnitudeBelow(f: Double, i: Double)
    requires IsFinite(f) && IsInfinite(i)
    ensures Magnitude(f) < Magnitude(i)
  {
  }

  lemma InfinityOutcome(d: Double, td: bool)
    requires IsInfinite(d)
    ensures forall b: int :: CmpDoubleInteger(d, b, td) == if d.neg then Less else Greater
    ensures forall r: BigRational :: CmpDoubleRational(d, r, td) == if d.neg then Less else Greater
  {
  }

  lemma NaNRankOrder(a: Double, b: Double)
    ensures CmpDoublesNaN(a, b) == CmpInt(NaNRank(a), NaNRank(b))
  {
  }

  lemma ComplexKeys(a: KapNumber, b: KapNumber)
    requires a.Complex? && b.Complex? && !(ZeroImaginary(a) && ZeroImaginary(b))
    ensures NumberOrdering(a, b) == CmpKey(KeyOf(a), KeyOf(b))
  {
    hide NaNRank, CmpDoublesNaN;
    NaNRankOrder(a.im, b.im);
    NaNRankOrder(a.re, b.re);
    IntegersAsReals(NaNRank(a.im), NaNRank(b.im));
  }

  lemma ExactAgainstDouble(x: KapNumber, d: Double)
    requires x.Long? || x.BigInt? || x.Rational?
    requires !IsNaN(d)
    ensures NumberOrdering(Dbl(d), x) == NumberOrdering(x, Dbl(d)).Reverse()
    ensures NumberOrdering(Dbl(d), x) == CmpKey(KeyOf(Dbl(d)), KeyOf(x)) <==> !Saturates(Dbl(d), x)
  {
    hide CmpDoubleInteger, CmpDoubleRational, ValueOf, Value;
    if IsFinite(d) {
      ValueTwoTo63();
      match x {
        case Long(l) => DoubleIntegerOutcome(d, l, true);
          if d == TwoTo63 { SaturationGap(l); }
        case BigInt(b) => DoubleIntegerOutcome(d, b, true);
          if d == TwoTo63 { SaturationGap(b); }
        case Rational(r) => DoubleRationalOutcome(d, r, true);
      }
    } else {
      InfinityOutcome(d, true);
    }
  }

  lemma SaturationGap(b: int)
    ensures CmpReal((TWO_63 - 1) as real, b as real) == CmpInt(TWO_63 - 1, b)
    ensures CmpReal(TWO_63 as real, b as real) == CmpInt(TWO_63, b)
  {
  }

  /** The fraction an exact number is compared as. */
  function AsFraction(n: KapNumber): (f: BigRational)
    requires n.Long? || n.BigInt? || n.Rational?
    ensures Value(f) == ExactValue(n)
  {
    match n
    case Long(l) => Fraction(l, 1)
    case BigInt(b) => Fraction(b, 1)
    case Rational(r) => r
  }

  lemma ExactPair(a: KapNumber, b: KapNumber)
    requires a.Long? || a.BigInt? || a.Rational?
    requires b.Long? || b.BigInt? || b.Rational?
    ensures NumberOrdering(a, b) == CmpReal(ExactValue(a), ExactValue(b))
    ensures NumericCmp(a, b, false) == Ok(NumberOrdering(a, b))
  {
    CmpRationalByValue(AsFraction(a), AsFraction(b));
  }

  /** The main result: among numbers with no zero-imaginary complex, `number_ordering`
      compares keys, except on the one saturating pair. */
  lemma OrderingIsKeyOrder(a: KapNumber, b: KapNumber)
    requires !ZeroImaginary(a) && !ZeroImaginary(b)
    ensures NumberOrdering(a, b) == CmpKey(KeyOf(a), KeyOf(b)) <==> !Misordered(a, b)
  {
    hide CmpDoubleInteger, CmpDoubleRational, ValueOf, Value, CmpRational, Rank;
    if a.Complex? && b.Complex? {
      ComplexKeys(a, b);
    } else if a.Complex? || b.Complex? {
    } else if a.Dbl? && b.Dbl? {
      if !IsNaN(a.d) && !IsNaN(b.d) {
        DoubleKeys(a.d, b.d);
      }
    } else if a.Dbl? {
      if !IsNaN(a.d) {
        ExactAgainstDouble(b, a.d);
      }
    } else if b.Dbl? {
      if !IsNaN(b.d) {
        ExactAgainstDouble(a, b.d);
        CmpKeyReverse(KeyOf(a), KeyOf(b));
      }
    } else {
      ExactPair(a, b);
    }
  }

  lemma CmpKeyReverse(a: Key, b: Key)
    ensures CmpKey(a, b) == CmpKey(b, a).Reverse()
  {
  }

  /** Reversal symmetry needs no exception at all. */
  lemma OrderingReverses(a: KapNumber, b: KapNumber)
    ensures NumberOrdering(b, a) == NumberOrdering(a, b).Reverse()
  {
    hide CmpDoubleInteger, CmpDoubleRational, Rank;
    if NumericCompareValid(a) && NumericCompareValid(b) {
      var x, y := Realify(a), Realify(b);
      assert NumericCmp(a, b, true) == NumericCmp(x, y, true);
      assert NumericCmp(b, a, true) == NumericCmp(y, x, true);
    }
  }

  const LowKey := Key(1, (TWO_63 - 1) as real, 2)  // of the integer 2^63 - 1
  const HighKey := Key(1, TWO_63 as real, 1)       // of the double 2^63

  lemma SaturatingKeys(a: KapNumber, b: KapNumber)
    requires Saturates(a, b)
    ensures KeyOf(a) == HighKey && KeyOf(b) == LowKey
  {
    hide ValueOf;
    ValueTwoTo63();
  }

  /** The saturating pair is ordered against its keys. */
  lemma MisorderedReverses(a: KapNumber, b: KapNumber)
    requires Misordered(a, b)
    ensures CmpKey(KeyOf(a), KeyOf(b)) != Equal
    ensures NumberOrdering(a, b) == CmpKey(KeyOf(a), KeyOf(b)).Reverse()
  {
    hide NumberOrdering, KeyOf, Saturates;
    if Saturates(a, b) {
      SaturatedOutcome(a, b);
      SaturatingKeys(a, b);
    } else {
      SaturatedOutcome(b, a);
      SaturatingKeys(b, a);
      OrderingReverses(b, a);
    }
  }

  lemma SaturatedOutcome(a: KapNumber, b: KapNumber)
    requires Saturates(a, b)
    ensures NumberOrdering(a, b) == Less
  {
    hide CmpDoubleInteger, ValueOf;
    ValueTwoTo63();
    DoubleIntegerOutcome(TwoTo63, TWO_63 - 1, true);
  }

  /** A rational from 2^63 - 1 up to, but not including, 2^63. */
  predicate Between(c: KapNumber) {
    c.Rational? && (TWO_63 - 1) as real <= Value(c.r) < TWO_63 as real
  }

  lemma BetweenIsRational(c: KapNumber)
    ensures Between(c) ==> c.Rational?
  {
  }

  predicate SqueezedBy(a: KapNumber, b: KapNumber, c: KapNumber) { Misordered(a, b) && Between(c) }

  /** Two of the three saturate, and the third is a rational between them. */
  predicate Squeezed(a: KapNumber, b: KapNumber, c: KapNumber) {
    SqueezedBy(a, b, c) || SqueezedBy(b, c, a) || SqueezedBy(a, c, b)
  }

  /** Nothing but rationals, and the saturating integers themselves, has a key in the gap. */
  lemma BetweenByKey(c: KapNumber)
    requires !ZeroImaginary(c)
    ensures CmpKey(LowKey, KeyOf(c)) != Greater && CmpKey(KeyOf(c), HighKey) == Less <==>
            Between(c) || c == Long(TWO_63 - 1) || c == BigInt(TWO_63 - 1)
  {
    hide ValueOf, Value;
    if c.Dbl? && IsFinite(c.d) && ValueOf(c.d) < TWO_63 as real {
      NoDoubleBelow(c.d);
    }
    if c.Dbl? && IsZero(c.d) {
      ZeroValue(c.d);
    }
  }

  lemma CmpKeyComposes(a: Key, b: Key, c: Key)
    ensures Composes(CmpKey(a, b), CmpKey(b, c), CmpKey(a, c))
  {
  }

  /** The outcome of a comparison, from its keys and whether its pair saturates. */
  lemma ByKeys(a: KapNumber, b: KapNumber)
    requires !ZeroImaginary(a) && !ZeroImaginary(b)
    ensures NumberOrdering(a, b)
            == if Misordered(a, b) then CmpKey(KeyOf(a), KeyOf(b)).Reverse() else CmpKey(KeyOf(a), KeyOf(b))
  {
    hide NumberOrdering, KeyOf;
    OrderingIsKeyOrder(a, b);
    if Misordered(a, b) {
      MisorderedReverses(a, b);
    }
  }

  lemma HighKeyUnique(c: KapNumber)
    requires KeyOf(c) == HighKey
    ensures c == Dbl(TwoTo63)
  {
    hide ValueOf, Value;
    if c.Dbl? && IsFinite(c.d) {
      TwoTo63Unique(c.d);
    }
  }

  /** Where a third number stands to a saturating pair: between its members, or on one side of both. */
  lemma SaturatingTriple(a: KapNumber, b: KapNumber, c: KapNumber)
    requires !ZeroImaginary(c) && Saturates(a, b)
    ensures NumberOrdering(a, b) == Less
    ensures var bc, ac := NumberOrdering(b, c), NumberOrdering(a, c);
            if Between(c) then bc != Greater && ac == Greater
            else (bc == Equal && ac == Less) || (bc == Greater && ac == Equal) || (bc == ac && bc != Equal)
  {
    hide NumberOrdering, KeyOf, Between;
    SaturatingKeys(a, b);
    BetweenByKey(c);
    ByKeys(a, b);
    ByKeys(b, c);
    ByKeys(a, c);
    if KeyOf(c) == HighKey {
      HighKeyUnique(c);
    }
    if c == Long(TWO_63 - 1) || c == BigInt(TWO_63 - 1) {
      SaturatingKeys(a, c);
    }
    BetweenIsRational(c);
  }

  /** `Composes` does not depend on the order in which the three are taken. */
  lemma ComposesPermuted(ab: Ordering, bc: Ordering, ac: Ordering)
    ensures Composes(ab, bc, ac) == Composes(bc, ac.Reverse(), ab.Reverse())
    ensures Composes(ab, bc, ac) == Composes(ab.Reverse(), ac, bc)
    ensures Composes(ab, bc, ac) == Composes(ac, bc.Reverse(), ab)
  {
  }

  lemma SqueezedPermuted(a: KapNumber, b: KapNumber, c: KapNumber)
    ensures Squeezed(a, b, c) == Squeezed(b, c, a) == Squeezed(b, a, c) == Squeezed(a, c, b)
  {
    hide Between, Saturates;
  }

  lemma SqueezedThird(a: KapNumber, b: KapNumber, c: KapNumber)
    requires Misordered(a, b)
    ensures Squeezed(a, b, c) <==> Between(c)
  {
    hide Between;
    BetweenIsRational(a);
    BetweenIsRational(b);
  }

  lemma SaturatingComposes(a: KapNumber, b: KapNumber, c: KapNumber)
    requires !ZeroImaginary(c) && Misordered(a, b)
    ensures Composes(NumberOrdering(a, b), NumberOrdering(b, c), NumberOrdering(a, c)) <==> !Between(c)
  {
    hide NumberOrdering, Between, Saturates;
    if Saturates(a, b) {
      SaturatingTriple(a, b, c);
    } else {
      SaturatingTriple(b, a, c);
      OrderingReverses(b, a);
    }
  }

  /** Transitivity, in the strong form, for any three numbers: exactly when no rational is
      squeezed into the saturating pair. */
  lemma OrderingComposes(a: KapNumber, b: KapNumber, c: KapNumber)
    requires !ZeroImaginary(a) && !ZeroImaginary(b) && !ZeroImaginary(c)
    ensures Composes(NumberOrdering(a, b), NumberOrdering(b, c), NumberOrdering(a, c)) <==> !Squeezed(a, b, c)
  {
    hide NumberOrdering, KeyOf, CmpKey, Between, Saturates, Composes;
    OrderingReverses(a, b);
    OrderingReverses(b, c);
    OrderingReverses(a, c);
    ComposesPermuted(NumberOrdering(a, b), NumberOrdering(b, c), NumberOrdering(a, c));
    SqueezedPermuted(a, b, c);
    if Misordered(a, b) {
      SaturatingComposes(a, b, c);
      SqueezedThird(a, b, c);
    } else if Misordered(b, c) {
      SaturatingComposes(b, c, a);
      SqueezedThird(b, c, a);
    } else if Misordered(a, c) {
      SaturatingComposes(a, c, b);
      SqueezedThird(a, c, b);
    } else {
      ByKeys(a, b);
      ByKeys(b, c);
      ByKeys(a, c);
      CmpKeyComposes(KeyOf(a), KeyOf(b), KeyOf(c));
    }
  }

  /** What a squeezed triple needs, and a collection of numbers may lack. */
  datatype Lacking = LacksTwoTo63 | LacksLongMax | LacksBetween

  /** Numbers on which the ordering is a total preorder as a whole: no zero imaginary parts, and
      one of the three that make a squeezed triple missing throughout. */
  predicate Regular(n: KapNumber, lacking: Lacking) {
    && !ZeroImaginary(n)
    && match lacking
       case LacksTwoTo63 => n != Dbl(TwoTo63)
       case LacksLongMax => n != Long(TWO_63 - 1) && n != BigInt(TWO_63 - 1)
       case LacksBetween => !Between(n)
  }

  lemma RegularComposes(a: KapNumber, b: KapNumber, c: KapNumber, lacking: Lacking)
    requires Regular(a, lacking) && Regular(b, lacking) && Regular(c, lacking)
    ensures Composes(NumberOrdering(a, b), NumberOrdering(b, c), NumberOrdering(a, c))
  {
    hide NumberOrdering, Between;
    OrderingComposes(a, b, c);
  }

  const PlusInfinity := Bits(false, 0x7ff, 0)
  const MinusOne := Bits(true, 1023, 0)

  /** Every complex with a zero imaginary part lies on a cycle: z <= x < y < z. */
  lemma ZeroImaginaryCycles(z: KapNumber) returns (x: KapNumber, y: KapNumber)
    requires ZeroImaginary(z)
    ensures !ZeroImaginary(x) && !ZeroImaginary(y) && !Squeezed(z, x, y)
    ensures NumberOrdering(z, x) != Greater
    ensures NumberOrdering(x, y) == Less
    ensures NumberOrdering(y, z) == Less
  {
    x := if IsNaN(z.re) then Long(0) else Dbl(PlusInfinity);
    y := Complex(Bits(false, 0, 0), MinusOne);
    if IsFinite(z.re) {
      MagnitudeBelow(z.re, PlusInfinity);
    }
  }

  predicate ComposeThree(a: KapNumber, b: KapNumber, c: KapNumber) {
    Composes(NumberOrdering(a, b), NumberOrdering(b, c), NumberOrdering(a, c))
  }

  /** Whether a number can join all those without a zero imaginary part, the squeezed triples aside. */
  ghost predicate JoinsOrder(n: KapNumber) {
    forall x: KapNumber, y: KapNumber ::
      !ZeroImaginary(x) && !ZeroImaginary(y) && !Squeezed(n, x, y) ==> ComposeThree(n, x, y)
  }

  /** A zero imaginary part is exactly what keeps a number out of the order. */
  lemma JoinsOrderExactly(n: KapNumber)
    ensures JoinsOrder(n) <==> !ZeroImaginary(n)
  {
    hide NumberOrdering;
    if ZeroImaginary(n) {
      var x, y := ZeroImaginaryCycles(n);
      OrderingReverses(n, y);
      assert !ComposeThree(n, x, y);
    } else {
      forall x: KapNumber, y: KapNumber | !ZeroImaginary(x) && !ZeroImaginary(y) && !Squeezed(n, x, y)
        ensures ComposeThree(n, x, y)
      {
        OrderingComposes(n, x, y);
      }
    }
  }

  ghost predicate AllCompose(ns: set<KapNumber>) {
    forall a, b, c :: a in ns && b in ns && c in ns ==> ComposeThree(a, b, c)
  }

  predicate AllRegular(ns: set<KapNumber>, lacking: Lacking) { forall n :: n in ns ==> Regular(n, lacking) }

  /** Lacking one of the three is exactly what makes numbers without zero imaginary parts ordered as
      a whole. */
  lemma OrderedExactly(ns: set<KapNumber>)
    requires forall n :: n in ns ==> !ZeroImaginary(n)
    ensures AllCompose(ns) <==>
            AllRegular(ns, LacksTwoTo63) || AllRegular(ns, LacksLongMax) || AllRegular(ns, LacksBetween)
  {
    hide NumberOrdering, Between, Composes, ZeroImaginary;
    forall a, b, c | a in ns && b in ns && c in ns
      ensures ComposeThree(a, b, c) <==> !Squeezed(a, b, c)
    {
      OrderingComposes(a, b, c);
    }
    if a, b, c :| a in ns && b in ns && c in ns
                  && a == Dbl(TwoTo63) && (b == Long(TWO_63 - 1) || b == BigInt(TWO_63 - 1)) && Between(c) {
      assert Saturates(a, b) && Squeezed(a, b, c);
      assert !ComposeThree(a, b, c);
    }
  }

  /** Every saturating pair lies on a cycle: some rational c has b < c < a, and yet a < b. */
  lemma SaturationCycles(a: KapNumber, b: KapNumber) returns (c: KapNumber)
    requires Saturates(a, b)
    ensures NumberOrdering(b, c) == Less && NumberOrdering(c, a) == Less && NumberOrdering(a, b) == Less
  {
    hide NumberOrdering, Make;
    MakeExact(2 * TWO_63 - 1, 2);
    var r := Make(2 * TWO_63 - 1, 2);
    assert Value(r) == TWO_63 as real - 0.5;
    c := Rational(r);
    SaturatingTriple(a, b, c);
    OrderingReverses(a, c);
    CmpRationalByValue(Fraction(TWO_63 - 1, 1), r);
    ExactPair(b, c);
  }

  /** The comparison behind `=` and `<` (no type discrimination) sees only the value. */
  function CmpValue(a: KapNumber, b: KapNumber): Ordering {
    CmpInt(KeyOf(a).cls, KeyOf(b).cls).Then(CmpReal(KeyOf(a).major, KeyOf(b).major))
  }

  /** By value the cast misplaces 2^63 against both 2^63 - 1 and 2^63 itself. */
  predicate SaturatesByValue(a: KapNumber, b: KapNumber) {
    && a == Dbl(TwoTo63)
    && (b == Long(TWO_63 - 1) || b == BigInt(TWO_63 - 1) || b == BigInt(TWO_63))
  }

  predicate Orderable(n: KapNumber) { !IsComplex(n) && !(Realify(n).Dbl? && IsNaN(Realify(n).d)) }

  /** `10 = 10.0` and `0.5 = 1r2`: every pair of real numbers is compared by exact value,
      zero-imaginary complex numbers included, but for the saturating pairs. */
  lemma ValueComparison(a: KapNumber, b: KapNumber)
    requires Orderable(a) && Orderable(b)
    ensures var x, y := Realify(a), Realify(b);
            NumericCmp(a, b, false) == Ok(CmpValue(x, y)) <==>
            !SaturatesByValue(x, y) && !SaturatesByValue(y, x)
  {
    hide CmpDoubleInteger, CmpDoubleRational, ValueOf, Value, CmpRational, Rank;
    var x, y := Realify(a), Realify(b);
    if x.Dbl? && y.Dbl? {
      DoublesByValue(x.d, y.d);
    } else if x.Dbl? {
      ExactByValue(y, x.d);
    } else if y.Dbl? {
      ExactByValue(x, y.d);
    } else {
      ExactPair(x, y);
    }
  }

  lemma DoublesByValue(a: Double, b: Double)
    requires !IsNaN(a) && !IsNaN(b)
    ensures (if FloatLess(a, b) then Less else if FloatLess(b, a) then Greater else Equal)
            == CmpValue(Dbl(a), Dbl(b))
  {
    DoubleKeys(a, b);
    if IsFinite(a) { ZeroValue(a); }
    if IsFinite(b) { ZeroValue(b); }
  }

  lemma IntegerByValue(d: Double, b: int)
    requires IsFinite(d)
    ensures CmpDoubleInteger(d, b, false) == CmpReal(ValueOf(d), b as real) <==>
            !(d == TwoTo63 && (b == TWO_63 - 1 || b == TWO_63))
  {
    DoubleIntegerOutcome(d, b, false);
    if d == TwoTo63 {
      ValueTwoTo63();
      SaturationGap(b);
    }
  }

  lemma ExactByValue(x: KapNumber, d: Double)
    requires x.Long? || x.BigInt? || x.Rational?
    requires !IsNaN(d)
    ensures NumericCmp(Dbl(d), x, false).Ok?
    ensures NumericCmp(Dbl(d), x, false).value == CmpValue(Dbl(d), x) <==> !SaturatesByValue(Dbl(d), x)
    ensures NumericCmp(x, Dbl(d), false) == Ok(NumericCmp(Dbl(d), x, false).value.Reverse())
    ensures CmpValue(x, Dbl(d)) == CmpValue(Dbl(d), x).Reverse()
  {
    hide CmpDoubleInteger, CmpDoubleRational;
    hide ValueOf, Value;
    if IsFinite(d) {
      match x {
        case Long(l) => IntegerByValue(d, l);
        case BigInt(b) => IntegerByValue(d, b);
        case Rational(r) => DoubleRationalOutcome(d, r, false);
      }
    } else {
      InfinityOutcome(d, false);
    }
  }
}
