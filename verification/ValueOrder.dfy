/** What the total order of values (kap-core/src/lib.rs) answers, kind by kind, in terms of code
    points, bytes, lengths and exact values alone. */
module ValueOrder {
  import opened Common
  import opened Numbers
  import opened NumberOrder
  import opened Values

  /** Where two sequences part: at their first difference, or where the shorter one ends. */
  predicate Part<T(==)>(a: seq<T>, b: seq<T>, i: nat) {
    i <= |a| && i <= |b| && a[..i] == b[..i] && (i < |a| && i < |b| ==> a[i] != b[i])
  }

  lemma PartingPoint<T>(a: seq<T>, b: seq<T>) returns (i: nat)
    ensures Part(a, b, i)
    ensures a == b <==> i == |a| == |b|
  {
    i := 0;
    while i < |a| && i < |b| && a[i] == b[i]
      invariant i <= |a| && i <= |b| && a[..i] == b[..i]
    {
      i := i + 1;
    }
    assert a[..|a|] == a && b[..|b|] == b;
  }

  /** The outcome at the parting point: the smaller symbol, or the shorter sequence, comes first. */
  predicate DecidedBy(o: Ordering, x: int, y: int) {
    (o == Less <==> x < y) && (o == Equal <==> x == y) && (o == Greater <==> x > y)
  }

  // ---- characters and strings ----

  lemma CharsByCode(a: char, b: char)
    ensures TotalCmp(Char(a), Char(b)).Some? && DecidedBy(TotalCmp(Char(a), Char(b)).value, a as int, b as int)
  {
  }

  /** Strings are ordered by the code points at their first difference, a beginning before the whole. */
  lemma StringsByCode(s: string, t: string, i: nat)
    requires Part(s, t, i)
    ensures TotalCmp(Str(s), Str(t)).Some?
    ensures if i < |s| && i < |t| then DecidedBy(TotalCmp(Str(s), Str(t)).value, s[i] as int, t[i] as int)
            else DecidedBy(TotalCmp(Str(s), Str(t)).value, |s|, |t|)
  {
    hide TotalCmp, LexCmp, Depth;
    StringsByElements(s, t);
    if s != "" && t != "" {
      var a, b := Elements(Str(s)), Elements(Str(t));
      forall k | 0 <= k < i ensures TotalCmp(a[k], b[k]) == Some(Equal) {
        assert s[..i][k] == t[..i][k];
        CharsByCode(s[k], t[k]);
      }
      if i < |s| && i < |t| {
        CharsByCode(s[i], t[i]);
        LexCmpDecides(a, b, Depth(Str(s)) + Depth(Str(t)), i);
      } else {
        LexCmpEnds(a, b, Depth(Str(s)) + Depth(Str(t)), i);
      }
    }
  }

  lemma StringsByElements(s: string, t: string)
    ensures TotalCmp(Str(s), Str(t)) ==
            if s == "" && t == "" then Some(Equal) else if s == "" then Some(Less) else if t == "" then Some(Greater)
            else LexCmp(Elements(Str(s)), Elements(Str(t)), Depth(Str(s)) + Depth(Str(t)))
  {
    if s == "" && t == "" {
      assert Dimensions(Str(s)) == [0];
      CmpNatsEqual([0], [0]);
      assert Elements(Str(s)) == [];
    }
  }

  /** Behind equal elements the lengths decide. */
  lemma {:induction false} LexCmpEnds(a: seq<Value>, b: seq<Value>, bound: nat, i: nat)
    requires forall i, j :: 0 <= i < |a| && 0 <= j < |b| ==> Depth(a[i]) + Depth(b[j]) < bound
    requires i <= |a| && i <= |b| && (i == |a| || i == |b|)
    requires forall k :: 0 <= k < i ==> TotalCmp(a[k], b[k]) == Some(Equal)
    ensures LexCmp(a, b, bound).Some? && DecidedBy(LexCmp(a, b, bound).value, |a|, |b|)
    decreases i
  {
    hide TotalCmp, Depth;
    if i > 0 {
      assert forall k :: 0 <= k < i - 1 ==> a[1..][k] == a[k + 1] && b[1..][k] == b[k + 1];
      LexCmpEnds(a[1..], b[1..], bound, i - 1);
    }
  }

  // ---- arrays and lists ----

  /** The array of lower rank comes first, whatever the two hold; of two strings or arrays of rank 0
      or above 1 the dimensions decide next, the last ones varying fastest. */
  lemma ArraysByShape(d: seq<nat>, xs: seq<Value>, e: seq<nat>, ys: seq<Value>, i: nat)
    requires Part(d, e, i) && d != e && !(|d| == 1 && |e| == 1)
    ensures var o := TotalCmp(Array(d, xs), Array(e, ys));
            o.Some? && if |d| != |e| then DecidedBy(o.value, |d|, |e|) else DecidedBy(o.value, d[i], e[i])
  {
    hide LexCmp, Depth;
    if |d| == |e| {
      CmpNatsAt(d, e, i);
    }
  }

  lemma StringAgainstArray(s: string, d: seq<nat>, xs: seq<Value>)
    requires |d| != if s == "" then 0 else 1
    ensures var o := TotalCmp(Str(s), Array(d, xs));
            o.Some? && DecidedBy(o.value, if s == "" then 0 else 1, |d|)
  {
    hide LexCmp, Depth;
  }

  lemma {:induction false} CmpNatsAt(a: seq<nat>, b: seq<nat>, i: nat)
    requires Part(a, b, i)
    ensures if i < |a| && i < |b| then DecidedBy(CmpNats(a, b), a[i], b[i]) else DecidedBy(CmpNats(a, b), |a|, |b|)
    decreases i
  {
    if i > 0 {
      assert a[0] == a[..i][0] && b[0] == b[..i][0];
      assert a[1..][..i - 1] == a[..i][1..] && b[1..][..i - 1] == b[..i][1..];
      CmpNatsAt(a[1..], b[1..], i - 1);
    }
  }

  /** Shapes under which the elements decide: equal ones, and any two vectors. */
  predicate Alike(d: seq<nat>, e: seq<nat>) { d == e || (|d| == 1 && |e| == 1) }

  /** The first pair of elements that differ decides, as it does between lists; where one runs out
      of elements the shorter comes first. */
  lemma ElementsDecide(d: seq<nat>, xs: seq<Value>, e: seq<nat>, ys: seq<Value>, i: nat)
    requires Alike(d, e) && i <= |xs| && i <= |ys|
    requires forall k :: 0 <= k < i ==> TotalCmp(xs[k], ys[k]) == Some(Equal)
    ensures i < |xs| && i < |ys| && TotalCmp(xs[i], ys[i]) != Some(Equal) ==>
              && TotalCmp(Array(d, xs), Array(e, ys)) == TotalCmp(xs[i], ys[i])
              && TotalCmp(List(xs), List(ys)) == TotalCmp(xs[i], ys[i])
    ensures i == |xs| || i == |ys| ==>
              && TotalCmp(Array(d, xs), Array(e, ys)).Some? && TotalCmp(List(xs), List(ys)).Some?
              && DecidedBy(TotalCmp(Array(d, xs), Array(e, ys)).value, |xs|, |ys|)
              && DecidedBy(TotalCmp(List(xs), List(ys)).value, |xs|, |ys|)
  {
    hide TotalCmp, Depth, LexCmp;
    var m, n := Depth(Array(d, xs)) + Depth(Array(e, ys)), Depth(List(xs)) + Depth(List(ys));
    ElementDepths(d, xs, e, ys);
    ArraysByElements(d, xs, e, ys, m);
    ListsByElements(xs, ys, n);
    if i == |xs| || i == |ys| {
      LexCmpEnds(xs, ys, m, i);
      LexCmpEnds(xs, ys, n, i);
    } else if TotalCmp(xs[i], ys[i]) != Some(Equal) {
      LexCmpDecides(xs, ys, m, i);
      LexCmpDecides(xs, ys, n, i);
    }
  }

  lemma ElementDepths(d: seq<nat>, xs: seq<Value>, e: seq<nat>, ys: seq<Value>)
    ensures forall i, j :: 0 <= i < |xs| && 0 <= j < |ys| ==>
              && Depth(xs[i]) + Depth(ys[j]) < Depth(Array(d, xs)) + Depth(Array(e, ys))
              && Depth(xs[i]) + Depth(ys[j]) < Depth(List(xs)) + Depth(List(ys))
  {
  }

  lemma ArraysByElements(d: seq<nat>, xs: seq<Value>, e: seq<nat>, ys: seq<Value>, bound: nat)
    requires Alike(d, e) && bound == Depth(Array(d, xs)) + Depth(Array(e, ys))
    requires forall i, j :: 0 <= i < |xs| && 0 <= j < |ys| ==> Depth(xs[i]) + Depth(ys[j]) < bound
    ensures TotalCmp(Array(d, xs), Array(e, ys)) == LexCmp(xs, ys, bound)
  {
    hide LexCmp, CmpNats, Depth;
    CmpNatsEqual(d, e);
  }

  lemma ListsByElements(xs: seq<Value>, ys: seq<Value>, bound: nat)
    requires bound == Depth(List(xs)) + Depth(List(ys))
    requires forall i, j :: 0 <= i < |xs| && 0 <= j < |ys| ==> Depth(xs[i]) + Depth(ys[j]) < bound
    ensures TotalCmp(List(xs), List(ys)) == LexCmp(xs, ys, bound)
  {
    hide LexCmp, CmpNats, Depth;
  }

  // ---- numbers, symbols and kinds ----

  /** Exact numbers are ordered by value. */
  lemma NumbersByValue(a: KapNumber, b: KapNumber)
    requires Exact(a) && Exact(b)
    ensures TotalCmp(Number(a), Number(b)).Some?
    ensures var o := TotalCmp(Number(a), Number(b)).value;
            && (o == Less <==> ExactValue(a) < ExactValue(b))
            && (o == Equal <==> ExactValue(a) == ExactValue(b))
  {
    hide NumberOrdering, ExactValue;
    ExactPair(a, b);
  }

  /** A finite double and an exact number are ordered by value, the double first on a tie, but
      2^63 is taken for 2^63 - 1 when the number is an integer. */
  lemma DoubleByValue(d: Doubles.Double, n: KapNumber)
    requires Doubles.IsFinite(d) && Exact(n)
    ensures TotalCmp(Number(Dbl(d)), Number(n)).Some?
    ensures var v := if d == Doubles.TwoTo63 && !n.Rational? then (TWO_63 - 1) as real else Doubles.ValueOf(d);
            TotalCmp(Number(Dbl(d)), Number(n)).value == if v <= ExactValue(n) then Less else Greater
  {
    hide CmpDoubleInteger, CmpDoubleRational, Doubles.ValueOf;
    match n {
      case Long(l) => DoubleIntegerOutcome(d, l, true);
      case BigInt(b) => DoubleIntegerOutcome(d, b, true);
      case Rational(r) => DoubleRationalOutcome(d, r, true);
    }
  }

  /** Finite doubles: by value, -0.0 before 0.0. */
  lemma DoublesByValue(a: Doubles.Double, b: Doubles.Double)
    requires Doubles.IsFinite(a) && Doubles.IsFinite(b)
    ensures TotalCmp(Number(Dbl(a)), Number(Dbl(b))).Some?
    ensures var x, y := Doubles.ValueOf(a), Doubles.ValueOf(b);
            var o := TotalCmp(Number(Dbl(a)), Number(Dbl(b))).value;
            && (o == Less <==> x < y || (x == y && a.neg && !b.neg))
            && (o == Equal <==> a == b)
  {
    hide Doubles.ValueOf, Doubles.Rank;
    Doubles.TotalCmpIsValueOrder(a, b);
    Doubles.ZeroValue(a);
    Doubles.ZeroValue(b);
    if Doubles.TotalCmp(a, b) == Equal { Doubles.RankInjective(a, b); }
    if a == b { assert Doubles.TotalCmp(a, b) == Equal; }
  }

  /** Infinities lie outside, and every NaN is above all other doubles and equal to every NaN. */
  lemma SpecialDoubles(a: Doubles.Double, b: Doubles.Double)
    ensures TotalCmp(Number(Dbl(a)), Number(Dbl(b))).Some?
    ensures var o := TotalCmp(Number(Dbl(a)), Number(Dbl(b))).value;
            && (Doubles.IsNaN(a) ==> o == if Doubles.IsNaN(b) then Equal else Greater)
            && (!Doubles.IsNaN(a) && Doubles.IsNaN(b) ==> o == Less)
            && (Doubles.IsInfinite(a) && Doubles.IsFinite(b) ==> o == if a.neg then Less else Greater)
            && (Doubles.IsInfinite(a) && Doubles.IsInfinite(b) ==>
                  o == if a.neg == b.neg then Equal else if a.neg then Less else Greater)
  {
    if Doubles.IsFinite(b) && Doubles.IsInfinite(a) {
      MagnitudeBelow(b, a);
    }
  }

  /** An infinity against an exact number, and NaN, which comes after every exact number. */
  lemma SpecialAgainstExact(d: Doubles.Double, n: KapNumber)
    requires !Doubles.IsFinite(d) && Exact(n)
    ensures TotalCmp(Number(Dbl(d)), Number(n))
            == Some(if Doubles.IsInfinite(d) && d.neg then Less else Greater)
  {
    if Doubles.IsInfinite(d) { InfinityOutcome(d, true); }
  }

  /** A complex number with a nonzero imaginary part comes after all numbers of other kinds; against
      a complex number of either sort the imaginary part decides, then the real part. */
  lemma ComplexLast(z: KapNumber, n: KapNumber)
    requires IsComplex(z)
    ensures !n.Complex? ==> TotalCmp(Number(z), Number(n)) == Some(Greater)
    ensures n.Complex? ==>
              var im, re := Number(Dbl(z.im)), Number(Dbl(z.re));
              TotalCmp(Number(z), Number(n)) ==
              if TotalCmp(im, Number(Dbl(n.im))) != Some(Equal) then TotalCmp(im, Number(Dbl(n.im)))
              else TotalCmp(re, Number(Dbl(n.re)))
  {
    hide Doubles.Rank;
  }

  /** One with a zero imaginary part is compared by its real part, as long as no NaN takes part. */
  lemma ZeroImaginaryAsReal(z: KapNumber, n: KapNumber)
    requires ZeroImaginary(z) && !Doubles.IsNaN(z.re)
    requires Exact(n) || (n.Dbl? && !Doubles.IsNaN(n.d))
    ensures TotalCmp(Number(z), Number(n)) == TotalCmp(Number(Dbl(z.re)), Number(n))
  {
    hide CmpDoubleInteger, CmpDoubleRational, Doubles.Rank;
  }

  /** Symbols: no namespace first, then by the bytes of the namespace, then by those of the name. */
  lemma SymbolsByName(n: seq<byte>, ns: Option<seq<byte>>, m: seq<byte>, ms: Option<seq<byte>>, i: nat)
    requires if ns == ms then Part(n, m, i) else ns.Some? && ms.Some? ==> Part(ns.value, ms.value, i)
    ensures var o := TotalCmp(Symbol(n, ns), Symbol(m, ms));
            && o.Some?
            && (ns == ms ==>
                  if i < |n| && i < |m| then DecidedBy(o.value, n[i], m[i]) else DecidedBy(o.value, |n|, |m|))
            && (ns.None? && ms.Some? ==> o.value == Less)
            && (ns.Some? && ms.None? ==> o.value == Greater)
            && (ns != ms && ns.Some? && ms.Some? ==>
                  var x, y := ns.value, ms.value;
                  if i < |x| && i < |y| then DecidedBy(o.value, x[i], y[i]) else DecidedBy(o.value, |x|, |y|))
  {
    hide CmpNats;
    if ns == ms {
      if ns.Some? { CmpNatsEqual(ns.value, ns.value); }
      CmpNatsAt(n, m, i);
    } else if ns.Some? && ms.Some? {
      CmpNatsEqual(ns.value, ms.value);
      CmpNatsAt(ns.value, ms.value, i);
    }
  }

  predicate Empty(v: Value) { v.Null? || v.Nil? }

  predicate Ranked(v: Value) { v.Number? || v.Char? || v.Symbol? || v.Str? || v.Array? || v.List? || Empty(v) }

  /** number < char < symbol < string or array < list < null or nil, and no outcome for the rest. */
  lemma KindsInOrder(a: Value, b: Value)
    ensures a.Number? && Ranked(b) && !b.Number? ==> TotalCmp(a, b) == Some(Less)
    ensures a.Char? && Ranked(b) && !b.Number? && !b.Char? ==> TotalCmp(a, b) == Some(Less)
    ensures a.Symbol? && (b.Str? || b.Array? || b.List? || Empty(b)) ==> TotalCmp(a, b) == Some(Less)
    ensures (a.Str? || a.Array?) && (b.List? || Empty(b)) ==> TotalCmp(a, b) == Some(Less)
    ensures a.List? && Empty(b) ==> TotalCmp(a, b) == Some(Less)
    ensures Empty(a) && Empty(b) ==> TotalCmp(a, b) == Some(Equal)
    ensures !Ranked(a) || !Ranked(b) ==> TotalCmp(a, b) == None
  {
    hide NumberOrdering, LexCmp, CmpNats, CmpNamespace, Elements, Dimensions, Depth;
  }
}
