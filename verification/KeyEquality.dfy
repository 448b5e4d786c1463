/** Equality of map keys (`values_key_equal` in kap-core/src/map.rs): where it is reflexive and
    transitive, and the canonical keys it stands for. */
module KeyEquality {
  import opened Common
  import opened Rationals
  import opened Doubles
  import opened Numbers
  import opened NumberOrder
  import opened Values

  /** The float `==`. */
  predicate FloatEqual(a: Double, b: Double) {
    !IsNaN(a) && !IsNaN(b) && ((IsZero(a) && IsZero(b)) || a == b)
  }

  predicate NumberKeyEqual(x: KapNumber, y: KapNumber) {
    if x.Complex? && y.Complex? then FloatEqual(x.re, y.re) && FloatEqual(x.im, y.im)
    else if IsComplex(x) || IsComplex(y) then false
    else NumericCmp(x, y, true) == Ok(Equal)
  }

  const DEFAULT_NS: seq<byte> := [100, 101, 102, 97, 117, 108, 116]

  function NormalizeNs(ns: Option<seq<byte>>): seq<byte> { if ns.None? then DEFAULT_NS else ns.value }

  predicate JvmScalarEqual(x: JvmScalar, y: JvmScalar) {
    if x.Floating? && y.Floating? then x.single == y.single && FloatEqual(x.d, y.d) else x.Fixed? && x == y
  }

  /** The derived equality of JVM values. */
  predicate JvmEqual(x: JvmValue, y: JvmValue) {
    match (x, y)
    case (Scalar(s), Scalar(t)) => JvmScalarEqual(s, t)
    case (ObjectArray(e, xs), ObjectArray(f, ys)) =>
      e == f && |xs| == |ys| && forall i :: 0 <= i < |xs| ==> JvmScalarEqual(xs[i], ys[i])
    case (Nominal(_, _), Nominal(_, _)) => x == y
    case _ => false
  }

  /** `values_key_equal`: everything not listed, `Nil` included, equals nothing. */
  predicate KeyEqual(a: Value, b: Value)
    decreases a, 1
  {
    match (a, b)
    case (Number(x), Number(y)) => NumberKeyEqual(x, y)
    case (Char(x), Char(y)) => x == y
    case (Str(x), Str(y)) => x == y
    case (Null, Null) => true
    case (Timestamp(x), Timestamp(y)) => x == y
    case (Jvm(x), Jvm(y)) => JvmEqual(x, y)
    case (Lock(_, x), Lock(_, y)) => x == y
    case (Condvar(x), Condvar(y)) => x == y
    case (Symbol(n1, ns1), Symbol(n2, ns2)) => n1 == n2 && NormalizeNs(ns1) == NormalizeNs(ns2)
    case (Array(dx, xs), Array(dy, ys)) => dx == dy && AllKeyEqual(xs, ys)
    case (List(xs), List(ys)) => AllKeyEqual(xs, ys)
    case _ => false
  }

  predicate AllKeyEqual(xs: seq<Value>, ys: seq<Value>)
    decreases xs, 0
  {
    |xs| == |ys| && forall i :: 0 <= i < |xs| ==> KeyEqual(xs[i], ys[i])
  }

  // ---- keys kind by kind ----

  /** No namespace, or the one whose bytes spell "default". */
  predicate InDefault(ns: Option<seq<byte>>) {
    ns == None || ns == Some([0x64, 0x65, 0x66, 0x61, 0x75, 0x6c, 0x74])
  }

  /** Symbols are equal keys if and only if their names agree and their namespaces do, no namespace
      and the default one being the same. */
  lemma SymbolKeys(n: seq<byte>, a: Option<seq<byte>>, m: seq<byte>, b: Option<seq<byte>>)
    ensures KeyEqual(Symbol(n, a), Symbol(m, b)) <==> n == m && (a == b || (InDefault(a) && InDefault(b)))
  {
  }

  /** Kinds without parts are compared by their contents, locks and condition variables by identity. */
  lemma LeafKeys(a: Value, b: Value)
    requires a.Char? || a.Str? || a.Null? || a.Timestamp? || a.Condvar? || a.Lock?
    ensures KeyEqual(a, b) <==> if a.Lock? then b.Lock? && a.lockId == b.lockId else a == b
  {
  }

  /** Arrays agree in shape and elements, and lists in their elements. */
  lemma CompoundKeys(d: seq<nat>, xs: seq<Value>, e: seq<nat>, ys: seq<Value>)
    ensures KeyEqual(Array(d, xs), Array(e, ys)) <==>
            d == e && |xs| == |ys| && forall i :: 0 <= i < |xs| ==> KeyEqual(xs[i], ys[i])
    ensures KeyEqual(List(xs), List(ys)) <==>
            |xs| == |ys| && forall i :: 0 <= i < |xs| ==> KeyEqual(xs[i], ys[i])
  {
  }

  /** Values of different kinds are different keys, and some kinds equal nothing. */
  lemma KindsApart(a: Value, b: Value)
    ensures a.Array? != b.Array? || a.List? != b.List? || a.Number? != b.Number? || a.Symbol? != b.Symbol? ==>
              !KeyEqual(a, b)
    ensures a.Nil? || b.Nil? || a.Opaque? || b.Opaque? ==> !KeyEqual(a, b)
  {
    hide NumberKeyEqual, JvmEqual, NormalizeNs;
  }

  /** The float equality is equality of values; infinities are equal when their signs are, NaNs never. */
  lemma FloatsByValue(a: Double, b: Double)
    ensures IsFinite(a) && IsFinite(b) ==> (FloatEqual(a, b) <==> ValueOf(a) == ValueOf(b))
    ensures IsInfinite(a) ==> (FloatEqual(a, b) <==> IsInfinite(b) && a.neg == b.neg)
    ensures IsNaN(a) || IsNaN(b) ==> !FloatEqual(a, b)
  {
    hide ValueOf, Doubles.Rank;
    if IsFinite(a) && IsFinite(b) {
      TotalCmpIsValueOrder(a, b);
      ZeroValue(a);
      ZeroValue(b);
      DoubleTies(a, b);
    }
  }

  /** Exact numbers are equal keys when their values are; a double equals only the same bit pattern,
      and no exact number. */
  lemma NumberKeysByValue(x: KapNumber, y: KapNumber)
    ensures Exact(x) && Exact(y) ==> (KeyEqual(Number(x), Number(y)) <==> ExactValue(x) == ExactValue(y))
    ensures x.Dbl? && y.Dbl? ==> (KeyEqual(Number(x), Number(y)) <==> x.d == y.d)
    ensures Exact(x) && !Exact(y) ==> !KeyEqual(Number(x), Number(y))
    ensures x.Complex? && y.Complex? ==>
              (KeyEqual(Number(x), Number(y)) <==> FloatEqual(x.re, y.re) && FloatEqual(x.im, y.im))
    ensures x.Complex? && y.Dbl? ==> (KeyEqual(Number(x), Number(y)) <==> IsZero(x.im) && x.re == y.d)
  {
    hide NumberKeyEqual, ExactValue;
    NumberKeyCases(x, y);
  }

  // ---- when number keys chain ----

  /** A complex number with zero imaginary part whose real part is zero or not a number. */
  predicate Awkward(n: KapNumber) { ZeroImaginary(n) && (IsZero(n.re) || IsNaN(n.re)) }

  predicate BothZero(n: KapNumber) { ZeroImaginary(n) && IsZero(n.re) }

  /** The chains x = y = z that do not close: through a complex zero, from a real zero to a complex
      one of the other sign; and through a NaN, between two complex numbers. */
  predicate BrokenChain(x: KapNumber, y: KapNumber, z: KapNumber) {
    || (BothZero(y) && x.Dbl? && z.Complex? && z.re != x.d)
    || (BothZero(y) && z.Dbl? && x.Complex? && x.re != z.d)
    || (y.Dbl? && IsNaN(y.d) && x.Complex? && z.Complex?)
  }

  /** Equality of numbers as keys, by kind. */
  lemma NumberKeyCases(x: KapNumber, y: KapNumber)
    ensures x.Complex? && y.Complex? ==>
              (NumberKeyEqual(x, y) <==> FloatEqual(x.re, y.re) && FloatEqual(x.im, y.im))
    ensures !(x.Complex? && y.Complex?) && (x.Complex? || x.Dbl?) && (y.Complex? || y.Dbl?) ==>
              (NumberKeyEqual(x, y) <==> !IsComplex(x) && !IsComplex(y) && Realify(x) == Realify(y))
    ensures Exact(x) && Exact(y) ==> (NumberKeyEqual(x, y) <==> ExactValue(x) == ExactValue(y))
    ensures Exact(x) != Exact(y) ==> !NumberKeyEqual(x, y)
  {
    if Exact(x) && Exact(y) {
      hide ExactValue;
      ExactPair(x, y);
    } else if !Exact(x) && !Exact(y) {
      hide Doubles.Rank, ToRational, AsI64, IsWhole, WithinI64Bounds;
      if Realify(x).Dbl? && Realify(y).Dbl? {
        DoubleTies(Realify(x).d, Realify(y).d);
      }
    } else {
      hide ToRational, CmpRational, AsI64, IsWhole, WithinI64Bounds, Doubles.Rank, ExactValue;
    }
  }

  lemma DoubleTies(a: Double, b: Double)
    ensures Doubles.TotalCmp(a, b) == Equal <==> a == b
  {
    hide Doubles.Rank;
    if Doubles.TotalCmp(a, b) == Equal { RankInjective(a, b); }
  }

  /** A chain of equal numbers closes exactly when it is not one of the broken ones. */
  lemma NumberKeysChain(x: KapNumber, y: KapNumber, z: KapNumber)
    requires NumberKeyEqual(x, y) && NumberKeyEqual(y, z)
    ensures NumberKeyEqual(x, z) <==> !BrokenChain(x, y, z)
  {
    hide NumberKeyEqual, ExactValue;
    NumberKeyCases(x, y);
    NumberKeyCases(y, z);
    NumberKeyCases(x, z);
  }

  /** x = y = z does not close although both its links hold. */
  predicate Fails(x: KapNumber, y: KapNumber, z: KapNumber) {
    NumberKeyEqual(x, y) && NumberKeyEqual(y, z) && !NumberKeyEqual(x, z)
  }

  /** Transitivity never fails without an awkward number... */
  lemma FailureIsAwkward(x: KapNumber, y: KapNumber, z: KapNumber)
    requires Fails(x, y, z)
    ensures Awkward(x) || Awkward(y) || Awkward(z)
    ensures IsZeroOrNaN(x) && IsZeroOrNaN(y) && IsZeroOrNaN(z)
  {
    hide NumberKeyEqual, ExactValue;
    NumberKeysChain(x, y, z);
    NumberKeyCases(x, y);
    NumberKeyCases(y, z);
  }

  predicate IsZeroOrNaN(n: KapNumber) { Realify(n).Dbl? && (IsZero(Realify(n).d) || IsNaN(Realify(n).d)) }

  /** ...and each of those numbers takes part in some failure. */
  lemma FailureThrough(n: KapNumber) returns (x: KapNumber, y: KapNumber, z: KapNumber)
    requires IsZeroOrNaN(n)
    ensures Fails(x, y, z) && n in [x, y, z]
  {
    hide NumberKeyEqual, ExactValue;
    var d := Realify(n).d;
    if IsNaN(d) {
      y := Dbl(d);
      x := if n.Complex? then n else Complex(d, Bits(false, 0, 0));
      z := x;
    } else {
      x := Dbl(d);
      y := if n.Complex? then n else Complex(d, Bits(false, 0, 0));
      z := Complex(d.(neg := !d.neg), Bits(false, 0, 0));
    }
    NumberKeyCases(x, y);
    NumberKeyCases(y, z);
    NumberKeyCases(x, z);
  }

  ghost predicate TakesPartInFailure(n: KapNumber) {
    exists x: KapNumber, y: KapNumber, z: KapNumber :: Fails(x, y, z) && n in [x, y, z]
  }

  /** The numbers on which transitivity of key equality can fail are the zeros and NaNs, real or
      with a zero imaginary part, and no others. */
  lemma FailingNumbers(n: KapNumber)
    ensures TakesPartInFailure(n) <==> IsZeroOrNaN(n)
  {
    hide Fails, IsZeroOrNaN;
    if IsZeroOrNaN(n) {
      var x, y, z := FailureThrough(n);
    }
    if x: KapNumber, y: KapNumber, z: KapNumber :| Fails(x, y, z) && n in [x, y, z] {
      FailureIsAwkward(x, y, z);
    }
  }

  // ---- canonical keys ----

  datatype CanonScalar = CFloating(single: bool, d: Bits) | CFixed(kind: nat, contents: seq<int>)

  datatype Canon =
    | CExact(v: real)
    | CDouble(d: Bits)
    | CComplex(re: Bits, im: Bits)
    | CChar(c: char)
    | CStr(s: string)
    | CNull
    | CTime(ms: int)
    | CScalar(scalar: CanonScalar)
    | CObjects(elem: nat, data: seq<CanonScalar>)
    | CNominal(kind: nat, parts: seq<seq<byte>>)
    | CLock(id: nat)
    | CCondvar(id: nat)
    | CSymbol(name: seq<byte>, ns: seq<byte>)
    | CArray(dims: seq<nat>, elems: seq<Canon>)
    | CList(items: seq<Canon>)

  /** The two zeros made one. */
  function Unsigned(d: Double): Bits { if IsZero(d) then Bits(false, 0, 0) else d }

  lemma UnsignedTies(a: Double, b: Double)
    requires !IsNaN(a) && !IsNaN(b)
    ensures FloatEqual(a, b) <==> Unsigned(a) == Unsigned(b)
  {
  }

  /** Numbers that equal themselves as keys, the awkward ones aside. */
  predicate PlainNumber(n: KapNumber) { n.Complex? ==> !IsNaN(n.re) && !IsNaN(n.im) && !Awkward(n) }

  predicate PlainScalar(s: JvmScalar) { s.Floating? ==> !IsNaN(s.d) }

  predicate PlainJvm(j: JvmValue) {
    match j
    case Scalar(s) => PlainScalar(s)
    case ObjectArray(_, data) => forall i :: 0 <= i < |data| ==> PlainScalar(data[i])
    case Nominal(_, _) => true
  }

  /** Values on which key equality is an equivalence, to any depth. */
  predicate Plain(v: Value) {
    match v
    case Number(n) => PlainNumber(n)
    case Array(_, es) => forall i :: 0 <= i < |es| ==> Plain(es[i])
    case List(es) => forall i :: 0 <= i < |es| ==> Plain(es[i])
    case Jvm(j) => PlainJvm(j)
    case Nil => false
    case Opaque(_) => false
    case _ => true
  }

  predicate AllPlain(vs: seq<Value>) { forall i :: 0 <= i < |vs| ==> Plain(vs[i]) }

  /** Exact numbers by value, doubles by bit pattern, a complex number with zero imaginary part as
      its real part, any other by both parts with the zeros made one. */
  function CanonNumber(n: KapNumber): Canon {
    match Realify(n)
    case Dbl(d) => CDouble(d)
    case Complex(re, im) => CComplex(Unsigned(re), Unsigned(im))
    case x => CExact(ExactValue(x))
  }

  function CanonOfScalar(s: JvmScalar): CanonScalar {
    match s
    case Floating(single, d) => CFloating(single, Unsigned(d))
    case Fixed(kind, contents) => CFixed(kind, contents)
  }

  function CanonOfScalars(data: seq<JvmScalar>): seq<CanonScalar> {
    seq(|data|, i requires 0 <= i < |data| => CanonOfScalar(data[i]))
  }

  function CanonOfJvm(j: JvmValue): Canon {
    match j
    case Scalar(s) => CScalar(CanonOfScalar(s))
    case ObjectArray(elem, data) => CObjects(elem, CanonOfScalars(data))
    case Nominal(kind, parts) => CNominal(kind, parts)
  }

  function CanonOf(v: Value): Canon
    requires Plain(v)
    decreases v, 1
  {
    match v
    case Number(n) => CanonNumber(n)
    case Char(c) => CChar(c)
    case Str(s) => CStr(s)
    case Null => CNull
    case Timestamp(ms) => CTime(ms)
    case Jvm(j) => CanonOfJvm(j)
    case Lock(_, id) => CLock(id)
    case Condvar(id) => CCondvar(id)
    case Symbol(name, ns) => CSymbol(name, NormalizeNs(ns))
    case Array(dims, es) => CArray(dims, CanonAll(es))
    case List(es) => CList(CanonAll(es))
  }

  function CanonAll(vs: seq<Value>): (r: seq<Canon>)
    requires AllPlain(vs)
    ensures |r| == |vs|
    decreases vs, 0
  {
    if vs == [] then [] else CanonAll(vs[..|vs| - 1]) + [CanonOf(vs[|vs| - 1])]
  }

  lemma {:induction false} CanonAllAt(vs: seq<Value>, i: nat)
    requires AllPlain(vs) && i < |vs|
    ensures CanonAll(vs)[i] == CanonOf(vs[i])
  {
    hide CanonOf, Plain;
    if i < |vs| - 1 {
      CanonAllAt(vs[..|vs| - 1], i);
    }
  }

  lemma NumberKeys(x: KapNumber, y: KapNumber)
    requires PlainNumber(x) && PlainNumber(y)
    ensures NumberKeyEqual(x, y) <==> CanonNumber(x) == CanonNumber(y)
  {
    hide NumberKeyEqual, ExactValue;
    NumberKeyCases(x, y);
  }

  lemma JvmKeys(x: JvmValue, y: JvmValue)
    requires PlainJvm(x) && PlainJvm(y)
    ensures JvmEqual(x, y) <==> CanonOfJvm(x) == CanonOfJvm(y)
  {
    hide FloatEqual, Unsigned;
    if x.Scalar? && y.Scalar? {
      ScalarKeys(x.s, y.s);
    } else if x.ObjectArray? && y.ObjectArray? {
      ObjectKeys(x.data, y.data);
    }
  }

  lemma ObjectKeys(xs: seq<JvmScalar>, ys: seq<JvmScalar>)
    requires forall i :: 0 <= i < |xs| ==> PlainScalar(xs[i])
    requires forall i :: 0 <= i < |ys| ==> PlainScalar(ys[i])
    ensures (|xs| == |ys| && forall i :: 0 <= i < |xs| ==> JvmScalarEqual(xs[i], ys[i]))
            <==> CanonOfScalars(xs) == CanonOfScalars(ys)
  {
    hide JvmScalarEqual, CanonOfScalar, PlainScalar;
    var cx, cy := CanonOfScalars(xs), CanonOfScalars(ys);
    if |xs| == |ys| {
      forall i | 0 <= i < |xs|
        ensures JvmScalarEqual(xs[i], ys[i]) <==> cx[i] == cy[i]
      {
        ScalarKeys(xs[i], ys[i]);
      }
    }
  }

  lemma ScalarKeys(s: JvmScalar, t: JvmScalar)
    requires PlainScalar(s) && PlainScalar(t)
    ensures JvmScalarEqual(s, t) <==> CanonOfScalar(s) == CanonOfScalar(t)
  {
    if s.Floating? && t.Floating? {
      UnsignedTies(s.d, t.d);
    }
  }

  /** Key equality is equality of canonical keys. */
  lemma {:induction false} KeyEqualIsCanon(a: Value, b: Value)
    requires Plain(a) && Plain(b)
    ensures KeyEqual(a, b) <==> CanonOf(a) == CanonOf(b)
    decreases a, 1
  {
    hide NumberKeyEqual, CanonNumber, CanonOfJvm, JvmEqual, PlainNumber, PlainJvm;
    if a.Number? && b.Number? {
      NumberKeys(a.n, b.n);
    } else if a.Jvm? && b.Jvm? {
      JvmKeys(a.j, b.j);
    } else if a.Array? && b.Array? {
      AllKeyEqualIsCanon(a.elems, b.elems);
    } else if a.List? && b.List? {
      AllKeyEqualIsCanon(a.items, b.items);
    } else {
      KindsOfCanon(a, b);
    }
  }

  /** Values of different kinds have different canonical keys. */
  lemma KindsOfCanon(a: Value, b: Value)
    requires Plain(a) && Plain(b)
    requires !(a.Number? && b.Number?) && !(a.Jvm? && b.Jvm?) && !(a.Array? && b.Array?) && !(a.List? && b.List?)
    ensures KeyEqual(a, b) <==> CanonOf(a) == CanonOf(b)
  {
    hide ExactValue, PlainNumber, PlainJvm, Unsigned;
  }

  lemma {:induction false} AllKeyEqualIsCanon(xs: seq<Value>, ys: seq<Value>)
    requires AllPlain(xs) && AllPlain(ys)
    ensures AllKeyEqual(xs, ys) <==> CanonAll(xs) == CanonAll(ys)
    decreases xs, 0
  {
    hide KeyEqual, CanonOf, CanonAll, Plain;
    if |xs| == |ys| {
      forall i | 0 <= i < |xs|
        ensures CanonAll(xs)[i] == CanonOf(xs[i]) && CanonAll(ys)[i] == CanonOf(ys[i])
        ensures KeyEqual(xs[i], ys[i]) <==> CanonOf(xs[i]) == CanonOf(ys[i])
      {
        CanonAllAt(xs, i);
        CanonAllAt(ys, i);
        KeyEqualIsCanon(xs[i], ys[i]);
      }
    }
  }

  lemma {:induction false} KeyEqualSymmetric(a: Value, b: Value)
    ensures KeyEqual(a, b) == KeyEqual(b, a)
    decreases a
  {
    hide NumberKeyEqual, JvmEqual;
    if a.Number? && b.Number? {
      NumberKeySymmetric(a.n, b.n);
    } else if a.Jvm? && b.Jvm? {
      JvmSymmetric(a.j, b.j);
    } else if a.Array? && b.Array? && |a.elems| == |b.elems| {
      forall i | 0 <= i < |a.elems| ensures KeyEqual(a.elems[i], b.elems[i]) == KeyEqual(b.elems[i], a.elems[i]) {
        KeyEqualSymmetric(a.elems[i], b.elems[i]);
      }
    } else if a.List? && b.List? && |a.items| == |b.items| {
      forall i | 0 <= i < |a.items| ensures KeyEqual(a.items[i], b.items[i]) == KeyEqual(b.items[i], a.items[i]) {
        KeyEqualSymmetric(a.items[i], b.items[i]);
      }
    }
  }

  lemma NumberKeySymmetric(x: KapNumber, y: KapNumber)
    ensures NumberKeyEqual(x, y) == NumberKeyEqual(y, x)
  {
    hide NumberKeyEqual, ExactValue;
    NumberKeyCases(x, y);
    NumberKeyCases(y, x);
  }

  lemma JvmSymmetric(x: JvmValue, y: JvmValue)
    ensures JvmEqual(x, y) == JvmEqual(y, x)
  {
    if x.ObjectArray? && y.ObjectArray? && |x.data| == |y.data| {
      assert forall i :: 0 <= i < |x.data| ==>
        JvmScalarEqual(x.data[i], y.data[i]) == JvmScalarEqual(y.data[i], x.data[i]);
    }
  }

  /** Values without an awkward number in them, to any depth. */
  predicate Tame(v: Value) {
    match v
    case Number(n) => !Awkward(n)
    case Array(_, es) => forall i :: 0 <= i < |es| ==> Tame(es[i])
    case List(es) => forall i :: 0 <= i < |es| ==> Tame(es[i])
    case _ => true
  }

  /** Away from awkward numbers key equality is transitive, on values that equal themselves or not. */
  lemma {:induction false} KeyEqualTransitive(a: Value, b: Value, c: Value)
    requires Tame(a) && Tame(b) && Tame(c) && KeyEqual(a, b) && KeyEqual(b, c)
    ensures KeyEqual(a, c)
    decreases a
  {
    hide NumberKeyEqual, JvmEqual, Awkward;
    match a {
      case Number(n) =>
        if !NumberKeyEqual(n, c.n) { FailureIsAwkward(n, b.n, c.n); }
      case Jvm(j) => JvmTransitive(j, b.j, c.j);
      case Array(_, es) =>
        forall i | 0 <= i < |es| ensures KeyEqual(es[i], c.elems[i]) {
          KeyEqualTransitive(es[i], b.elems[i], c.elems[i]);
        }
      case List(es) =>
        forall i | 0 <= i < |es| ensures KeyEqual(es[i], c.items[i]) {
          KeyEqualTransitive(es[i], b.items[i], c.items[i]);
        }
      case _ =>
    }
  }

  lemma JvmTransitive(x: JvmValue, y: JvmValue, z: JvmValue)
    requires JvmEqual(x, y) && JvmEqual(y, z)
    ensures JvmEqual(x, z)
  {
    if x.ObjectArray? {
      assert forall i :: 0 <= i < |x.data| ==>
                           JvmScalarEqual(x.data[i], y.data[i]) && JvmScalarEqual(y.data[i], z.data[i]);
    }
  }

  /** What equals itself: nothing with a NaN inside a complex number or a JVM value, and neither
      nil nor the kinds the comparison does not list. */
  predicate SelfEqual(v: Value) {
    match v
    case Number(n) => n.Complex? ==> !IsNaN(n.re) && !IsNaN(n.im)
    case Array(_, es) => forall i :: 0 <= i < |es| ==> SelfEqual(es[i])
    case List(es) => forall i :: 0 <= i < |es| ==> SelfEqual(es[i])
    case Jvm(j) => PlainJvm(j)
    case Nil => false
    case Opaque(_) => false
    case _ => true
  }

  lemma {:induction false} KeyEqualReflexive(v: Value)
    ensures KeyEqual(v, v) <==> SelfEqual(v)
    decreases v
  {
    hide NumberKeyEqual, ExactValue;
    match v {
      case Number(n) => NumberKeyCases(n, n);
      case Array(_, es) =>
        forall i | 0 <= i < |es| ensures KeyEqual(es[i], es[i]) <==> SelfEqual(es[i]) { KeyEqualReflexive(es[i]); }
      case List(es) =>
        forall i | 0 <= i < |es| ensures KeyEqual(es[i], es[i]) <==> SelfEqual(es[i]) { KeyEqualReflexive(es[i]); }
      case _ =>
    }
  }

  /** The plain values are the self-equal ones without awkward numbers. */
  lemma {:induction false} PlainIs(v: Value)
    ensures Plain(v) <==> SelfEqual(v) && Tame(v)
    decreases v
  {
    match v {
      case Array(_, es) =>
        forall i | 0 <= i < |es| ensures Plain(es[i]) <==> SelfEqual(es[i]) && Tame(es[i]) { PlainIs(es[i]); }
      case List(es) =>
        forall i | 0 <= i < |es| ensures Plain(es[i]) <==> SelfEqual(es[i]) && Tame(es[i]) { PlainIs(es[i]); }
      case _ =>
    }
  }
}
