/** Kap values and their cross-kind total order (kap-core/src/lib.rs). */
module Values {
  import opened Common
  import opened Doubles
  import opened Numbers
  import opened NumberOrder

  /** A boxed Java scalar. The two floating kinds compare as floats, every other by its contents;
      a `float` is held as the double with its value. */
  datatype JvmScalar = Floating(single: bool, d: Double) | Fixed(kind: nat, contents: seq<int>)

  /** A JVM value: a scalar, an emulated primitive array, or anything known by name or identity. */
  datatype JvmValue =
    | Scalar(s: JvmScalar)
    | ObjectArray(elem: nat, data: seq<JvmScalar>)
    | Nominal(kind: nat, parts: seq<seq<byte>>)

  /** `APLValue`. The kinds that hold code, maps, streams, processes and connections are `Opaque`.
      Symbol names are their UTF-8 bytes, which is also how Rust orders strings. */
  datatype Value =
    | Number(n: KapNumber)
    | Char(c: char)
    | Str(s: string)
    | Array(dims: seq<nat>, elems: seq<Value>)
    | List(items: seq<Value>)
    | Null
    | Nil
    | Symbol(name: seq<byte>, namespace: Option<seq<byte>>)
    | Timestamp(ms: i64)
    | Jvm(j: JvmValue)
    | Lock(reentrant: bool, lockId: nat)
    | Condvar(condvarId: nat)
    | Opaque(id: int)

  /** Nesting depth, counting the characters of a string as one level. */
  function Depth(v: Value): nat {
    match v
    case Str(_) => 1
    case Array(_, es) => 1 + DepthAll(es)
    case List(es) => 1 + DepthAll(es)
    case _ => 0
  }

  function DepthAll(vs: seq<Value>): (d: nat)
    ensures forall i :: 0 <= i < |vs| ==> Depth(vs[i]) <= d
  {
    if vs == [] then 0
    else
      var rest := DepthAll(vs[1..]);
      assert forall i :: 1 <= i < |vs| ==> vs[i] == vs[1..][i - 1];
      if Depth(vs[0]) > rest then Depth(vs[0]) else rest
  }

  function Elements(v: Value): (es: seq<Value>)
    ensures v.Str? || v.Array? || v.List? ==>
            forall i :: 0 <= i < |es| ==> Depth(es[i]) < Depth(v)
  {
    match v
    case Array(_, es) => es
    case List(es) => es
    case Str(s) => seq(|s|, i requires 0 <= i < |s| => Char(s[i]))
    case Null => []
    case _ => [v]
  }

  function Dimensions(v: Value): seq<nat> {
    match v
    case Array(dims, _) => dims
    case Str(s) => [|s|]
    case _ => []
  }

  /** The empty string has rank 0, although its dimensions are [0]. */
  function Rank(v: Value): nat {
    match v
    case Array(dims, _) => |dims|
    case Str(s) => if s == "" then 0 else 1
    case _ => 0
  }

  /** Lexicographic comparison of naturals, a proper prefix being less. */
  function CmpNats(a: seq<nat>, b: seq<nat>): Ordering {
    if a == [] || b == [] then CmpInt(|a|, |b|)
    else CmpInt(a[0], b[0]).Then(CmpNats(a[1..], b[1..]))
  }

  /** `Option<String>` order: `None` first. */
  function CmpNamespace(a: Option<seq<byte>>, b: Option<seq<byte>>): Ordering {
    match (a, b)
    case (None, None) => Equal
    case (None, Some(_)) => Less
    case (Some(_), None) => Greater
    case (Some(x), Some(y)) => CmpNats(x, y)
  }

  function Position(v: Value): Option<nat> {
    match v
    case Number(_) => Some(0)
    case Char(_) => Some(5)
    case Symbol(_, _) => Some(6)
    case Str(_) => Some(7)
    case Array(_, _) => Some(7)
    case List(_) => Some(9)
    case Null => Some(11)
    case Nil => Some(11)
    case _ => None
  }

  predicate IsArray(v: Value) { v.Str? || v.Array? }

  function TotalCmp(a: Value, b: Value): Option<Ordering>
    decreases Depth(a) + Depth(b), 1, 0
  {
    if a.Number? && b.Number? then Some(NumberOrdering(a.n, b.n))
    else if a.Char? && b.Char? then Some(CmpInt(a.c as int, b.c as int))
    else if IsArray(a) && IsArray(b) then
      if Rank(a) != Rank(b) then Some(CmpInt(Rank(a), Rank(b)))
      else
        var dcmp := if Rank(a) == 1 then Equal else CmpNats(Dimensions(a), Dimensions(b));
        if dcmp != Equal then Some(dcmp)
        else LexCmp(Elements(a), Elements(b), Depth(a) + Depth(b))
    else if a.List? && b.List? then LexCmp(Elements(a), Elements(b), Depth(a) + Depth(b))
    else if (a.Null? && b.Null?) || (a.Nil? && b.Nil?) then Some(Equal)
    else if a.Symbol? && b.Symbol? then
      Some(CmpNamespace(a.namespace, b.namespace).Then(CmpNats(a.name, b.name)))
    else
      var pa :- Position(a);
      var pb :- Position(b);
      Some(CmpInt(pa, pb))
  }

  /** The element loop: the first unequal pair decides, then the lengths.
      `bound` only bounds the nesting, for termination. */
  function LexCmp(a: seq<Value>, b: seq<Value>, ghost bound: nat): Option<Ordering>
    requires forall i, j :: 0 <= i < |a| && 0 <= j < |b| ==> Depth(a[i]) + Depth(b[j]) < bound
    decreases bound, 0, |a|
  {
    if a == [] || b == [] then Some(CmpInt(|a|, |b|))
    else
      var o :- TotalCmp(a[0], b[0]);
      if o != Equal then Some(o)
      else
        assert forall i :: 0 <= i < |a[1..]| ==> a[1..][i] == a[i + 1];
        assert forall j :: 0 <= j < |b[1..]| ==> b[1..][j] == b[j + 1];
        LexCmp(a[1..], b[1..], bound)
  }

  /** Values built, to any depth, from the kinds `total_cmp` orders. */
  predicate Sortable(v: Value) {
    match v
    case Array(_, es) => forall i :: 0 <= i < |es| ==> Sortable(es[i])
    case List(es) => forall i :: 0 <= i < |es| ==> Sortable(es[i])
    case _ => Position(v).Some?
  }

  predicate SortableAll(vs: seq<Value>) { forall i :: 0 <= i < |vs| ==> Sortable(vs[i]) }

  lemma ElementsSortable(v: Value)
    requires Sortable(v)
    ensures SortableAll(Elements(v)) && Position(v).Some?
  {
  }

  /** ...and from regular numbers. */
  predicate Comparable(v: Value, lacking: Lacking) {
    match v
    case Number(n) => Regular(n, lacking)
    case Array(_, es) => forall i :: 0 <= i < |es| ==> Comparable(es[i], lacking)
    case List(es) => forall i :: 0 <= i < |es| ==> Comparable(es[i], lacking)
    case _ => Position(v).Some?
  }

  predicate ComparableAll(vs: seq<Value>, lacking: Lacking) {
    forall i :: 0 <= i < |vs| ==> Comparable(vs[i], lacking)
  }

  lemma ElementsComparable(v: Value, lacking: Lacking)
    requires Comparable(v, lacking)
    ensures ComparableAll(Elements(v), lacking) && Position(v).Some?
    ensures v.Number? ==> Regular(v.n, lacking)
  {
  }

  lemma {:induction false} ComparableSortable(v: Value, lacking: Lacking)
    requires Comparable(v, lacking)
    ensures Sortable(v)
    decreases v
  {
    match v {
      case Array(_, es) =>
        forall i | 0 <= i < |es| ensures Sortable(es[i]) { ComparableSortable(es[i], lacking); }
      case List(es) =>
        forall i | 0 <= i < |es| ensures Sortable(es[i]) { ComparableSortable(es[i], lacking); }
      case _ =>
    }
  }

  lemma {:induction false} CmpNatsReverses(a: seq<nat>, b: seq<nat>)
    ensures CmpNats(b, a) == CmpNats(a, b).Reverse()
  {
    if a == [] || b == [] {
    } else {
      CmpNatsReverses(a[1..], b[1..]);
    }
  }

  lemma {:induction false} CmpNatsComposes(a: seq<nat>, b: seq<nat>, c: seq<nat>)
    ensures Composes(CmpNats(a, b), CmpNats(b, c), CmpNats(a, c))
  {
    if a == [] || b == [] || c == [] {
    } else {
      CmpNatsComposes(a[1..], b[1..], c[1..]);
    }
  }

  lemma {:induction false} CmpNatsEqual(a: seq<nat>, b: seq<nat>)
    ensures CmpNats(a, b) == Equal <==> a == b
  {
    if a == [] || b == [] {
    } else {
      CmpNatsEqual(a[1..], b[1..]);
      assert a == [a[0]] + a[1..] && b == [b[0]] + b[1..];
    }
  }

  /** Defined, and symmetric under reversal, on every pair of sortable values, with any numbers. */
  lemma {:induction false} TotalCmpReverses(a: Value, b: Value)
    requires Sortable(a) && Sortable(b)
    ensures TotalCmp(a, b).Some? && TotalCmp(b, a) == Some(TotalCmp(a, b).value.Reverse())
    decreases Depth(a) + Depth(b), 2, 0
  {
    hide TotalCmp, Sortable, Depth, IsArray, Position;
    if IsArray(a) && IsArray(b) {
      ArraysReverse(a, b);
    } else if a.List? && b.List? {
      ListsReverse(a, b);
    } else {
      OthersReverse(a, b);
    }
  }

  lemma {:induction false} ArraysReverse(a: Value, b: Value)
    requires Sortable(a) && Sortable(b) && IsArray(a) && IsArray(b)
    ensures TotalCmp(a, b).Some? && TotalCmp(b, a) == Some(TotalCmp(a, b).value.Reverse())
    decreases Depth(a) + Depth(b), 1, 0
  {
    hide LexCmp, CmpNats, Elements, Dimensions, Rank, Sortable, Depth;
    CmpNatsReverses(Dimensions(a), Dimensions(b));
    ElementsSortable(a);
    ElementsSortable(b);
    LexCmpReverses(Elements(a), Elements(b), Depth(a) + Depth(b), Depth(b) + Depth(a));
  }

  lemma {:induction false} ListsReverse(a: Value, b: Value)
    requires Sortable(a) && Sortable(b) && a.List? && b.List?
    ensures TotalCmp(a, b).Some? && TotalCmp(b, a) == Some(TotalCmp(a, b).value.Reverse())
    decreases Depth(a) + Depth(b), 1, 0
  {
    hide LexCmp, Elements, Sortable, Depth;
    ElementsSortable(a);
    ElementsSortable(b);
    LexCmpReverses(Elements(a), Elements(b), Depth(a) + Depth(b), Depth(b) + Depth(a));
  }

  lemma OthersReverse(a: Value, b: Value)
    requires Sortable(a) && Sortable(b) && !(IsArray(a) && IsArray(b)) && !(a.List? && b.List?)
    ensures TotalCmp(a, b).Some? && TotalCmp(b, a) == Some(TotalCmp(a, b).value.Reverse())
  {
    hide NumberOrdering, LexCmp, CmpNats, Elements, Dimensions, Rank, Depth, Sortable;
    ElementsSortable(a);
    ElementsSortable(b);
    if a.Number? && b.Number? {
      OrderingReverses(a.n, b.n);
    } else if a.Symbol? && b.Symbol? {
      if a.namespace.Some? && b.namespace.Some? {
        CmpNatsReverses(a.namespace.value, b.namespace.value);
      }
      CmpNatsReverses(a.name, b.name);
    }
  }

  lemma {:induction false} LexCmpReverses(a: seq<Value>, b: seq<Value>, ab: nat, ba: nat)
    requires SortableAll(a) && SortableAll(b)
    requires forall i, j :: 0 <= i < |a| && 0 <= j < |b| ==> Depth(a[i]) + Depth(b[j]) < ab
    requires forall i, j :: 0 <= i < |b| && 0 <= j < |a| ==> Depth(b[i]) + Depth(a[j]) < ba
    ensures LexCmp(a, b, ab).Some? && LexCmp(b, a, ba) == Some(LexCmp(a, b, ab).value.Reverse())
    decreases ab, 0, |a|
  {
    hide TotalCmp, Depth, Sortable;
    if a == [] || b == [] {
    } else {
      TotalCmpReverses(a[0], b[0]);
      LexCmpReverses(a[1..], b[1..], ab, ba);
    }
  }

  /** Transitive, in the strong form, on every three comparable values. */
  lemma {:induction false} TotalCmpComposes(a: Value, b: Value, c: Value, lacking: Lacking)
    requires Comparable(a, lacking) && Comparable(b, lacking) && Comparable(c, lacking)
    ensures TotalCmp(a, b).Some? && TotalCmp(b, c).Some? && TotalCmp(a, c).Some?
    ensures Composes(TotalCmp(a, b).value, TotalCmp(b, c).value, TotalCmp(a, c).value)
    decreases Depth(a) + Depth(b) + Depth(c), 2, 0
  {
    hide TotalCmp, Comparable, Depth, IsArray, Composes;
    AllDefined(a, b, c, lacking);
    if IsArray(a) && IsArray(b) && IsArray(c) {
      ArraysCompose(a, b, c, lacking);
    } else if a.List? && b.List? && c.List? {
      ListsCompose(a, b, c, lacking);
    } else {
      OthersCompose(a, b, c, lacking);
    }
  }

  lemma AllDefined(a: Value, b: Value, c: Value, lacking: Lacking)
    requires Comparable(a, lacking) && Comparable(b, lacking) && Comparable(c, lacking)
    ensures TotalCmp(a, b).Some? && TotalCmp(b, c).Some? && TotalCmp(a, c).Some?
  {
    hide TotalCmp, Comparable, Sortable, Depth;
    ComparableSortable(a, lacking);
    ComparableSortable(b, lacking);
    ComparableSortable(c, lacking);
    TotalCmpReverses(a, b);
    TotalCmpReverses(b, c);
    TotalCmpReverses(a, c);
  }

  lemma OthersCompose(a: Value, b: Value, c: Value, lacking: Lacking)
    requires Comparable(a, lacking) && Comparable(b, lacking) && Comparable(c, lacking)
    requires !(IsArray(a) && IsArray(b) && IsArray(c)) && !(a.List? && b.List? && c.List?)
    ensures TotalCmp(a, b).Some? && TotalCmp(b, c).Some? && TotalCmp(a, c).Some?
    ensures Composes(TotalCmp(a, b).value, TotalCmp(b, c).value, TotalCmp(a, c).value)
  {
    hide TotalCmp, Comparable, Depth, IsArray, Composes;
    AllDefined(a, b, c, lacking);
    ElementsComparable(a, lacking);
    ElementsComparable(b, lacking);
    ElementsComparable(c, lacking);
    if a.Number? && b.Number? && c.Number? {
      NumbersCompose(a, b, c, lacking);
    } else if a.Symbol? && b.Symbol? && c.Symbol? {
      SymbolsCompose(a, b, c);
    } else {
      KindsCompose(a, b, c);
    }
  }

  lemma NumbersCompose(a: Value, b: Value, c: Value, lacking: Lacking)
    requires a.Number? && b.Number? && c.Number?
    requires Regular(a.n, lacking) && Regular(b.n, lacking) && Regular(c.n, lacking)
    ensures TotalCmp(a, b).Some? && TotalCmp(b, c).Some? && TotalCmp(a, c).Some?
    ensures Composes(TotalCmp(a, b).value, TotalCmp(b, c).value, TotalCmp(a, c).value)
  {
    hide NumberOrdering, LexCmp, CmpNats, CmpNamespace, Elements, Dimensions, Rank, Depth, Regular;
    RegularComposes(a.n, b.n, c.n, lacking);
  }

  /** Different kinds are ordered by their positions, whatever they hold. */
  lemma KindsDecide(a: Value, b: Value)
    requires Position(a).Some? && Position(b).Some?
    ensures Position(a) != Position(b) ==> TotalCmp(a, b) == Some(CmpInt(Position(a).value, Position(b).value))
  {
    hide NumberOrdering, LexCmp, CmpNats, CmpNamespace, Elements, Dimensions, Rank, Depth;
  }

  lemma SimpleKindsCompose(a: Value, b: Value, c: Value)
    requires (a.Char? && b.Char? && c.Char?)
          || ((a.Null? || a.Nil?) && (b.Null? || b.Nil?) && (c.Null? || c.Nil?))
    ensures TotalCmp(a, b).Some? && TotalCmp(b, c).Some? && TotalCmp(a, c).Some?
    ensures Composes(TotalCmp(a, b).value, TotalCmp(b, c).value, TotalCmp(a, c).value)
  {
    hide NumberOrdering, LexCmp, CmpNats, CmpNamespace, Elements, Dimensions, Rank, Depth;
  }

  lemma KindsCompose(a: Value, b: Value, c: Value)
    requires Position(a).Some? && Position(b).Some? && Position(c).Some?
    requires TotalCmp(a, b).Some? && TotalCmp(b, c).Some? && TotalCmp(a, c).Some?
    requires !(a.Number? && b.Number? && c.Number?) && !(IsArray(a) && IsArray(b) && IsArray(c))
    requires !(a.List? && b.List? && c.List?) && !(a.Symbol? && b.Symbol? && c.Symbol?)
    ensures Composes(TotalCmp(a, b).value, TotalCmp(b, c).value, TotalCmp(a, c).value)
  {
    hide TotalCmp;
    KindsDecide(a, b);
    KindsDecide(b, c);
    KindsDecide(a, c);
    if Position(a) == Position(b) == Position(c) {
      SimpleKindsCompose(a, b, c);
    }
  }

  lemma SymbolsCompose(a: Value, b: Value, c: Value)
    requires a.Symbol? && b.Symbol? && c.Symbol?
    ensures TotalCmp(a, b).Some? && TotalCmp(b, c).Some? && TotalCmp(a, c).Some?
    ensures Composes(TotalCmp(a, b).value, TotalCmp(b, c).value, TotalCmp(a, c).value)
  {
    hide CmpNats, NumberOrdering, LexCmp, Elements, Dimensions, Rank, Depth;
    if a.namespace.Some? && b.namespace.Some? && c.namespace.Some? {
      CmpNatsComposes(a.namespace.value, b.namespace.value, c.namespace.value);
    }
    CmpNatsComposes(a.name, b.name, c.name);
  }

  lemma {:induction false} ArraysCompose(a: Value, b: Value, c: Value, lacking: Lacking)
    requires Comparable(a, lacking) && Comparable(b, lacking) && Comparable(c, lacking)
    requires IsArray(a) && IsArray(b) && IsArray(c)
    requires TotalCmp(a, b).Some? && TotalCmp(b, c).Some? && TotalCmp(a, c).Some?
    ensures Composes(TotalCmp(a, b).value, TotalCmp(b, c).value, TotalCmp(a, c).value)
    decreases Depth(a) + Depth(b) + Depth(c), 1, 0
  {
    hide CmpNats, LexCmp, Elements, Dimensions, Rank, Comparable, Depth;
    CmpNatsComposes(Dimensions(a), Dimensions(b), Dimensions(c));
    ElementsComparable(a, lacking);
    ElementsComparable(b, lacking);
    ElementsComparable(c, lacking);
    LexCmpComposes(Elements(a), Elements(b), Elements(c),
                   Depth(a) + Depth(b), Depth(b) + Depth(c), Depth(a) + Depth(c),
                   Depth(a) + Depth(b) + Depth(c), lacking);
  }

  lemma {:induction false} ListsCompose(a: Value, b: Value, c: Value, lacking: Lacking)
    requires Comparable(a, lacking) && Comparable(b, lacking) && Comparable(c, lacking)
    requires a.List? && b.List? && c.List?
    ensures TotalCmp(a, b).Some? && TotalCmp(b, c).Some? && TotalCmp(a, c).Some?
    ensures Composes(TotalCmp(a, b).value, TotalCmp(b, c).value, TotalCmp(a, c).value)
    decreases Depth(a) + Depth(b) + Depth(c), 1, 0
  {
    hide LexCmp, Elements, Comparable, Depth;
    ElementsComparable(a, lacking);
    ElementsComparable(b, lacking);
    ElementsComparable(c, lacking);
    LexCmpComposes(Elements(a), Elements(b), Elements(c),
                   Depth(a) + Depth(b), Depth(b) + Depth(c), Depth(a) + Depth(c),
                   Depth(a) + Depth(b) + Depth(c), lacking);
  }

  lemma {:induction false} LexCmpComposes(a: seq<Value>, b: seq<Value>, c: seq<Value>,
                                          ab: nat, bc: nat, ac: nat, abc: nat, lacking: Lacking)
    requires ComparableAll(a, lacking) && ComparableAll(b, lacking) && ComparableAll(c, lacking)
    requires forall i, j :: 0 <= i < |a| && 0 <= j < |b| ==> Depth(a[i]) + Depth(b[j]) < ab
    requires forall i, j :: 0 <= i < |b| && 0 <= j < |c| ==> Depth(b[i]) + Depth(c[j]) < bc
    requires forall i, j :: 0 <= i < |a| && 0 <= j < |c| ==> Depth(a[i]) + Depth(c[j]) < ac
    requires forall i, j, k :: 0 <= i < |a| && 0 <= j < |b| && 0 <= k < |c| ==>
               Depth(a[i]) + Depth(b[j]) + Depth(c[k]) < abc
    ensures LexCmp(a, b, ab).Some? && LexCmp(b, c, bc).Some? && LexCmp(a, c, ac).Some?
    ensures Composes(LexCmp(a, b, ab).value, LexCmp(b, c, bc).value, LexCmp(a, c, ac).value)
    decreases abc, 0, |a|
  {
    hide TotalCmp, Depth, Comparable;
    LexCmpDefined(a, b, ab, lacking);
    LexCmpDefined(b, c, bc, lacking);
    LexCmpDefined(a, c, ac, lacking);
    if a == [] || b == [] || c == [] {
    } else {
      TotalCmpComposes(a[0], b[0], c[0], lacking);
      LexCmpComposes(a[1..], b[1..], c[1..], ab, bc, ac, abc, lacking);
    }
  }

  lemma LexCmpDefined(a: seq<Value>, b: seq<Value>, bound: nat, lacking: Lacking)
    requires ComparableAll(a, lacking) && ComparableAll(b, lacking)
    requires forall i, j :: 0 <= i < |a| && 0 <= j < |b| ==> Depth(a[i]) + Depth(b[j]) < bound
    ensures LexCmp(a, b, bound).Some?
  {
    hide LexCmp, Depth, Comparable, Sortable;
    forall i | 0 <= i < |a| ensures Sortable(a[i]) { ComparableSortable(a[i], lacking); }
    forall i | 0 <= i < |b| ensures Sortable(b[i]) { ComparableSortable(b[i], lacking); }
    LexCmpReverses(a, b, bound, bound);
  }

  /** A string ties with the vector of its characters, except the empty string,
      whose rank is 0: it comes before the empty vector. */
  lemma StringAgainstCharVector(s: string)
    ensures TotalCmp(Str(s), Array([|s|], Elements(Str(s)))) == Some(if s == "" then Less else Equal)
  {
    if s != "" {
      var es := Elements(Str(s));
      LexCmpReflexive(es, Depth(Str(s)) + Depth(Array([|s|], es)));
    }
  }

  lemma {:induction false} LexCmpReflexive(a: seq<Value>, bound: nat)
    requires forall i, j :: 0 <= i < |a| && 0 <= j < |a| ==> Depth(a[i]) + Depth(a[j]) < bound
    requires forall i :: 0 <= i < |a| ==> a[i].Char?
    ensures LexCmp(a, a, bound) == Some(Equal)
  {
    if a == [] {
    } else {
      LexCmpReflexive(a[1..], bound);
    }
  }

  lemma {:induction false} LexCmpDecides(a: seq<Value>, b: seq<Value>, bound: nat, i: nat)
    requires forall i, j :: 0 <= i < |a| && 0 <= j < |b| ==> Depth(a[i]) + Depth(b[j]) < bound
    requires i < |a| && i < |b|
    requires forall k :: 0 <= k < i ==> TotalCmp(a[k], b[k]) == Some(Equal)
    requires TotalCmp(a[i], b[i]) != Some(Equal)
    ensures LexCmp(a, b, bound) == TotalCmp(a[i], b[i])
    decreases i
  {
    hide TotalCmp, Depth;
    if i > 0 {
      assert forall k :: 0 <= k < i - 1 ==> a[1..][k] == a[k + 1] && b[1..][k] == b[k + 1];
      LexCmpDecides(a[1..], b[1..], bound, i - 1);
    }
  }
}
