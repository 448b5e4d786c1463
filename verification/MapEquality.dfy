/** `deep_equal` of kap-core/src/map.rs: what its one-directional test decides, for maps with
    repeated keys and without. */
module MapEquality {
  import opened Numbers
  import opened Values
  import opened KeyEquality
  import opened KapMaps

  /** `deep_equal`: equal lengths, and every pair of `a` found in `b`. */
  predicate DeepEqual(a: KapMap, b: KapMap) {
    |a.pairs| == |b.pairs| && forall i :: 0 <= i < |a.pairs| ==> Matched(b, a.pairs[i])
  }

  predicate Matched(b: KapMap, p: Pair) {
    Lookup(b, p.0).Some? && KeyEqual(p.1, Lookup(b, p.0).value)
  }

  method MapDeepEqual(a: KapMap, b: KapMap) returns (same: bool)
    ensures same == DeepEqual(a, b)
  {
    if |a.pairs| != |b.pairs| {
      return false;
    }
    for i := 0 to |a.pairs|
      invariant forall j :: 0 <= j < i ==> Matched(b, a.pairs[j])
    {
      var found := Lookup(b, a.pairs[i].0);
      if found.None? || !KeyEqual(a.pairs[i].1, found.value) {
        return false;
      }
    }
    same := true;
  }

  // ---- canonical contents ----

  function AbsCanon(pairs: seq<Pair>): map<Canon, Canon>
    requires PlainKeys(pairs) && PlainValues(pairs)
  {
    if pairs == [] then map[] else AbsCanon(pairs[1..])[CanonOf(pairs[0].0) := CanonOf(pairs[0].1)]
  }

  lemma {:induction false} AbsCanonIs(pairs: seq<Pair>)
    requires PlainKeys(pairs) && PlainValues(pairs)
    ensures AbsCanon(pairs).Keys == AsMap(pairs).Keys
    ensures forall c :: c in AsMap(pairs) ==> Plain(AsMap(pairs)[c]) && AbsCanon(pairs)[c] == CanonOf(AsMap(pairs)[c])
    ensures Distinct(pairs) ==> |AbsCanon(pairs)| == |pairs|
    ensures forall i :: 0 <= i < |pairs| ==> CanonOf(pairs[i].0) in AbsCanon(pairs)
  {
    hide CanonOf, Plain;
    if pairs == [] {
    } else {
      AbsCanonIs(pairs[1..]);
      var c := CanonOf(pairs[0].0);
      assert forall i :: 1 <= i < |pairs| ==> pairs[i] == pairs[1..][i - 1];
      if Distinct(pairs) {
        NotLater(pairs);
        assert AbsCanon(pairs).Keys == AbsCanon(pairs[1..]).Keys + {c};
      }
    }
  }

  lemma NotLater(pairs: seq<Pair>)
    requires pairs != [] && PlainKeys(pairs) && PlainValues(pairs) && Distinct(pairs)
    ensures CanonOf(pairs[0].0) !in AsMap(pairs[1..])
  {
    hide CanonOf, Plain;
    SlotFinds(pairs[1..], pairs[0].0);
  }

  lemma {:induction false} DistinctLookup(pairs: seq<Pair>, i: nat)
    requires PlainKeys(pairs) && PlainValues(pairs) && Distinct(pairs) && i < |pairs|
    ensures CanonOf(pairs[i].0) in AbsCanon(pairs)
    ensures AbsCanon(pairs)[CanonOf(pairs[i].0)] == CanonOf(pairs[i].1)
  {
    hide CanonOf, Plain;
    if i > 0 {
      DistinctLookup(pairs[1..], i - 1);
    }
  }

  lemma SubsetOfSameSize<T>(a: set<T>, b: set<T>)
    requires a <= b && |a| == |b|
    ensures a == b
  {
    assert b == a + (b - a);
    assert |b| == |a| + |b - a|;
    assert b - a == {};
  }

  lemma MatchedRefines(b: KapMap, p: Pair)
    requires PlainKeys(b.pairs) && PlainValues(b.pairs) && Plain(p.0) && Plain(p.1)
    ensures Matched(b, p) <==>
            CanonOf(p.0) in AbsCanon(b.pairs) && AbsCanon(b.pairs)[CanonOf(p.0)] == CanonOf(p.1)
  {
    hide CanonOf, Plain, KeyEqual, AsMap, AbsCanon;
    LookupRefines(b, p.0);
    AbsCanonIs(b.pairs);
    var found := Lookup(b, p.0);
    if found.Some? {
      KeyEqualIsCanon(p.1, found.value);
    }
  }

  predicate PlainMap(m: KapMap) { PlainKeys(m.pairs) && PlainValues(m.pairs) }

  /** Repeated keys carry equal values. */
  predicate Consistent(pairs: seq<Pair>)
    requires PlainKeys(pairs) && PlainValues(pairs)
  {
    forall i, j :: 0 <= i < |pairs| && 0 <= j < |pairs| && CanonOf(pairs[i].0) == CanonOf(pairs[j].0) ==>
      CanonOf(pairs[i].1) == CanonOf(pairs[j].1)
  }

  predicate Included(m: map<Canon, Canon>, n: map<Canon, Canon>) {
    forall c :: c in m ==> c in n && n[c] == m[c]
  }

  lemma {:induction false} KeySource(pairs: seq<Pair>, c: Canon) returns (i: nat)
    requires PlainKeys(pairs) && PlainValues(pairs) && c in AbsCanon(pairs)
    ensures i < |pairs| && CanonOf(pairs[i].0) == c && AbsCanon(pairs)[c] == CanonOf(pairs[i].1)
  {
    hide CanonOf, Plain;
    if CanonOf(pairs[0].0) == c {
      i := 0;
    } else {
      i := KeySource(pairs[1..], c);
      i := i + 1;
    }
  }

  /** A consistent list's finite map has every pair of it. */
  lemma ConsistentLookup(pairs: seq<Pair>, i: nat)
    requires PlainKeys(pairs) && PlainValues(pairs) && Consistent(pairs) && i < |pairs|
    ensures CanonOf(pairs[i].0) in AbsCanon(pairs)
    ensures AbsCanon(pairs)[CanonOf(pairs[i].0)] == CanonOf(pairs[i].1)
  {
    hide CanonOf, Plain, AbsCanon;
    AbsCanonIs(pairs);
    var j := KeySource(pairs, CanonOf(pairs[i].0));
  }

  /** What the one-directional test decides, for all plain maps: equal lengths, no repeated key with
      two values on the left, and the left finite map included in the right one. */
  lemma DeepEqualIsInclusion(a: KapMap, b: KapMap)
    requires PlainMap(a) && PlainMap(b)
    ensures DeepEqual(a, b) <==>
            |a.pairs| == |b.pairs| && Consistent(a.pairs) && Included(AbsCanon(a.pairs), AbsCanon(b.pairs))
  {
    hide CanonOf, Plain, AbsCanon, Matched;
    forall i | 0 <= i < |a.pairs|
      ensures Matched(b, a.pairs[i]) <==>
              CanonOf(a.pairs[i].0) in AbsCanon(b.pairs)
              && AbsCanon(b.pairs)[CanonOf(a.pairs[i].0)] == CanonOf(a.pairs[i].1)
    {
      MatchedRefines(b, a.pairs[i]);
    }
    if DeepEqual(a, b) {
      forall c | c in AbsCanon(a.pairs)
        ensures c in AbsCanon(b.pairs) && AbsCanon(b.pairs)[c] == AbsCanon(a.pairs)[c]
      {
        var i := KeySource(a.pairs, c);
      }
    }
    if Consistent(a.pairs) && Included(AbsCanon(a.pairs), AbsCanon(b.pairs)) {
      forall i | 0 <= i < |a.pairs| ensures Matched(b, a.pairs[i]) {
        ConsistentLookup(a.pairs, i);
      }
    }
  }

  /** A plain map equals itself exactly when its repeated keys carry equal values. */
  lemma DeepEqualReflexive(a: KapMap)
    requires PlainMap(a)
    ensures DeepEqual(a, a) <==> Consistent(a.pairs)
  {
    hide CanonOf, Plain, DeepEqual, Consistent, AbsCanon;
    DeepEqualIsInclusion(a, a);
  }

  /** The test is transitive on all plain maps, repeated keys or not. */
  lemma DeepEqualTransitive(a: KapMap, b: KapMap, c: KapMap)
    requires PlainMap(a) && PlainMap(b) && PlainMap(c) && DeepEqual(a, b) && DeepEqual(b, c)
    ensures DeepEqual(a, c)
  {
    hide CanonOf, Plain, DeepEqual, Consistent, AbsCanon;
    DeepEqualIsInclusion(a, b);
    DeepEqualIsInclusion(b, c);
    DeepEqualIsInclusion(a, c);
  }

  /** A success can be turned around exactly when the right map is consistent and has as many
      different keys as the left one. */
  lemma DeepEqualTurnsAround(a: KapMap, b: KapMap)
    requires PlainMap(a) && PlainMap(b) && DeepEqual(a, b)
    ensures DeepEqual(b, a) <==> Consistent(b.pairs) && |AbsCanon(a.pairs)| == |AbsCanon(b.pairs)|
  {
    hide CanonOf, Plain, DeepEqual, Consistent, AbsCanon;
    DeepEqualIsInclusion(a, b);
    DeepEqualIsInclusion(b, a);
    var m, n := AbsCanon(a.pairs), AbsCanon(b.pairs);
    if |m| == |n| {
      assert m.Keys <= n.Keys;
      SubsetOfSameSize(m.Keys, n.Keys);
    } else if Included(n, m) {
      assert m.Keys == n.Keys;
    }
  }

  lemma DistinctConsistent(pairs: seq<Pair>)
    requires PlainKeys(pairs) && PlainValues(pairs) && Distinct(pairs)
    ensures Consistent(pairs) && |AbsCanon(pairs)| == |pairs|
  {
    hide CanonOf, Plain, AbsCanon;
    AbsCanonIs(pairs);
  }

  /** With distinct keys the test is equality of finite maps. */
  lemma DeepEqualIsMapEquality(a: KapMap, b: KapMap)
    requires PlainMap(a) && Distinct(a.pairs) && PlainMap(b) && Distinct(b.pairs)
    ensures DeepEqual(a, b) <==> AbsCanon(a.pairs) == AbsCanon(b.pairs)
  {
    hide CanonOf, Plain, DeepEqual, Consistent, AbsCanon, Distinct;
    DistinctConsistent(a.pairs);
    DistinctConsistent(b.pairs);
    DeepEqualIsInclusion(a, b);
    if DeepEqual(a, b) {
      assert AbsCanon(a.pairs).Keys <= AbsCanon(b.pairs).Keys;
      SubsetOfSameSize(AbsCanon(a.pairs).Keys, AbsCanon(b.pairs).Keys);
    }
  }

  /** Hence an equivalence on maps with distinct keys. */
  lemma DeepEqualEquivalence(a: KapMap, b: KapMap, c: KapMap)
    requires PlainMap(a) && Distinct(a.pairs) && PlainMap(b) && Distinct(b.pairs) && PlainMap(c) && Distinct(c.pairs)
    ensures DeepEqual(a, a)
    ensures DeepEqual(a, b) == DeepEqual(b, a)
    ensures DeepEqual(a, b) && DeepEqual(b, c) ==> DeepEqual(a, c)
  {
    hide DeepEqual, AbsCanon, Distinct, Plain;
    DeepEqualIsMapEquality(a, a);
    DeepEqualIsMapEquality(a, b);
    DeepEqualIsMapEquality(b, a);
    DeepEqualIsMapEquality(b, c);
    DeepEqualIsMapEquality(a, c);
  }

  /** A plain key different from the given one. */
  function OtherKey(k: Value): (o: Value)
    requires Plain(k)
    ensures Plain(o) && CanonOf(o) != CanonOf(k)
  {
    if k.Null? then Char('a') else Null
  }

  function Repeated(p: Pair, n: nat): seq<Pair> { seq(n, _ => p) }

  lemma {:induction false} RepeatedMap(p: Pair, n: nat)
    requires n > 0 && PlainKeys(Repeated(p, n)) && PlainValues(Repeated(p, n)) && Plain(p.0) && Plain(p.1)
    ensures AbsCanon(Repeated(p, n)) == map[CanonOf(p.0) := CanonOf(p.1)]
  {
    hide CanonOf, Plain;
    assert Repeated(p, n)[1..] == Repeated(p, n - 1);
    if n > 1 {
      RepeatedMap(p, n - 1);
    }
  }

  /** Every plain map with a repeated key, the kind `KapMap::new` lets through, has a plain partner
      with which the test answers differently in the two directions. */
  lemma RepeatedKeysBreakSymmetry(a: KapMap) returns (b: KapMap)
    requires PlainMap(a) && !Distinct(a.pairs)
    ensures PlainMap(b) && DeepEqual(a, b) != DeepEqual(b, a)
  {
    hide CanonOf, Plain, DeepEqual, AbsCanon, Distinct, Consistent;
    NotDistinctLength(a.pairs);
    var n, p := |a.pairs|, a.pairs[0];
    b := KapMap(Repeated(p, n));
    RepeatedMap(p, n);
    FirstPair(a.pairs);
    RepeatedConsistent(p, n);
    DeepEqualIsInclusion(b, a);
    DeepEqualIsInclusion(a, b);
    assert DeepEqual(b, a);
    if DeepEqual(a, b) {
      b := AddForeignKeys(a);
    }
  }

  /** A map all of whose pairs are one pair, against that pair and a key it lacks. */
  lemma AddForeignKeys(a: KapMap) returns (b: KapMap)
    requires PlainMap(a) && |a.pairs| >= 2 && Consistent(a.pairs)
    requires Included(AbsCanon(a.pairs), map[CanonOf(a.pairs[0].0) := CanonOf(a.pairs[0].1)])
    ensures PlainMap(b) && DeepEqual(a, b) && !DeepEqual(b, a)
  {
    hide CanonOf, Plain, DeepEqual, AbsCanon, Consistent;
    var n, p := |a.pairs|, a.pairs[0];
    var q := (OtherKey(p.0), p.1);
    b := KapMap([p] + Repeated(q, n - 1));
    assert b.pairs[1..] == Repeated(q, n - 1);
    RepeatedMap(q, n - 1);
    OneMore(b.pairs);
    FirstPair(a.pairs);
    DeepEqualIsInclusion(a, b);
    DeepEqualIsInclusion(b, a);
    assert CanonOf(q.0) in AbsCanon(b.pairs) && CanonOf(q.0) !in AbsCanon(a.pairs);
    assert forall c :: c in AbsCanon(a.pairs) ==> c == CanonOf(p.0);
  }

  lemma NotDistinctLength(pairs: seq<Pair>)
    requires PlainKeys(pairs) && !Distinct(pairs)
    ensures |pairs| >= 2
  {
    hide CanonOf, Plain;
  }

  lemma FirstPair(pairs: seq<Pair>)
    requires pairs != [] && PlainKeys(pairs) && PlainValues(pairs)
    ensures CanonOf(pairs[0].0) in AbsCanon(pairs) && AbsCanon(pairs)[CanonOf(pairs[0].0)] == CanonOf(pairs[0].1)
  {
    hide CanonOf, Plain;
  }

  lemma OneMore(pairs: seq<Pair>)
    requires pairs != [] && PlainKeys(pairs) && PlainValues(pairs)
    ensures AbsCanon(pairs) == AbsCanon(pairs[1..])[CanonOf(pairs[0].0) := CanonOf(pairs[0].1)]
  {
    hide CanonOf, Plain;
  }

  lemma RepeatedConsistent(p: Pair, n: nat)
    requires PlainKeys(Repeated(p, n)) && PlainValues(Repeated(p, n))
    ensures Consistent(Repeated(p, n))
  {
    hide CanonOf, Plain;
  }

  /** The shortest instance: two equal pairs against a map with one more key. */
  lemma RepeatedKeyExample()
    ensures var one, two := Number(Long(1)), Number(Long(2));
            var a, b := KapMap([(one, one), (one, one)]), KapMap([(one, one), (two, two)]);
            DeepEqual(a, b) && !DeepEqual(b, a)
  {
    var one, two := Number(Long(1)), Number(Long(2));
    var a, b := KapMap([(one, one), (one, one)]), KapMap([(one, one), (two, two)]);
    assert Slot(b.pairs, one) == 0;
    assert Slot(a.pairs[1..][1..], two) == 0;
    assert Slot(a.pairs[1..], two) == 1;
    assert Slot(a.pairs, two) == 2;
    assert !Matched(a, b.pairs[1]);
  }
}
