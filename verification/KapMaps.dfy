/** `KapMap` (kap-core/src/map.rs): an insertion-ordered association list that behaves
    as a finite map, up to key equality. */
module KapMaps {
  import opened Common
  import opened Values
  import opened KeyEquality

  type Pair = (Value, Value)

  datatype KapMap = KapMap(pairs: seq<Pair>)

  /** The first slot whose key equals `key`, or the length. */
  function Slot(pairs: seq<Pair>, key: Value): (i: nat)
    ensures i <= |pairs|
  {
    if pairs == [] || KeyEqual(pairs[0].0, key) then 0 else 1 + Slot(pairs[1..], key)
  }

  function Lookup(m: KapMap, key: Value): Option<Value> {
    var i := Slot(m.pairs, key);
    if i < |m.pairs| then Some(m.pairs[i].1) else None
  }

  function WithPair(m: KapMap, key: Value, value: Value): KapMap {
    var i := Slot(m.pairs, key);
    if i < |m.pairs| then KapMap(m.pairs[i := (m.pairs[i].0, value)]) else KapMap(m.pairs + [(key, value)])
  }

  function WithAll(m: KapMap, updates: seq<Pair>): KapMap {
    if updates == [] then m
    else
      var last := updates[|updates| - 1];
      WithPair(WithAll(m, updates[..|updates| - 1]), last.0, last.1)
  }

  predicate Removes(keys: seq<Value>, k: Value) { exists i :: 0 <= i < |keys| && KeyEqual(k, keys[i]) }

  function WithoutPairs(pairs: seq<Pair>, keys: seq<Value>): seq<Pair> {
    if pairs == [] then []
    else (if Removes(keys, pairs[0].0) then [] else [pairs[0]]) + WithoutPairs(pairs[1..], keys)
  }

  method WithPairs(m: KapMap, updates: seq<Pair>) returns (r: KapMap)
    ensures r == WithAll(m, updates)
  {
    r := m;
    for i := 0 to |updates|
      invariant r == WithAll(m, updates[..i])
    {
      r := WithPair(r, updates[i].0, updates[i].1);
      assert updates[..i + 1][..i] == updates[..i];
    }
    assert updates[..|updates|] == updates;
  }

  // ---- refinement of a finite map ----

  predicate PlainKeys(pairs: seq<Pair>) { forall i :: 0 <= i < |pairs| ==> Plain(pairs[i].0) }

  predicate PlainValues(pairs: seq<Pair>) { forall i :: 0 <= i < |pairs| ==> Plain(pairs[i].1) }

  predicate Distinct(pairs: seq<Pair>)
    requires PlainKeys(pairs)
  {
    forall i, j :: 0 <= i < j < |pairs| ==> CanonOf(pairs[i].0) != CanonOf(pairs[j].0)
  }

  /** The finite map a list stands for; the first of several equal keys counts. */
  function AsMap(pairs: seq<Pair>): map<Canon, Value>
    requires PlainKeys(pairs)
  {
    if pairs == [] then map[] else AsMap(pairs[1..])[CanonOf(pairs[0].0) := pairs[0].1]
  }

  lemma {:induction false} SlotFinds(pairs: seq<Pair>, key: Value)
    requires PlainKeys(pairs) && Plain(key)
    ensures var i := Slot(pairs, key);
            && (forall j :: 0 <= j < i ==> CanonOf(pairs[j].0) != CanonOf(key))
            && (i < |pairs| ==> CanonOf(pairs[i].0) == CanonOf(key))
            && (i < |pairs| <==> CanonOf(key) in AsMap(pairs))
            && (i < |pairs| ==> AsMap(pairs)[CanonOf(key)] == pairs[i].1)
  {
    hide KeyEqual, CanonOf, Plain;
    if pairs == [] {
    } else {
      KeyEqualIsCanon(pairs[0].0, key);
      if !KeyEqual(pairs[0].0, key) {
        SlotFinds(pairs[1..], key);
      }
    }
  }

  /** `lookup` is application of the finite map, repeated keys or not. */
  lemma LookupRefines(m: KapMap, key: Value)
    requires PlainKeys(m.pairs) && Plain(key)
    ensures Lookup(m, key) ==
            if CanonOf(key) in AsMap(m.pairs) then Some(AsMap(m.pairs)[CanonOf(key)]) else None
  {
    SlotFinds(m.pairs, key);
  }

  lemma {:induction false} AbsAppend(pairs: seq<Pair>, p: Pair)
    requires PlainKeys(pairs + [p])
    requires PlainKeys(pairs) && Plain(p.0)
    requires CanonOf(p.0) !in AsMap(pairs)
    ensures AsMap(pairs + [p]) == AsMap(pairs)[CanonOf(p.0) := p.1]
  {
    hide CanonOf, Plain;
    if pairs == [] {
      assert [p][1..] == [];
    } else {
      assert (pairs + [p])[1..] == pairs[1..] + [p];
      AbsAppend(pairs[1..], p);
    }
  }

  lemma {:induction false} AbsReplace(pairs: seq<Pair>, i: nat, v: Value)
    requires i < |pairs| && PlainKeys(pairs) && PlainKeys(pairs[i := (pairs[i].0, v)])
    requires forall j :: 0 <= j < i ==> CanonOf(pairs[j].0) != CanonOf(pairs[i].0)
    ensures AsMap(pairs[i := (pairs[i].0, v)]) == AsMap(pairs)[CanonOf(pairs[i].0) := v]
  {
    hide CanonOf, Plain;
    if i == 0 {
      assert pairs[0 := (pairs[0].0, v)][1..] == pairs[1..];
    } else {
      assert pairs[i := (pairs[i].0, v)][1..] == pairs[1..][i - 1 := (pairs[i].0, v)];
      AbsReplace(pairs[1..], i - 1, v);
    }
  }

  function KeysOf(pairs: seq<Pair>): seq<Value> {
    seq(|pairs|, i requires 0 <= i < |pairs| => pairs[i].0)
  }

  lemma ReplacedKeys(pairs: seq<Pair>, i: nat, v: Value)
    requires i < |pairs| && PlainKeys(pairs)
    ensures var r := pairs[i := (pairs[i].0, v)];
            PlainKeys(r) && KeysOf(r) == KeysOf(pairs) + [] && (Distinct(pairs) ==> Distinct(r))
  {
    hide CanonOf, Plain;
    var r := pairs[i := (pairs[i].0, v)];
    assert forall j :: 0 <= j < |pairs| ==> r[j].0 == pairs[j].0;
  }

  lemma AppendedKeys(pairs: seq<Pair>, p: Pair)
    requires PlainKeys(pairs) && Plain(p.0)
    requires forall j :: 0 <= j < |pairs| ==> CanonOf(pairs[j].0) != CanonOf(p.0)
    ensures var r := pairs + [p];
            PlainKeys(r) && KeysOf(r) == KeysOf(pairs) + [p.0] && (Distinct(pairs) ==> Distinct(r))
  {
    hide CanonOf, Plain;
  }

  /** `with_pair` updates the finite map, keeps the keys distinct, and keeps every slot in place. */
  lemma WithPairRefines(m: KapMap, key: Value, value: Value)
    requires PlainKeys(m.pairs) && Plain(key)
    ensures var r := WithPair(m, key, value).pairs;
            && PlainKeys(r)
            && AsMap(r) == AsMap(m.pairs)[CanonOf(key) := value]
            && (Distinct(m.pairs) ==> Distinct(r))
            && KeysOf(r) == KeysOf(m.pairs) + if CanonOf(key) in AsMap(m.pairs) then [] else [key]
  {
    hide CanonOf, Plain, KeysOf, Distinct, PlainKeys, AsMap;
    SlotFinds(m.pairs, key);
    var i := Slot(m.pairs, key);
    if i < |m.pairs| {
      ReplacedKeys(m.pairs, i, value);
      AbsReplace(m.pairs, i, value);
    } else {
      AppendedKeys(m.pairs, (key, value));
      AbsAppend(m.pairs, (key, value));
    }
  }

  /** Last write wins. */
  function Writes(updates: seq<Pair>): map<Canon, Value>
    requires PlainKeys(updates)
  {
    if updates == [] then map[]
    else
      var last := updates[|updates| - 1];
      Writes(updates[..|updates| - 1])[CanonOf(last.0) := last.1]
  }

  /** Write `i` adds a slot: its key is neither in the map nor written before. */
  predicate AddsSlot(pairs: seq<Pair>, updates: seq<Pair>, i: nat)
    requires PlainKeys(pairs) && PlainKeys(updates) && i < |updates|
  {
    && CanonOf(updates[i].0) !in AsMap(pairs)
    && forall j :: 0 <= j < i ==> CanonOf(updates[j].0) != CanonOf(updates[i].0)
  }

  /** The new keys in the order of their first writes. */
  function NewKeys(pairs: seq<Pair>, updates: seq<Pair>): seq<Value>
    requires PlainKeys(pairs) && PlainKeys(updates)
  {
    if updates == [] then []
    else
      var n := |updates| - 1;
      NewKeys(pairs, updates[..n]) + if AddsSlot(pairs, updates, n) then [updates[n].0] else []
  }

  lemma {:induction false} WritesKeys(updates: seq<Pair>, c: Canon)
    requires PlainKeys(updates)
    ensures c in Writes(updates) <==> exists j :: 0 <= j < |updates| && CanonOf(updates[j].0) == c
  {
    hide CanonOf, Plain;
    if updates != [] {
      var n := |updates| - 1;
      WritesKeys(updates[..n], c);
      assert forall j :: 0 <= j < n ==> updates[..n][j] == updates[j];
    }
  }

  /** Many insertions: the writes are merged in, the last one winning, and new slots follow the old
      ones in the order of their first writes. */
  lemma {:induction false} WithAllRefines(m: KapMap, updates: seq<Pair>)
    requires PlainKeys(m.pairs) && PlainKeys(updates)
    ensures var r := WithAll(m, updates).pairs;
            && PlainKeys(r)
            && AsMap(r) == AsMap(m.pairs) + Writes(updates)
            && (Distinct(m.pairs) ==> Distinct(r))
            && KeysOf(r) == KeysOf(m.pairs) + NewKeys(m.pairs, updates)
  {
    hide CanonOf, Plain, AsMap, Distinct, WithPair, KeysOf;
    if updates == [] {
      assert AsMap(m.pairs) + map[] == AsMap(m.pairs);
      assert KeysOf(m.pairs) + [] == KeysOf(m.pairs);
    } else {
      var n := |updates| - 1;
      WithAllRefines(m, updates[..n]);
      WithPairRefines(WithAll(m, updates[..n]), updates[n].0, updates[n].1);
      WritesKeys(updates[..n], CanonOf(updates[n].0));
      assert AddsSlot(m.pairs, updates, n) <==>
             CanonOf(updates[n].0) !in AsMap(WithAll(m, updates[..n]).pairs);
    }
  }

  function CanonSet(keys: seq<Value>): set<Canon>
    requires AllPlain(keys)
  {
    set i | 0 <= i < |keys| :: CanonOf(keys[i])
  }

  lemma RemovesByCanon(keys: seq<Value>, k: Value)
    requires AllPlain(keys) && Plain(k)
    ensures Removes(keys, k) <==> CanonOf(k) in CanonSet(keys)
  {
    hide CanonOf, KeyEqual, Plain;
    forall i | 0 <= i < |keys| ensures KeyEqual(k, keys[i]) <==> CanonOf(k) == CanonOf(keys[i]) {
      KeyEqualIsCanon(k, keys[i]);
    }
  }

  /** The pairs whose keys are not among `gone`, in their order. */
  function Kept(pairs: seq<Pair>, gone: set<Canon>): seq<Pair>
    requires PlainKeys(pairs)
  {
    if pairs == [] then []
    else
      var n := |pairs| - 1;
      Kept(pairs[..n], gone) + if CanonOf(pairs[n].0) in gone then [] else [pairs[n]]
  }

  lemma {:induction false} KeptFront(pairs: seq<Pair>, gone: set<Canon>)
    requires PlainKeys(pairs) && pairs != []
    ensures Kept(pairs, gone)
            == (if CanonOf(pairs[0].0) in gone then [] else [pairs[0]]) + Kept(pairs[1..], gone)
  {
    hide CanonOf, Plain;
    if |pairs| == 1 {
      assert pairs[..0] == [] && pairs[1..] == [];
    } else {
      var n := |pairs| - 1;
      KeptFront(pairs[..n], gone);
      assert pairs[..n][1..] == pairs[1..][..n - 1];
    }
  }

  lemma {:induction false} WithoutKept(pairs: seq<Pair>, keys: seq<Value>)
    requires PlainKeys(pairs) && AllPlain(keys)
    ensures var r := WithoutPairs(pairs, keys);
            PlainKeys(r) && r == Kept(pairs, CanonSet(keys)) && forall p :: p in r ==> p in pairs
  {
    hide CanonOf, Plain, CanonSet, Removes, Kept;
    if pairs == [] {
      KeptNothing(CanonSet(keys));
    } else {
      RemovesByCanon(keys, pairs[0].0);
      WithoutKept(pairs[1..], keys);
      KeptFront(pairs, CanonSet(keys));
    }
  }

  lemma KeptNothing(gone: set<Canon>)
    ensures Kept([], gone) == []
  {
  }

  lemma MapFront(p: Pair, rest: seq<Pair>)
    requires PlainKeys(rest) && Plain(p.0)
    ensures PlainKeys([p] + rest) && AsMap([p] + rest) == AsMap(rest)[CanonOf(p.0) := p.1]
  {
    hide CanonOf, Plain;
    assert ([p] + rest)[1..] == rest;
  }

  lemma {:induction false} WithoutMap(pairs: seq<Pair>, keys: seq<Value>)
    requires PlainKeys(pairs) && AllPlain(keys) && PlainKeys(WithoutPairs(pairs, keys))
    ensures AsMap(WithoutPairs(pairs, keys)) == AsMap(pairs) - CanonSet(keys)
  {
    hide CanonOf, Plain, CanonSet, Removes, AsMap;
    if pairs == [] {
      EmptyMap(CanonSet(keys));
    } else {
      RemovesByCanon(keys, pairs[0].0);
      WithoutKept(pairs[1..], keys);
      WithoutMap(pairs[1..], keys);
      assert pairs == [pairs[0]] + pairs[1..];
      MapFront(pairs[0], pairs[1..]);
      var rest := WithoutPairs(pairs[1..], keys);
      if Removes(keys, pairs[0].0) {
        assert [] + rest == rest;
      } else {
        MapFront(pairs[0], rest);
      }
    }
  }

  lemma EmptyMap(gone: set<Canon>)
    ensures AsMap([]) == AsMap([]) - gone && WithoutPairs([], []) == []
  {
  }

  lemma {:induction false} WithoutKeepsDistinct(pairs: seq<Pair>, keys: seq<Value>)
    requires PlainKeys(pairs) && AllPlain(keys) && Distinct(pairs) && PlainKeys(WithoutPairs(pairs, keys))
    ensures Distinct(WithoutPairs(pairs, keys))
  {
    hide CanonOf, Plain, Removes;
    if pairs != [] {
      WithoutKept(pairs[1..], keys);
      WithoutKeepsDistinct(pairs[1..], keys);
      WithoutDistinct(pairs, keys);
    }
  }

  /** `without` subtracts keys from the finite map and keeps the other pairs in their order. */
  lemma WithoutRefines(pairs: seq<Pair>, keys: seq<Value>)
    requires PlainKeys(pairs) && AllPlain(keys)
    ensures var r := WithoutPairs(pairs, keys);
            && PlainKeys(r)
            && r == Kept(pairs, CanonSet(keys))
            && AsMap(r) == AsMap(pairs) - CanonSet(keys)
            && (Distinct(pairs) ==> Distinct(r))
  {
    hide *;
    WithoutKept(pairs, keys);
    WithoutMap(pairs, keys);
    if Distinct(pairs) {
      WithoutKeepsDistinct(pairs, keys);
    }
  }

  lemma WithoutDistinct(pairs: seq<Pair>, keys: seq<Value>)
    requires pairs != [] && PlainKeys(pairs) && AllPlain(keys) && Distinct(pairs)
    requires var rest := WithoutPairs(pairs[1..], keys);
             PlainKeys(rest) && Distinct(rest) && forall p :: p in rest ==> p in pairs[1..]
    requires PlainKeys(WithoutPairs(pairs, keys))
    ensures Distinct(WithoutPairs(pairs, keys))
  {
    hide CanonOf, Plain, Removes;
    var rest := WithoutPairs(pairs[1..], keys);
    forall j | 0 <= j < |rest| ensures CanonOf(rest[j].0) != CanonOf(pairs[0].0) {
      assert rest[j] in pairs[1..];
    }
  }
}
