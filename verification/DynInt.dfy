/** The variable-length integer of the wire format (kap-core/src/encoder.rs): what
    `write_dynint64` appends and what `Reader::dynint64` reads, as functions. */
module DynInt {
  import opened Common
  import opened Arithmetic
  import opened Bytes

  /** Bitwise NOT of a negative number, which leaves 63 significant bits. */
  function Fold(value: i64): (v: nat)
    ensures v < TWO_63
  {
    if value < 0 then -1 - value else value
  }

  /** `v >> 7n`. */
  function Above(v: nat, n: nat): nat { v / Pow(128, n) }

  /** `(v >> 7n) & 0x7f`. */
  function Group(v: nat, n: nat): (g: nat)
    ensures g < 128
  {
    Above(v, n) % 128
  }

  /** The index of the highest non-zero group, 0 for small numbers. */
  function TopGroup(v: nat): nat { if v < 128 then 0 else 1 + TopGroup(v / 128) }

  /** Groups n, n-1, .., 0, every byte but the last with the continuation bit;
      `tag` is the complement bit and goes on the first byte only. */
  function GroupBytes(v: nat, n: nat, tag: nat): seq<byte>
    requires tag == 0 || (tag == 64 && Group(v, n) < 64)
  {
    [Group(v, n) + (if n == 0 then 0 else 128) + tag] + (if n == 0 then [] else GroupBytes(v, n - 1, 0))
  }

  function DynBytes(value: i64): seq<byte> {
    if value == 0 then [0]
    else
      var v := Fold(value);
      var n := TopGroup(v);
      if Group(v, n) >= 64 then [if value < 0 then 192 else 128] + GroupBytes(v, n, 0)
      else GroupBytes(v, n, if value < 0 then 64 else 0)
  }

  /** Two's-complement wrap-around of a 64-bit shift. */
  function Wrap64(x: int): i64 {
    var r := x % TWO_64;
    if r >= TWO_63 then r - TWO_64 else r
  }

  /** The continuation loop of the reader. */
  function DynLoop(buf: seq<byte>, pos: nat, res: i64, more: bool): (r: Result<(i64, nat)>)
    requires pos <= |buf|
    ensures r.Ok? ==> pos <= r.value.1 <= |buf|
    decreases |buf| - pos
  {
    if !more then Ok((res, pos))
    else if pos == |buf| then Err
    else DynLoop(buf, pos + 1, Wrap64(res * 128 + buf[pos] % 128), buf[pos] >= 128)
  }

  function ReadDyn(buf: seq<byte>, pos: nat): (r: Result<(i64, nat)>)
    requires pos <= |buf|
    ensures r.Ok? ==> pos < r.value.1 <= |buf|
  {
    if pos == |buf| then Err
    else
      var first := buf[pos];
      var out :- DynLoop(buf, pos + 1, first % 64, first >= 128);
      Ok((if first % 128 >= 64 then -1 - out.0 else out.0, out.1))
  }

  lemma {:induction false} TopGroupBounds(v: nat)
    ensures v < Pow(128, TopGroup(v) + 1)
    ensures TopGroup(v) > 0 ==> v >= Pow(128, TopGroup(v))
    ensures v < TWO_63 ==> TopGroup(v) <= 8
  {
    if v >= 128 {
      TopGroupBounds(v / 128);
      if TopGroup(v / 128) == 0 { assert Pow(128, 1) == 128; }
      if TopGroup(v) >= 9 {
        PowMono(128, 9, TopGroup(v));
        Pow128Nine();
      }
    } else {
      assert Pow(128, 1) == 128;
    }
  }

  lemma Pow128Nine()
    ensures Pow(128, 9) == TWO_63
    ensures 64 * Pow(128, 8) < TWO_63
  {
    assert Pow(128, 3) == 0x20_0000;
    PowAdd(128, 3, 3);
    assert Pow(128, 6) == 0x400_0000_0000;
    PowAdd(128, 6, 3);
    PowAdd(128, 6, 2);
    assert Pow(128, 2) == 0x4000;
  }

  /** Dropping one group: v >> 7n is (v >> 7(n+1)) << 7 plus group n. */
  lemma GroupStep(v: nat, n: nat)
    ensures Above(v, n) == 128 * (Above(v, n + 1)) + Group(v, n)
  {
    var p := Pow(128, n);
    DivModDefinition(v, p);
    DivModDefinition(v / p, 128);
    var q := v / p / 128;
    assert v == (p * 128) * q + (p * (v / p % 128) + v % p) by {
      assert v == p * (128 * q + v / p % 128) + v % p;
      Distribute(p, 128 * q, v / p % 128);
      assert p * (128 * q) == (p * 128) * q;
    }
    MulMono(p, v / p % 128, 127);
    MulMono(p, 0, v / p % 128);
    assert p * 127 + p == p * 128;
    DivUnique(v, p * 128, q, p * (v / p % 128) + v % p);
    assert Pow(128, n + 1) == 128 * p;
  }

  lemma GroupAbove(v: nat, n: nat)
    requires v < Pow(128, n)
    ensures Above(v, n) == 0
  {
    DivUnique(v, Pow(128, n), 0, v);
  }

  lemma AboveBound(v: nat, n: nat)
    ensures 0 <= Above(v, n) <= v
  {
    var p := Pow(128, n);
    DivModDefinition(v, p);
    if v / p > v { MulMono(v / p, 1, p); }
  }

  lemma WrapSmall(x: int)
    requires 0 <= x < TWO_63
    ensures Wrap64(x) == x
  {
  }

  /** One turn of the reader's loop. */
  lemma DynLoopStep(buf: seq<byte>, pos: nat, res: i64, g: nat, more: bool, sum: i64)
    requires pos < |buf| && g < 128 && buf[pos] == g + (if more then 128 else 0)
    requires 0 <= sum == res * 128 + g
    ensures DynLoop(buf, pos, res, true) == DynLoop(buf, pos + 1, sum, more)
  {
    WrapSmall(sum);
    assert buf[pos] % 128 == g;
  }

  lemma GroupBytesHead(v: nat, n: nat)
    ensures GroupBytes(v, n, 0)
            == [Group(v, n) + (if n == 0 then 0 else 128)] + (if n == 0 then [] else GroupBytes(v, n - 1, 0))
  {
    hide Group;
  }

  /** Reading the remaining groups from the accumulated higher ones gives back the number. */
  lemma {:induction false} DynLoopGroups(buf: seq<byte>, pos: nat, v: nat, n: nat)
    requires v < TWO_63 && pos <= |buf|
    requires At(buf, pos, GroupBytes(v, n, 0))
    ensures 0 <= Above(v, n + 1) < TWO_63
    ensures DynLoop(buf, pos, Above(v, n + 1), true) == Ok((v, pos + n + 1))
    decreases n
  {
    hide Above, Group, DynLoop, At, GroupBytes, Pow, Wrap64;
    var g := Group(v, n);
    var head := g + if n == 0 then 0 else 128;
    GroupBytesHead(v, n);
    AtConcat(buf, pos, [head], if n == 0 then [] else GroupBytes(v, n - 1, 0));
    AtFirst(buf, pos, head);
    GroupStep(v, n);
    AboveBound(v, n + 1);
    AboveBound(v, n);
    DynLoopStep(buf, pos, Above(v, n + 1), g, n != 0, Above(v, n));
    if n > 0 {
      DynLoopGroups(buf, pos + 1, v, n - 1);
    } else {
      DynLoopEnd(buf, pos + 1, v);
    }
  }

  lemma DynLoopEnd(buf: seq<byte>, pos: nat, v: nat)
    requires v < TWO_63 && pos <= |buf|
    ensures Above(v, 0) == v
    ensures DynLoop(buf, pos, Above(v, 0), false) == Ok((v, pos))
  {
    assert Pow(128, 0) == 1;
  }

  lemma {:induction false} GroupBytesLength(v: nat, n: nat, tag: nat)
    requires tag == 0 || (tag == 64 && Group(v, n) < 64)
    ensures |GroupBytes(v, n, tag)| == n + 1
    decreases n
  {
    if n > 0 {
      GroupBytesLength(v, n - 1, 0);
    }
  }

  lemma ReadZero(buf: seq<byte>, pos: nat)
    requires pos < |buf| && buf[pos] == 0
    ensures ReadDyn(buf, pos) == Ok((0, pos + 1))
  {
  }

  /** Reading a written number gives it back and stops right behind it, whatever follows. */
  lemma ReadDynBytes(buf: seq<byte>, pos: nat, value: i64)
    requires At(buf, pos, DynBytes(value))
    ensures pos <= |buf| && ReadDyn(buf, pos) == Ok((value, pos + |DynBytes(value)|))
  {
    hide Above, Group, DynLoop, At, Pow, GroupBytes, TopGroup;
    var v := Fold(value);
    var n := TopGroup(v);
    if value == 0 {
      AtFirst(buf, pos, 0);
      ReadZero(buf, pos);
    } else {
      TopGroupBounds(v);
      GroupAbove(v, n + 1);
      if Group(v, n) >= 64 {
        var lead: byte := if value < 0 then 192 else 128;
        AtConcat(buf, pos, [lead], GroupBytes(v, n, 0));
        AtFirst(buf, pos, lead);
        DynLoopGroups(buf, pos + 1, v, n);
        GroupBytesLength(v, n, 0);
        assert lead % 64 == 0 && lead >= 128 && (lead % 128 >= 64 <==> value < 0);
      } else {
        ReadTagged(buf, pos, value, v, n);
      }
    }
  }

  lemma TaggedByte(g: nat, more: bool, negative: bool)
    requires g < 64
    ensures var b := g + (if more then 128 else 0) + (if negative then 64 else 0);
            b < 256 && b % 64 == g && (b >= 128 <==> more) && (b % 128 >= 64 <==> negative)
  {
  }

  /** The case where the complement bit fits on the first group. */
  lemma ReadTagged(buf: seq<byte>, pos: nat, value: i64, v: nat, n: nat)
    requires v == Fold(value) && Group(v, n) < 64 && Above(v, n + 1) == 0
    requires At(buf, pos, GroupBytes(v, n, if value < 0 then 64 else 0))
    ensures pos <= |buf|
    ensures ReadDyn(buf, pos) == Ok((value, pos + |GroupBytes(v, n, if value < 0 then 64 else 0)|))
  {
    hide Above, Group, DynLoop, At, ReadDyn, GroupBytes;
    GroupStep(v, n);
    GroupBytesLength(v, n, if value < 0 then 64 else 0);
    TaggedHead(buf, pos, v, n, value < 0);
    AboveBound(v, n);
    if n > 0 {
      DynLoopGroups(buf, pos + 1, v, n - 1);
    } else {
      DynLoopEnd(buf, pos + 1, v);
    }
    ReadFirst(buf, pos, Group(v, n), v, pos + 1 + n);
  }

  lemma TaggedBytesHead(v: nat, n: nat, negative: bool)
    requires Group(v, n) < 64
    ensures GroupBytes(v, n, if negative then 64 else 0)
            == [Group(v, n) + (if n == 0 then 0 else 128) + (if negative then 64 else 0)]
               + (if n == 0 then [] else GroupBytes(v, n - 1, 0))
  {
    hide Group;
  }

  lemma TaggedHead(buf: seq<byte>, pos: nat, v: nat, n: nat, negative: bool)
    requires Group(v, n) < 64
    requires At(buf, pos, GroupBytes(v, n, if negative then 64 else 0))
    ensures pos < |buf|
    ensures buf[pos] % 64 == Group(v, n) && (buf[pos] >= 128 <==> n != 0) && (buf[pos] % 128 >= 64 <==> negative)
    ensures n > 0 ==> At(buf, pos + 1, GroupBytes(v, n - 1, 0))
  {
    hide Group, At, GroupBytes, Above, Pow;
    TaggedBytesHead(v, n, negative);
    TaggedByte(Group(v, n), n != 0, negative);
    var first := Group(v, n) + (if n == 0 then 0 else 128) + (if negative then 64 else 0);
    AtConcat(buf, pos, [first], if n == 0 then [] else GroupBytes(v, n - 1, 0));
    AtFirst(buf, pos, first);
  }

  lemma ReadFirst(buf: seq<byte>, pos: nat, g: i64, r: i64, next: nat)
    requires pos < |buf| && buf[pos] % 64 == g
    requires DynLoop(buf, pos + 1, g, buf[pos] >= 128) == Ok((r, next))
    ensures ReadDyn(buf, pos) == Ok((if buf[pos] % 128 >= 64 then -1 - r else r, next))
  {
  }

  /** k continuation bytes add at most 7k bits, as long as nothing wraps. */
  lemma {:induction false} DynLoopBound(buf: seq<byte>, pos: nat, res: i64, more: bool, bound: nat)
    requires pos <= |buf| && 0 <= res < bound
    requires var r := DynLoop(buf, pos, res, more); r.Ok? && bound * Pow(128, r.value.1 - pos) <= TWO_63
    ensures var r := DynLoop(buf, pos, res, more).value; 0 <= r.0 < bound * Pow(128, r.1 - pos)
    decreases |buf| - pos
  {
    hide Pow;
    var r := DynLoop(buf, pos, res, more).value;
    if more {
      var next := res * 128 + buf[pos] % 128;
      BoundStep(bound, r.1 - (pos + 1));
      WrapSmall(next);
      assert DynLoop(buf, pos + 1, next, buf[pos] >= 128).value == r;
      hide DynLoop;
      DynLoopBound(buf, pos + 1, next, buf[pos] >= 128, bound * 128);
    } else {
      PowNone(128);
    }
  }

  lemma PowNone(b: nat)
    ensures Pow(b, 0) == 1
  {
  }

  lemma BoundStep(bound: nat, e: nat)
    ensures bound * Pow(128, e + 1) == (bound * 128) * Pow(128, e)
    ensures bound * 128 <= (bound * 128) * Pow(128, e)
  {
    assert Pow(128, e + 1) == 128 * Pow(128, e);
    MulAssociates(bound, 128, Pow(128, e));
    MulMono(bound * 128, 1, Pow(128, e));
  }

  /** No shorter byte string reads as the same number. */
  lemma DynBytesMinimal(buf: seq<byte>, pos: nat, value: i64, next: nat)
    requires pos <= |buf| && ReadDyn(buf, pos) == Ok((value, next))
    ensures next - pos >= |DynBytes(value)|
  {
    hide Above, Group, GroupBytes, TopGroup, DynLoop, ReadDyn;
    var v := Fold(value);
    var n := TopGroup(v);
    var k := next - pos;
    if value != 0 && k < |DynBytes(value)| {
      TopGroupBounds(v);
      GroupBytesLength(v, n, if Group(v, n) < 64 && value < 0 then 64 else 0);
      assert k - 1 <= n && k - 1 <= 8;
      ReadBound(buf, pos, value, k);
      LowerBound(v, n, k - 1);
    }
  }

  lemma ReadBound(buf: seq<byte>, pos: nat, value: i64, k: nat)
    requires pos <= |buf| && 1 <= k <= 9 && ReadDyn(buf, pos) == Ok((value, pos + k))
    ensures Fold(value) < 64 * Pow(128, k - 1)
  {
    hide DynLoop;
    PowMono(128, k - 1, 8);
    Pow128Nine();
    DynLoopBound(buf, pos + 1, buf[pos] % 64, buf[pos] >= 128, 64);
  }

  lemma LowerBoundSmall(v: nat, n: nat, k: nat)
    requires Pow(128, n) <= v && k < n
    ensures v >= 64 * Pow(128, k)
  {
    PowMono(128, k, n - 1);
    assert Pow(128, n) == 128 * Pow(128, n - 1);
  }

  lemma LowerBoundLarge(v: nat, n: nat, k: nat, top: nat)
    requires v >= Pow(128, n) * top && top >= 64 && k <= n
    ensures v >= 64 * Pow(128, k)
  {
    PowMono(128, k, n);
    hide Pow;
    MulMono(Pow(128, n), 64, top);
  }

  /** A number whose encoding is longer than k + 1 bytes has more than 6 + 7k bits. */
  lemma LowerBound(v: nat, n: nat, k: nat)
    requires n == TopGroup(v)
    requires k <= n && (Group(v, n) < 64 ==> k < n)
    ensures v >= 64 * Pow(128, k)
  {
    hide Group, Pow, TopGroup, Above;
    TopGroupBounds(v);
    if Group(v, n) < 64 {
      LowerBoundSmall(v, n, k);
    } else {
      GroupAbove(v, n + 1);
      GroupStep(v, n);
      AboveTimes(v, n);
      LowerBoundLarge(v, n, k, Above(v, n));
    }
  }

  lemma AboveTimes(v: nat, n: nat)
    ensures v >= Pow(128, n) * Above(v, n)
  {
    hide Pow;
    DivModDefinition(v, Pow(128, n));
  }
}
