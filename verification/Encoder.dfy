/** The encoder and decoder of kap-core/src/encoder.rs in the form they have there: writers
    that push onto one byte vector, and a reader that advances a position. */
module Encoder {
  import opened Common
  import opened Arithmetic
  import opened Rationals
  import opened Doubles
  import opened Numbers
  import opened Values
  import opened DynInt
  import opened Bytes
  import opened WireFormat

  /** The lowest group below which nothing is skipped is the top group. */
  lemma {:induction false} TopGroupUnique(v: nat, n: nat)
    requires v < Pow(128, n + 1) && (n > 0 ==> Group(v, n) != 0)
    ensures n == TopGroup(v)
  {
    TopGroupBounds(v);
    var t := TopGroup(v);
    if n < t {
      PowMono(128, n + 1, t);
    } else if t < n {
      PowMono(128, t + 1, n);
      GroupAbove(v, n);
    }
  }

  lemma SkipGroup(v: nat, n: nat)
    requires v < Pow(128, n + 1) && Group(v, n) == 0
    ensures v < Pow(128, n)
  {
    GroupAbove(v, n + 1);
    GroupStep(v, n);
    DivModDefinition(v, Pow(128, n));
  }

  /** One byte moves from what is still to be written to what has been written. */
  lemma GroupBytesStep(out: seq<byte>, v: nat, n: nat, tagged: bool)
    requires tagged ==> Group(v, n) < 64
    ensures var b := Group(v, n) + (if n == 0 then 0 else 128) + (if tagged then 64 else 0);
            b < 256 && out + GroupBytes(v, n, if tagged then 64 else 0)
                    == out + [b] + if n == 0 then [] else GroupBytes(v, n - 1, 0)
  {
    hide Group;
  }

  /** An element that cannot be encoded makes the whole array fail. */
  lemma {:induction false} AllBytesPrefix(vs: seq<Value>, i: nat)
    requires i <= |vs| && AllBytes(vs[..i]).Err?
    ensures AllBytes(vs).Err?
    decreases |vs| - i
  {
    if i == |vs| {
      assert vs[..i] == vs;
    } else {
      assert vs[..i + 1][..i] == vs[..i];
      AllBytesPrefix(vs, i + 1);
    }
  }

  class Writer {
    var out: seq<byte>

    constructor ()
      ensures out == []
    {
      out := [];
    }

    method Push(b: byte)
      modifies this
      ensures out == old(out) + [b]
    {
      out := out + [b];
    }

    method Extend(bytes: seq<byte>)
      modifies this
      ensures out == old(out) + bytes
    {
      out := out + bytes;
    }

    /** The group loop of `write_dynint64`, most significant group first. */
    method PushGroups(v: nat, top: nat, complement: bool)
      requires complement ==> Group(v, top) < 64
      modifies this
      ensures out == old(out) + GroupBytes(v, top, if complement then 64 else 0)
    {
      hide Group, GroupBytes;
      var n := top;
      var needsTag := complement;
      ghost var goal := old(out) + GroupBytes(v, top, if complement then 64 else 0);
      while true
        invariant needsTag ==> Group(v, n) < 64
        invariant out + GroupBytes(v, n, if needsTag then 64 else 0) == goal
        decreases n
      {
        GroupBytesStep(out, v, n, needsTag);
        Push(Group(v, n) + (if n == 0 then 0 else 128) + (if needsTag then 64 else 0));
        if n == 0 {
          break;
        }
        n := n - 1;
        needsTag := false;
      }
    }

    method WriteDynint64(value: i64)
      modifies this
      ensures out == old(out) + DynBytes(value)
    {
      hide Group, Above, GroupBytes, TopGroup;
      if value == 0 {
        Push(0);
        return;
      }
      var v := Fold(value);
      var n: nat := 8;
      Pow128Nine();
      while n > 0 && Group(v, n) == 0
        invariant n <= 8 && v < Pow(128, n + 1)
        invariant out == old(out)
      {
        SkipGroup(v, n);
        n := n - 1;
      }
      TopGroupUnique(v, n);
      if Group(v, n) >= 64 {
        Push(if value < 0 then 192 else 128);
        PushGroups(v, n, false);
      } else {
        PushGroups(v, n, value < 0);
      }
    }

    method WriteLong(value: i64)
      modifies this
      ensures out == old(out) + LongBytes(value)
    {
      hide DynBytes;
      if -4 <= value <= 3 {
        Push(T_COMPRESSED_INT + value % 8);
      } else if -128 <= value <= 127 {
        Push(T_INT8);
        Push(value % 256);
      } else {
        Push(T_DYNINT64);
        WriteDynint64(value);
      }
    }

    method WriteBigint(v: int)
      modifies this
      ensures out == old(out) + BigIntBytes(v)
    {
      hide DynBytes, LongBytes, SignedBytes;
      if FitsI64(v) {
        WriteLong(v);
      } else {
        Push(T_BIGINT);
        var buf := SignedBytes(v);
        WriteDynint64(Length64(|buf|));
        Extend(buf);
      }
    }

    method WriteRational(r: BigRational)
      modifies this
      ensures out == old(out) + RationalBytes(r)
    {
      hide BigIntBytes;
      if r.denom == 1 {
        WriteBigint(r.numer);
      } else {
        Push(T_RATIONAL);
        WriteBigint(r.numer);
        WriteBigint(r.denom);
      }
    }

    method WriteNumber(n: KapNumber)
      modifies this
      ensures out == old(out) + NumberBytes(n)
    {
      hide LongBytes, BigIntBytes, RationalBytes, BigEndian;
      match n {
        case Long(l) => WriteLong(l);
        case Dbl(d) =>
          Push(T_DOUBLE);
          Extend(BigEndian(ToBits(d), 8));
        case BigInt(b) => WriteBigint(b);
        case Rational(r) => WriteRational(r);
        case Complex(re, im) =>
          Push(T_COMPLEX);
          Extend(BigEndian(ToBits(re), 8));
          Extend(BigEndian(ToBits(im), 8));
      }
    }

    method WriteChar(c: char)
      modifies this
      ensures out == old(out) + CharBytes(c)
    {
      hide BigEndian;
      var cp := c as int;
      if cp <= 255 {
        Push(T_CHAR8);
        Push(cp);
      } else {
        Push(T_CHAR32);
        Extend(BigEndian(cp, 4));
      }
    }

    method WriteString(s: seq<byte>)
      modifies this
      ensures out == old(out) + StringBytes(s)
    {
      hide DynBytes;
      WriteDynint64(Length64(|s|));
      Extend(s);
    }

    method WriteChars(s: string)
      modifies this
      ensures out == old(out) + CharsBytes(s)
    {
      hide CharBytes;
      for i := 0 to |s|
        invariant out == old(out) + CharsBytes(s[..i])
      {
        WriteChar(s[i]);
        assert s[..i + 1][..i] == s[..i];
      }
      assert s[..|s|] == s;
    }

    method WriteDims(dims: seq<nat>)
      modifies this
      ensures out == old(out) + DimsBytes(dims)
    {
      hide DynBytes;
      for i := 0 to |dims|
        invariant out == old(out) + DimsBytes(dims[..i])
      {
        WriteDynint64(Length64(dims[i]));
        assert dims[..i + 1][..i] == dims[..i];
      }
      assert dims[..|dims|] == dims;
    }

    method WriteRank(rank: nat)
      modifies this
      ensures out == old(out) + RankBytes(rank)
    {
      hide DynBytes;
      if rank >= MAX_RANK {
        Push(ARRAY + MAX_RANK);
        WriteDynint64(Length64(rank));
      } else {
        Push(ARRAY + rank);
      }
    }

    /** `write_value`: false stands for the "Unable to encode" error. */
    method WriteValue(v: Value) returns (ok: bool)
      modifies this
      ensures ok == ValueBytes(v).Ok?
      ensures ok ==> out == old(out) + ValueBytes(v).value
      decreases Depth(v), 0
    {
      hide NumberBytes, CharBytes, CharsBytes, DimsBytes, RankBytes, StringBytes, DynBytes, AllBytes;
      ok := true;
      match v {
        case Number(n) => WriteNumber(n);
        case Char(c) => WriteChar(c);
        case Str(s) =>
          Push(ARRAY + 1);
          WriteDynint64(Length64(|s|));
          WriteChars(s);
        case Null => Push(T_NIL);
        case Symbol(name, ns) =>
          Push(T_SYMBOL);
          WriteString(if ns.Some? then ns.value else DEFAULT);
          WriteString(name);
        case Array(dims, elems) =>
          WriteRank(|dims|);
          WriteDims(dims);
          ok := WriteElements(elems);
        case _ => ok := false;
      }
    }

    method WriteElements(elems: seq<Value>) returns (ok: bool)
      modifies this
      ensures ok == AllBytes(elems).Ok?
      ensures ok ==> out == old(out) + AllBytes(elems).value
      decreases DepthAll(elems), 1
    {
      hide ValueBytes, Depth, DepthAll;
      for i := 0 to |elems|
        invariant AllBytes(elems[..i]).Ok? && out == old(out) + AllBytes(elems[..i]).value
      {
        var written := WriteValue(elems[i]);
        assert elems[..i + 1][..i] == elems[..i];
        if !written {
          AllBytesPrefix(elems, i + 1);
          return false;
        }
      }
      assert elems[..|elems|] == elems;
      ok := true;
    }
  }

  method EncodeValue(v: Value) returns (r: Result<seq<byte>>)
    ensures r == Encode(v)
  {
    hide ValueBytes;
    var w := new Writer();
    w.Extend(HEADER);
    assert w.out == HEADER;
    var ok := w.WriteValue(v);
    r := if ok then Ok(w.out) else Err;
  }

  /** A reading method did what its specification function says: same value and position,
      or an error on both sides. */
  predicate Follows<T(==)>(r: Result<T>, pos: nat, spec: Result<(T, nat)>) {
    if spec.Ok? then r == Ok(spec.value.0) && pos == spec.value.1 else r.Err?
  }

  class Reader {
    const buf: seq<byte>
    var pos: nat

    predicate Valid()
      reads this
    {
      pos <= |buf|
    }

    constructor (bytes: seq<byte>, start: nat)
      requires start <= |bytes|
      ensures Valid() && buf == bytes && pos == start
    {
      buf, pos := bytes, start;
    }

    method Byte() returns (r: Result<byte>)
      requires Valid()
      modifies this
      ensures Valid()
      ensures if old(pos) < |buf| then r == Ok(buf[old(pos)]) && pos == old(pos) + 1 else r.Err?
    {
      if pos < |buf| {
        r := Ok(buf[pos]);
        pos := pos + 1;
      } else {
        r := Err;
      }
    }

    method TakeBytes(n: int) returns (r: Result<seq<byte>>)
      requires Valid()
      modifies this
      ensures Valid() && Follows(r, pos, Take(buf, old(pos), n))
    {
      if n < 0 || pos + n > |buf| {
        return Err;
      }
      r := Ok(buf[pos..pos + n]);
      pos := pos + n;
    }

    method Dynint64() returns (r: Result<i64>)
      requires Valid()
      modifies this
      ensures Valid() && Follows(r, pos, ReadDyn(buf, old(pos)))
    {
      var first :- Byte();
      var res: i64 := first % 64;
      var needsMore := first >= 128;
      while needsMore
        invariant Valid() && old(pos) < pos
        invariant DynLoop(buf, pos, res, needsMore) == DynLoop(buf, old(pos) + 1, first % 64, first >= 128)
        decreases |buf| - pos, needsMore
      {
        var nb :- Byte();
        res := Wrap64(res * 128 + nb % 128);
        needsMore := nb >= 128;
      }
      r := Ok(if first % 128 >= 64 then -1 - res else res);
    }

    method Length() returns (r: Result<nat>)
      requires Valid()
      modifies this
      ensures Valid() && Follows(r, pos, ReadLength(buf, old(pos)))
    {
      hide ReadDyn;
      var n :- Dynint64();
      r := if 0 <= n <= I32_MAX then Ok(n) else Err;
    }

    /** A length as `dynint64`, then that many bytes. */
    method Counted() returns (r: Result<seq<byte>>)
      requires Valid()
      modifies this
      ensures Valid() && Follows(r, pos, ReadCounted(buf, old(pos)))
    {
      hide ReadDyn, Take;
      var len :- Dynint64();
      r := TakeBytes(len);
    }

    method DoubleBits() returns (r: Result<Double>)
      requires Valid()
      modifies this
      ensures Valid() && Follows(r, pos, ReadDouble(buf, old(pos)))
    {
      var b :- TakeBytes(8);
      BigEndianBound(b);
      r := Ok(FromBits(FromBigEndian(b)));
    }

    method Value() returns (r: Result<Value>)
      requires Valid()
      modifies this
      ensures Valid() && Follows(r, pos, ReadValue(buf, old(pos)))
      decreases |buf| - pos, 1
    {
      hide ReadAtom, ReadArray;
      var t :- Byte();
      if t < 128 {
        r := Atom(t);
      } else {
        r := ArrayOf(t);
      }
    }

    method Atom(t: byte) returns (r: Result<Value>)
      requires Valid()
      modifies this
      ensures Valid() && Follows(r, pos, ReadAtom(buf, old(pos), t))
      decreases |buf| - pos, 3
    {
      hide ReadDyn, ReadCounted, ReadDouble, ReadInteger, ReadValue, ReadMany, ReadLength, Take, Make,
           FromSignedBytes, FromBigEndian, CharValue;
      var k := t - t % 8;
      if k % 128 == T_COMPRESSED_INT {
        r := Ok(Number(Long(if t % 8 >= 4 then t % 8 - 8 else t % 8)));
      } else if k == T_INT8 {
        var b :- Byte();
        r := Ok(Number(Long(b)));
      } else if k == T_DYNINT64 {
        var n :- Dynint64();
        r := Ok(Number(Long(n)));
      } else if k == T_BIGINT {
        var b :- Counted();
        r := Ok(Number(BigInt(FromSignedBytes(b))));
      } else if k == T_DOUBLE {
        var d :- DoubleBits();
        r := Ok(Number(Dbl(d)));
      } else if k == T_COMPLEX {
        var re :- DoubleBits();
        var im :- DoubleBits();
        r := Ok(Number(Complex(re, im)));
      } else if k == T_RATIONAL {
        var numer :- KapInteger();
        var denom :- KapInteger();
        r := if denom == 0 then Err else Ok(Number(Rational(Make(numer, denom))));
      } else if k == T_CHAR8 {
        var b :- Byte();
        r := Ok(CharValue(b));
      } else if k == T_CHAR32 {
        var b :- TakeBytes(4);
        r := Ok(CharValue(FromBigEndian(b)));
      } else if k == T_NIL {
        r := Ok(Null);
      } else if k == T_ENCLOSED {
        var v :- Value();
        r := Ok(Array([], [v]));
      } else if k == T_LIST {
        var n :- Length();
        var elems :- Many(n);
        r := Ok(Array([n], elems));
      } else if k == T_SYMBOL {
        var ns :- Counted();
        var name :- Counted();
        r := Ok(Symbol(name, if ns == DEFAULT then None else Some(ns)));
      } else {
        r := Err;
      }
    }

    method KapInteger() returns (r: Result<int>)
      requires Valid()
      modifies this
      ensures Valid() && Follows(r, pos, ReadInteger(buf, old(pos)))
      decreases |buf| - pos, 1
    {
      hide ReadAtom;
      var b :- Byte();
      var v :- Atom(b);
      if v.Number? && v.n.Long? {
        r := Ok(v.n.l);
      } else if v.Number? && v.n.BigInt? {
        r := Ok(v.n.b);
      } else {
        r := Err;
      }
    }

    /** The element loops of `read_atom` and `read_array`. */
    method Many(n: nat) returns (r: Result<seq<Value>>)
      requires Valid()
      modifies this
      ensures Valid() && Follows(r, pos, ReadMany(buf, old(pos), n, []))
      decreases |buf| - pos, 2
    {
      hide ReadValue;
      var elems: seq<Value> := [];
      for i := 0 to n
        invariant Valid() && old(pos) <= pos
        invariant ReadMany(buf, pos, n - i, elems) == ReadMany(buf, old(pos), n, [])
      {
        var v :- Value();
        elems := elems + [v];
      }
      r := Ok(elems);
    }

    method Dims(rank: nat) returns (r: Result<seq<nat>>)
      requires Valid()
      modifies this
      ensures Valid() && Follows(r, pos, ReadDims(buf, old(pos), rank, []))
    {
      hide ReadLength;
      var dims: seq<nat> := [];
      for i := 0 to rank
        invariant Valid()
        invariant ReadDims(buf, pos, rank - i, dims) == ReadDims(buf, old(pos), rank, [])
      {
        var d :- Length();
        dims := dims + [d];
      }
      r := Ok(dims);
    }

    method ArrayOf(t: byte) returns (r: Result<Value>)
      requires Valid()
      modifies this
      ensures Valid() && Follows(r, pos, ReadArray(buf, old(pos), t))
      decreases |buf| - pos, 3
    {
      hide ReadDims, ReadMany, ReadLength;
      var rank: nat := t % 64;
      if rank == MAX_RANK {
        rank :- Length();
      }
      var dims :- Dims(rank);
      if t % 128 >= 64 {
        return Err;
      }
      var elems :- Many(Product(dims));
      r := Ok(Array(dims, elems));
    }
  }

  method DecodeValue(bytes: seq<byte>) returns (r: Result<Value>)
    ensures match Decode(bytes) case Ok(p) => r == Ok(p.0) case Err => r.Err?
  {
    hide ReadValue;
    if |bytes| < 4 || bytes[..4] != HEADER {
      return Err;
    }
    var reader := new Reader(bytes, 4);
    r := reader.Value();
  }
}
