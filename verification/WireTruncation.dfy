/** A message cut short is never mistaken for a whole one (kap-core/src/encoder.rs): readers
    that succeed do not look past what they consume. */
module WireTruncation {
  import opened Common
  import opened Arithmetic
  import opened Rationals
  import opened Values
  import opened DynInt
  import opened WireFormat
  import opened WireScalars
  import opened WireRoundTrip

  /** What succeeds on less input succeeds alike on more. */
  predicate Extends<T(==)>(short: Result<(T, nat)>, long: Result<(T, nat)>) { short.Ok? ==> long == short }

  lemma {:induction false} DynLoopExtends(p: seq<byte>, b: seq<byte>, pos: nat, res: i64, more: bool)
    requires pos <= |p| && p <= b
    ensures Extends(DynLoop(p, pos, res, more), DynLoop(b, pos, res, more))
    decreases |p| - pos
  {
    hide Wrap64;
    if more && pos < |p| {
      DynLoopExtends(p, b, pos + 1, Wrap64(res * 128 + p[pos] % 128), p[pos] >= 128);
    }
  }

  lemma ReadDynExtends(p: seq<byte>, b: seq<byte>, pos: nat)
    requires pos <= |p| && p <= b
    ensures Extends(ReadDyn(p, pos), ReadDyn(b, pos))
    ensures Extends(ReadLength(p, pos), ReadLength(b, pos))
  {
    hide DynLoop;
    if pos < |p| {
      DynLoopExtends(p, b, pos + 1, p[pos] % 64, p[pos] >= 128);
    }
  }

  lemma TakeExtends(p: seq<byte>, b: seq<byte>, pos: nat, n: int)
    requires pos <= |p| && p <= b
    ensures Extends(Take(p, pos, n), Take(b, pos, n))
  {
    if 0 <= n && pos + n <= |p| {
      assert p[pos..pos + n] == b[pos..pos + n];
    }
  }

  lemma ReadCountedExtends(p: seq<byte>, b: seq<byte>, pos: nat)
    requires pos <= |p| && p <= b
    ensures Extends(ReadCounted(p, pos), ReadCounted(b, pos))
  {
    hide ReadDyn, Take;
    ReadDynExtends(p, b, pos);
    var len := ReadDyn(p, pos);
    if len.Ok? {
      TakeExtends(p, b, len.value.1, len.value.0);
    }
  }

  lemma ReadDoubleExtends(p: seq<byte>, b: seq<byte>, pos: nat)
    requires pos <= |p| && p <= b
    ensures Extends(ReadDouble(p, pos), ReadDouble(b, pos))
  {
    hide Take;
    TakeExtends(p, b, pos, 8);
  }

  lemma {:induction false} ReadDimsExtends(p: seq<byte>, b: seq<byte>, pos: nat, n: nat, acc: seq<nat>)
    requires pos <= |p| && p <= b
    ensures Extends(ReadDims(p, pos, n, acc), ReadDims(b, pos, n, acc))
    decreases n
  {
    hide ReadLength;
    ReadDynExtends(p, b, pos);
    var d := ReadLength(p, pos);
    if n > 0 && d.Ok? {
      ReadDimsExtends(p, b, d.value.1, n - 1, acc + [d.value.0]);
    }
  }

  lemma {:induction false} ReadIntegerExtends(p: seq<byte>, b: seq<byte>, pos: nat)
    requires pos <= |p| && p <= b
    ensures Extends(ReadInteger(p, pos), ReadInteger(b, pos))
    decreases |p| - pos, 1, 0
  {
    hide ReadAtom;
    if pos < |p| {
      ReadAtomExtends(p, b, pos + 1, p[pos]);
    }
  }

  lemma {:induction false} ReadAtomExtends(p: seq<byte>, b: seq<byte>, pos: nat, t: byte)
    requires pos <= |p| && p <= b
    ensures Extends(ReadAtom(p, pos, t), ReadAtom(b, pos, t))
    decreases |p| - pos, 3, 0
  {
    hide ReadDyn, ReadCounted, ReadDouble, ReadInteger, ReadValue, ReadMany, ReadLength, Take, Make, Reduced;
    ReadDynExtends(p, b, pos);
    ReadCountedExtends(p, b, pos);
    ReadDoubleExtends(p, b, pos);
    TakeExtends(p, b, pos, 4);
    var k := t - t % 8;
    if k == T_COMPLEX {
      var re := ReadDouble(p, pos);
      if re.Ok? { ReadDoubleExtends(p, b, re.value.1); }
    } else if k == T_RATIONAL {
      ReadIntegerExtends(p, b, pos);
      var numer := ReadInteger(p, pos);
      if numer.Ok? { ReadIntegerExtends(p, b, numer.value.1); }
    } else if k == T_ENCLOSED {
      ReadValueExtends(p, b, pos);
    } else if k == T_LIST {
      var n := ReadLength(p, pos);
      if n.Ok? { ReadManyExtends(p, b, n.value.1, n.value.0, []); }
    } else if k == T_SYMBOL {
      var ns := ReadCounted(p, pos);
      if ns.Ok? { ReadCountedExtends(p, b, ns.value.1); }
    }
  }

  lemma {:induction false} ReadValueExtends(p: seq<byte>, b: seq<byte>, pos: nat)
    requires pos <= |p| && p <= b
    ensures Extends(ReadValue(p, pos), ReadValue(b, pos))
    decreases |p| - pos, 1, 0
  {
    hide ReadAtom, ReadArray;
    if pos < |p| {
      ReadAtomExtends(p, b, pos + 1, p[pos]);
      ReadArrayExtends(p, b, pos + 1, p[pos]);
    }
  }

  lemma {:induction false} ReadManyExtends(p: seq<byte>, b: seq<byte>, pos: nat, n: nat, acc: seq<Value>)
    requires pos <= |p| && p <= b
    ensures Extends(ReadMany(p, pos, n, acc), ReadMany(b, pos, n, acc))
    decreases |p| - pos, 2, n
  {
    hide ReadValue;
    if n > 0 {
      ReadValueExtends(p, b, pos);
      var v := ReadValue(p, pos);
      if v.Ok? { ReadManyExtends(p, b, v.value.1, n - 1, acc + [v.value.0]); }
    }
  }

  lemma {:induction false} ReadArrayExtends(p: seq<byte>, b: seq<byte>, pos: nat, t: byte)
    requires pos <= |p| && p <= b
    ensures Extends(ReadArray(p, pos, t), ReadArray(b, pos, t))
    decreases |p| - pos, 3, 0
  {
    hide ReadLength, ReadDims, ReadMany, Product;
    ReadDynExtends(p, b, pos);
    var rank := if t % 64 == MAX_RANK then ReadLength(p, pos) else Ok((t % 64, pos));
    if rank.Ok? {
      ReadDimsExtends(p, b, rank.value.1, rank.value.0, []);
      var dims := ReadDims(p, rank.value.1, rank.value.0, []);
      if dims.Ok? { ReadManyExtends(p, b, dims.value.1, Product(dims.value.0), []); }
    }
  }

  /** Whatever bytes decode, encoded ones or not, decode alike with anything behind them. */
  lemma TrailingBytesIgnored(bytes: seq<byte>, suffix: seq<byte>)
    requires Decode(bytes).Ok?
    ensures Decode(bytes + suffix) == Decode(bytes)
  {
    hide ReadValue;
    assert (bytes + suffix)[..4] == bytes[..4];
    ReadValueExtends(bytes, bytes + suffix, 4);
  }

  /** No proper prefix of an encoded value decodes, wherever it is cut. */
  lemma TruncationFails(v: Value, k: nat)
    requires Sized(v) && Fits(v) && Encode(v).Ok? && k < |Encode(v).value|
    ensures Decode(Encode(v).value[..k]).Err?
  {
    hide ReadValue, ValueBytes, AsRead, Sized, Fits;
    var whole := Encode(v).value;
    var p := whole[..k];
    DecodeEncode(v, []);
    assert whole + [] == whole;
    if k >= 4 {
      assert p[..4] == whole[..4];
      ReadValueExtends(p, whole, 4);
    }
  }
}
