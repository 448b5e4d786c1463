/** Reading back what the encoder of kap-core/src/encoder.rs wrote, to any depth. */
module WireRoundTrip {
  import opened Common
  import opened Arithmetic
  import opened Rationals
  import opened Doubles
  import opened Numbers
  import opened Values
  import opened DynInt
  import opened Bytes
  import opened WireFormat
  import opened WireScalars

  lemma CharsBytesLast(s: string)
    requires s != ""
    ensures CharsBytes(s) == CharsBytes(s[..|s| - 1]) + CharBytes(s[|s| - 1])
  {
    hide CharBytes;
  }

  lemma CharsBytesOne(s: string)
    requires |s| == 1
    ensures CharsBytes(s) == CharBytes(s[0]) && CharsBytes(s[1..]) == []
  {
    hide CharBytes;
    assert s[..0] == "" && s[1..] == "";
  }

  lemma Slices<T>(s: seq<T>, n: nat)
    requires 0 < n == |s| - 1
    ensures s[..n][0] == s[0] && s[..n][1..] == s[1..][..n - 1] && s[1..][n - 1] == s[n] && |s[1..]| == n
  {
  }

  lemma {:induction false} CharsBytesFront(s: string)
    requires s != ""
    ensures CharsBytes(s) == CharBytes(s[0]) + CharsBytes(s[1..])
  {
    hide CharBytes, CharsBytes;
    if |s| == 1 {
      CharsBytesOne(s);
    } else {
      var n := |s| - 1;
      CharsBytesLast(s);
      CharsBytesFront(s[..n]);
      Slices(s, n);
      CharsBytesLast(s[1..]);
    }
  }

  lemma DimsBytesLast(dims: seq<nat>)
    requires dims != []
    ensures DimsBytes(dims) == DimsBytes(dims[..|dims| - 1]) + DynBytes(Length64(dims[|dims| - 1]))
    ensures |dims| == 1 ==> DimsBytes(dims[..0]) == [] && DimsBytes(dims[1..]) == []
  {
    hide DynBytes, Length64;
    if |dims| == 1 { assert dims[..0] == [] && dims[1..] == []; }
  }

  lemma {:induction false} DimsBytesFront(dims: seq<nat>)
    requires dims != []
    ensures DimsBytes(dims) == DynBytes(Length64(dims[0])) + DimsBytes(dims[1..])
  {
    hide DynBytes, Length64, DimsBytes;
    DimsBytesLast(dims);
    if |dims| > 1 {
      var n := |dims| - 1;
      DimsBytesFront(dims[..n]);
      Slices(dims, n);
      DimsBytesLast(dims[1..]);
    }
  }

  lemma {:induction false} AllBytesFront(vs: seq<Value>)
    requires vs != [] && AllBytes(vs).Ok?
    ensures ValueBytes(vs[0]).Ok? && AllBytes(vs[1..]).Ok?
    ensures AllBytes(vs).value == ValueBytes(vs[0]).value + AllBytes(vs[1..]).value
  {
    hide ValueBytes, AllBytes;
    AllBytesLast(vs);
    if |vs| > 1 {
      var n := |vs| - 1;
      AllBytesFront(vs[..n]);
      Slices(vs, n);
      AllBytesLast(vs[1..]);
    }
  }

  lemma AllBytesLast(vs: seq<Value>)
    requires vs != []
    ensures var front, last := AllBytes(vs[..|vs| - 1]), ValueBytes(vs[|vs| - 1]);
            && (AllBytes(vs).Ok? <==> front.Ok? && last.Ok?)
            && (AllBytes(vs).Ok? ==> AllBytes(vs).value == front.value + last.value)
    ensures |vs| == 1 ==> AllBytes(vs[..0]) == Ok([]) && AllBytes(vs[1..]) == Ok([])
  {
    hide ValueBytes;
    if |vs| == 1 { assert vs[..0] == [] && vs[1..] == []; }
  }

  lemma AllAsReadLast(vs: seq<Value>)
    requires vs != []
    ensures AllAsRead(vs) == AllAsRead(vs[..|vs| - 1]) + [AsRead(vs[|vs| - 1])]
    ensures |vs| == 1 ==> AllAsRead(vs[..0]) == [] && AllAsRead(vs[1..]) == []
  {
    hide AsRead;
    if |vs| == 1 { assert vs[..0] == [] && vs[1..] == []; }
  }

  lemma {:induction false} AllAsReadFront(vs: seq<Value>)
    requires vs != []
    ensures AllAsRead(vs) == [AsRead(vs[0])] + AllAsRead(vs[1..])
  {
    hide AsRead, AllAsRead;
    AllAsReadLast(vs);
    if |vs| > 1 {
      var n := |vs| - 1;
      AllAsReadFront(vs[..n]);
      Slices(vs, n);
      AllAsReadLast(vs[1..]);
    }
  }

  lemma ReadLengthBytes(buf: seq<byte>, pos: nat, n: nat)
    requires n < TWO_63 && At(buf, pos, DynBytes(Length64(n)))
    ensures pos <= |buf|
    ensures ReadLength(buf, pos) == if n <= I32_MAX then Ok((n, pos + |DynBytes(Length64(n))|)) else Err
  {
    hide DynBytes, ReadDyn;
    ReadDynBytes(buf, pos, n);
  }

  lemma {:induction false} ReadDimsBytes(buf: seq<byte>, pos: nat, dims: seq<nat>, acc: seq<nat>)
    requires forall i :: 0 <= i < |dims| ==> dims[i] < TWO_63
    requires At(buf, pos, DimsBytes(dims))
    ensures pos <= |buf|
    ensures ReadDims(buf, pos, |dims|, acc) ==
            if DimsFit(dims) then Ok((acc + dims, pos + |DimsBytes(dims)|)) else Err
    decreases |dims|
  {
    hide At, DynBytes, ReadLength;
    if dims == [] {
      AtBounds(buf, pos, []);
      assert acc + dims == acc;
    } else {
      var d := DynBytes(Length64(dims[0]));
      DimsBytesFront(dims);
      AtConcat(buf, pos, d, DimsBytes(dims[1..]));
      ReadLengthBytes(buf, pos, dims[0]);
      ReadDimsBytes(buf, pos + |d|, dims[1..], acc + [dims[0]]);
      assert acc + [dims[0]] + dims[1..] == acc + dims;
      assert forall i :: 0 <= i < |dims[1..]| ==> dims[1..][i] == dims[i + 1];
      if DimsFit(dims[1..]) {
        assert forall i :: 1 <= i < |dims| ==> dims[i] == dims[1..][i - 1];
      }
    }
  }

  lemma {:induction false} ReadCharsBytes(buf: seq<byte>, pos: nat, s: string, acc: seq<Value>)
    requires At(buf, pos, CharsBytes(s))
    ensures pos <= |buf|
    ensures ReadMany(buf, pos, |s|, acc) == Ok((acc + Elements(Str(s)), pos + |CharsBytes(s)|))
    decreases |s|
  {
    hide At, CharBytes, ReadValue, ReadMany;
    if s == "" {
      AtBounds(buf, pos, []);
      assert acc + Elements(Str(s)) == acc;
      ReadNone(buf, pos, acc);
    } else {
      CharsBytesFront(s);
      CharElements(s);
      hide Elements, CharsBytes;
      var c := s[0];
      AtConcat(buf, pos, CharBytes(c), CharsBytes(s[1..]));
      ReadChar(buf, pos, c);
      ReadNext(buf, pos, |s|, acc, Char(c), pos + |CharBytes(c)|);
      ReadCharsBytes(buf, pos + |CharBytes(c)|, s[1..], acc + [Char(c)]);
      assert acc + [Char(c)] + Elements(Str(s[1..])) == acc + Elements(Str(s));
    }
  }

  lemma CharElements(s: string)
    requires s != ""
    ensures Elements(Str(s)) == [Char(s[0])] + Elements(Str(s[1..]))
  {
  }

  lemma ReadNone(buf: seq<byte>, pos: nat, acc: seq<Value>)
    requires pos <= |buf|
    ensures ReadMany(buf, pos, 0, acc) == Ok((acc, pos))
  {
  }

  lemma ReadNext(buf: seq<byte>, pos: nat, n: nat, acc: seq<Value>, v: Value, next: nat)
    requires pos <= next <= |buf| && n > 0 && ReadValue(buf, pos) == Ok((v, next))
    ensures ReadMany(buf, pos, n, acc) == ReadMany(buf, next, n - 1, acc + [v])
  {
    hide ReadValue;
  }

  lemma ReadSymbol(buf: seq<byte>, pos: nat, v: Value)
    requires v.Symbol? && Sized(v) && At(buf, pos, ValueBytes(v).value)
    ensures pos < |buf| && ReadValue(buf, pos) == Ok((AsRead(v), pos + |ValueBytes(v).value|))
  {
    hide At, DynBytes, ReadCounted;
    var ns := if v.namespace.Some? then v.namespace.value else DEFAULT;
    var a, b := StringBytes(ns), StringBytes(v.name);
    assert ValueBytes(v).value == [T_SYMBOL] + (a + b);
    AtTag(buf, pos, T_SYMBOL, a + b);
    AtConcat(buf, pos + 1, a, b);
    ReadCountedBytes(buf, pos + 1, ns);
    ReadCountedBytes(buf, pos + 1 + |a|, v.name);
    AtomSymbol(buf, pos + 1, (ns, pos + 1 + |a|), (v.name, pos + 1 + |a| + |b|));
  }

  lemma AtomSymbol(buf: seq<byte>, pos: nat, ns: (seq<byte>, nat), name: (seq<byte>, nat))
    requires pos <= |buf| && ReadCounted(buf, pos) == Ok(ns)
    requires ns.1 <= |buf| && ReadCounted(buf, ns.1) == Ok(name)
    ensures ReadAtom(buf, pos, T_SYMBOL) ==
            Ok((Symbol(name.0, if ns.0 == DEFAULT then None else Some(ns.0)), name.1))
  {
    hide ReadCounted;
  }

  lemma ReadString(buf: seq<byte>, pos: nat, s: string)
    requires |s| < TWO_63 && At(buf, pos, ValueBytes(Str(s)).value)
    ensures pos < |buf|
    ensures ReadValue(buf, pos) ==
            if |s| <= I32_MAX then Ok((AsRead(Str(s)), pos + |ValueBytes(Str(s)).value|)) else Err
  {
    hide At, DynBytes, ReadDims, ReadMany, CharsBytes, ReadValue, ReadArray, Product, Elements;
    var len, body := DynBytes(Length64(|s|)), CharsBytes(s);
    assert ValueBytes(Str(s)).value == [ARRAY + 1] + (len + body);
    AtTag(buf, pos, ARRAY + 1, len + body);
    AtConcat(buf, pos + 1, len, body);
    SingleDim(|s|);
    ReadDimsBytes(buf, pos + 1, [|s|], []);
    ReadCharsBytes(buf, pos + 1 + |len|, s, []);
    assert [] + [|s|] == [|s|] && [] + Elements(Str(s)) == Elements(Str(s));
    assert [|s|][0] == |s|;
    ValueDispatch(buf, pos);
    ArrayBody(buf, pos + 1, ARRAY + 1, 1, pos + 1);
  }

  lemma SingleDim(n: nat)
    ensures DimsBytes([n]) == DynBytes(Length64(n)) && Product([n]) == n
  {
    assert [n][..0] == [];
  }

  lemma ReadRank(buf: seq<byte>, pos: nat, rank: nat, rest: seq<byte>)
    requires rank < TWO_63 && At(buf, pos, RankBytes(rank) + rest)
    ensures pos < |buf| && buf[pos] >= 128 && buf[pos] % 128 < 64
    ensures (if buf[pos] % 64 == MAX_RANK then ReadLength(buf, pos + 1) else Ok((buf[pos] % 64, pos + 1))) ==
            if rank <= I32_MAX then Ok((rank, pos + |RankBytes(rank)|)) else Err
    ensures At(buf, pos + |RankBytes(rank)|, rest)
  {
    hide At, DynBytes, ReadLength;
    AtConcat(buf, pos, RankBytes(rank), rest);
    if rank >= MAX_RANK {
      AtTag(buf, pos, ARRAY + MAX_RANK, DynBytes(Length64(rank)));
      ReadLengthBytes(buf, pos + 1, rank);
    } else {
      AtFirst(buf, pos, ARRAY + rank);
    }
  }

  lemma ValueDispatch(buf: seq<byte>, pos: nat)
    requires pos < |buf|
    ensures ReadValue(buf, pos) ==
            if buf[pos] < 128 then ReadAtom(buf, pos + 1, buf[pos]) else ReadArray(buf, pos + 1, buf[pos])
  {
    hide ReadAtom, ReadArray;
  }

  lemma ReadNull(buf: seq<byte>, pos: nat)
    requires At(buf, pos, [T_NIL])
    ensures pos < |buf| && ReadValue(buf, pos) == Ok((Null, pos + 1))
  {
    AtFirst(buf, pos, T_NIL);
  }

  /** Reading stops right behind the bytes of `v` with its read form, or fails on a length. */
  predicate ReadsBack(buf: seq<byte>, pos: nat, v: Value)
    requires ValueBytes(v).Ok?
  {
    pos <= |buf|
    && ReadValue(buf, pos) == if Fits(v) then Ok((AsRead(v), pos + |ValueBytes(v).value|)) else Err
  }

  lemma ReadBackFlat(buf: seq<byte>, pos: nat, v: Value)
    requires !v.Array? && Sized(v) && ValueBytes(v).Ok? && At(buf, pos, ValueBytes(v).value)
    ensures ReadsBack(buf, pos, v)
  {
    hide ReadValue, ReadAtom, ReadArray, At, AllBytes, NumberBytes, CharBytes, NumberAsRead, AllAsRead, Product,
         Elements, CharsBytes, StringBytes, DynBytes;
    match v {
      case Number(n) =>
        ReadNumber(buf, pos, n);
        ValueDispatch(buf, pos);
      case Char(c) => ReadChar(buf, pos, c);
      case Str(s) => ReadString(buf, pos, s);
      case Null => ReadNull(buf, pos);
      case Symbol(_, _) => ReadSymbol(buf, pos, v);
    }
  }

  lemma ArrayEncodes(v: Value)
    requires v.Array? && ValueBytes(v).Ok?
    ensures AllBytes(v.elems).Ok? && v == Array(v.dims, v.elems) && DepthAll(v.elems) < Depth(v)
  {
  }

  /** The central result: wherever the bytes of a value stand, the reader consumes exactly
      them and returns the read form; a length over 32 bits, at any depth, is an error. */
  lemma {:induction false} ReadBack(buf: seq<byte>, pos: nat, v: Value)
    requires Sized(v) && ValueBytes(v).Ok? && At(buf, pos, ValueBytes(v).value)
    ensures ReadsBack(buf, pos, v)
    decreases Depth(v), 0, 0
  {
    hide *;
    if v.Array? {
      ArrayEncodes(v);
      ReadBackArray(buf, pos, v.dims, v.elems);
    } else {
      ReadBackFlat(buf, pos, v);
    }
  }

  lemma ArrayForms(dims: seq<nat>, elems: seq<Value>)
    requires AllBytes(elems).Ok?
    ensures ValueBytes(Array(dims, elems))
            == Ok(RankBytes(|dims|) + (DimsBytes(dims) + AllBytes(elems).value))
    ensures AsRead(Array(dims, elems)) == Array(dims, AllAsRead(elems))
    ensures Fits(Array(dims, elems)) <==> |dims| <= I32_MAX && DimsFit(dims) && AllFit(elems)
    ensures Sized(Array(dims, elems)) ==>
              && |dims| < TWO_63 && (forall i :: 0 <= i < |dims| ==> dims[i] < TWO_63)
              && |elems| == Product(dims) && AllSized(elems)
    ensures [] + dims == dims && [] + AllAsRead(elems) == AllAsRead(elems)
  {
    hide RankBytes, DimsBytes, AllBytes, AllAsRead, Product, DimsFit;
    var r, d, body := RankBytes(|dims|), DimsBytes(dims), AllBytes(elems).value;
    assert r + d + body == r + (d + body);
  }

  lemma {:induction false} ReadBackArray(buf: seq<byte>, pos: nat, dims: seq<nat>, elems: seq<Value>)
    requires Sized(Array(dims, elems)) && AllBytes(elems).Ok?
    requires ValueBytes(Array(dims, elems)).Ok? && At(buf, pos, ValueBytes(Array(dims, elems)).value)
    ensures ReadsBack(buf, pos, Array(dims, elems))
    decreases DepthAll(elems), 2, 0
  {
    hide At, RankBytes, DimsBytes, ReadDims, ReadMany, ReadLength, ReadArray, ReadValue, AllBytes, AllAsRead,
         Depth, DepthAll, Product, DimsFit, ValueBytes, Sized, Fits, AsRead;
    ArrayForms(dims, elems);
    var r, d, body := RankBytes(|dims|), DimsBytes(dims), AllBytes(elems).value;
    ReadRank(buf, pos, |dims|, d + body);
    ValueDispatch(buf, pos);
    if |dims| <= I32_MAX {
      AtConcat(buf, pos + |r|, d, body);
      ReadDimsBytes(buf, pos + |r|, dims, []);
      ReadBackAll(buf, pos + |r| + |d|, elems, []);
      ArrayBody(buf, pos + 1, buf[pos], |dims|, pos + |r|);
    } else {
      ArrayRankError(buf, pos + 1, buf[pos]);
    }
  }

  lemma ArrayRankError(buf: seq<byte>, pos: nat, t: byte)
    requires pos <= |buf|
    requires (if t % 64 == MAX_RANK then ReadLength(buf, pos) else Ok((t % 64, pos))).Err?
    ensures ReadArray(buf, pos, t).Err?
  {
  }

  lemma ArrayBody(buf: seq<byte>, pos: nat, t: byte, rank: nat, p: nat)
    requires pos <= |buf| && p <= |buf| && t % 128 < 64
    requires (if t % 64 == MAX_RANK then ReadLength(buf, pos) else Ok((t % 64, pos))) == Ok((rank, p))
    ensures ReadArray(buf, pos, t) ==
            (var dims :- ReadDims(buf, p, rank, []);
             var elems :- ReadMany(buf, dims.1, Product(dims.0), []);
             Ok((Array(dims.0, elems.0), elems.1)))
  {
    hide ReadDims, ReadMany, Product, ReadLength;
  }

  lemma {:induction false} ReadBackAll(buf: seq<byte>, pos: nat, vs: seq<Value>, acc: seq<Value>)
    requires AllSized(vs) && AllBytes(vs).Ok? && At(buf, pos, AllBytes(vs).value)
    ensures pos <= |buf|
    ensures ReadMany(buf, pos, |vs|, acc) ==
            if AllFit(vs) then Ok((acc + AllAsRead(vs), pos + |AllBytes(vs).value|)) else Err
    decreases DepthAll(vs), 1, |vs|
  {
    hide At, ValueBytes, AsRead, ReadValue, Sized, Fits;
    if vs == [] {
      AtBounds(buf, pos, []);
      assert acc + AllAsRead(vs) == acc;
    } else {
      AllBytesFront(vs);
      AllAsReadFront(vs);
      AtConcat(buf, pos, ValueBytes(vs[0]).value, AllBytes(vs[1..]).value);
      ReadBack(buf, pos, vs[0]);
      ReadBackAll(buf, pos + |ValueBytes(vs[0]).value|, vs[1..], acc + [AsRead(vs[0])]);
      AllFitFront(vs);
      assert acc + [AsRead(vs[0])] + AllAsRead(vs[1..]) == acc + AllAsRead(vs);
    }
  }

  lemma AllFitFront(vs: seq<Value>)
    requires vs != []
    ensures AllFit(vs) <==> Fits(vs[0]) && AllFit(vs[1..])
  {
    hide Fits;
    if Fits(vs[0]) && AllFit(vs[1..]) {
      assert forall i :: 1 <= i < |vs| ==> vs[i] == vs[1..][i - 1];
    }
    assert forall i :: 0 <= i < |vs[1..]| ==> vs[1..][i] == vs[i + 1];
  }

  /** `decode_value` of `encode_value` with anything behind it. */
  lemma DecodeEncode(v: Value, suffix: seq<byte>)
    requires Sized(v) && Encode(v).Ok?
    ensures Decode(Encode(v).value + suffix) ==
            if Fits(v) then Ok((AsRead(v), |Encode(v).value|)) else Err
  {
    hide ValueBytes, ReadValue, AsRead, Sized, Fits;
    var body := ValueBytes(v).value;
    var all := HEADER + body + suffix;
    assert all[..4] == HEADER && all[4..4 + |body|] == body;
    ReadBack(all, 4, v);
  }

  /** The exact value of a number of an exact kind survives the trip unless an integer in it,
      the numerator of a fraction included, lies in -128..-5. */
  lemma ExactNumberSurvives(n: KapNumber)
    requires n.Long? || n.BigInt? || n.Rational?
    ensures NumberAsRead(n).Long? || NumberAsRead(n).BigInt? || NumberAsRead(n).Rational?
    ensures ExactValue(NumberAsRead(n)) == ExactValue(n) <==>
            var k := if n.Long? then n.l else if n.BigInt? then n.b else n.r.numer;
            !(-128 <= k <= -5)
  {
    if n.Rational? {
      var d := n.r.denom;
      MakeExact(Int8AsRead(n.r.numer), d);
      SameDenominator(Int8AsRead(n.r.numer), n.r.numer, d);
    }
  }
}
