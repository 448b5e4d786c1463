/** What stands on the wire (kap-core/src/encoder.rs), byte by byte: type bytes, bit fields and digit
    order, and what the decoder makes of bytes that the encoder never writes. */
module WireBytes {
  import opened Common
  import opened Arithmetic
  import opened Doubles
  import opened Numbers
  import opened Values
  import opened DynInt
  import opened Bytes
  import opened WireFormat
  import opened WireScalars
  import opened WireRoundTrip

  // ---------------------------------------------------------------- digits

  /** Byte `i` of `w`, the most significant one first, is digit w - 1 - i to the base 256. */
  lemma {:induction false} BigEndianDigit(n: nat, w: nat, i: nat)
    requires i < w
    ensures BigEndian(n, w)[i] == n / Pow(256, w - 1 - i) % 256
    decreases w
  {
    if i == w - 1 {
      assert Pow(256, 0) == 1;
    } else {
      BigEndianDigit(n / 256, w - 1, i);
      var p := Pow(256, w - 2 - i);
      assert Pow(256, w - 1 - i) == 256 * p;
      DivTwice(n, 256, p);
    }
  }

  lemma DivTwice(n: nat, a: nat, b: nat)
    requires a > 0 && b > 0
    ensures a * b > 0 && n / a / b == n / (a * b)
  {
    MulPositive(a, b);
    var q, r := n / a, n % a;
    DivModDefinition(n, a);
    DivModDefinition(q, b);
    var k, s := q / b, q % b;
    MulMono(a, s + 1, b);
    assert n == (a * b) * k + (a * s + r) by {
      Distribute(a, b * k, s);
      MulAssociates(a, b, k);
    }
    MulMono(a, 0, s);
    Distribute(a, s, 1);
    DivUnique(n, a * b, k, a * s + r);
  }

  /** The first byte counts most. */
  lemma {:induction false} FromBigEndianFirst(b: byte, rest: seq<byte>)
    ensures FromBigEndian([b] + rest) == b * Pow(256, |rest|) + FromBigEndian(rest)
    decreases |rest|
  {
    var s := [b] + rest;
    if rest == [] {
      assert s[..0] == [] && Pow(256, 0) == 1;
    } else {
      var n := |rest| - 1;
      assert s[..|s| - 1] == [b] + rest[..n];
      FromBigEndianFirst(b, rest[..n]);
      assert Pow(256, |rest|) == 256 * Pow(256, n);
      Distribute(256, b * Pow(256, n), FromBigEndian(rest[..n]));
      Rotate(256, b, Pow(256, n));
    }
  }

  lemma Rotate(a: int, b: int, c: int)
    ensures a * (b * c) == b * (a * c)
  {
  }

  /** Two's complement: the top bit of the first byte counts negatively. */
  lemma {:induction false} TwosComplement(b: seq<byte>)
    requires b != []
    ensures FromSignedBytes(b) == FromBigEndian(b) - if b[0] >= 128 then Pow(256, |b|) else 0
  {
    if |b| == 1 {
      assert b[..0] == [] && Pow(256, 1) == 256;
    } else {
      TwosComplement(b[..|b| - 1]);
      assert Pow(256, |b|) == 256 * Pow(256, |b| - 1);
    }
  }

  /** No shorter byte string stands for the same big integer. */
  lemma {:induction false} SignedBytesShortest(b: seq<byte>)
    requires b != []
    ensures |SignedBytes(FromSignedBytes(b))| <= |b|
    decreases |b|
  {
    var v := FromSignedBytes(b);
    if |b| == 1 {
    } else if !(-128 <= v < 128) {
      SignedBytesShortest(b[..|b| - 1]);
      DivUnique(v, 256, FromSignedBytes(b[..|b| - 1]), b[|b| - 1]);
    }
  }

  /** Sign bit, eleven exponent bits, 52 fraction bits. */
  lemma BitFields(d: Double)
    ensures ToBits(d) == (if d.neg then 0x8000_0000_0000_0000 else 0) + d.exp * 0x10_0000_0000_0000 + d.mant
  {
  }

  // ---------------------------------------------------------------- variable-length integers

  /** Seven-bit groups, the most significant first. */
  function Horner(gs: seq<nat>, from: nat): nat {
    if gs == [] then from else Horner(gs[1..], from * 128 + gs[0])
  }

  /** The bytes behind the first: every group but the last carries the continuation bit. */
  function Continued(gs: seq<nat>): seq<byte>
    requires forall i :: 0 <= i < |gs| ==> gs[i] < 128
  {
    if gs == [] then [] else [(if |gs| > 1 then 0x80 else 0) + gs[0]] + Continued(gs[1..])
  }

  lemma {:induction false} HornerGrows(gs: seq<nat>, from: nat)
    ensures from <= Horner(gs, from)
    decreases |gs|
  {
    if gs != [] {
      HornerGrows(gs[1..], from * 128 + gs[0]);
    }
  }

  lemma {:induction false} ReadGroups(buf: seq<byte>, pos: nat, gs: seq<nat>, from: nat)
    requires forall i :: 0 <= i < |gs| ==> gs[i] < 128
    requires At(buf, pos, Continued(gs)) && Horner(gs, from) < TWO_63
    ensures pos <= |buf| && from < TWO_63
    ensures DynLoop(buf, pos, from, gs != []) == Ok((Horner(gs, from), pos + |gs|))
    decreases |gs|
  {
    hide At, DynLoop;
    HornerGrows(gs, from);
    if gs == [] {
      AtBounds(buf, pos, []);
      LoopEnds(buf, pos, from);
    } else {
      var b := (if |gs| > 1 then 0x80 else 0) + gs[0];
      AtConcat(buf, pos, [b], Continued(gs[1..]));
      AtFirst(buf, pos, b);
      HornerGrows(gs[1..], from * 128 + gs[0]);
      DynLoopStep(buf, pos, from, gs[0], |gs| > 1, from * 128 + gs[0]);
      ReadGroups(buf, pos + 1, gs[1..], from * 128 + gs[0]);
    }
  }

  lemma LoopEnds(buf: seq<byte>, pos: nat, res: i64)
    requires pos <= |buf|
    ensures DynLoop(buf, pos, res, false) == Ok((res, pos))
  {
  }

  /** Six bits in the first byte, seven in each later one, continuation bit 0x80 on all but the last,
      and bit 0x40 of the first byte for the complement. */
  lemma DynIntegerBits(buf: seq<byte>, pos: nat, first: nat, gs: seq<nat>, negative: bool)
    requires first < 64 && forall i :: 0 <= i < |gs| ==> gs[i] < 128
    requires Horner(gs, first) < TWO_63
    requires At(buf, pos, [(if gs != [] then 0x80 else 0) + (if negative then 0x40 else 0) + first] + Continued(gs))
    ensures pos <= |buf|
    ensures ReadDyn(buf, pos)
            == Ok((if negative then -1 - Horner(gs, first) else Horner(gs, first), pos + 1 + |gs|))
  {
    hide At, DynLoop;
    var b := (if gs != [] then 0x80 else 0) + (if negative then 0x40 else 0) + first;
    AtConcat(buf, pos, [b], Continued(gs));
    AtFirst(buf, pos, b);
    ReadGroups(buf, pos + 1, gs, first);
    assert b % 64 == first && (b >= 128 <==> gs != []) && (b % 128 >= 64 <==> negative);
  }

  /** An integer that goes on past the end of the buffer is an error. */
  lemma {:induction false} DynIntegerCut(buf: seq<byte>, pos: nat)
    requires pos <= |buf| && forall i :: pos <= i < |buf| ==> buf[i] >= 128
    ensures ReadDyn(buf, pos) == Err
  {
    if pos < |buf| { LoopCut(buf, pos + 1, buf[pos] % 64); }
  }

  lemma {:induction false} LoopCut(buf: seq<byte>, pos: nat, res: i64)
    requires pos <= |buf| && forall i :: pos <= i < |buf| ==> buf[i] >= 128
    ensures DynLoop(buf, pos, res, true) == Err
    decreases |buf| - pos
  {
    if pos < |buf| { LoopCut(buf, pos + 1, Wrap64(res * 128 + buf[pos] % 128)); }
  }

  /** A length may be any non-negative 32-bit integer, and no other number. */
  lemma LengthLimit(buf: seq<byte>, pos: nat, n: i64)
    requires At(buf, pos, DynBytes(n))
    ensures pos <= |buf|
    ensures ReadLength(buf, pos) == if 0 <= n <= 0x7fff_ffff then Ok((n, pos + |DynBytes(n)|)) else Err
  {
    hide At, DynBytes, ReadDyn;
    ReadDynBytes(buf, pos, n);
  }

  // ---------------------------------------------------------------- what the encoder writes

  lemma HeaderBytes(v: Value)
    ensures Encode(v) == if ValueBytes(v).Err? then Err
                         else Ok([0x99, 'k' as int, 'a' as int, 'p' as int] + ValueBytes(v).value)
  {
  }

  lemma NumberTypes(n: KapNumber)
    ensures n.Long? && 0 <= n.l <= 3 ==> NumberBytes(n) == [88 + n.l]
    ensures n.Long? && -4 <= n.l < 0 ==> NumberBytes(n) == [88 + (8 + n.l)]
    ensures n.Long? && 4 <= n.l <= 127 ==> NumberBytes(n) == [0, n.l]
    ensures n.Long? && -128 <= n.l < -4 ==> NumberBytes(n) == [0, 256 + n.l]
    ensures n.Long? && !(-128 <= n.l <= 127) ==> NumberBytes(n) == [16] + DynBytes(n.l)
    ensures n.Dbl? ==> NumberBytes(n) == [24] + BigEndian(ToBits(n.d), 8)
    ensures n.Complex? ==> NumberBytes(n) == [32] + BigEndian(ToBits(n.re), 8) + BigEndian(ToBits(n.im), 8)
    ensures n.BigInt? && FitsI64(n.b) ==> NumberBytes(n) == NumberBytes(Long(n.b))
    ensures n.BigInt? && !FitsI64(n.b) && |SignedBytes(n.b)| < TWO_63 ==>
              NumberBytes(n) == [40] + DynBytes(|SignedBytes(n.b)|) + SignedBytes(n.b)
    ensures n.Rational? && n.r.denom == 1 ==> NumberBytes(n) == NumberBytes(BigInt(n.r.numer))
    ensures n.Rational? && n.r.denom != 1 ==>
              NumberBytes(n) == [48] + NumberBytes(BigInt(n.r.numer)) + NumberBytes(BigInt(n.r.denom))
  {
    hide DynBytes, SignedBytes, BigEndian, ToBits;
  }

  const DEFAULT_NAME: seq<byte> := [0x64, 0x65, 0x66, 0x61, 0x75, 0x6c, 0x74]  // the letters of "default"

  lemma ValueTypes(v: Value)
    requires Sized(v)
    ensures v.Char? ==>
              ValueBytes(v) == Ok(if v.c as int < 256 then [56, v.c as int] else [64] + BigEndian(v.c as int, 4))
    ensures v.Null? ==> ValueBytes(v) == Ok([72])
    ensures v.Str? ==> ValueBytes(v) == Ok([128 + 1] + DynBytes(|v.s|) + CharsBytes(v.s))
    ensures v.Symbol? ==>
              var ns := if v.namespace.Some? then v.namespace.value else DEFAULT_NAME;
              ValueBytes(v) == Ok([112] + (DynBytes(|ns|) + ns) + (DynBytes(|v.name|) + v.name))
    ensures v.Array? && |v.dims| < 63 && AllBytes(v.elems).Ok? ==>
              ValueBytes(v) == Ok([128 + |v.dims|] + DimsBytes(v.dims) + AllBytes(v.elems).value)
    ensures v.Array? && |v.dims| >= 63 && AllBytes(v.elems).Ok? ==>
              ValueBytes(v) == Ok([128 + 63] + DynBytes(|v.dims|) + DimsBytes(v.dims) + AllBytes(v.elems).value)
    ensures v.List? || v.Nil? || v.Timestamp? || v.Jvm? || v.Lock? || v.Condvar? || v.Opaque? ==> ValueBytes(v).Err?
  {
    hide DynBytes, CharsBytes, BigEndian, DimsBytes, AllBytes, Product;
  }

  // ---------------------------------------------------------------- what only the decoder knows

  /** Behind type 104 stand a length and that many values: a list decodes as a vector. */
  lemma DecodeList(buf: seq<byte>, pos: nat, vs: seq<Value>)
    requires AllSized(vs) && AllFit(vs) && AllBytes(vs).Ok? && |vs| <= I32_MAX
    requires At(buf, pos, [104] + (DynBytes(|vs|) + AllBytes(vs).value))
    ensures pos <= |buf|
    ensures ReadValue(buf, pos)
            == Ok((Array([|vs|], AllAsRead(vs)), pos + 1 + |DynBytes(|vs|)| + |AllBytes(vs).value|))
  {
    hide At, DynBytes, ReadMany, ReadLength, AllBytes, AllAsRead, ReadValue, ReadAtom, AllSized, AllFit;
    AtTag(buf, pos, 104, DynBytes(|vs|) + AllBytes(vs).value);
    AtConcat(buf, pos + 1, DynBytes(|vs|), AllBytes(vs).value);
    ReadLengthBytes(buf, pos + 1, |vs|);
    var p := pos + 1 + |DynBytes(|vs|)|;
    ReadBackAll(buf, p, vs, []);
    assert [] + AllAsRead(vs) == AllAsRead(vs);
    ValueDispatch(buf, pos);
    AtomList(buf, pos + 1, |vs|, p, AllAsRead(vs), p + |AllBytes(vs).value|);
  }

  lemma AtomList(buf: seq<byte>, pos: nat, n: nat, p: nat, vs: seq<Value>, next: nat)
    requires pos <= |buf| && p <= |buf| && ReadLength(buf, pos) == Ok((n, p))
    requires ReadMany(buf, p, n, []) == Ok((vs, next))
    ensures ReadAtom(buf, pos, 104) == Ok((Array([n], vs), next))
  {
    hide ReadMany, ReadLength;
  }

  /** Behind type 80 stands one value: it decodes as an array of rank 0 around it. */
  lemma DecodeEnclosed(buf: seq<byte>, pos: nat, v: Value)
    requires Sized(v) && Fits(v) && ValueBytes(v).Ok? && At(buf, pos, [80] + ValueBytes(v).value)
    ensures pos <= |buf|
    ensures ReadValue(buf, pos) == Ok((Array([], [AsRead(v)]), pos + 1 + |ValueBytes(v).value|))
  {
    hide At, ReadValue, ReadAtom, ValueBytes, Sized, AsRead, Fits;
    AtTag(buf, pos, 80, ValueBytes(v).value);
    ReadBack(buf, pos + 1, v);
    ValueDispatch(buf, pos);
    AtomEnclosed(buf, pos + 1, AsRead(v), pos + 1 + |ValueBytes(v).value|);
  }

  lemma AtomEnclosed(buf: seq<byte>, pos: nat, v: Value, next: nat)
    requires pos <= |buf| && ReadValue(buf, pos) == Ok((v, next))
    ensures ReadAtom(buf, pos, 80) == Ok((Array([], [v]), next))
  {
    hide ReadValue;
  }

  /** A code point that is no character decodes as null. */
  lemma DecodeCodePoint(buf: seq<byte>, pos: nat, cp: nat)
    requires cp < 0x1_0000_0000 && At(buf, pos, [64] + BigEndian(cp, 4))
    ensures pos <= |buf|
    ensures ReadValue(buf, pos)
            == Ok((if cp <= 0xD7FF || 0xE000 <= cp <= 0x10FFFF then Char(cp as char) else Null, pos + 5))
  {
    hide At, BigEndian, FromBigEndian, ReadValue, ReadAtom;
    AtTag(buf, pos, 64, BigEndian(cp, 4));
    Pow256();
    BigEndianInverse(cp, 4);
    ValueDispatch(buf, pos);
    AtomChar32(buf, pos + 1, BigEndian(cp, 4));
  }

  lemma AtomChar32(buf: seq<byte>, pos: nat, b: seq<byte>)
    requires |b| == 4 && At(buf, pos, b)
    ensures pos <= |buf| && ReadAtom(buf, pos, 64) == Ok((CharValue(FromBigEndian(b)), pos + 4))
  {
    hide FromBigEndian;
  }

  /** A big integer of no bytes, which the encoder never writes, is zero. */
  lemma DecodeEmptyInteger(buf: seq<byte>, pos: nat)
    requires At(buf, pos, [40, 0])
    ensures pos <= |buf| && ReadValue(buf, pos) == Ok((Number(BigInt(0)), pos + 2))
  {
    AtConcat(buf, pos, [40], [0]);
    AtFirst(buf, pos, 40);
    AtFirst(buf, pos + 1, 0);
    ReadZero(buf, pos + 1);
    assert buf[pos + 2..pos + 2] == [];
    hide ReadDyn;
    assert ReadCounted(buf, pos + 1) == Ok(([], pos + 2));
  }

  /** A symbol in the namespace "default" decodes as one without a namespace, and no other does. */
  lemma DecodeNamespace(name: seq<byte>, ns: Option<seq<byte>>)
    ensures AsRead(Symbol(name, ns)) == Symbol(name, None) <==> ns == None || ns == Some(DEFAULT_NAME)
  {
  }

  /** The types of single values; the low three bits of the type byte matter to the small integers only. */
  predicate KnownType(t: byte) {
    var k := t / 8;
    k == 0 || (2 <= k <= 11) || k == 13 || k == 14
  }

  lemma UnknownTypes(buf: seq<byte>, pos: nat, t: byte)
    requires pos <= |buf| && t < 128 && !KnownType(t)
    ensures ReadAtom(buf, pos, t) == Err
  {
    hide ReadValue, ReadMany, ReadLength, ReadCounted, ReadDouble, ReadInteger, ReadDyn;
  }

  lemma LowBitsIgnored(buf: seq<byte>, pos: nat, t: byte)
    requires pos <= |buf| && t < 128 && t / 8 != 11
    ensures ReadAtom(buf, pos, t) == ReadAtom(buf, pos, t / 8 * 8)
  {
    hide ReadValue, ReadMany, ReadLength, ReadCounted, ReadDouble, ReadInteger, ReadDyn;
    assert t / 8 * 8 - t / 8 * 8 % 8 == t - t % 8;
  }

  lemma SmallInteger(buf: seq<byte>, pos: nat, t: byte)
    requires pos <= |buf| && t < 128 && t / 8 == 11
    ensures ReadAtom(buf, pos, t) == Ok((Number(Long(if t % 8 < 4 then t % 8 else t % 8 - 8)), pos))
  {
    AtomCompressed(buf, pos, t);
  }

  /** The label flag of an array makes it an error, whatever its shape. */
  lemma LabelsRefused(buf: seq<byte>, pos: nat)
    requires pos < |buf| && buf[pos] >= 128 + 64
    ensures ReadValue(buf, pos) == Err
  {
    hide ReadMany, ReadLength, ReadDims, ReadAtom;
  }
}
