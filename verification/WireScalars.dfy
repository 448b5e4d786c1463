/** What a value becomes on its way through the wire format of kap-core/src/encoder.rs,
    and the reading of every value without elements. */
module WireScalars {
  import opened Common
  import opened Arithmetic
  import opened Rationals
  import opened Doubles
  import opened Numbers
  import opened Values
  import opened DynInt
  import opened Bytes
  import opened WireFormat

  /** int8 is written signed but read back unsigned. */
  function Int8AsRead(n: int): int { if -128 <= n <= -5 then n + 256 else n }

  function IntegerAsRead(n: int): KapNumber {
    if FitsI64(n) then Long(Int8AsRead(n)) else BigInt(n)
  }

  function NumberAsRead(n: KapNumber): KapNumber {
    match n
    case Long(l) => IntegerAsRead(l)
    case BigInt(b) => IntegerAsRead(b)
    case Rational(r) =>
      if r.denom == 1 then IntegerAsRead(r.numer) else Rational(Make(Int8AsRead(r.numer), r.denom))
    case _ => n
  }

  /** The value a decoder returns for an encoded `v`: strings become character vectors,
      small big integers become longs, whole rationals integers, `default` is dropped. */
  function AsRead(v: Value): Value {
    match v
    case Number(n) => Number(NumberAsRead(n))
    case Str(s) => Array([|s|], Elements(v))
    case Symbol(name, ns) => Symbol(name, if ns == Some(DEFAULT) then None else ns)
    case Array(dims, elems) => Array(dims, AllAsRead(elems))
    case _ => v
  }

  function AllAsRead(vs: seq<Value>): (r: seq<Value>)
    ensures |r| == |vs|
  {
    if vs == [] then [] else AllAsRead(vs[..|vs| - 1]) + [AsRead(vs[|vs| - 1])]
  }

  /** Sizes that exist in a running system: every array holds the product of its dimensions,
      and no length reaches 2^63. */
  predicate Sized(v: Value) {
    match v
    case Number(n) => SizedNumber(n)
    case Str(s) => |s| < TWO_63
    case Symbol(name, ns) => |name| < TWO_63 && (ns.Some? ==> |ns.value| < TWO_63)
    case Array(dims, elems) =>
      && |dims| < TWO_63 && (forall i :: 0 <= i < |dims| ==> dims[i] < TWO_63)
      && |elems| == Product(dims)
      && forall i :: 0 <= i < |elems| ==> Sized(elems[i])
    case _ => true
  }

  predicate SizedInteger(v: int) { |SignedBytes(v)| < TWO_63 }

  predicate SizedNumber(n: KapNumber) {
    match n
    case BigInt(b) => SizedInteger(b)
    case Rational(r) => SizedInteger(r.numer) && SizedInteger(r.denom)
    case _ => true
  }

  /** The lengths a decoder accepts: 32-bit dimensions, and a 32-bit rank when it is spelled out. */
  predicate Fits(v: Value) {
    match v
    case Str(s) => |s| <= I32_MAX
    case Array(dims, elems) =>
      && |dims| <= I32_MAX && DimsFit(dims)
      && forall i :: 0 <= i < |elems| ==> Fits(elems[i])
    case _ => true
  }

  predicate DimsFit(dims: seq<nat>) { forall i :: 0 <= i < |dims| ==> dims[i] <= I32_MAX }

  predicate AllSized(vs: seq<Value>) { forall i :: 0 <= i < |vs| ==> Sized(vs[i]) }

  predicate AllFit(vs: seq<Value>) { forall i :: 0 <= i < |vs| ==> Fits(vs[i]) }

  lemma BitsInverse(d: Double)
    ensures 0 <= ToBits(d) < TWO_64 && FromBits(ToBits(d)) == d
  {
    DivUnique(Magnitude(d), FRACTION, d.exp, d.mant);
  }

  lemma {:induction false} SignedBytesInverse(v: int)
    ensures FromSignedBytes(SignedBytes(v)) == v
    decreases Abs(v)
  {
    if -128 <= v < 128 {
    } else {
      SignedBytesInverse(v / 256);
      var b := SignedBytes(v);
      assert b[..|b| - 1] == SignedBytes(v / 256);
      assert |b| > 1;
    }
  }

  lemma ReadDoubleBytes(buf: seq<byte>, pos: nat, d: Double)
    requires At(buf, pos, BigEndian(ToBits(d), 8))
    ensures pos <= |buf| && ReadDouble(buf, pos) == Ok((d, pos + 8))
  {
    BitsInverse(d);
    Pow256();
    BigEndianInverse(ToBits(d), 8);
  }

  lemma ReadCountedBytes(buf: seq<byte>, pos: nat, s: seq<byte>)
    requires |s| < TWO_63
    requires At(buf, pos, DynBytes(Length64(|s|)) + s)
    ensures pos <= |buf|
    ensures ReadCounted(buf, pos) == Ok((s, pos + |DynBytes(Length64(|s|)) + s|))
  {
    hide ReadDyn, DynBytes;
    AtConcat(buf, pos, DynBytes(Length64(|s|)), s);
    ReadDynBytes(buf, pos, Length64(|s|));
  }

  lemma CompressedByte(n: i64)
    requires -4 <= n <= 3
    ensures var t := T_COMPRESSED_INT + n % 8;
            && t < 128 && t % 8 == n % 8 && (t - t % 8) % 128 == T_COMPRESSED_INT
            && n == if t % 8 >= 4 then t % 8 - 8 else t % 8
  {
  }

  lemma LongForms(n: i64)
    ensures -4 <= n <= 3 ==> LongBytes(n) == [T_COMPRESSED_INT + n % 8]
    ensures (-128 <= n <= 127 && !(-4 <= n <= 3)) ==> LongBytes(n) == [T_INT8] + [n % 256]
    ensures !(-128 <= n <= 127) ==> LongBytes(n) == [T_DYNINT64] + DynBytes(n)
  {
    hide DynBytes;
  }

  /** What a scalar's reading asks: the type byte, then the atom behind it. */
  predicate ReadsAtom(buf: seq<byte>, pos: nat, n: KapNumber, len: nat) {
    pos < |buf| && buf[pos] < 128 && ReadAtom(buf, pos + 1, buf[pos]) == Ok((Number(n), pos + len))
  }

  lemma ReadShortLong(buf: seq<byte>, pos: nat, n: i64)
    requires -128 <= n <= 127 && At(buf, pos, LongBytes(n))
    ensures ReadsAtom(buf, pos, Long(Int8AsRead(n)), |LongBytes(n)|)
  {
    hide At, ReadAtom, LongBytes;
    LongForms(n);
    if -4 <= n <= 3 {
      AtFirst(buf, pos, T_COMPRESSED_INT + n % 8);
      CompressedByte(n);
      AtomCompressed(buf, pos + 1, buf[pos]);
    } else {
      AtTag(buf, pos, T_INT8, [n % 256]);
      AtFirst(buf, pos + 1, n % 256);
      AtomInt8(buf, pos + 1);
    }
  }

  lemma ReadWideLong(buf: seq<byte>, pos: nat, n: i64)
    requires !(-128 <= n <= 127) && At(buf, pos, LongBytes(n))
    ensures ReadsAtom(buf, pos, Long(n), |LongBytes(n)|)
  {
    hide At, ReadAtom, LongBytes, DynBytes, ReadDyn;
    LongForms(n);
    AtTag(buf, pos, T_DYNINT64, DynBytes(n));
    ReadDynBytes(buf, pos + 1, n);
    AtomDyn(buf, pos + 1);
  }

  lemma ReadLong(buf: seq<byte>, pos: nat, n: i64)
    requires At(buf, pos, LongBytes(n))
    ensures ReadsAtom(buf, pos, Long(Int8AsRead(n)), |LongBytes(n)|)
  {
    hide At, ReadAtom, LongBytes, ReadsAtom;
    if -128 <= n <= 127 {
      ReadShortLong(buf, pos, n);
    } else {
      ReadWideLong(buf, pos, n);
    }
  }

  lemma AtomCompressed(buf: seq<byte>, pos: nat, t: byte)
    requires pos <= |buf| && (t - t % 8) % 128 == T_COMPRESSED_INT
    ensures ReadAtom(buf, pos, t) == Ok((Number(Long(if t % 8 >= 4 then t % 8 - 8 else t % 8)), pos))
  {
  }

  lemma AtomInt8(buf: seq<byte>, pos: nat)
    requires pos < |buf|
    ensures ReadAtom(buf, pos, T_INT8) == Ok((Number(Long(buf[pos])), pos + 1))
  {
  }

  lemma AtomDyn(buf: seq<byte>, pos: nat)
    requires pos <= |buf| && ReadDyn(buf, pos).Ok?
    ensures ReadAtom(buf, pos, T_DYNINT64) ==
            Ok((Number(Long(ReadDyn(buf, pos).value.0)), ReadDyn(buf, pos).value.1))
  {
    hide ReadDyn;
  }

  lemma AtomRational(buf: seq<byte>, pos: nat, numer: (int, nat), denom: (int, nat))
    requires pos <= |buf| && ReadInteger(buf, pos) == Ok(numer) && denom.0 != 0
    requires numer.1 <= |buf| && ReadInteger(buf, numer.1) == Ok(denom)
    ensures ReadAtom(buf, pos, T_RATIONAL) == Ok((Number(Rational(Make(numer.0, denom.0))), denom.1))
  {
    hide ReadInteger, Make;
  }

  lemma AtomBigInt(buf: seq<byte>, pos: nat, b: (seq<byte>, nat))
    requires pos <= |buf| && ReadCounted(buf, pos) == Ok(b)
    ensures ReadAtom(buf, pos, T_BIGINT) == Ok((Number(BigInt(FromSignedBytes(b.0))), b.1))
  {
    hide ReadCounted, FromSignedBytes;
  }

  lemma AtomComplex(buf: seq<byte>, pos: nat, re: (Double, nat), im: (Double, nat))
    requires pos <= |buf| && ReadDouble(buf, pos) == Ok(re)
    requires re.1 <= |buf| && ReadDouble(buf, re.1) == Ok(im)
    ensures ReadAtom(buf, pos, T_COMPLEX) == Ok((Number(Complex(re.0, im.0)), im.1))
  {
    hide ReadDouble;
  }

  lemma ReadBigInt(buf: seq<byte>, pos: nat, v: int)
    requires SizedInteger(v) && At(buf, pos, BigIntBytes(v))
    ensures ReadsAtom(buf, pos, IntegerAsRead(v), |BigIntBytes(v)|)
    ensures ReadInteger(buf, pos) == Ok((Int8AsRead(v), pos + |BigIntBytes(v)|))
  {
    hide ReadAtom, LongBytes, SizedInteger, ReadInteger, At;
    if FitsI64(v) {
      ReadLong(buf, pos, v);
    } else {
      ReadWideInt(buf, pos, v);
    }
    IntegerDispatch(buf, pos, v, pos + |BigIntBytes(v)|);
  }

  lemma IntegerDispatch(buf: seq<byte>, pos: nat, v: int, next: nat)
    requires pos < |buf| && ReadAtom(buf, pos + 1, buf[pos]) == Ok((Number(IntegerAsRead(v)), next))
    ensures ReadInteger(buf, pos) == Ok((Int8AsRead(v), next))
  {
    hide ReadAtom;
  }

  lemma WideIntForm(v: int)
    requires !FitsI64(v)
    ensures BigIntBytes(v) == [T_BIGINT] + (DynBytes(Length64(|SignedBytes(v)|)) + SignedBytes(v))
  {
    hide DynBytes, SignedBytes, Length64;
  }

  lemma ReadWideInt(buf: seq<byte>, pos: nat, v: int)
    requires !FitsI64(v) && SizedInteger(v) && At(buf, pos, BigIntBytes(v))
    ensures ReadsAtom(buf, pos, BigInt(v), |BigIntBytes(v)|)
  {
    hide ReadCounted, SignedBytes, DynBytes, FromSignedBytes, ReadAtom, At, BigIntBytes, Length64;
    var s := SignedBytes(v);
    WideIntForm(v);
    var payload := DynBytes(Length64(|s|)) + s;
    AtTag(buf, pos, T_BIGINT, payload);
    ReadCountedBytes(buf, pos + 1, s);
    SignedBytesInverse(v);
    AtomBigInt(buf, pos + 1, (s, pos + 1 + |payload|));
  }

  lemma RationalForm(r: BigRational)
    requires r.denom != 1
    ensures RationalBytes(r) == [T_RATIONAL] + (BigIntBytes(r.numer) + BigIntBytes(r.denom))
    ensures NumberAsRead(Rational(r)) == Rational(Make(Int8AsRead(r.numer), r.denom))
  {
    hide BigIntBytes, Make, Gcd;
  }

  lemma WholeForm(r: BigRational)
    requires r.denom == 1
    ensures RationalBytes(r) == BigIntBytes(r.numer) && NumberAsRead(Rational(r)) == IntegerAsRead(r.numer)
  {
    hide BigIntBytes, Make, Gcd, IntegerAsRead;
  }

  lemma ReadRational(buf: seq<byte>, pos: nat, r: BigRational)
    requires SizedInteger(r.numer) && SizedInteger(r.denom) && At(buf, pos, RationalBytes(r))
    ensures ReadsAtom(buf, pos, NumberAsRead(Rational(r)), |RationalBytes(r)|)
  {
    if r.denom == 1 {
      hide *;
      WholeForm(r);
      ReadBigInt(buf, pos, r.numer);
    } else {
      ReadFraction(buf, pos, r);
    }
  }

  lemma ReadFraction(buf: seq<byte>, pos: nat, r: BigRational)
    requires r.denom != 1
    requires SizedInteger(r.numer) && SizedInteger(r.denom) && At(buf, pos, RationalBytes(r))
    ensures ReadsAtom(buf, pos, NumberAsRead(Rational(r)), |RationalBytes(r)|)
  {
    hide BigIntBytes, SizedInteger, ReadInteger, Make, At, Gcd, ReadAtom, RationalBytes, NumberAsRead, IntegerAsRead;
    RationalForm(r);
    var n, d := BigIntBytes(r.numer), BigIntBytes(r.denom);
    AtTag(buf, pos, T_RATIONAL, n + d);
    AtConcat(buf, pos + 1, n, d);
    ReadBigInt(buf, pos + 1, r.numer);
    ReadBigInt(buf, pos + 1 + |n|, r.denom);
    AtomRational(buf, pos + 1, (Int8AsRead(r.numer), pos + 1 + |n|), (r.denom, pos + 1 + |n| + |d|));
  }

  lemma ReadNumber(buf: seq<byte>, pos: nat, n: KapNumber)
    requires SizedNumber(n) && At(buf, pos, NumberBytes(n))
    ensures ReadsAtom(buf, pos, NumberAsRead(n), |NumberBytes(n)|)
  {
    hide LongBytes, BigIntBytes, RationalBytes, BigEndian, SizedInteger, At, ReadsAtom, Make, Gcd;
    match n {
      case Long(l) => ReadLong(buf, pos, l);
      case BigInt(b) => ReadBigInt(buf, pos, b);
      case Rational(r) => ReadRational(buf, pos, r);
      case Dbl(d) => ReadReal(buf, pos, d);
      case Complex(re, im) => ReadComplex(buf, pos, re, im);
    }
  }

  lemma AtomDouble(buf: seq<byte>, pos: nat, d: (Double, nat))
    requires pos <= |buf| && ReadDouble(buf, pos) == Ok(d)
    ensures ReadAtom(buf, pos, T_DOUBLE) == Ok((Number(Dbl(d.0)), d.1))
  {
    hide ReadDouble;
  }

  lemma ReadReal(buf: seq<byte>, pos: nat, d: Double)
    requires At(buf, pos, NumberBytes(Dbl(d)))
    ensures ReadsAtom(buf, pos, Dbl(d), |NumberBytes(Dbl(d))|)
  {
    hide ReadDouble, BigEndian, At, ReadAtom;
    var a := BigEndian(ToBits(d), 8);
    AtTag(buf, pos, T_DOUBLE, a);
    ReadDoubleBytes(buf, pos + 1, d);
    AtomDouble(buf, pos + 1, (d, pos + 9));
  }

  lemma ComplexForm(re: Double, im: Double)
    ensures NumberBytes(Complex(re, im)) == [T_COMPLEX] + (BigEndian(ToBits(re), 8) + BigEndian(ToBits(im), 8))
    ensures |NumberBytes(Complex(re, im))| == 17
  {
    hide BigEndian;
  }

  lemma ReadComplex(buf: seq<byte>, pos: nat, re: Double, im: Double)
    requires At(buf, pos, NumberBytes(Complex(re, im)))
    ensures ReadsAtom(buf, pos, Complex(re, im), |NumberBytes(Complex(re, im))|)
  {
    hide ReadDouble, BigEndian, NumberBytes, At, ReadAtom, ToBits;
    ComplexForm(re, im);
    var a, b := BigEndian(ToBits(re), 8), BigEndian(ToBits(im), 8);
    AtTag(buf, pos, T_COMPLEX, a + b);
    AtConcat(buf, pos + 1, a, b);
    ReadDoubleBytes(buf, pos + 1, re);
    ReadDoubleBytes(buf, pos + 9, im);
    AtomComplex(buf, pos + 1, (re, pos + 9), (im, pos + 17));
  }

  lemma ReadChar(buf: seq<byte>, pos: nat, c: char)
    requires At(buf, pos, CharBytes(c))
    ensures pos < |buf| && ReadValue(buf, pos) == Ok((Char(c), pos + |CharBytes(c)|))
  {
    var cp := c as int;
    if cp <= 255 {
      assert CharBytes(c) == [T_CHAR8] + [cp];
      AtTag(buf, pos, T_CHAR8, [cp]);
      AtFirst(buf, pos + 1, cp);
    } else {
      AtTag(buf, pos, T_CHAR32, BigEndian(cp, 4));
      Pow256();
      BigEndianInverse(cp, 4);
    }
  }
}
