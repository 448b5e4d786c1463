/** The binary value format of kap-core/src/encoder.rs as functions: the bytes
    `write_value` appends, and what `read_value` makes of a buffer at a position.
    `Err` stands for an error return and for a panic alike. */
module WireFormat {
  import opened Common
  import opened Arithmetic
  import opened Rationals
  import opened Doubles
  import opened Numbers
  import opened Values
  import opened DynInt
  import opened Bytes

  const T_INT8: byte := 0
  const T_DYNINT64: byte := 16
  const T_DOUBLE: byte := 24
  const T_COMPLEX: byte := 32
  const T_BIGINT: byte := 40
  const T_RATIONAL: byte := 48
  const T_CHAR8: byte := 56
  const T_CHAR32: byte := 64
  const T_NIL: byte := 72
  const T_ENCLOSED: byte := 80
  const T_COMPRESSED_INT: byte := 88
  const T_LIST: byte := 104
  const T_SYMBOL: byte := 112
  const ARRAY: byte := 128
  const MAX_RANK := 63
  const I32_MAX := 0x7fff_ffff
  const HEADER: seq<byte> := [0x99, 107, 97, 112]
  const DEFAULT: seq<byte> := [100, 101, 102, 97, 117, 108, 116]  // "default"

  // ---- scalars as bytes ----

  /** `f64::to_bits` and back. */
  function ToBits(d: Double): nat { (if d.neg then TWO_63 else 0) + Magnitude(d) }

  function FromBits(n: nat): Double
    requires n < TWO_64
  {
    var low := if n >= TWO_63 then n - TWO_63 else n;
    Bits(n >= TWO_63, low / FRACTION, low % FRACTION)
  }

  /** `BigInt::to_signed_bytes_be`: the shortest two's-complement form. */
  function SignedBytes(v: int): (b: seq<byte>)
    ensures b != []
    decreases Abs(v)
  {
    if -128 <= v < 128 then [v % 256] else SignedBytes(v / 256) + [v % 256]
  }

  /** `BigInt::from_signed_bytes_be`. */
  function FromSignedBytes(b: seq<byte>): int {
    if b == [] then 0
    else if |b| == 1 then (if b[0] >= 128 then b[0] - 256 else b[0])
    else 256 * FromSignedBytes(b[..|b| - 1]) + b[|b| - 1]
  }

  // ---- the encoder ----

  function LongBytes(value: i64): seq<byte> {
    if -4 <= value <= 3 then [T_COMPRESSED_INT + value % 8]
    else if -128 <= value <= 127 then [T_INT8, value % 256]
    else [T_DYNINT64] + DynBytes(value)
  }

  function BigIntBytes(v: int): seq<byte> {
    if FitsI64(v) then LongBytes(v)
    else
      var buf := SignedBytes(v);
      [T_BIGINT] + DynBytes(Length64(|buf|)) + buf
  }

  /** `len() as i64`; no buffer in memory reaches 2^63 bytes. */
  function Length64(n: nat): i64 { if n < TWO_63 then n else TWO_63 - 1 }

  function RationalBytes(r: BigRational): seq<byte> {
    if r.denom == 1 then BigIntBytes(r.numer)
    else [T_RATIONAL] + BigIntBytes(r.numer) + BigIntBytes(r.denom)
  }

  function NumberBytes(n: KapNumber): seq<byte> {
    match n
    case Long(l) => LongBytes(l)
    case Dbl(d) => [T_DOUBLE] + BigEndian(ToBits(d), 8)
    case BigInt(b) => BigIntBytes(b)
    case Rational(r) => RationalBytes(r)
    case Complex(re, im) => [T_COMPLEX] + BigEndian(ToBits(re), 8) + BigEndian(ToBits(im), 8)
  }

  function CharBytes(c: char): seq<byte> {
    if c as int <= 255 then [T_CHAR8, c as int] else [T_CHAR32] + BigEndian(c as int, 4)
  }

  function StringBytes(s: seq<byte>): seq<byte> { DynBytes(Length64(|s|)) + s }

  function CharsBytes(s: string): seq<byte> {
    if s == "" then [] else CharsBytes(s[..|s| - 1]) + CharBytes(s[|s| - 1])
  }

  function DimsBytes(dims: seq<nat>): seq<byte> {
    if dims == [] then [] else DimsBytes(dims[..|dims| - 1]) + DynBytes(Length64(dims[|dims| - 1]))
  }

  function RankBytes(rank: nat): seq<byte> {
    if rank >= MAX_RANK then [ARRAY + MAX_RANK] + DynBytes(Length64(rank)) else [ARRAY + rank]
  }

  function ValueBytes(v: Value): Result<seq<byte>> {
    match v
    case Number(n) => Ok(NumberBytes(n))
    case Char(c) => Ok(CharBytes(c))
    case Str(s) => Ok([ARRAY + 1] + DynBytes(Length64(|s|)) + CharsBytes(s))
    case Null => Ok([T_NIL])
    case Symbol(name, ns) =>
      Ok([T_SYMBOL] + StringBytes(if ns.Some? then ns.value else DEFAULT) + StringBytes(name))
    case Array(dims, elems) =>
      var body :- AllBytes(elems);
      Ok(RankBytes(|dims|) + DimsBytes(dims) + body)
    case _ => Err
  }

  function AllBytes(vs: seq<Value>): Result<seq<byte>> {
    if vs == [] then Ok([])
    else
      var init :- AllBytes(vs[..|vs| - 1]);
      var last :- ValueBytes(vs[|vs| - 1]);
      Ok(init + last)
  }

  function Encode(v: Value): Result<seq<byte>> {
    var body :- ValueBytes(v);
    Ok(HEADER + body)
  }

  // ---- the decoder ----

  function Take(buf: seq<byte>, pos: nat, n: int): (r: Result<(seq<byte>, nat)>)
    requires pos <= |buf|
    ensures r.Ok? ==> pos <= r.value.1 <= |buf| && |r.value.0| == n
  {
    if n < 0 || pos + n > |buf| then Err else Ok((buf[pos..pos + n], pos + n))
  }

  function ReadLength(buf: seq<byte>, pos: nat): (r: Result<(nat, nat)>)
    requires pos <= |buf|
    ensures r.Ok? ==> pos < r.value.1 <= |buf|
  {
    var n :- ReadDyn(buf, pos);
    if 0 <= n.0 <= I32_MAX then Ok((n.0, n.1)) else Err
  }

  /** `char::from_u32` with the decoder's fallback. */
  function CharValue(cp: nat): Value {
    if cp < 0xD800 || 0xE000 <= cp < 0x11_0000 then Char(cp as char) else Null
  }

  function ReadCounted(buf: seq<byte>, pos: nat): (r: Result<(seq<byte>, nat)>)
    requires pos <= |buf|
    ensures r.Ok? ==> pos < r.value.1 <= |buf|
  {
    var len :- ReadDyn(buf, pos);
    Take(buf, len.1, len.0)
  }

  function ReadDouble(buf: seq<byte>, pos: nat): (r: Result<(Double, nat)>)
    requires pos <= |buf|
    ensures r.Ok? ==> pos < r.value.1 <= |buf|
  {
    var b :- Take(buf, pos, 8);
    BigEndianBound(b.0);
    Ok((FromBits(FromBigEndian(b.0)), b.1))
  }

  /** The type byte decides; the low three bits only matter to compressed integers. */
  function ReadAtom(buf: seq<byte>, pos: nat, t: byte): (r: Result<(Value, nat)>)
    requires pos <= |buf|
    ensures r.Ok? ==> pos <= r.value.1 <= |buf|
    decreases |buf| - pos, 3, 0
  {
    var k := t - t % 8;
    if k % 128 == T_COMPRESSED_INT then
      Ok((Number(Long(if t % 8 >= 4 then t % 8 - 8 else t % 8)), pos))
    else if k == T_INT8 then
      if pos == |buf| then Err else Ok((Number(Long(buf[pos])), pos + 1))
    else if k == T_DYNINT64 then
      var n :- ReadDyn(buf, pos);
      Ok((Number(Long(n.0)), n.1))
    else if k == T_BIGINT then
      var b :- ReadCounted(buf, pos);
      Ok((Number(BigInt(FromSignedBytes(b.0))), b.1))
    else if k == T_DOUBLE then
      var d :- ReadDouble(buf, pos);
      Ok((Number(Dbl(d.0)), d.1))
    else if k == T_COMPLEX then
      var re :- ReadDouble(buf, pos);
      var im :- ReadDouble(buf, re.1);
      Ok((Number(Complex(re.0, im.0)), im.1))
    else if k == T_RATIONAL then
      var numer :- ReadInteger(buf, pos);
      var denom :- ReadInteger(buf, numer.1);
      if denom.0 == 0 then Err else Ok((Number(Rational(Make(numer.0, denom.0))), denom.1))
    else if k == T_CHAR8 then
      if pos == |buf| then Err else Ok((CharValue(buf[pos]), pos + 1))
    else if k == T_CHAR32 then
      var b :- Take(buf, pos, 4);
      Ok((CharValue(FromBigEndian(b.0)), b.1))
    else if k == T_NIL then Ok((Null, pos))
    else if k == T_ENCLOSED then
      var v :- ReadValue(buf, pos);
      Ok((Array([], [v.0]), v.1))
    else if k == T_LIST then
      var n :- ReadLength(buf, pos);
      var vs :- ReadMany(buf, n.1, n.0, []);
      Ok((Array([n.0], vs.0), vs.1))
    else if k == T_SYMBOL then
      var ns :- ReadCounted(buf, pos);
      var name :- ReadCounted(buf, ns.1);
      Ok((Symbol(name.0, if ns.0 == DEFAULT then None else Some(ns.0)), name.1))
    else Err
  }

  function ReadInteger(buf: seq<byte>, pos: nat): (r: Result<(int, nat)>)
    requires pos <= |buf|
    ensures r.Ok? ==> pos < r.value.1 <= |buf|
    decreases |buf| - pos, 1, 0
  {
    if pos == |buf| then Err
    else
      var v :- ReadAtom(buf, pos + 1, buf[pos]);
      if !v.0.Number? then Err
      else if v.0.n.Long? then Ok((v.0.n.l, v.1))
      else if v.0.n.BigInt? then Ok((v.0.n.b, v.1))
      else Err
  }

  function ReadValue(buf: seq<byte>, pos: nat): (r: Result<(Value, nat)>)
    requires pos <= |buf|
    ensures r.Ok? ==> pos < r.value.1 <= |buf|
    decreases |buf| - pos, 1, 0
  {
    if pos == |buf| then Err
    else if buf[pos] < 128 then ReadAtom(buf, pos + 1, buf[pos])
    else ReadArray(buf, pos + 1, buf[pos])
  }

  /** Read `n` more values behind those in `acc`. */
  function ReadMany(buf: seq<byte>, pos: nat, n: nat, acc: seq<Value>): (r: Result<(seq<Value>, nat)>)
    requires pos <= |buf|
    ensures r.Ok? ==> pos <= r.value.1 <= |buf|
    decreases |buf| - pos, 2, n
  {
    if n == 0 then Ok((acc, pos))
    else
      var v :- ReadValue(buf, pos);
      ReadMany(buf, v.1, n - 1, acc + [v.0])
  }

  function ReadDims(buf: seq<byte>, pos: nat, n: nat, acc: seq<nat>): (r: Result<(seq<nat>, nat)>)
    requires pos <= |buf|
    ensures r.Ok? ==> pos <= r.value.1 <= |buf|
    decreases n
  {
    if n == 0 then Ok((acc, pos))
    else
      var d :- ReadLength(buf, pos);
      ReadDims(buf, d.1, n - 1, acc + [d.0])
  }

  function ReadArray(buf: seq<byte>, pos: nat, t: byte): (r: Result<(Value, nat)>)
    requires pos <= |buf|
    ensures r.Ok? ==> pos <= r.value.1 <= |buf|
    decreases |buf| - pos, 3, 0
  {
    var rank :- if t % 64 == MAX_RANK then ReadLength(buf, pos) else Ok((t % 64, pos));
    var dims :- ReadDims(buf, rank.1, rank.0, []);
    if t % 128 >= 64 then Err
    else
      var elems :- ReadMany(buf, dims.1, Product(dims.0), []);
      Ok((Array(dims.0, elems.0), elems.1))
  }

  function Decode(bytes: seq<byte>): Result<(Value, nat)> {
    if |bytes| < 4 || bytes[..4] != HEADER then Err else ReadValue(bytes, 4)
  }
}
