/** Byte sequences: fixed-width big-endian numbers, and bytes found at a position. */
module Bytes {
  import opened Common
  import opened Arithmetic

  /** The low `w` bytes of `n`, most significant first. */
  function BigEndian(n: nat, w: nat): (b: seq<byte>)
    ensures |b| == w
  {
    if w == 0 then [] else BigEndian(n / 256, w - 1) + [n % 256]
  }

  function FromBigEndian(b: seq<byte>): nat {
    if b == [] then 0 else 256 * FromBigEndian(b[..|b| - 1]) + b[|b| - 1]
  }

  lemma {:induction false} BigEndianInverse(n: nat, w: nat)
    requires n < Pow(256, w)
    ensures FromBigEndian(BigEndian(n, w)) == n
  {
    if w == 0 {
    } else {
      var b := BigEndian(n, w);
      assert b[..w - 1] == BigEndian(n / 256, w - 1);
      BigEndianInverse(n / 256, w - 1);
    }
  }

  lemma {:induction false} BigEndianBound(b: seq<byte>)
    ensures FromBigEndian(b) < Pow(256, |b|)
    ensures |b| == 8 ==> FromBigEndian(b) < TWO_64
  {
    if b == [] {
    } else {
      BigEndianBound(b[..|b| - 1]);
    }
    Pow256();
  }

  lemma Pow256()
    ensures Pow(256, 4) == 0x1_0000_0000 && Pow(256, 8) == TWO_64
  {
    assert Pow(256, 2) == 0x1_0000;
    PowAdd(256, 2, 2);
    PowAdd(256, 4, 4);
  }

  /** `bytes` stands in `buf` at `pos`. */
  predicate At(buf: seq<byte>, pos: nat, bytes: seq<byte>) {
    pos + |bytes| <= |buf| && buf[pos..pos + |bytes|] == bytes
  }

  lemma AtConcat(buf: seq<byte>, pos: nat, a: seq<byte>, b: seq<byte>)
    requires At(buf, pos, a + b)
    ensures At(buf, pos, a) && At(buf, pos + |a|, b)
  {
    var all := buf[pos..pos + |a + b|];
    assert all[..|a|] == a && all[|a|..] == b;
  }

  lemma AtFirst(buf: seq<byte>, pos: nat, b: byte)
    requires At(buf, pos, [b])
    ensures pos < |buf| && buf[pos] == b
  {
    assert buf[pos..pos + 1][0] == b;
  }

  lemma AtBounds(buf: seq<byte>, pos: nat, bytes: seq<byte>)
    requires At(buf, pos, bytes)
    ensures pos + |bytes| <= |buf|
  {
  }

  /** A one-byte type tag at `pos`, with the payload behind it. */
  lemma AtTag(buf: seq<byte>, pos: nat, t: byte, payload: seq<byte>)
    requires At(buf, pos, [t] + payload)
    ensures pos < |buf| && buf[pos] == t && At(buf, pos + 1, payload)
  {
    AtConcat(buf, pos, [t], payload);
    AtFirst(buf, pos, t);
  }
}
