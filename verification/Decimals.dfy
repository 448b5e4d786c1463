/** Decimal digit strings: how Rust prints integers and reads them back. */
module Decimals {
  import opened Common
  import opened Arithmetic

  predicate IsDigit(c: char) { '0' <= c <= '9' }

  predicate AllDigits(s: string) { forall i :: 0 <= i < |s| ==> IsDigit(s[i]) }

  lemma DigitsLack(s: string, c: char)
    requires AllDigits(s) && !IsDigit(c)
    ensures c !in s
  {
  }

  function DigitChar(n: nat): (c: char)
    requires n < 10
    ensures IsDigit(c) && DigitValue(c) == n
  {
    n as char + '0'
  }

  function DigitValue(c: char): (n: nat)
    requires IsDigit(c)
    ensures n < 10 && c == n as char + '0'
  {
    (c as int) - ('0' as int)
  }

  /** The value of a digit string, leading zeros allowed; "" counts as 0. */
  function ParseDigits(s: string): nat
    requires AllDigits(s)
  {
    if s == "" then 0 else 10 * ParseDigits(s[..|s| - 1]) + DigitValue(s[|s| - 1])
  }

  /** `n.to_string()`. */
  function ToDigits(n: nat): (s: string)
    ensures AllDigits(s) && s != ""
  {
    if n < 10 then [DigitChar(n)] else ToDigits(n / 10) + [DigitChar(n % 10)]
  }

  function Zeros(k: nat): (s: string)
    ensures |s| == k && AllDigits(s) && forall i :: 0 <= i < k ==> s[i] == '0'
  {
    seq(k, _ => '0')
  }

  lemma {:induction false} ParseToDigits(n: nat)
    ensures ParseDigits(ToDigits(n)) == n
  {
    if n >= 10 {
      ParseToDigits(n / 10);
      assert ToDigits(n)[..|ToDigits(n)| - 1] == ToDigits(n / 10);
    }
  }

  lemma {:induction false} ParseBound(s: string)
    requires AllDigits(s)
    ensures ParseDigits(s) < Pow(10, |s|)
  {
    if s == "" {
    } else {
      ParseBound(s[..|s| - 1]);
    }
  }

  lemma {:induction false} LeadingZeros(k: nat, s: string)
    requires AllDigits(s)
    ensures AllDigits(Zeros(k) + s) && ParseDigits(Zeros(k) + s) == ParseDigits(s)
    decreases |s|, k
  {
    var z := Zeros(k) + s;
    if s == "" {
      assert z == Zeros(k);
      if k > 0 {
        assert z[..k - 1] == Zeros(k - 1);
        LeadingZeros(k - 1, "");
        assert Zeros(k - 1) + "" == Zeros(k - 1);
      }
    } else {
      assert z[..|z| - 1] == Zeros(k) + s[..|s| - 1];
      LeadingZeros(k, s[..|s| - 1]);
    }
  }

  /** Digit strings of one length are determined by their value. */
  lemma {:induction false} ParseInjective(a: string, b: string)
    requires AllDigits(a) && AllDigits(b) && |a| == |b|
    requires ParseDigits(a) == ParseDigits(b)
    ensures a == b
  {
    if a == "" {
    } else {
      var n := |a| - 1;
      assert ParseDigits(a[..n]) == ParseDigits(b[..n]) && DigitValue(a[n]) == DigitValue(b[n]);
      ParseInjective(a[..n], b[..n]);
      assert a == a[..n] + [a[n]] && b == b[..n] + [b[n]];
    }
  }

  /** A number below 10^k prints in at most k digits, and one from 10^k on in more. */
  lemma {:induction false} DigitCount(n: nat, k: nat)
    requires k > 0
    ensures |ToDigits(n)| <= k <==> n < Pow(10, k)
  {
    if k == 1 {
      assert Pow(10, 1) == 10;
    } else if n >= 10 {
      DigitCount(n / 10, k - 1);
    } else {
      PowMono(10, 1, k);
      assert Pow(10, 1) == 10;
    }
  }

  /** `{:0w$}` on a non-negative number. */
  function PadDigits(n: nat, w: nat): (s: string)
    ensures AllDigits(s) && s != ""
  {
    var d := ToDigits(n);
    if |d| >= w then d else Zeros(w - |d|) + d
  }

  lemma ParsePadDigits(n: nat, w: nat)
    ensures ParseDigits(PadDigits(n, w)) == n
    ensures w > 0 ==> (|PadDigits(n, w)| == w <==> n < Pow(10, w))
    ensures |PadDigits(n, w)| >= w
  {
    var d := ToDigits(n);
    ParseToDigits(n);
    if |d| < w { LeadingZeros(w - |d|, d); }
    if w > 0 { DigitCount(n, w); }
  }

  lemma PadParseDigits(s: string)
    requires AllDigits(s) && s != ""
    ensures PadDigits(ParseDigits(s), |s|) == s
  {
    ParseBound(s);
    ParsePadDigits(ParseDigits(s), |s|);
    ParseInjective(PadDigits(ParseDigits(s), |s|), s);
  }

  /** `v.to_string()` for a signed integer. */
  function IntToString(v: int): (s: string)
    ensures s != ""
  {
    if v < 0 then "-" + ToDigits(-v) else ToDigits(v)
  }

  /** `{:0w$}` on a signed integer: the sign counts towards the width. */
  function PadInt(v: int, w: nat): string
  {
    if v < 0 then "-" + PadDigits(-v, if w == 0 then 0 else w - 1) else PadDigits(v, w)
  }

  /** `s.parse::<i64>()` on a text too short to overflow: optional sign, then digits. */
  function ParseSigned(s: string): Option<int> {
    var digits := if s != "" && (s[0] == '-' || s[0] == '+') then s[1..] else s;
    if digits == "" || !AllDigits(digits) then None
    else if s[0] == '-' then Some(0 - ParseDigits(digits))
    else Some(ParseDigits(digits))
  }

  lemma PowersOfTen()
    ensures Pow(10, 1) == 10 && Pow(10, 2) == 100 && Pow(10, 3) == 1000 && Pow(10, 4) == 10000
  {
    assert Pow(10, 1) == 10;
    assert Pow(10, 2) == 100;
    assert Pow(10, 3) == 1000;
  }
}
