/** String operations of the Rust standard library that several readers share. */
module Text {

  /** `char::is_whitespace`: the Unicode White_Space characters. */
  predicate IsWhitespace(c: char) {
    var n := c as int;
    9 <= n <= 13 || n == 0x20 || n == 0x85 || n == 0xA0 || n == 0x1680 || 0x2000 <= n <= 0x200A
    || n == 0x2028 || n == 0x2029 || n == 0x202F || n == 0x205F || n == 0x3000
  }

  /** The 25 characters with that property, one by one. */
  lemma WhitespaceList(c: char)
    ensures IsWhitespace(c) <==>
            c as int in [0x9, 0xA, 0xB, 0xC, 0xD, 0x20, 0x85, 0xA0, 0x1680, 0x2000, 0x2001, 0x2002, 0x2003, 0x2004,
                         0x2005, 0x2006, 0x2007, 0x2008, 0x2009, 0x200A, 0x2028, 0x2029, 0x202F, 0x205F, 0x3000]
  {
  }

  function TrimStart(s: string): (t: string)
    ensures t == "" || !IsWhitespace(t[0])
  {
    if s != "" && IsWhitespace(s[0]) then TrimStart(s[1..]) else s
  }

  function TrimEnd(s: string): string {
    if s != "" && IsWhitespace(s[|s| - 1]) then TrimEnd(s[..|s| - 1]) else s
  }

  function Trim(s: string): string { TrimEnd(TrimStart(s)) }

  predicate AllBlank(s: string) { forall c :: c in s ==> IsWhitespace(c) }

  lemma {:induction false} TrimEndBlank(s: string)
    requires AllBlank(s)
    ensures TrimEnd(s) == ""
  {
    if s != "" {
      TrimEndBlank(s[..|s| - 1]);
    }
  }

  lemma {:induction false} TrimEndAfter(a: string, b: string)
    requires a != "" && !IsWhitespace(a[|a| - 1])
    ensures TrimEnd(a + b) == a + TrimEnd(b)
    decreases |b|
  {
    if b == "" {
      assert a + b == a;
    } else if IsWhitespace(b[|b| - 1]) {
      assert (a + b)[..|a + b| - 1] == a + b[..|b| - 1];
      TrimEndAfter(a, b[..|b| - 1]);
    }
  }

  lemma {:induction false} TrimStartBlank(a: string, b: string)
    requires AllBlank(a) && (b == "" || !IsWhitespace(b[0]))
    ensures TrimStart(a + b) == b
    decreases |a|
  {
    if a == "" {
      assert a + b == b;
    } else {
      assert (a + b)[1..] == a[1..] + b;
      TrimStartBlank(a[1..], b);
    }
  }

  /** Trimming at the end leaves nothing or the first character. */
  lemma {:induction false} TrimEndFirst(s: string)
    ensures TrimEnd(s) == "" || (s != "" && TrimEnd(s)[0] == s[0])
  {
    if s != "" && IsWhitespace(s[|s| - 1]) {
      TrimEndFirst(s[..|s| - 1]);
    }
  }

  predicate Occurs(s: string, pat: string, k: nat) { k + |pat| <= |s| && s[k..k + |pat|] == pat }

  /** The first index from `i` on at which `pat` occurs, or |s| when there is none. */
  function Find(s: string, pat: string, i: nat): (k: nat)
    requires i <= |s|
    ensures i <= k <= |s|
    ensures k < |s| ==> k + |pat| <= |s| && s[k..k + |pat|] == pat
    ensures forall j :: i <= j < k ==> !Occurs(s, pat, j)
    decreases |s| - i
  {
    if i == |s| then i
    else if i + |pat| <= |s| && s[i..i + |pat|] == pat then i
    else Find(s, pat, i + 1)
  }

  /** `s.find(c)`: the first index of `c`, or |s| when it does not occur. */
  function IndexOf(s: string, c: char): (k: nat)
    ensures k <= |s| && c !in s[..k]
    ensures k < |s| ==> s[k] == c
  {
    if s == "" || s[0] == c then 0
    else
      var k := IndexOf(s[1..], c);
      assert s[..k + 1] == [s[0]] + s[1..][..k];
      k + 1
  }

  lemma IndexAfter(a: string, c: char, b: string)
    requires c !in a
    ensures IndexOf(a + [c] + b, c) == |a|
  {
    var s := a + [c] + b;
    var k := IndexOf(s, c);
    assert s[|a|] == c;
    assert forall j :: 0 <= j < |a| ==> s[j] == a[j] && a[j] in a;
    assert forall j :: 0 <= j < k ==> s[..k][j] == s[j];
  }

  lemma IndexMissing(s: string, c: char)
    requires c !in s
    ensures IndexOf(s, c) == |s|
  {
  }
}
