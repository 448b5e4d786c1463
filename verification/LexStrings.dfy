/** String literals: how the result line escapes a string (kap-core/src/lib.rs) and how the
    lexer reads one back (kap-core/src/lex_helpers.rs). */
module LexStrings {
  import opened Common

  // ---------------------------------------------------------------- escaping

  /** `char::is_control`: the Unicode control characters. */
  predicate IsControl(c: char) { c < ' ' || '\U{007F}' <= c <= '\U{009F}' }

  /** The control characters the lexer has no escape for. */
  predicate Unspeakable(c: char) { IsControl(c) && c != '\n' && c != '\r' }

  function LowerHex(n: nat): char
    requires n < 16
  {
    "0123456789abcdef"[n]
  }

  function EscapeChar(c: char): string {
    if c == '"' then "\\\""
    else if c == '\\' then "\\\\"
    else if c == '\n' then "\\n"
    else if c == '\r' then "\\r"
    else if c == '\t' then "\\t"
    else if IsControl(c) then "\\x" + [LowerHex(c as int / 16), LowerHex(c as int % 16)]
    else [c]
  }

  function Escape(s: string): string {
    if s == "" then "" else EscapeChar(s[0]) + Escape(s[1..])
  }

  /** One character moves from what is still to be escaped to what has been. */
  lemma EscapeStep(s: string, i: nat, out: string)
    requires i < |s|
    ensures out + Escape(s[i..]) == out + EscapeChar(s[i]) + Escape(s[i + 1..])
  {
    hide EscapeChar;
    assert s[i..][0] == s[i] && s[i..][1..] == s[i + 1..];
    Reassociate(out, EscapeChar(s[i]), Escape(s[i + 1..]));
  }

  lemma Reassociate(a: string, b: string, c: string)
    ensures a + (b + c) == a + b + c
  {
  }

  lemma EscapeNothing(s: string, out: string)
    ensures out + Escape(s[|s|..]) == out
    ensures "" + Escape(s[0..]) == Escape(s)
  {
    assert s[0..] == s;
  }

  /** `escape_string`. */
  method EscapeString(s: string) returns (out: string)
    ensures out == Escape(s)
  {
    hide *;
    out := "";
    EscapeNothing(s, "");
    for i := 0 to |s|
      invariant out + Escape(s[i..]) == Escape(s)
    {
      EscapeStep(s, i, out);
      out := out + EscapeChar(s[i]);
    }
    EscapeNothing(s, out);
  }

  // ---------------------------------------------------------------- lexing

  /** `c.to_digit(16)`. */
  function HexValue(c: char): (r: Option<nat>)
    ensures r.Some? ==> r.value < 16
  {
    if '0' <= c <= '9' then Some(c as int - '0' as int)
    else if 'a' <= c <= 'f' then Some(c as int - 'a' as int + 10)
    else if 'A' <= c <= 'F' then Some(c as int - 'A' as int + 10)
    else None
  }

  function FourDigits(a: nat, b: nat, c: nat, d: nat): (n: nat)
    requires a < 16 && b < 16 && c < 16 && d < 16
    ensures n < 0x10000
  {
    ((a * 16 + b) * 16 + c) * 16 + d
  }

  /** The number the first four characters spell in hexadecimal. */
  function Hex4(s: string): (r: Option<nat>)
    ensures r.Some? ==> |s| >= 4 && r.value < 0x10000
  {
    if |s| < 4 then None
    else
      var a :- HexValue(s[0]);
      var b :- HexValue(s[1]);
      var c :- HexValue(s[2]);
      var d :- HexValue(s[3]);
      Some(FourDigits(a, b, c, d))
  }

  predicate IsHigh(code: nat) { 0xD800 <= code <= 0xDBFF }

  predicate IsLow(code: nat) { 0xDC00 <= code <= 0xDFFF }

  /** The code point of a surrogate pair. */
  function Astral(high: nat, low: nat): (c: char)
    requires IsHigh(high) && IsLow(low)
  {
    (0x10000 + (high - 0xD800) * 0x400 + (low - 0xDC00)) as char
  }

  /** A `\uXXXX` low surrogate at the start of the text. */
  function LowAt(s: string): (r: Option<nat>)
    ensures r.Some? ==> |s| >= 6 && IsLow(r.value)
  {
    if |s| >= 2 && s[0] == '\\' && s[1] == 'u' && Hex4(s[2..]).Some? && IsLow(Hex4(s[2..]).value)
    then Hex4(s[2..]) else None
  }

  const REPLACEMENT := '\U{FFFD}'

  /** The string up to the closing quote, and the text after that quote. */
  function Lex(s: string, out: string): Result<(string, string)>
    decreases |s|
  {
    if s == "" then Err
    else if s[0] == '"' then Ok((out, s[1..]))
    else if s[0] != '\\' then Lex(s[1..], out + [s[0]])
    else if |s| == 1 then Err
    else if s[1] == '\\' || s[1] == '"' then Lex(s[2..], out + [s[1]])
    else if s[1] == 'n' then Lex(s[2..], out + "\n")
    else if s[1] == 'r' then Lex(s[2..], out + "\r")
    else if s[1] == 'u' then
      var code := Hex4(s[2..]);
      if code == None then Err
      else if IsHigh(code.value) then
        var low := LowAt(s[6..]);
        if low.Some? then Lex(s[12..], out + [Astral(code.value, low.value)])
        else Lex(s[6..], out + [REPLACEMENT])
      else if IsLow(code.value) then Err
      else Lex(s[6..], out + [code.value as char])
    else Err
  }

  method ParseHex4(chars: string) returns (r: Option<nat>)
    ensures r == Hex4(chars)
  {
    if |chars| < 4 {
      return None;
    }
    var v: nat := 0;
    for k := 0 to 4
      invariant forall i :: 0 <= i < k ==> HexValue(chars[i]).Some?
      invariant k == 1 ==> v == HexValue(chars[0]).value
      invariant k == 2 ==> v == HexValue(chars[0]).value * 16 + HexValue(chars[1]).value
      invariant k == 3 ==>
                  v == (HexValue(chars[0]).value * 16 + HexValue(chars[1]).value) * 16 + HexValue(chars[2]).value
      invariant k == 4 ==> Some(v) == Hex4(chars)
      invariant k == 0 ==> v == 0
    {
      var d := HexValue(chars[k]);
      if d == None {
        return None;
      }
      v := v * 16 + d.value;
    }
    return Some(v);
  }

  /** `lex_string`, from just past the opening quote: the string and where the lexer goes on. */
  method LexString(chars: string, i: nat) returns (r: Result<(string, nat)>)
    requires i <= |chars|
    ensures r.Ok? ==> i < r.value.1 <= |chars|
    ensures Lex(chars[i..], "") == if r.Ok? then Ok((r.value.0, chars[r.value.1..])) else Err
  {
    hide Hex4, Astral;
    var out, j := "", i;
    while j < |chars|
      invariant i <= j <= |chars|
      invariant Lex(chars[j..], out) == Lex(chars[i..], "")
    {
      var c := chars[j];
      ghost var s := chars[j..];
      assert s[1..] == chars[j + 1..];
      if c == '"' {
        return Ok((out, j + 1));
      }
      if c == '\\' {
        if j + 1 >= |chars| {
          return Err;
        }
        var e := chars[j + 1];
        assert s[2..] == chars[j + 2..];
        if e == '\\' || e == '"' {
          out, j := out + [e], j + 2;
        } else if e == 'n' {
          out, j := out + "\n", j + 2;
        } else if e == 'r' {
          out, j := out + "\r", j + 2;
        } else if e == 'u' {
          var code := ParseHex4(chars[j + 2..]);
          if code == None {
            return Err;
          }
          assert s[6..] == chars[j + 6..];
          if IsHigh(code.value) {
            var low := LexLow(chars, j + 6);
            if low.Some? {
              assert s[12..] == chars[j + 12..];
              out, j := out + [Astral(code.value, low.value)], j + 12;
            } else {
              out, j := out + [REPLACEMENT], j + 6;
            }
          } else if !IsLow(code.value) {
            out, j := out + [code.value as char], j + 6;
          } else {
            return Err;
          }
        } else {
          return Err;
        }
      } else {
        out, j := out + [c], j + 1;
      }
    }
    return Err;
  }

  /** The look-ahead for the second half of a surrogate pair. */
  method LexLow(chars: string, k: nat) returns (low: Option<nat>)
    requires k <= |chars|
    ensures low == LowAt(chars[k..])
  {
    if k + 1 < |chars| && chars[k] == '\\' && chars[k + 1] == 'u' {
      assert chars[k..][2..] == chars[k + 2..];
      var code := ParseHex4(chars[k + 2..]);
      if code.Some? && IsLow(code.value) {
        return code;
      }
    }
    return None;
  }

  // ---------------------------------------------------------------- escaped strings lex back

  lemma LexEscapedChar(c: char, rest: string, out: string)
    ensures Lex(EscapeChar(c) + rest, out) == if Unspeakable(c) then Err else Lex(rest, out + [c])
  {
    hide Hex4, LowAt;
    var s := EscapeChar(c) + rest;
    if |EscapeChar(c)| == 1 {
      assert s[1..] == rest;
    } else if |EscapeChar(c)| == 2 {
      assert s[2..] == rest;
    }
  }

  predicate HasUnspeakable(s: string) { exists c :: c in s && Unspeakable(c) }

  lemma UnspeakableCons(s: string)
    requires s != ""
    ensures HasUnspeakable(s) <==> Unspeakable(s[0]) || HasUnspeakable(s[1..])
  {
    hide Unspeakable;
    assert s == [s[0]] + s[1..];
    assert s[0] in s;
    assert forall c :: c in s[1..] ==> c in s;
  }

  lemma EscapeCons(s: string, tail: string)
    requires s != ""
    ensures Escape(s) + tail == EscapeChar(s[0]) + (Escape(s[1..]) + tail)
  {
    hide EscapeChar;
  }

  /** An escaped string and a closing quote lex back to the string, stopping past the quote,
      exactly when it has no control character other than newline and carriage return. */
  lemma {:induction false} EscapeLexes(s: string, tail: string, out: string)
    ensures Lex(Escape(s) + ("\"" + tail), out) == if HasUnspeakable(s) then Err else Ok((out + s, tail))
    decreases |s|
  {
    hide Unspeakable, HasUnspeakable, Lex, EscapeChar;
    if s == "" {
      LexQuote(tail, out);
      NothingUnspeakable();
      assert Escape(s) + ("\"" + tail) == "\"" + tail && out + s == out;
    } else {
      hide Escape;
      UnspeakableCons(s);
      EscapeCons(s, "\"" + tail);
      LexEscapedChar(s[0], Escape(s[1..]) + ("\"" + tail), out);
      EscapeLexes(s[1..], tail, out + [s[0]]);
      assert out + [s[0]] + s[1..] == out + s;
    }
  }

  lemma NothingUnspeakable()
    ensures !HasUnspeakable("")
  {
  }

  lemma LexQuote(tail: string, out: string)
    ensures Lex("\"" + tail, out) == Ok((out, tail))
  {
    assert ("\"" + tail)[1..] == tail;
  }

  // ---------------------------------------------------------------- each escape by itself

  lemma EscapeLetters(c: char)
    ensures c == '"' || c == '\\' ==> EscapeChar(c) == ['\\', c]
    ensures c == '\n' ==> EscapeChar(c) == ['\\', 'n']
    ensures c == '\r' ==> EscapeChar(c) == ['\\', 'r']
    ensures c == '\t' ==> EscapeChar(c) == ['\\', 't']
    ensures 0x20 <= c as int && !(0x7F <= c as int < 0xA0) && c != '"' && c != '\\' ==> EscapeChar(c) == [c]
  {
  }

  /** Two lower-case hexadecimal digits for a control character without a letter of its own. */
  lemma EscapeControl(a: nat, b: nat)
    requires a < 2 || a == 8 || a == 9 || (a == 7 && b == 15)
    requires b < 16 && !(a == 0 && (b == 9 || b == 10 || b == 13))
    ensures EscapeChar((a * 16 + b) as char) == ['\\', 'x', "0123456789abcdef"[a], "0123456789abcdef"[b]]
  {
    var n := a * 16 + b;
    assert n / 16 == a && n % 16 == b;
  }

  /** A digit's place in either alphabet is its value, and nothing else is a digit. */
  lemma HexDigits(c: char, n: nat)
    requires n < 16
    ensures HexValue(c) == Some(n) <==> c == "0123456789abcdef"[n] || c == "0123456789ABCDEF"[n]
  {
  }

  lemma Hex4Value(a: char, b: char, c: char, d: char, rest: string)
    ensures Hex4([a, b, c, d] + rest) ==
            if HexValue(a).Some? && HexValue(b).Some? && HexValue(c).Some? && HexValue(d).Some? then
              Some(HexValue(a).value * 0x1000 + HexValue(b).value * 0x100
                   + HexValue(c).value * 0x10 + HexValue(d).value)
            else None
  {
    hide HexValue;
  }

  /** An ordinary character stands for itself, and a backslash escapes itself, the quote, n, r and u;
      any other escape is an error, as is a text that ends. */
  lemma LexOne(c: char, rest: string, out: string)
    ensures c != '"' && c != '\\' ==> Lex([c] + rest, out) == Lex(rest, out + [c])
    ensures c == '"' || c == '\\' ==> Lex(['\\', c] + rest, out) == Lex(rest, out + [c])
    ensures c == 'n' ==> Lex(['\\', c] + rest, out) == Lex(rest, out + ['\n'])
    ensures c == 'r' ==> Lex(['\\', c] + rest, out) == Lex(rest, out + ['\r'])
    ensures c != '"' && c != '\\' && c != 'n' && c != 'r' && c != 'u' ==> Lex(['\\', c] + rest, out) == Err
    ensures Lex("", out) == Err && Lex("\\", out) == Err
  {
    hide Hex4, LowAt, Astral;
    var one, two := [c] + rest, ['\\', c] + rest;
    assert one[1..] == rest && two[2..] == rest;
  }

  /** A string without a closing quote is an error. */
  lemma {:induction false} LexUnclosed(s: string, out: string)
    requires '"' !in s
    ensures Lex(s, out) == Err
    decreases |s|
  {
    hide Hex4, LowAt, Astral;
    if |s| >= 2 && s[0] == '\\' {
      assert s == [s[0], s[1]] + s[2..];
      if s[1] == 'u' && Hex4(s[2..]).Some? {
        assert s[2..][4..] == s[6..];
        LexUnclosed(s[6..], out + [REPLACEMENT]);
        LexUnclosed(s[6..], out + [if IsHigh(Hex4(s[2..]).value) || IsLow(Hex4(s[2..]).value) then 'x'
                                   else Hex4(s[2..]).value as char]);
        if IsHigh(Hex4(s[2..]).value) && LowAt(s[6..]).Some? {
          LexUnclosed(s[12..], out + [Astral(Hex4(s[2..]).value, LowAt(s[6..]).value)]);
        }
      } else {
        LexUnclosed(s[2..], out + [s[1]]);
        LexUnclosed(s[2..], out + "\n");
        LexUnclosed(s[2..], out + "\r");
      }
    } else if s != "" {
      LexUnclosed(s[1..], out + [s[0]]);
    }
  }

  /** A high surrogate without its second half becomes U+FFFD; a low one by itself is an error. */
  lemma LexLoneSurrogate(h: string, rest: string, out: string)
    requires |h| == 4 && Hex4(h).Some? && 0xD800 <= Hex4(h).value <= 0xDFFF
    requires !(|rest| >= 6 && rest[0] == '\\' && rest[1] == 'u' && Hex4(rest[2..]).Some?
               && 0xDC00 <= Hex4(rest[2..]).value <= 0xDFFF)
    ensures Lex("\\u" + h + rest, out) ==
            if Hex4(h).value < 0xDC00 then Lex(rest, out + ['\U{FFFD}']) else Err
  {
    hide Hex4, Astral;
    var s := "\\u" + h + rest;
    assert s[2..] == h + rest && s[6..] == rest;
    Hex4Prefix(h, rest);
    Hex4Short(rest);
  }

  lemma Hex4Short(rest: string)
    ensures 2 <= |rest| < 6 ==> Hex4(rest[2..]) == None
  {
  }

  /** Fewer than four hexadecimal digits behind the u are an error. */
  lemma LexBadHex(rest: string, out: string)
    requires Hex4(rest) == None
    ensures Lex("\\u" + rest, out) == Err
  {
    hide Hex4, LowAt, Astral;
    assert ("\\u" + rest)[2..] == rest;
  }

  // ---------------------------------------------------------------- \u escapes spell UTF-16

  /** The UTF-16 code units of a character. */
  function Units(c: char): seq<nat> {
    var n := c as int;
    if n < 0x10000 then [n] else [0xD800 + (n - 0x10000) / 0x400, 0xDC00 + (n - 0x10000) % 0x400]
  }

  function Utf16(s: string): seq<nat> {
    if s == "" then [] else Units(s[0]) + Utf16(s[1..])
  }

  /** Each unit written as `\u` and four hexadecimal digits, in upper or lower case at will. */
  function Written(spelled: seq<string>): string {
    if spelled == [] then "" else "\\u" + spelled[0] + Written(spelled[1..])
  }

  predicate Spells(spelled: seq<string>, units: seq<nat>) {
    && |spelled| == |units|
    && forall i :: 0 <= i < |units| ==> |spelled[i]| == 4 && Hex4(spelled[i]) == Some(units[i])
  }

  lemma Hex4Prefix(h: string, rest: string)
    requires |h| == 4
    ensures Hex4(h + rest) == Hex4(h)
  {
  }

  lemma LexUnit(h: string, rest: string, out: string)
    requires |h| == 4 && Hex4(h).Some? && !IsHigh(Hex4(h).value) && !IsLow(Hex4(h).value)
    ensures Lex("\\u" + h + rest, out) == Lex(rest, out + [Hex4(h).value as char])
  {
    hide LowAt, Hex4;
    var s := "\\u" + h + rest;
    assert s[2..] == h + rest && s[6..] == rest;
    Hex4Prefix(h, rest);
  }

  lemma LexPair(h: string, l: string, rest: string, out: string)
    requires |h| == 4 && |l| == 4 && Hex4(h).Some? && Hex4(l).Some?
    requires IsHigh(Hex4(h).value) && IsLow(Hex4(l).value)
    ensures Lex("\\u" + h + ("\\u" + l + rest), out) == Lex(rest, out + [Astral(Hex4(h).value, Hex4(l).value)])
  {
    hide Hex4, Astral;
    var second := "\\u" + l + rest;
    var s := "\\u" + h + second;
    assert s[2..] == h + second && s[6..] == second;
    Hex4Prefix(h, second);
    assert second[2..] == l + rest;
    Hex4Prefix(l, rest);
    assert s[12..] == rest;
  }

  lemma AstralUnits(c: char)
    requires c as int >= 0x10000
    ensures var u := Units(c); IsHigh(u[0]) && IsLow(u[1]) && Astral(u[0], u[1]) == c
  {
  }

  /** The spelled units of one character, in front of more text. */
  lemma LexCharacter(c: char, spelled: seq<string>, text: string, out: string)
    requires var u := Units(c); |u| <= |spelled| && Spells(spelled[..|u|], u)
    ensures Lex(Written(spelled) + text, out) == Lex(Written(spelled[|Units(c)|..]) + text, out + [c])
  {
    hide Lex, Hex4, Astral;
    var u := Units(c);
    assert Hex4(spelled[..|u|][0]) == Some(u[0]);
    var rest := Written(spelled[|u|..]) + text;
    if |u| == 1 {
      assert Written(spelled) + text == "\\u" + spelled[0] + rest;
      LexUnit(spelled[0], rest, out);
    } else {
      AstralUnits(c);
      assert Hex4(spelled[..2][1]) == Some(u[1]);
      assert spelled[1..][1..] == spelled[2..] && spelled[1..][0] == spelled[1];
      assert Written(spelled) + text == "\\u" + spelled[0] + ("\\u" + spelled[1] + rest);
      LexPair(spelled[0], spelled[1], rest, out);
    }
  }

  /** A string written entirely as `\u` escapes, surrogate pairs included, lexes back to itself. */
  lemma {:induction false} UnicodeEscapesLex(s: string, spelled: seq<string>, tail: string, out: string)
    requires Spells(spelled, Utf16(s))
    ensures Lex(Written(spelled) + ("\"" + tail), out) == Ok((out + s, tail))
    decreases |s|
  {
    hide Lex, Hex4, Astral, Written, Units;
    if s == "" {
      LexQuote(tail, out);
      WrittenNothing(spelled, "\"" + tail);
      assert out + s == out;
    } else {
      var u := Units(s[0]);
      assert Utf16(s)[|u|..] == Utf16(s[1..]) && Utf16(s)[..|u|] == u;
      LexCharacter(s[0], spelled, "\"" + tail, out);
      UnicodeEscapesLex(s[1..], spelled[|u|..], tail, out + [s[0]]);
      assert out + [s[0]] + s[1..] == out + s;
    }
  }

  lemma WrittenNothing(spelled: seq<string>, text: string)
    requires spelled == []
    ensures Written(spelled) + text == text
  {
  }

  /** Every code unit has a spelling. */
  lemma HexSpelling(n: nat) returns (h: string)
    requires n < 0x10000
    ensures |h| == 4 && Hex4(h) == Some(n)
  {
    var a := n / 16;
    var b := a / 16;
    h := [LowerHex(b / 16), LowerHex(b % 16), LowerHex(a % 16), LowerHex(n % 16)];
    LowerHexValue(b / 16);
    LowerHexValue(b % 16);
    LowerHexValue(a % 16);
    LowerHexValue(n % 16);
    hide LowerHex, HexValue;
    assert FourDigits(b / 16, b % 16, a % 16, n % 16) == n;
  }

  lemma LowerHexValue(n: nat)
    requires n < 16
    ensures HexValue(LowerHex(n)) == Some(n)
  {
  }
}
