/** The scanner of kap-core/src/html.rs undoes every way of writing markup: tags in any case, with
    blanks, slashes and attributes, comments, text, and an end in the middle of a tag or comment. */
module HtmlMarkup {
  import opened Text
  import opened HtmlTables
  import opened HtmlScan

  datatype Token =
    | Tag(slashes: nat, gap: string, name: string, spelled: string, trailing: nat, attributes: string)
    | Nameless(inner: string)
    | Comment(body: string)
    | Words(text: string)

  function Slashes(n: nat): (s: string)
    ensures |s| == n && forall i :: 0 <= i < n ==> s[i] == '/'
  {
    seq(n, _ => '/')
  }

  /** One name in any mixture of cases; the name itself is in lower case. */
  predicate Spells(spelled: string, name: string) {
    && |spelled| == |name|
    && forall i :: 0 <= i < |name| ==>
         && !('A' <= name[i] <= 'Z')
         && (spelled[i] == name[i] || ('a' <= name[i] <= 'z' && spelled[i] as int == name[i] as int - 32))
  }

  function Inner(t: Token): string
    requires t.Tag?
  {
    t.gap + Slashes(t.slashes) + t.spelled + Slashes(t.trailing) + t.attributes
  }

  predicate Starts(s: string, start: string) { |start| <= |s| && s[..|start|] == start }

  predicate Proper(t: Token) {
    match t
    case Tag(_, gap, name, spelled, _, attributes) =>
      && AllBlank(gap) && Spells(spelled, name) && name != ""
      && (forall c :: c in spelled ==> !IsWhitespace(c) && c != '/')
      && (attributes == "" || IsWhitespace(attributes[0]))
      && '>' !in Inner(t) && !Starts(Inner(t), "!--")
    case Nameless(inner) => forall c :: c in inner ==> c == '/' || IsWhitespace(c)
    case Comment(body) =>
      forall k :: 0 <= k < 4 + |body| ==> !Occurs("<!--" + body + "-->", "-->", k)
    case Words(text) => text != "" && '<' !in text
  }

  /** Text never stands next to text. */
  predicate AllProper(ts: seq<Token>) {
    && (forall i :: 0 <= i < |ts| ==> Proper(ts[i]))
    && (forall i :: 0 < i < |ts| ==> !(ts[i - 1].Words? && ts[i].Words?))
  }

  function WriteToken(t: Token): string {
    match t
    case Tag(_, _, _, _, _, _) => "<" + Inner(t) + ">"
    case Nameless(inner) => "<" + inner + ">"
    case Comment(body) => "<!--" + body + "-->"
    case Words(text) => text
  }

  function WriteTokens(ts: seq<Token>): string {
    if ts == [] then "" else WriteToken(ts[0]) + WriteTokens(ts[1..])
  }

  function EventOf(t: Token, decode: string -> string): seq<Event> {
    match t
    case Tag(slashes, _, name, _, _, _) => [if slashes > 0 then Close(name) else Open(name)]
    case Nameless(_) => []
    case Comment(_) => []
    case Words(text) => [Chunk(decode(text))]
  }

  function EventsOf(ts: seq<Token>, decode: string -> string): seq<Event> {
    if ts == [] then [] else EventOf(ts[0], decode) + EventsOf(ts[1..], decode)
  }

  /** A tag or comment that the input breaks off, or nothing. */
  predicate Unfinished(tail: string) {
    || tail == ""
    || (tail[0] == '<' &&
        if Starts(tail, "<!--") then forall k :: 0 <= k < |tail| ==> !Occurs(tail, "-->", k) else '>' !in tail)
  }

  // ---- what a tag says ----

  lemma {:induction false} SkipsSlashes(n: nat, rest: string)
    requires rest == "" || rest[0] != '/'
    ensures SkipSlashes(Slashes(n) + rest) == rest
  {
    var s := Slashes(n) + rest;
    if n == 0 {
      assert s == rest;
    } else {
      assert s[1..] == Slashes(n - 1) + rest;
      SkipsSlashes(n - 1, rest);
    }
  }

  lemma {:induction false} DropsSlashes(s: string, n: nat)
    requires s != "" && s[|s| - 1] != '/'
    ensures DropSlashes(s + Slashes(n)) == s
  {
    var t := s + Slashes(n);
    if n == 0 {
      assert t == s;
    } else {
      assert t[..|t| - 1] == s + Slashes(n - 1);
      DropsSlashes(s, n - 1);
    }
  }

  lemma {:induction false} WordOf(w: string, rest: string)
    requires (forall c :: c in w ==> !IsWhitespace(c)) && (rest == "" || IsWhitespace(rest[0]))
    ensures WordPrefix(w + rest) == w
    decreases |w|
  {
    hide IsWhitespace;
    if w == "" {
      assert w + rest == rest;
    } else {
      assert w[0] in w && (w + rest)[1..] == w[1..] + rest;
      WordOf(w[1..], rest);
      assert [w[0]] + w[1..] == w;
    }
  }

  lemma LowerOf(spelled: string, name: string)
    requires Spells(spelled, name)
    ensures Lower(spelled) == name
  {
    forall i | 0 <= i < |name| ensures Lower(spelled)[i] == name[i] {
    }
  }

  /** Blanks around go, the slashes in front make a closing tag, those behind the name go, and so
      do the attributes. */
  lemma TagSays(t: Token, decode: string -> string)
    requires t.Tag? && Proper(t)
    ensures TagEvent(Inner(t)) == EventOf(t, decode)
  {
    var w := t.spelled + Slashes(t.trailing);
    var core := Slashes(t.slashes) + w;
    TrimmedTag(t, core, w);
    var rest := TrimEnd(t.attributes);
    TrimEndFirst(t.attributes);
    assert t.spelled[0] in t.spelled && t.spelled[|t.spelled| - 1] in t.spelled;
    hide IsWhitespace, TrimEnd, TrimStart, SkipSlashes, DropSlashes, WordPrefix, Lower, Trim;
    assert core + rest == Slashes(t.slashes) + (w + rest);
    SkipsSlashes(t.slashes, w + rest);
    assert "" + (w + rest) == w + rest;
    TrimStartBlank("", w + rest);
    WordOf(w, rest);
    DropsSlashes(t.spelled, t.trailing);
    LowerOf(t.spelled, t.name);
  }

  lemma TrimmedTag(t: Token, core: string, w: string)
    requires t.Tag? && Proper(t)
    requires w == t.spelled + Slashes(t.trailing) && core == Slashes(t.slashes) + w
    ensures Trim(Inner(t)) == core + TrimEnd(t.attributes)
    ensures forall c :: c in w ==> !IsWhitespace(c)
  {
    assert t.spelled[0] in t.spelled && t.spelled[|t.spelled| - 1] in t.spelled;
    assert !IsWhitespace('/');
    hide IsWhitespace, TrimEnd, TrimStart;
    assert Inner(t) == t.gap + (core + t.attributes);
    TrimStartBlank(t.gap, core + t.attributes);
    TrimEndAfter(core, t.attributes);
  }

  lemma NamelessSays(inner: string)
    requires forall c :: c in inner ==> c == '/' || IsWhitespace(c)
    ensures TagEvent(inner) == []
  {
    var raw := Trim(inner);
    TrimSubset(inner);
    SkipSubset(raw);
    var s := SkipSlashes(raw);
    WordSlashes(TrimStart(s));
    TrimStartSubset(s);
    var w := FirstWord(s);
    assert forall i :: 0 <= i < |w| ==> w[i] in w;
    OnlySlashes(w);
  }

  lemma {:induction false} TrimStartSubset(s: string)
    ensures forall c :: c in TrimStart(s) ==> c in s
  {
    hide IsWhitespace;
    if s != "" {
      TrimStartSubset(s[1..]);
      assert s == [s[0]] + s[1..];
    }
  }

  lemma {:induction false} TrimEndSubset(s: string)
    ensures forall c :: c in TrimEnd(s) ==> c in s
  {
    hide IsWhitespace;
    if s != "" {
      TrimEndSubset(s[..|s| - 1]);
      assert s == s[..|s| - 1] + [s[|s| - 1]];
    }
  }

  lemma TrimSubset(s: string)
    ensures forall c :: c in Trim(s) ==> c in s
  {
    TrimStartSubset(s);
    TrimEndSubset(TrimStart(s));
  }

  lemma {:induction false} SkipSubset(s: string)
    ensures forall c :: c in SkipSlashes(s) ==> c in s
  {
    if s != "" {
      SkipSubset(s[1..]);
      assert s == [s[0]] + s[1..];
    }
  }

  lemma {:induction false} WordSlashes(s: string)
    ensures forall c :: c in WordPrefix(s) ==> c in s && !IsWhitespace(c)
  {
    hide IsWhitespace;
    if s != "" {
      WordSlashes(s[1..]);
      assert s == [s[0]] + s[1..];
    }
  }

  lemma {:induction false} OnlySlashes(s: string)
    requires forall i :: 0 <= i < |s| ==> s[i] == '/'
    ensures DropSlashes(s) == ""
  {
    if s != "" {
      OnlySlashes(s[..|s| - 1]);
    }
  }

  lemma NamelessPlain(inner: string)
    requires forall c :: c in inner ==> c == '/' || IsWhitespace(c)
    ensures '>' !in inner && !Starts(inner, "!--")
  {
    var head := if |inner| >= 3 then inner[..3] else "";
    assert head != "" ==> head[0] == inner[0] && inner[0] in inner;
  }

  // ---- scanning what was written ----

  predicate Stands(html: string, i: nat, piece: string) {
    i + |piece| <= |html| && html[i..i + |piece|] == piece
  }

  /** The first place of `pat` behind a front in which it does not begin. */
  lemma FindAt(html: string, i: nat, k: nat, pat: string)
    requires i <= k < |html| && Occurs(html, pat, k)
    requires forall j :: i <= j < k ==> !Occurs(html, pat, j)
    ensures Find(html, pat, i) == k
  {
    hide Occurs;
    FindOccurs(html, pat, i);
  }

  lemma FindOccurs(html: string, pat: string, i: nat)
    requires i <= |html|
    ensures Find(html, pat, i) < |html| ==> Occurs(html, pat, Find(html, pat, i))
  {
  }

  /** What occurs inside a piece of the text occurs in the piece. */
  lemma OccursInside(html: string, i: nat, piece: string, pat: string, j: nat)
    requires Stands(html, i, piece)
    requires i <= j && j + |pat| <= i + |piece|
    ensures Occurs(html, pat, j) <==> Occurs(piece, pat, j - i)
  {
    assert forall m :: j <= m < j + |pat| ==> html[m] == html[i..i + |piece|][m - i] == piece[m - i];
    assert html[j..j + |pat|] == piece[j - i..j - i + |pat|];
  }

  lemma OccursChar(html: string, c: char, j: nat)
    ensures Occurs(html, [c], j) <==> j < |html| && html[j] == c
  {
    assert j < |html| ==> html[j..j + 1] == [html[j]];
  }

  lemma ScanAngle(html: string, i: nat, inner: string, decode: string -> string)
    requires Stands(html, i, "<" + inner + ">")
    requires '>' !in inner && !Starts(inner, "!--")
    ensures i + 2 + |inner| <= |html|
    ensures Events(html, i, decode) == TagEvent(inner) + Events(html, i + 2 + |inner|, decode)
  {
    hide *;
    AngleFind(html, i, inner);
    if CommentAt(html, i) {
      CommentStarts(html, i, inner);
    }
    EventsAtAngle(html, i, decode);
  }

  lemma AngleFind(html: string, i: nat, inner: string)
    requires Stands(html, i, "<" + inner + ">") && '>' !in inner
    ensures i + 1 + |inner| < |html| && html[i] == '<'
    ensures Find(html, ">", i) == i + 1 + |inner| && html[i + 1..i + 1 + |inner|] == inner
  {
    var k := i + 1 + |inner|;
    AngleChars(html, i, inner);
    hide Occurs, Find;
    forall j | i <= j < k ensures !Occurs(html, ">", j) {
      OccursChar(html, '>', j);
    }
    OccursChar(html, '>', k);
    FindAt(html, i, k, ">");
  }

  lemma AngleChars(html: string, i: nat, inner: string)
    requires Stands(html, i, "<" + inner + ">") && '>' !in inner
    ensures var k := i + 1 + |inner|;
            && k < |html| && html[i] == '<' && html[k] == '>' && html[i + 1..k] == inner
            && forall j :: i <= j < k ==> html[j] != '>'
  {
    var whole, k := "<" + inner + ">", i + 1 + |inner|;
    assert forall m :: i <= m <= k ==> html[m] == html[i..i + 2 + |inner|][m - i] == whole[m - i];
    assert html[i + 1..k] == inner;
    forall j | i <= j < k ensures html[j] != '>' {
      assert j > i ==> html[j] == html[i + 1..k][j - i - 1];
    }
  }

  lemma CommentStarts(html: string, i: nat, inner: string)
    requires Stands(html, i, "<" + inner + ">")
    requires '>' !in inner && CommentAt(html, i)
    ensures Starts(inner, "!--")
  {
    AngleChars(html, i, inner);
    var c := html[i..i + 4];
    assert c[0] == '<' && c[1] == '!' && c[2] == '-' && c[3] == '-';
    assert forall j :: 0 <= j < 4 ==> c[j] == html[i + j];
    assert |inner| >= 3;
    assert forall j :: 0 <= j < 3 ==> inner[..3][j] == html[i + 1..i + 1 + |inner|][j] == html[i + 1 + j];
  }

  lemma ScanComment(html: string, i: nat, body: string, decode: string -> string)
    requires Stands(html, i, "<!--" + body + "-->")
    requires Proper(Comment(body))
    ensures i + 7 + |body| <= |html|
    ensures Events(html, i, decode) == Events(html, i + 7 + |body|, decode)
  {
    var whole, k := "<!--" + body + "-->", i + 4 + |body|;
    hide TagEvent, Events, Find, Occurs, CommentAt, Proper;
    CommentChars(html, i, body);
    forall j | i <= j < k ensures !Occurs(html, "-->", j) {
      NoEarlyEnd(body, j - i);
      OccursInside(html, i, whole, "-->", j);
    }
    FindAt(html, i, k, "-->");
    EventsAtAngle(html, i, decode);
  }

  lemma NoEarlyEnd(body: string, j: nat)
    requires Proper(Comment(body)) && j < 4 + |body|
    ensures !Occurs("<!--" + body + "-->", "-->", j)
  {
  }

  lemma CommentChars(html: string, i: nat, body: string)
    requires Stands(html, i, "<!--" + body + "-->")
    ensures i + 7 + |body| <= |html|
    ensures html[i] == '<' && CommentAt(html, i) && Occurs(html, "-->", i + 4 + |body|)
  {
    var whole, n := "<!--" + body + "-->", 7 + |body|;
    assert forall m :: i <= m < i + n ==> html[m] == html[i..i + n][m - i] == whole[m - i];
    assert html[i..i + 4] == "<!--";
    assert html[i + 4 + |body|..i + n] == "-->";
  }

  lemma {:induction false} RunEndAt(html: string, i: nat, k: nat)
    requires i <= k <= |html| && '<' !in html[i..k] && (k < |html| ==> html[k] == '<')
    ensures RunEnd(html, i) == k
    decreases k - i
  {
    if i < k {
      assert html[i] == html[i..k][0] && html[i + 1..k] == html[i..k][1..];
      RunEndAt(html, i + 1, k);
    }
  }

  lemma ScanWords(html: string, i: nat, text: string, decode: string -> string)
    requires Stands(html, i, text) && text != "" && '<' !in text
    requires i + |text| < |html| ==> html[i + |text|] == '<'
    ensures i + |text| <= |html|
    ensures Events(html, i, decode) == [Chunk(decode(text))] + Events(html, i + |text|, decode)
  {
    RunEndAt(html, i, i + |text|);
    assert html[i] == text[0] && text[0] in text;
    EventsAtText(html, i, decode);
  }

  lemma NoFind(html: string, i: nat, pat: string)
    requires i <= |html|
    requires forall j :: i <= j < |html| ==> !Occurs(html, pat, j)
    ensures Find(html, pat, i) == |html|
  {
    FindOccurs(html, pat, i);
  }

  lemma ScanUnfinished(html: string, i: nat, decode: string -> string)
    requires i <= |html| && Unfinished(html[i..])
    ensures Events(html, i, decode) == []
  {
    var tail := html[i..];
    if tail != "" {
      assert html[i] == tail[0];
      assert CommentAt(html, i) <==> Starts(tail, "<!--") by {
        assert |tail| >= 4 ==> tail[..4] == html[i..i + 4];
      }
      hide TagEvent, Find, Occurs, Events, CommentAt;
      if Starts(tail, "<!--") {
        forall j | i <= j < |html| ensures !Occurs(html, "-->", j) {
          TailOccurs(html, i, "-->", j);
        }
        NoFind(html, i, "-->");
      } else {
        forall j | i <= j < |html| ensures !Occurs(html, ">", j) {
          OccursChar(html, '>', j);
          assert html[j] == tail[j - i];
        }
        NoFind(html, i, ">");
      }
      EventsAtAngle(html, i, decode);
    }
  }

  lemma TailOccurs(html: string, i: nat, pat: string, j: nat)
    requires i <= j < |html|
    ensures Occurs(html, pat, j) ==> Occurs(html[i..], pat, j - i)
  {
    if Occurs(html, pat, j) {
      OccursInside(html, i, html[i..], pat, j);
    }
  }

  lemma ScanToken(html: string, i: nat, t: Token, decode: string -> string)
    requires Proper(t) && Stands(html, i, WriteToken(t))
    requires t.Words? && i + |t.text| < |html| ==> html[i + |t.text|] == '<'
    ensures i + |WriteToken(t)| <= |html|
    ensures Events(html, i, decode) == EventOf(t, decode) + Events(html, i + |WriteToken(t)|, decode)
  {
    hide Events, TagEvent, Stands, Inner;
    match t
    case Tag(_, _, _, _, _, _) =>
      TagSays(t, decode);
      ScanAngle(html, i, Inner(t), decode);
    case Nameless(inner) => ScanNameless(html, i, inner, decode);
    case Comment(body) => ScanComment(html, i, body, decode);
    case Words(text) => ScanWords(html, i, text, decode);
  }

  lemma ScanNameless(html: string, i: nat, inner: string, decode: string -> string)
    requires Proper(Nameless(inner)) && Stands(html, i, "<" + inner + ">")
    ensures i + 2 + |inner| <= |html|
    ensures Events(html, i, decode) == Events(html, i + 2 + |inner|, decode)
  {
    NamelessPlain(inner);
    NamelessSays(inner);
    hide *;
    ScanAngle(html, i, inner, decode);
  }

  lemma TokenFirst(t: Token)
    requires Proper(t)
    ensures WriteToken(t) != "" && (!t.Words? ==> WriteToken(t)[0] == '<')
  {
  }

  lemma ScanFront(html: string, i: nat, ts: seq<Token>, tail: string, decode: string -> string)
    requires AllProper(ts) && Unfinished(tail) && ts != []
    requires i <= |html| && html[i..] == WriteTokens(ts) + tail
    ensures i + |WriteToken(ts[0])| <= |html|
    ensures html[i + |WriteToken(ts[0])|..] == WriteTokens(ts[1..]) + tail
    ensures Events(html, i, decode) == EventOf(ts[0], decode) + Events(html, i + |WriteToken(ts[0])|, decode)
  {
    hide Events, WriteToken, EventOf, Proper, Unfinished, Stands;
    var w, rest := WriteToken(ts[0]), WriteTokens(ts[1..]) + tail;
    assert html[i..] == w + rest;
    CutFront(html, i, w, rest);
    if ts[0].Words? {
      WordsWritten(ts[0]);
      NextAngle(html, i, ts, tail);
    }
    ScanToken(html, i, ts[0], decode);
  }

  lemma ProperRest(ts: seq<Token>)
    requires AllProper(ts) && ts != []
    ensures AllProper(ts[1..])
  {
    hide Proper;
    assert forall k :: 0 <= k < |ts| - 1 ==> ts[1..][k] == ts[k + 1];
  }

  /** However the tags, comments and texts are written, the scanner sees exactly their events. */
  lemma {:induction false} MarkupEvents(html: string, i: nat, ts: seq<Token>, tail: string, decode: string -> string)
    requires AllProper(ts) && Unfinished(tail)
    requires i <= |html| && html[i..] == WriteTokens(ts) + tail
    ensures Events(html, i, decode) == EventsOf(ts, decode)
    decreases |ts|
  {
    hide Events, WriteToken, EventOf, AllProper, Unfinished;
    if ts == [] {
      assert html[i..] == tail;
      ScanUnfinished(html, i, decode);
    } else {
      hide WriteTokens;
      ScanFront(html, i, ts, tail, decode);
      ProperRest(ts);
      MarkupEvents(html, i + |WriteToken(ts[0])|, ts[1..], tail, decode);
    }
  }

  lemma CutFront(html: string, i: nat, w: string, rest: string)
    requires i <= |html| && html[i..] == w + rest
    ensures Stands(html, i, w) && i + |w| <= |html| && html[i + |w|..] == rest
  {
    assert html[i..i + |w|] == html[i..][..|w|] && html[i + |w|..] == html[i..][|w|..];
  }

  lemma WordsWritten(t: Token)
    requires t.Words?
    ensures WriteToken(t) == t.text
  {
  }

  /** Behind text stands a `<` or nothing. */
  lemma NextAngle(html: string, i: nat, ts: seq<Token>, tail: string)
    requires AllProper(ts) && Unfinished(tail) && ts != [] && ts[0].Words?
    requires i + |ts[0].text| <= |html| && html[i + |ts[0].text|..] == WriteTokens(ts[1..]) + tail
    ensures i + |ts[0].text| < |html| ==> html[i + |ts[0].text|] == '<'
  {
    hide Proper;
    var k := i + |ts[0].text|;
    if |ts| > 1 {
      assert Proper(ts[1]) && !ts[1].Words?;
      TokenFirst(ts[1]);
      assert html[k..][0] == WriteToken(ts[1])[0];
    } else {
      assert html[k..] == tail;
    }
  }

  /** The tables found in written markup are the opening `table` tags, in order. */
  method TablesOfMarkup(ts: seq<Token>, tail: string, decode: string -> string) returns (tables: seq<Frame>)
    requires AllProper(ts) && Unfinished(tail)
    ensures FrameTags(tables) == Opened(EventsOf(ts, decode), IsTableName)
  {
    var html := WriteTokens(ts) + tail;
    var root;
    root, tables := ParseTables(html, decode);
    assert html[0..] == html;
    MarkupEvents(html, 0, ts, tail, decode);
  }
}
