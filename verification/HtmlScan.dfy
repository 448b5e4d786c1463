/** `parse_tables` of kap-core/src/html.rs: scan the text for tags, build the tree,
    collect the tables. Entity decoding is a parameter. */
module HtmlScan {
  import opened Text
  import opened HtmlTables
  import opened HtmlTree

  /** `collect_tables`: descendants tagged `table`, in document order. */
  function Collect(f: Frame): seq<Frame>
    decreases f, 1
  {
    CollectAll(f.children)
  }

  function CollectAll(fs: seq<Frame>): seq<Frame>
    decreases fs, 0
  {
    if fs == [] then []
    else
      var last := fs[|fs| - 1];
      CollectAll(fs[..|fs| - 1]) + ((if last.tag == "table" then [last] else []) + Collect(last))
  }

  function FrameTags(fs: seq<Frame>): seq<string> {
    seq(|fs|, i requires 0 <= i < |fs| => fs[i].tag)
  }

  lemma {:induction false} TagsConcat(a: seq<Node>, b: seq<Node>, sel: Selection)
    ensures Tags(a + b, sel) == Tags(a, sel) + Tags(b, sel)
  {
    if b == [] {
      assert a + b == a;
    } else {
      var k := |b| - 1;
      assert (a + b)[..|a| + k] == a + b[..k];
      TagsConcat(a, b[..k], sel);
    }
  }

  /** The collected frames are the `table` nodes of the preorder, none missed or repeated. */
  lemma {:induction false} CollectIsSelection(f: Frame, d: nat)
    ensures (if f.tag == "table" then ["table"] else []) + FrameTags(Collect(f)) == Tags(Pre(f, d), Tables)
    decreases f, 1
  {
    var head := [Node(d, f.ctx, f.tag, f.text)];
    TagsConcat(head, PreAll(f.children, d + 1), Tables);
    assert head[..0] == [];
    CollectAllIsSelection(f.children, d + 1);
  }

  lemma {:induction false} CollectAllIsSelection(fs: seq<Frame>, d: nat)
    ensures FrameTags(CollectAll(fs)) == Tags(PreAll(fs, d), Tables)
    decreases fs, 0
  {
    hide Tags, Pre;
    if fs == [] {
      assert PreAll(fs, d) == [];
      TagsOfNothing(Tables);
    } else {
      var init, last := fs[..|fs| - 1], fs[|fs| - 1];
      CollectAllIsSelection(init, d);
      CollectIsSelection(last, d);
      TagsConcat(PreAll(init, d), Pre(last, d), Tables);
      var own := if last.tag == "table" then [last] else [];
      assert FrameTags(CollectAll(fs)) ==
             FrameTags(CollectAll(init)) + (FrameTags(own) + FrameTags(Collect(last)));
      assert FrameTags(own) == if last.tag == "table" then ["table"] else [];
    }
  }

  lemma TagsOfNothing(sel: Selection)
    ensures Tags([], sel) == []
  {
  }

  /** `part` stands in `whole` at `p`, with `i` tables before it. */
  predicate StandsAt(whole: seq<Node>, p: nat, part: seq<Node>, i: nat) {
    p + |part| <= |whole| && whole[p..p + |part|] == part && |Tags(whole[..p], Tables)| == i
  }

  lemma StandsInFront(a: seq<Node>, b: seq<Node>, p: nat, part: seq<Node>, i: nat)
    requires StandsAt(a, p, part, i)
    ensures StandsAt(a + b, p, part, i)
  {
    assert (a + b)[..p] == a[..p] && (a + b)[p..p + |part|] == a[p..p + |part|];
  }

  lemma StandsBehind(a: seq<Node>, b: seq<Node>, p: nat, part: seq<Node>, i: nat)
    requires StandsAt(b, p, part, i)
    ensures StandsAt(a + b, |a| + p, part, |Tags(a, Tables)| + i)
  {
    hide Tags;
    assert (a + b)[..|a| + p] == a + b[..p];
    assert (a + b)[|a| + p..|a| + p + |part|] == b[p..p + |part|];
    TagsConcat(a, b[..p], Tables);
  }

  lemma StandsFirst(b: seq<Node>)
    ensures StandsAt(b, 0, b, 0)
  {
    assert b[..0] == [] && b[0..|b|] == b;
    TagsOfNothing(Tables);
  }

  /** The i-th frame collected is the whole subtree that stands at the i-th `table` node below `f`. */
  lemma {:induction false} CollectedSubtree(f: Frame, d: nat, i: nat) returns (p: nat, e: nat)
    requires i < |Collect(f)|
    ensures StandsAt(Pre(f, d)[1..], p, Pre(Collect(f)[i], e), i)
    ensures Collect(f)[i].tag == "table"
    decreases f, 1
  {
    hide Tags;
    p, e := CollectedBelow(f.children, d + 1, i);
    assert Pre(f, d)[1..] == PreAll(f.children, d + 1);
  }

  lemma {:induction false} CollectedBelow(fs: seq<Frame>, d: nat, i: nat) returns (p: nat, e: nat)
    requires i < |CollectAll(fs)|
    ensures StandsAt(PreAll(fs, d), p, Pre(CollectAll(fs)[i], e), i)
    ensures CollectAll(fs)[i].tag == "table"
    decreases fs, 0
  {
    hide Tags, StandsAt, Pre;
    var init, last := fs[..|fs| - 1], fs[|fs| - 1];
    var a, b := PreAll(init, d), Pre(last, d);
    assert PreAll(fs, d) == a + b;
    CollectAllIsSelection(init, d);
    var n := |CollectAll(init)|;
    if i < n {
      p, e := CollectedBelow(init, d, i);
      StandsInFront(a, b, p, Pre(CollectAll(init)[i], e), i);
    } else if i == n && last.tag == "table" {
      p, e := |a|, d;
      StandsFirst(b);
      StandsBehind(a, b, 0, b, 0);
    } else {
      var own := if last.tag == "table" then 1 else 0;
      var k := i - n - own;
      var q;
      q, e := CollectedSubtree(last, d, k);
      var part := Pre(Collect(last)[k], e);
      HeadTag(last, d);
      StandsBehind(b[..1], b[1..], q, part, k);
      assert b[..1] + b[1..] == b;
      StandsBehind(a, b, 1 + q, part, own + k);
      p := |a| + 1 + q;
    }
  }

  lemma HeadTag(f: Frame, d: nat)
    ensures |Tags(Pre(f, d)[..1], Tables)| == if f.tag == "table" then 1 else 0
  {
    var head := Pre(f, d)[..1];
    assert head == [Node(d, f.ctx, f.tag, f.text)] && head[..0] == [];
  }

  // ---- the scanner ----

  function Lower(s: string): string {
    seq(|s|, i requires 0 <= i < |s| => if 'A' <= s[i] <= 'Z' then s[i] + 32 as char else s[i])
  }

  function SkipSlashes(s: string): string {
    if s != "" && s[0] == '/' then SkipSlashes(s[1..]) else s
  }

  function DropSlashes(s: string): string {
    if s != "" && s[|s| - 1] == '/' then DropSlashes(s[..|s| - 1]) else s
  }

  /** The first whitespace-separated word, or nothing. */
  function FirstWord(s: string): string { WordPrefix(TrimStart(s)) }

  function WordPrefix(s: string): string {
    if s == "" || IsWhitespace(s[0]) then "" else [s[0]] + WordPrefix(s[1..])
  }

  /** What stands between `<` and `>`: an opening or closing tag, or nothing usable. */
  function TagEvent(inner: string): seq<Event> {
    var raw := Trim(inner);
    var name := Lower(DropSlashes(FirstWord(SkipSlashes(raw))));
    if name == "" then []
    else if raw != "" && raw[0] == '/' then [Close(name)]
    else [Open(name)]
  }

  /** The end of the text run that starts at `i`. */
  function RunEnd(html: string, i: nat): (k: nat)
    requires i <= |html|
    ensures i <= k <= |html|
    ensures i < |html| && html[i] != '<' ==> i < k
    decreases |html| - i
  {
    if i == |html| || html[i] == '<' then i else RunEnd(html, i + 1)
  }

  /** The tags and text runs from `i` on; an unfinished comment or tag ends the input. */
  function Events(html: string, i: nat, decode: string -> string): seq<Event>
    requires i <= |html|
    decreases |html| - i
  {
    if i == |html| then []
    else if html[i] == '<' then
      if i + 4 <= |html| && html[i..i + 4] == "<!--" then
        var end := Find(html, "-->", i);
        if end == |html| then [] else Events(html, end + 3, decode)
      else
        var end := Find(html, ">", i);
        if end == |html| then [] else TagEvent(html[i + 1..end]) + Events(html, end + 1, decode)
    else
      var k := RunEnd(html, i);
      [Chunk(decode(html[i..k]))] + Events(html, k, decode)
  }

  lemma RunFront(st: Flat, e: Event, rest: seq<Event>)
    requires Valid(st)
    ensures Run(st, [e] + rest) == Run(Step(st, e), rest)
  {
    assert ([e] + rest)[1..] == rest;
  }

  lemma TextIgnored(st: Flat, chunk: string)
    requires Valid(st) && TopCtx(st) != Cell
    ensures Step(st, Chunk(chunk)) == st
  {
  }

  /** The events at a text character, with its run split off. */
  lemma EventsAtText(html: string, i: nat, decode: string -> string)
    requires i < |html| && html[i] != '<'
    ensures Events(html, i, decode) ==
            [Chunk(decode(html[i..RunEnd(html, i)]))] + Events(html, RunEnd(html, i), decode)
  {
  }

  /** Outside a cell, text may just as well be dropped one character at a time. */
  lemma SkipCharacter(st: Flat, html: string, i: nat, decode: string -> string)
    requires Valid(st) && TopCtx(st) != Cell
    requires i < |html| && html[i] != '<'
    ensures Run(st, Events(html, i, decode)) == Run(st, Events(html, i + 1, decode))
  {
    hide Valid, TopCtx, Step, Events, Run;
    var k := RunEnd(html, i);
    EventsAtText(html, i, decode);
    RunFront(st, Chunk(decode(html[i..k])), Events(html, k, decode));
    TextIgnored(st, decode(html[i..k]));
    if i + 1 < |html| && html[i + 1] != '<' {
      EventsAtText(html, i + 1, decode);
      RunFront(st, Chunk(decode(html[i + 1..k])), Events(html, k, decode));
      TextIgnored(st, decode(html[i + 1..k]));
    }
  }

  lemma {:induction false} RunConcat(st: Flat, a: seq<Event>, b: seq<Event>)
    requires Valid(st)
    ensures Run(st, a + b) == Run(Run(st, a), b)
    decreases |a|
  {
    hide Step, Valid;
    if a == [] {
      assert a + b == b;
    } else {
      assert (a + b)[1..] == a[1..] + b;
      RunConcat(Step(st, a[0]), a[1..], b);
    }
  }

  method ApplyTag(b: Builder, tag: seq<Event>)
    requires b.Good() && |tag| <= 1 && forall i :: 0 <= i < |tag| ==> !tag[i].Chunk?
    modifies b
    ensures b.Good() && View(b.stack) == Run(old(View(b.stack)), tag)
  {
    hide View, Valid, FlatOpen, FlatClose;
    if tag != [] {
      assert tag[1..] == [];
      match tag[0] {
        case Open(name) => b.OpenTag(name);
        case Close(name) => b.CloseTag(name);
      }
    }
  }

  lemma TagEventShape(inner: string)
    ensures |TagEvent(inner)| <= 1 && forall i :: 0 <= i < |TagEvent(inner)| ==> !TagEvent(inner)[i].Chunk?
  {
  }

  predicate CommentAt(html: string, i: nat) { i + 4 <= |html| && html[i..i + 4] == "<!--" }

  /** The events at a `<`: behind a comment, or those of a tag and what follows it. */
  lemma EventsAtAngle(html: string, i: nat, decode: string -> string)
    requires i < |html| && html[i] == '<'
    ensures CommentAt(html, i) ==>
              var end := Find(html, "-->", i);
              Events(html, i, decode) == if end == |html| then [] else Events(html, end + 3, decode)
    ensures !CommentAt(html, i) ==>
              var end := Find(html, ">", i);
              Events(html, i, decode) ==
              if end == |html| then [] else TagEvent(html[i + 1..end]) + Events(html, end + 1, decode)
  {
    hide TagEvent, Find;
  }

  /** One turn of the scanning loop on a `<`: skip a comment or apply a tag. */
  method ScanTag(b: Builder, html: string, i: nat, decode: string -> string) returns (next: nat, stop: bool)
    requires b.Good() && i < |html| && html[i] == '<'
    modifies b
    ensures b.Good() && i < next <= |html|
    ensures Run(old(View(b.stack)), Events(html, i, decode)) ==
            Run(View(b.stack), if stop then [] else Events(html, next, decode))
  {
    hide View, Valid, TagEvent, Run, Events;
    EventsAtAngle(html, i, decode);
    next, stop := |html|, true;
    if CommentAt(html, i) {
      var end := Find(html, "-->", i);
      if end < |html| {
        next, stop := end + 3, false;
      }
    } else {
      var end := Find(html, ">", i);
      if end < |html| {
        var tag := TagEvent(html[i + 1..end]);
        TagEventShape(html[i + 1..end]);
        next, stop := end + 1, false;
        RunConcat(View(b.stack), tag, Events(html, next, decode));
        ApplyTag(b, tag);
      }
    }
  }

  /** One turn of the scanning loop on text: take the run into a cell, or drop a character. */
  method ScanText(b: Builder, html: string, i: nat, decode: string -> string) returns (next: nat)
    requires b.Good() && i < |html| && html[i] != '<'
    modifies b
    ensures b.Good() && i < next <= |html|
    ensures Run(old(View(b.stack)), Events(html, i, decode)) == Run(View(b.stack), Events(html, next, decode))
  {
    hide View, Valid, Run, Events, FlatText, TopCtx;
    TopFrame(b.stack);
    if b.stack[|b.stack| - 1].ctx == Cell {
      next := RunEnd(html, i);
      EventsAtText(html, i, decode);
      RunFront(View(b.stack), Chunk(decode(html[i..next])), Events(html, next, decode));
      b.AddText(decode(html[i..next]));
    } else {
      SkipCharacter(View(b.stack), html, i, decode);
      next := i + 1;
    }
  }

  /** The tree's preorder is the node list of the tags in the text; the result lists its tables. */
  method ParseTables(html: string, decode: string -> string) returns (root: Frame, tables: seq<Frame>)
    ensures Pre(root, 0) == Run(Initial(), Events(html, 0, decode)).nodes
    ensures Nested(root)
    ensures tables == Collect(root)
    ensures FrameTags(tables) == Opened(Events(html, 0, decode), IsTableName)
  {
    hide View, Valid, Pre, Collect, CollectAll, Nested, Opened, Tags, Events;
    var b := new Builder();
    ghost var goal := Run(Initial(), Events(html, 0, decode));
    var i, stop := 0, false;
    while i < |html| && !stop
      invariant i <= |html| && b.Good()
      invariant Run(View(b.stack), if stop then [] else Events(html, i, decode)) == goal
      decreases |html| - i
    {
      if html[i] == '<' {
        i, stop := ScanTag(b, html, i, decode);
      } else {
        i := ScanText(b, html, i, decode);
      }
    }
    NoEventsAtEnd(html, decode);
    root := b.Finish();
    tables := Collect(root);
    CollectedTags(root, Events(html, 0, decode));
  }

  lemma NoEventsAtEnd(html: string, decode: string -> string)
    ensures Events(html, |html|, decode) == []
  {
  }

  lemma CollectedTags(root: Frame, events: seq<Event>)
    requires Pre(root, 0) == Run(Initial(), events).nodes
    ensures FrameTags(Collect(root)) == Opened(events, IsTableName)
  {
    hide Collect, Opened, Pre, Run;
    CollectIsSelection(root, 0);
    RunTables(Initial(), events);
    RunExtends(Initial(), events);
    InitialTags();
    PreHead(root);
    assert Initial().nodes[0].tag == "root";
    assert Run(Initial(), events).nodes[0].tag == "root";
    assert [] + FrameTags(Collect(root)) == FrameTags(Collect(root));
    assert [] + Opened(events, IsTableName) == Opened(events, IsTableName);
  }

  lemma PreHead(f: Frame)
    ensures Pre(f, 0)[0] == Node(0, f.ctx, f.tag, f.text)
  {
  }

  lemma InitialTags()
    ensures Tags(Initial().nodes, Tables) == []
  {
    assert Initial().nodes[..0] == [];
  }
}
