/** Table tree construction from HTML tags (kap-core/src/html.rs). A stack of open frames
    builds the tree; it is proved to refine a flat machine that only appends to a list of
    nodes in document order. */
module HtmlTables {

  datatype Ctx = Table | Section | Row | Cell

  datatype Frame = Frame(ctx: Ctx, tag: string, text: string, children: seq<Frame>)

  datatype Event = Open(name: string) | Close(name: string) | Chunk(text: string)

  /** A frame without its subtree, at its depth in the document. */
  datatype Node = Node(depth: nat, ctx: Ctx, tag: string, text: string)

  /** The nodes seen so far, and the indices of those still open, outermost first. */
  datatype Flat = Flat(nodes: seq<Node>, open: seq<nat>)

  /** Preorder with depths, which determines the tree. */
  function Pre(f: Frame, d: nat): (ns: seq<Node>)
    ensures ns != [] && ns[0] == Node(d, f.ctx, f.tag, f.text)
    decreases f, 1
  {
    [Node(d, f.ctx, f.tag, f.text)] + PreAll(f.children, d + 1)
  }

  function PreAll(fs: seq<Frame>, d: nat): seq<Node>
    decreases fs, 0
  {
    if fs == [] then [] else PreAll(fs[..|fs| - 1], d) + Pre(fs[|fs| - 1], d)
  }

  /** The open frames, each with what is already attached below it. */
  function StackPre(stack: seq<Frame>): seq<Node> {
    if stack == [] then [] else StackPre(stack[..|stack| - 1]) + Pre(stack[|stack| - 1], |stack| - 1)
  }

  function Starts(stack: seq<Frame>): (s: seq<nat>)
    ensures |s| == |stack|
  {
    if stack == [] then [] else Starts(stack[..|stack| - 1]) + [|StackPre(stack[..|stack| - 1])|]
  }

  function View(stack: seq<Frame>): Flat { Flat(StackPre(stack), Starts(stack)) }

  // ---- the flat machine ----

  /** The root is open, open indices increase, and every open node lies at its depth
      inside a parent that may hold it. */
  predicate Valid(st: Flat) {
    && st.open != [] && st.open[0] == 0
    && (forall i :: 0 <= i < |st.open| ==> st.open[i] < |st.nodes| && st.nodes[st.open[i]].depth == i)
    && (forall i :: 0 < i < |st.open| ==>
          st.open[i - 1] < st.open[i] && MayHold(st.nodes[st.open[i - 1]].ctx, st.nodes[st.open[i]].ctx))
    && st.nodes[0].ctx == Table
  }

  /** Rows sit in sections, cells in rows, and a section never directly in a section. */
  predicate MayHold(parent: Ctx, child: Ctx) {
    && (child == Row ==> parent == Section)
    && (child == Cell ==> parent == Row)
    && (child == Section ==> parent != Section)
  }

  function TopCtx(st: Flat): Ctx
    requires Valid(st)
  {
    st.nodes[st.open[|st.open| - 1]].ctx
  }

  function Push(st: Flat, ctx: Ctx, tag: string): (r: Flat)
    requires Valid(st) && MayHold(TopCtx(st), ctx)
    ensures Valid(r) && TopCtx(r) == ctx
  {
    Flat(st.nodes + [Node(|st.open|, ctx, tag, "")], st.open + [|st.nodes|])
  }

  function Pop(st: Flat): Flat
    requires st.open != []
  {
    Flat(st.nodes, st.open[..|st.open| - 1])
  }

  /** Close the innermost frame if it is of this kind; the root is no section, row or cell. */
  function CloseIf(st: Flat, ctx: Ctx): (r: Flat)
    requires Valid(st) && ctx != Table
    ensures Valid(r) && r.nodes == st.nodes && TopCtx(r) != ctx
    ensures TopCtx(st) != ctx ==> r == st
    ensures TopCtx(st) == ctx ==> MayHold(TopCtx(r), ctx)
  {
    if TopCtx(st) == ctx then Pop(st) else st
  }

  function CloseRow(st: Flat): (r: Flat)
    requires Valid(st)
    ensures Valid(r) && r.nodes == st.nodes && TopCtx(r) != Row && TopCtx(r) != Cell
  {
    CloseIf(CloseIf(st, Cell), Row)
  }

  /** An implied `tbody` when a table is innermost. */
  function ImplySection(st: Flat): (r: Flat)
    requires Valid(st)
    ensures Valid(r) && TopCtx(r) == if TopCtx(st) == Table then Section else TopCtx(st)
  {
    if TopCtx(st) == Table then Push(st, Section, "tbody") else st
  }

  /** A row closes what is open of the row before it. */
  function OpenRow(st: Flat): (r: Flat)
    requires Valid(st)
    ensures Valid(r)
  {
    Push(ImplySection(CloseRow(st)), Row, "tr")
  }

  /** A cell closes the cell before it and implies section and row. */
  function OpenCell(st: Flat, name: string): (r: Flat)
    requires Valid(st)
    ensures Valid(r)
  {
    var a := ImplySection(CloseIf(st, Cell));
    Push(if TopCtx(a) == Section then Push(a, Row, "tr") else a, Cell, name)
  }

  function FlatOpen(st: Flat, name: string): (r: Flat)
    requires Valid(st)
    ensures Valid(r)
  {
    if name == "table" then Push(st, Table, "table")
    else if name == "thead" || name == "tbody" || name == "tfoot" then
      Push(CloseIf(st, Section), Section, name)
    else if name == "tr" then OpenRow(st)
    else if name == "td" || name == "th" then OpenCell(st, name)
    else st
  }

  datatype Target = Target(ctx: Ctx) | NoTarget

  function TargetOf(name: string): Target {
    if name == "table" then Target(Table)
    else if name == "thead" || name == "tbody" || name == "tfoot" then Target(Section)
    else if name == "tr" then Target(Row)
    else if name == "td" || name == "th" then Target(Cell)
    else NoTarget
  }

  /** Pop up to and including the innermost frame of this kind; all but the root if there is none. */
  function CloseTo(st: Flat, ctx: Ctx): (r: Flat)
    requires Valid(st)
    ensures Valid(r) && r.nodes == st.nodes
    decreases |st.open|
  {
    if |st.open| == 1 then st
    else if TopCtx(st) == ctx then Pop(st)
    else CloseTo(Pop(st), ctx)
  }

  function FlatClose(st: Flat, name: string): (r: Flat)
    requires Valid(st)
    ensures Valid(r) && r.nodes == st.nodes
  {
    match TargetOf(name)
    case Target(ctx) => CloseTo(st, ctx)
    case NoTarget => st
  }

  /** Text counts only directly inside a cell. */
  function FlatText(st: Flat, chunk: string): (r: Flat)
    requires Valid(st)
    ensures Valid(r)
  {
    var top := st.open[|st.open| - 1];
    if TopCtx(st) == Cell then st.(nodes := st.nodes[top := st.nodes[top].(text := st.nodes[top].text + chunk)])
    else st
  }

  function Step(st: Flat, e: Event): (r: Flat)
    requires Valid(st)
    ensures Valid(r)
  {
    match e
    case Open(name) => FlatOpen(st, name)
    case Close(name) => FlatClose(st, name)
    case Chunk(text) => FlatText(st, text)
  }

  function Run(st: Flat, events: seq<Event>): (r: Flat)
    requires Valid(st)
    ensures Valid(r)
    decreases |events|
  {
    if events == [] then st else Run(Step(st, events[0]), events[1..])
  }

  function Initial(): (st: Flat)
    ensures Valid(st)
  {
    Flat([Node(0, Table, "root", "")], [0])
  }

  // ---- what any sequence of tags leaves behind ----

  /** Cells by kind; tables by tag, as `collect_tables` finds them. */
  datatype Selection = Cells | Tables

  predicate Selected(n: Node, sel: Selection) {
    match sel
    case Cells => n.ctx == Cell
    case Tables => n.tag == "table"
  }

  function Tags(nodes: seq<Node>, sel: Selection): seq<string> {
    if nodes == [] then []
    else Tags(nodes[..|nodes| - 1], sel) +
         (if Selected(nodes[|nodes| - 1], sel) then [nodes[|nodes| - 1].tag] else [])
  }

  predicate IsCellName(name: string) { name == "td" || name == "th" }

  predicate IsTableName(name: string) { name == "table" }

  /** The names of the opening tags that satisfy `p`, in order. */
  function Opened(events: seq<Event>, p: string -> bool): seq<string> {
    if events == [] then []
    else (if events[0].Open? && p(events[0].name) then [events[0].name] else []) + Opened(events[1..], p)
  }

  lemma {:induction false} TagsAppend(a: seq<Node>, n: Node, sel: Selection)
    ensures Tags(a + [n], sel) == Tags(a, sel) + if Selected(n, sel) then [n.tag] else []
  {
    assert (a + [n])[..|a|] == a;
  }

  lemma {:induction false} TagsOfText(nodes: seq<Node>, i: nat, n: Node, sel: Selection)
    requires i < |nodes| && n.ctx == nodes[i].ctx && n.tag == nodes[i].tag
    ensures Tags(nodes[i := n], sel) == Tags(nodes, sel)
  {
    var k := |nodes| - 1;
    if i < k {
      assert nodes[i := n][..k] == nodes[..k][i := n];
      TagsOfText(nodes[..k], i, n, sel);
    } else {
      assert nodes[i := n][..k] == nodes[..k];
    }
  }

  /** One event adds the cell, or the table, that it opens, and none other. */
  lemma StepTags(st: Flat, e: Event)
    requires Valid(st)
    ensures Tags(Step(st, e).nodes, Cells) ==
            Tags(st.nodes, Cells) + if e.Open? && IsCellName(e.name) then [e.name] else []
    ensures Tags(Step(st, e).nodes, Tables) ==
            Tags(st.nodes, Tables) + if e.Open? && IsTableName(e.name) then [e.name] else []
  {
    hide Tags;
    match e {
      case Open(name) => OpenTags(st, name);
      case Close(_) =>
      case Chunk(text) =>
        var top := st.open[|st.open| - 1];
        TagsOfText(st.nodes, top, st.nodes[top].(text := st.nodes[top].text + text), Cells);
        TagsOfText(st.nodes, top, st.nodes[top].(text := st.nodes[top].text + text), Tables);
    }
  }

  lemma PushTags(st: Flat, ctx: Ctx, tag: string)
    requires Valid(st) && MayHold(TopCtx(st), ctx)
    ensures Tags(Push(st, ctx, tag).nodes, Cells) == Tags(st.nodes, Cells) + if ctx == Cell then [tag] else []
    ensures Tags(Push(st, ctx, tag).nodes, Tables) == Tags(st.nodes, Tables) + if tag == "table" then [tag] else []
  {
    TagsAppend(st.nodes, Node(|st.open|, ctx, tag, ""), Cells);
    TagsAppend(st.nodes, Node(|st.open|, ctx, tag, ""), Tables);
  }

  lemma ImplyTags(st: Flat)
    requires Valid(st)
    ensures Tags(ImplySection(st).nodes, Cells) == Tags(st.nodes, Cells)
    ensures Tags(ImplySection(st).nodes, Tables) == Tags(st.nodes, Tables)
  {
    hide Tags;
    if TopCtx(st) == Table { PushTags(st, Section, "tbody"); }
  }

  lemma OpenTags(st: Flat, name: string)
    requires Valid(st)
    ensures Tags(FlatOpen(st, name).nodes, Cells) ==
            Tags(st.nodes, Cells) + if IsCellName(name) then [name] else []
    ensures Tags(FlatOpen(st, name).nodes, Tables) ==
            Tags(st.nodes, Tables) + if IsTableName(name) then [name] else []
  {
    hide Tags, Push, ImplySection, Valid, TopCtx, CloseIf, CloseRow;
    if name == "table" {
      PushTags(st, Table, "table");
    } else if name == "thead" || name == "tbody" || name == "tfoot" {
      PushTags(CloseIf(st, Section), Section, name);
    } else if name == "tr" {
      ImplyTags(CloseRow(st));
      PushTags(ImplySection(CloseRow(st)), Row, "tr");
    } else if IsCellName(name) {
      var a := ImplySection(CloseIf(st, Cell));
      ImplyTags(CloseIf(st, Cell));
      if TopCtx(a) == Section { PushTags(a, Row, "tr"); }
      PushTags(if TopCtx(a) == Section then Push(a, Row, "tr") else a, Cell, name);
    }
  }

  lemma OpenedFront(events: seq<Event>, p: string -> bool)
    ensures Opened(events, p) ==
            if events == [] then []
            else (if events[0].Open? && p(events[0].name) then [events[0].name] else []) + Opened(events[1..], p)
  {
  }

  /** However mis-nested the input, the cells of the document are the `td` and `th` tags in order. */
  lemma {:induction false} RunCells(st: Flat, events: seq<Event>)
    requires Valid(st)
    ensures Tags(Run(st, events).nodes, Cells) == Tags(st.nodes, Cells) + Opened(events, IsCellName)
    decreases |events|
  {
    hide Tags, Step, Valid, IsCellName, IsTableName, Opened;
    OpenedFront(events, IsCellName);
    if events == [] {
    } else {
      StepTags(st, events[0]);
      RunCells(Step(st, events[0]), events[1..]);
    }
  }

  /** ...and its tables are the `table` tags. */
  lemma {:induction false} RunTables(st: Flat, events: seq<Event>)
    requires Valid(st)
    ensures Tags(Run(st, events).nodes, Tables) == Tags(st.nodes, Tables) + Opened(events, IsTableName)
    decreases |events|
  {
    hide Tags, Step, Valid, IsCellName, IsTableName, Opened;
    OpenedFront(events, IsTableName);
    if events == [] {
    } else {
      StepTags(st, events[0]);
      RunTables(Step(st, events[0]), events[1..]);
    }
  }

  /** A node once seen keeps its place, depth, kind and tag. */
  predicate Extends(before: seq<Node>, after: seq<Node>) {
    && |before| <= |after|
    && forall i :: 0 <= i < |before| ==>
         after[i].depth == before[i].depth && after[i].ctx == before[i].ctx && after[i].tag == before[i].tag
  }

  lemma ExtendsTransitive(a: seq<Node>, b: seq<Node>, c: seq<Node>)
    requires Extends(a, b) && Extends(b, c)
    ensures Extends(a, c)
  {
  }

  lemma PushExtends(st: Flat, ctx: Ctx, tag: string)
    requires Valid(st) && MayHold(TopCtx(st), ctx)
    ensures Extends(st.nodes, Push(st, ctx, tag).nodes)
  {
  }

  lemma ImplyExtends(st: Flat)
    requires Valid(st)
    ensures Extends(st.nodes, ImplySection(st).nodes)
  {
    if TopCtx(st) == Table { PushExtends(st, Section, "tbody"); }
  }

  lemma StepExtends(st: Flat, e: Event)
    requires Valid(st)
    ensures Extends(st.nodes, Step(st, e).nodes)
  {
    hide Push, ImplySection, Extends, CloseIf, CloseRow;
    match e {
      case Open(name) =>
        if name == "table" {
          PushExtends(st, Table, "table");
        } else if name == "thead" || name == "tbody" || name == "tfoot" {
          PushExtends(CloseIf(st, Section), Section, name);
        } else if name == "tr" {
          ImplyExtends(CloseRow(st));
          PushExtends(ImplySection(CloseRow(st)), Row, "tr");
          ExtendsTransitive(st.nodes, ImplySection(CloseRow(st)).nodes, Step(st, e).nodes);
        } else if IsCellName(name) {
          CellExtends(st, name);
        } else {
          ExtendsReflexive(st.nodes);
        }
      case Close(_) => ExtendsReflexive(st.nodes);
      case Chunk(text) => TextExtends(st, text);
    }
  }

  lemma CellExtends(st: Flat, name: string)
    requires Valid(st) && IsCellName(name)
    ensures Extends(st.nodes, FlatOpen(st, name).nodes)
  {
    hide Push, ImplySection, Extends, CloseIf, Valid, TopCtx;
    var a := ImplySection(CloseIf(st, Cell));
    var b := if TopCtx(a) == Section then Push(a, Row, "tr") else a;
    ImplyExtends(CloseIf(st, Cell));
    ExtendsReflexive(a.nodes);
    if TopCtx(a) == Section { PushExtends(a, Row, "tr"); }
    PushExtends(b, Cell, name);
    ExtendsTransitive(st.nodes, a.nodes, b.nodes);
    ExtendsTransitive(st.nodes, b.nodes, FlatOpen(st, name).nodes);
  }

  lemma ExtendsReflexive(a: seq<Node>)
    ensures Extends(a, a)
  {
  }

  lemma TextExtends(st: Flat, text: string)
    requires Valid(st)
    ensures Extends(st.nodes, FlatText(st, text).nodes)
  {
  }

  lemma {:induction false} RunExtends(st: Flat, events: seq<Event>)
    requires Valid(st)
    ensures Extends(st.nodes, Run(st, events).nodes)
    decreases |events|
  {
    hide Extends, Step, Valid;
    if events == [] {
      ExtendsReflexive(st.nodes);
    } else {
      var next := Step(st, events[0]);
      StepExtends(st, events[0]);
      RunExtends(next, events[1..]);
      ExtendsTransitive(st.nodes, next.nodes, Run(st, events).nodes);
    }
  }
}
