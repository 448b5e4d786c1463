/** Where tags and text land in the document (kap-core/src/html.rs): what each one opens, closes
    and adds, in terms of the frames that are open. */
module HtmlNesting {
  import opened HtmlTables

  function CtxAt(st: Flat, i: nat): Ctx
    requires Valid(st) && i < |st.open|
  {
    st.nodes[st.open[i]].ctx
  }

  /** The names a closing tag of each kind goes by. */
  predicate Names(name: string, ctx: Ctx) {
    || (ctx == Table && name == "table")
    || (ctx == Section && (name == "thead" || name == "tbody" || name == "tfoot"))
    || (ctx == Row && name == "tr")
    || (ctx == Cell && (name == "td" || name == "th"))
  }

  predicate Named(name: string) { exists ctx :: Names(name, ctx) }

  /** `k` is the innermost open frame of this kind, the root aside, or 0 when there is none. */
  predicate Innermost(st: Flat, ctx: Ctx, k: nat)
    requires Valid(st)
  {
    && k < |st.open|
    && (k > 0 ==> CtxAt(st, k) == ctx)
    && forall i :: k < i < |st.open| ==> CtxAt(st, i) != ctx
  }

  lemma {:induction false} CloseToInnermost(st: Flat, ctx: Ctx, k: nat)
    requires Valid(st) && Innermost(st, ctx, k)
    ensures CloseTo(st, ctx).open == if k > 0 then st.open[..k] else st.open[..1]
    decreases |st.open|
  {
    var n := |st.open| - 1;
    if n > k {
      PopInnermost(st, ctx, k);
      hide Valid, TopCtx, Innermost;
      CloseToInnermost(Pop(st), ctx, k);
      assert st.open[..n][..k] == st.open[..k] && st.open[..n][..1] == st.open[..1];
    } else {
      assert st.open[..n + 1] == st.open;
    }
  }

  lemma PopInnermost(st: Flat, ctx: Ctx, k: nat)
    requires Valid(st) && Innermost(st, ctx, k) && k < |st.open| - 1
    ensures TopCtx(st) != ctx && Valid(Pop(st)) && Innermost(Pop(st), ctx, k)
  {
    var n := |st.open| - 1;
    assert TopCtx(st) == CtxAt(st, n);
    PopStays(st);
    hide Valid;
    forall i | k < i < n ensures CtxAt(Pop(st), i) != ctx {
      assert CtxAt(Pop(st), i) == CtxAt(st, i);
    }
  }

  lemma PopStays(st: Flat)
    requires Valid(st) && |st.open| > 1
    ensures Valid(Pop(st))
  {
  }

  /** A closing tag closes the innermost open frame of its kind and all inside it; where there is
      none, it closes everything but the root. */
  lemma CloseLands(st: Flat, name: string, ctx: Ctx, k: nat)
    requires Valid(st) && Names(name, ctx) && Innermost(st, ctx, k)
    ensures FlatClose(st, name).open == if k > 0 then st.open[..k] else st.open[..1]
  {
    CloseToInnermost(st, ctx, k);
  }

  /** Tags of any other name do nothing. */
  lemma OtherNames(st: Flat, name: string)
    requires Valid(st) && !Named(name)
    ensures FlatOpen(st, name) == st && FlatClose(st, name) == st
  {
    assert !Names(name, Table) && !Names(name, Section) && !Names(name, Row) && !Names(name, Cell);
  }

  // ---- what an opening tag leaves open ----

  /** The open frames without the last one, if it is of this kind. */
  function Leaving(nodes: seq<Node>, open: seq<nat>, ctx: Ctx): seq<nat>
    requires forall i :: 0 <= i < |open| ==> open[i] < |nodes|
  {
    if open != [] && nodes[open[|open| - 1]].ctx == ctx then open[..|open| - 1] else open
  }

  lemma OpenTable(st: Flat)
    requires Valid(st)
    ensures var n, r := |st.nodes|, FlatOpen(st, "table");
            r.open == st.open + [n] && r.nodes == st.nodes + [Node(|st.open|, Table, "table", "")]
  {
  }

  /** A section closes the section before it. */
  lemma OpenSection(st: Flat, name: string)
    requires Valid(st) && Names(name, Section)
    ensures var base, n, r := Leaving(st.nodes, st.open, Section), |st.nodes|, FlatOpen(st, name);
            r.open == base + [n] && r.nodes == st.nodes + [Node(|base|, Section, name, "")]
  {
  }

  /** A new row behind `nodes`, under a frame of kind `over`: a `tbody` is put under a bare table. */
  predicate RowPlaced(nodes: seq<Node>, base: seq<nat>, over: Ctx, r: Flat) {
    var d, n := |base|, |nodes|;
    if over == Table then
      && r.open == base + [n, n + 1]
      && r.nodes == nodes + [Node(d, Section, "tbody", ""), Node(d + 1, Row, "tr", "")]
    else
      r.open == base + [n] && r.nodes == nodes + [Node(d, Row, "tr", "")]
  }

  /** A row closes the cell and the row before it. */
  lemma OpenRowLands(st: Flat)
    requires Valid(st)
    ensures var base := Leaving(st.nodes, Leaving(st.nodes, st.open, Cell), Row);
            base != [] && RowPlaced(st.nodes, base, st.nodes[base[|base| - 1]].ctx, FlatOpen(st, "tr"))
  {
    CloseRowLands(st);
    OpenRowIs(st);
    hide *;
    RowOnLands(CloseRow(st));
  }

  lemma OpenRowIs(st: Flat)
    requires Valid(st)
    ensures FlatOpen(st, "tr") == RowOn(CloseRow(st)) && CloseRow(st).nodes == st.nodes
  {
    hide Valid, TopCtx, CloseRow, Push, ImplySection;
  }

  /** A new row where no row or cell is innermost. */
  function RowOn(a: Flat): Flat
    requires Valid(a) && TopCtx(a) != Row && TopCtx(a) != Cell
  {
    Push(ImplySection(a), Row, "tr")
  }

  lemma RowOnLands(a: Flat)
    requires Valid(a) && TopCtx(a) != Row && TopCtx(a) != Cell
    ensures RowPlaced(a.nodes, a.open, TopCtx(a), RowOn(a))
  {
    hide Valid, TopCtx;
    if TopCtx(a) == Table {
      PushTwo(a, Node(|a.open|, Section, "tbody", ""), Node(|a.open| + 1, Row, "tr", ""));
    }
  }

  lemma CloseRowLands(st: Flat)
    requires Valid(st)
    ensures var a := CloseRow(st);
            && a.open == Leaving(st.nodes, Leaving(st.nodes, st.open, Cell), Row) != []
            && TopCtx(a) == st.nodes[a.open[|a.open| - 1]].ctx
  {
  }

  lemma PushTwo(st: Flat, a: Node, b: Node)
    ensures st.nodes + [a] + [b] == st.nodes + [a, b]
    ensures st.open + [|st.nodes|] + [|st.nodes + [a]|] == st.open + [|st.nodes|, |st.nodes| + 1]
  {
  }

  /** A new cell behind `nodes`, under a frame of kind `over`: what is implied and what is open. */
  predicate CellPlaced(nodes: seq<Node>, base: seq<nat>, over: Ctx, name: string, r: Flat) {
    var d, n := |base|, |nodes|;
    if over == Table then
      && r.open == base + [n, n + 1, n + 2]
      && r.nodes == nodes + [Node(d, Section, "tbody", ""), Node(d + 1, Row, "tr", ""), Node(d + 2, Cell, name, "")]
    else if over == Section then
      && r.open == base + [n, n + 1]
      && r.nodes == nodes + [Node(d, Row, "tr", ""), Node(d + 1, Cell, name, "")]
    else
      r.open == base + [n] && r.nodes == nodes + [Node(d, Cell, name, "")]
  }

  /** A cell closes the cell before it, and implies the row and the section it lacks. */
  lemma OpenCellLands(st: Flat, name: string)
    requires Valid(st) && Names(name, Cell)
    ensures var base := Leaving(st.nodes, st.open, Cell);
            && base != []
            && CellPlaced(st.nodes, base, st.nodes[base[|base| - 1]].ctx, name, FlatOpen(st, name))
  {
    CloseCellLands(st);
    OpenCellIs(st, name);
    hide *;
    CellOnLands(CloseIf(st, Cell), name);
  }

  lemma OpenCellIs(st: Flat, name: string)
    requires Valid(st) && Names(name, Cell)
    ensures TopCtx(CloseIf(st, Cell)) != Cell && FlatOpen(st, name) == CellOn(CloseIf(st, Cell), name)
    ensures CloseIf(st, Cell).nodes == st.nodes
  {
    hide Valid, TopCtx, CloseIf, Push, ImplySection;
  }

  lemma CloseCellLands(st: Flat)
    requires Valid(st)
    ensures var a := CloseIf(st, Cell);
            && a.open == Leaving(st.nodes, st.open, Cell) != []
            && TopCtx(a) == st.nodes[a.open[|a.open| - 1]].ctx
  {
  }

  /** A new cell where no cell is innermost. */
  function CellOn(a: Flat, name: string): Flat
    requires Valid(a) && TopCtx(a) != Cell
  {
    var b := ImplySection(a);
    Push(if TopCtx(b) == Section then Push(b, Row, "tr") else b, Cell, name)
  }

  lemma CellOnLands(a: Flat, name: string)
    requires Valid(a) && TopCtx(a) != Cell
    ensures CellPlaced(a.nodes, a.open, TopCtx(a), name, CellOn(a, name))
  {
    hide Valid, TopCtx;
    var d := |a.open|;
    if TopCtx(a) == Table {
      PushThree(a, Node(d, Section, "tbody", ""), Node(d + 1, Row, "tr", ""), Node(d + 2, Cell, name, ""));
    } else if TopCtx(a) == Section {
      PushTwo(a, Node(d, Row, "tr", ""), Node(d + 1, Cell, name, ""));
    }
  }

  lemma PushThree(st: Flat, a: Node, b: Node, c: Node)
    ensures st.nodes + [a] + [b] + [c] == st.nodes + [a, b, c]
    ensures st.open + [|st.nodes|] + [|st.nodes + [a]|] + [|st.nodes + [a] + [b]|]
            == st.open + [|st.nodes|, |st.nodes| + 1, |st.nodes| + 2]
  {
  }

  /** A closing tag right behind the opening tag of its name closes that very frame. */
  lemma OpenThenClose(st: Flat, name: string)
    requires Valid(st) && Named(name)
    ensures var r := FlatOpen(st, name);
            && r.nodes[r.open[|r.open| - 1]].tag == name
            && FlatClose(r, name).open == r.open[..|r.open| - 1]
  {
    var ctx :| Names(name, ctx);
    hide Valid;
    var r := FlatOpen(st, name);
    LastOpened(st, name, ctx);
    CloseLands(r, name, ctx, |r.open| - 1);
  }

  lemma LastOpened(st: Flat, name: string, ctx: Ctx)
    requires Valid(st) && Names(name, ctx)
    ensures var r := FlatOpen(st, name);
            |r.open| > 1 && CtxAt(r, |r.open| - 1) == ctx && r.nodes[r.open[|r.open| - 1]].tag == name
  {
    hide FlatOpen, Leaving;
    match ctx
    case Table => OpenTable(st);
    case Section => OpenSection(st, name);
    case Row => OpenRowLands(st);
    case Cell => OpenCellLands(st, name);
  }

  /** A table opened and closed leaves open what was open. */
  lemma TableCloses(st: Flat)
    requires Valid(st)
    ensures FlatClose(FlatOpen(st, "table"), "table").open == st.open
  {
    assert Names("table", Table);
    OpenThenClose(st, "table");
    OpenTable(st);
  }

  // ---- text ----

  function Concat(texts: seq<string>): string {
    if texts == [] then "" else texts[0] + Concat(texts[1..])
  }

  function Chunks(texts: seq<string>): seq<Event> {
    seq(|texts|, i requires 0 <= i < |texts| => Chunk(texts[i]))
  }

  /** The document with `text` at the end of the innermost frame's text. */
  function WithText(st: Flat, text: string): (r: Flat)
    requires Valid(st)
    ensures Valid(r) && r.open == st.open && TopCtx(r) == TopCtx(st)
  {
    var top := st.open[|st.open| - 1];
    st.(nodes := st.nodes[top := st.nodes[top].(text := st.nodes[top].text + text)])
  }

  lemma WithTexts(st: Flat, a: string, b: string)
    requires Valid(st)
    ensures WithText(WithText(st, a), b) == WithText(st, a + b)
  {
    var top := st.open[|st.open| - 1];
    assert st.nodes[top].text + a + b == st.nodes[top].text + (a + b);
  }

  lemma WithNoText(st: Flat)
    requires Valid(st)
    ensures WithText(st, "") == st
  {
    var top := st.open[|st.open| - 1];
    assert st.nodes[top].text + "" == st.nodes[top].text;
  }

  /** Text adds up in the innermost frame if that is a cell, and is dropped otherwise. */
  lemma {:induction false} TextLands(st: Flat, texts: seq<string>)
    requires Valid(st)
    ensures Run(st, Chunks(texts)) == if TopCtx(st) == Cell then WithText(st, Concat(texts)) else st
    decreases |texts|
  {
    if texts == [] {
      assert Chunks(texts) == [];
      WithNoText(st);
    } else {
      var rest := texts[1..];
      assert Chunks(texts)[1..] == Chunks(rest);
      assert FlatText(st, texts[0]) == if TopCtx(st) == Cell then WithText(st, texts[0]) else st;
      hide Valid, TopCtx, FlatText, WithText;
      assert Run(st, Chunks(texts)) == Run(FlatText(st, texts[0]), Chunks(rest));
      TextLands(FlatText(st, texts[0]), rest);
      WithTexts(st, texts[0], Concat(rest));
    }
  }
}
