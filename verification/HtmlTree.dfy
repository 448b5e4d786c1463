/** The frame stack of kap-core/src/html.rs and the scanner that drives it, proved
    against the flat machine of HtmlTables. */
module HtmlTree {
  import opened HtmlTables

  /** Kinds are nested properly all the way down. */
  predicate Nested(f: Frame) {
    forall i :: 0 <= i < |f.children| ==> MayHold(f.ctx, f.children[i].ctx) && Nested(f.children[i])
  }

  // ---- what a stack operation does to the view ----

  lemma StackPreAppend(s: seq<Frame>, f: Frame)
    ensures StackPre(s + [f]) == StackPre(s) + Pre(f, |s|)
    ensures Starts(s + [f]) == Starts(s) + [|StackPre(s)|]
  {
    assert (s + [f])[..|s|] == s;
  }

  lemma PreAllAppend(fs: seq<Frame>, f: Frame, d: nat)
    ensures PreAll(fs + [f], d) == PreAll(fs, d) + Pre(f, d)
  {
    assert (fs + [f])[..|fs|] == fs;
  }

  /** Moving the top frame below its parent keeps the document order. */
  lemma AttachView(s: seq<Frame>, p: Frame, f: Frame)
    ensures View(s + [p.(children := p.children + [f])]) == Pop(View(s + [p] + [f]))
  {
    var p' := p.(children := p.children + [f]);
    StackPreAppend(s, p);
    StackPreAppend(s + [p], f);
    StackPreAppend(s, p');
    PreAllAppend(p.children, f, |s| + 1);
    var head := [Node(|s|, p.ctx, p.tag, p.text)];
    assert Pre(p', |s|) == head + (PreAll(p.children, |s| + 1) + Pre(f, |s| + 1));
    assert Pre(p', |s|) == Pre(p, |s|) + Pre(f, |s| + 1);
    assert StackPre(s + [p']) == StackPre(s + [p]) + Pre(f, |s| + 1);
    assert Starts(s + [p] + [f])[..|s| + 1] == Starts(s + [p]);
  }

  lemma TopFrame(stack: seq<Frame>)
    requires Valid(View(stack))
    ensures stack != []
    ensures TopCtx(View(stack)) == stack[|stack| - 1].ctx
  {
    var n := |stack| - 1;
    assert stack != [];
    assert stack == stack[..n] + [stack[n]];
    StackPreAppend(stack[..n], stack[n]);
  }

  lemma PushView(stack: seq<Frame>, ctx: Ctx, tag: string)
    requires Valid(View(stack)) && MayHold(TopCtx(View(stack)), ctx)
    ensures View(stack + [Frame(ctx, tag, "", [])]) == Push(View(stack), ctx, tag)
  {
    StackPreAppend(stack, Frame(ctx, tag, "", []));
  }

  lemma TextView(s: seq<Frame>, f: Frame, chunk: string)
    requires f.ctx == Cell && Valid(View(s + [f]))
    ensures View(s + [f.(text := f.text + chunk)]) == FlatText(View(s + [f]), chunk)
  {
    var f' := f.(text := f.text + chunk);
    StackPreAppend(s, f);
    StackPreAppend(s, f');
    TopFrame(s + [f]);
    var a := StackPre(s);
    var i := |a|;
    assert Pre(f', |s|) == Pre(f, |s|)[0 := Node(|s|, f.ctx, f.tag, f.text + chunk)];
    assert (a + Pre(f, |s|))[i := Node(|s|, f.ctx, f.tag, f.text + chunk)] == a + Pre(f', |s|);
  }

  /** Below an open section the innermost frame is no section: one pop closes them all. */
  lemma SectionClosed(st: Flat)
    requires Valid(st) && TopCtx(st) == Section
    ensures Valid(Pop(st)) && CloseIf(st, Section) == Pop(st) && TopCtx(Pop(st)) != Section
  {
  }

  lemma OpenCount(stack: seq<Frame>)
    requires Valid(View(stack)) && TopCtx(View(stack)) != Table
    ensures |stack| > 1
  {
  }

  class Builder {
    var stack: seq<Frame>

    predicate Good()
      reads this
    {
      Valid(View(stack)) && forall i :: 0 <= i < |stack| ==> Nested(stack[i])
    }

    constructor ()
      ensures Good() && View(stack) == Initial()
    {
      stack := [Frame(Table, "root", "", [])];
      new;
      assert stack[..0] == [];
      assert PreAll([], 1) == [];
    }

    /** Pop the innermost frame and append it to its parent's children. */
    method Attach()
      requires Good() && |stack| > 1
      modifies this
      ensures Good() && View(stack) == Pop(old(View(stack)))
    {
      var n := |stack| - 2;
      var p, f := stack[n], stack[n + 1];
      assert stack == stack[..n] + [p] + [f];
      AttachView(stack[..n], p, f);
      AdjacentHold(stack[..n], p, f);
      stack := stack[..n] + [p.(children := p.children + [f])];
      PopValid(old(View(stack)));
    }

    method PushFrame(ctx: Ctx, tag: string)
      requires Good() && MayHold(TopCtx(View(stack)), ctx)
      modifies this
      ensures Good() && View(stack) == Push(old(View(stack)), ctx, tag)
    {
      PushView(stack, ctx, tag);
      stack := stack + [Frame(ctx, tag, "", [])];
    }

    method CloseOpen(ctx: Ctx)
      requires Good() && ctx != Table
      modifies this
      ensures Good() && View(stack) == CloseIf(old(View(stack)), ctx)
    {
      TopFrame(stack);
      if stack[|stack| - 1].ctx == ctx {
        OpenCount(stack);
        Attach();
      }
    }

    method CloseOpenRow()
      requires Good()
      modifies this
      ensures Good() && View(stack) == CloseRow(old(View(stack)))
    {
      hide Valid, TopCtx, View, CloseIf;
      CloseOpen(Cell);
      CloseOpen(Row);
    }

    method ImplyTbody()
      requires Good()
      modifies this
      ensures Good() && View(stack) == ImplySection(old(View(stack)))
    {
      TopFrame(stack);
      if stack[|stack| - 1].ctx == Table {
        PushFrame(Section, "tbody");
      }
    }

    method OpenTag(name: string)
      requires Good()
      modifies this
      ensures Good() && View(stack) == FlatOpen(old(View(stack)), name)
    {
      hide Valid, TopCtx, View, CloseIf, CloseRow, ImplySection, Push, Nested;
      if name == "table" {
        PushFrame(Table, "table");
      } else if name == "thead" || name == "tbody" || name == "tfoot" {
        CloseSections();
        PushFrame(Section, name);
      } else if name == "tr" {
        CloseOpenRow();
        ImplyTbody();
        TopFrame(stack);
        if stack[|stack| - 1].ctx == Section {
          PushFrame(Row, "tr");
        }
      } else if name == "td" || name == "th" {
        CloseOpen(Cell);
        ImplyTbody();
        TopFrame(stack);
        if stack[|stack| - 1].ctx == Section {
          PushFrame(Row, "tr");
        }
        TopFrame(stack);
        if stack[|stack| - 1].ctx == Row {
          PushFrame(Cell, name);
        }
      }
    }

    /** The source's loop over open sections. */
    method CloseSections()
      requires Good()
      modifies this
      ensures Good() && View(stack) == CloseIf(old(View(stack)), Section)
    {
      TopFrame(stack);
      while stack[|stack| - 1].ctx == Section
        invariant Good() && stack != []
        invariant TopCtx(View(stack)) == stack[|stack| - 1].ctx
        invariant CloseIf(View(stack), Section) == CloseIf(old(View(stack)), Section)
        decreases |View(stack).open|
      {
        OpenCount(stack);
        SectionClosed(View(stack));
        Attach();
        TopFrame(stack);
      }
    }

    method CloseTag(name: string)
      requires Good()
      modifies this
      ensures Good() && View(stack) == FlatClose(old(View(stack)), name)
    {
      var target := TargetOf(name);
      if target.NoTarget? {
        return;
      }
      ghost var before := View(stack);
      while |stack| > 1
        invariant Good()
        invariant CloseTo(View(stack), target.ctx) == CloseTo(before, target.ctx)
        decreases |stack|
      {
        TopFrame(stack);
        var isMatch := stack[|stack| - 1].ctx == target.ctx;
        Attach();
        if isMatch {
          return;
        }
      }
    }

    method AddText(chunk: string)
      requires Good()
      modifies this
      ensures Good() && View(stack) == FlatText(old(View(stack)), chunk)
    {
      TopFrame(stack);
      var n := |stack| - 1;
      if stack[n].ctx == Cell {
        assert stack == stack[..n] + [stack[n]];
        TextView(stack[..n], stack[n], chunk);
        stack := stack[..n] + [stack[n].(text := stack[n].text + chunk)];
      }
    }

    /** Close everything at the end of input and hand out the root. */
    method Finish() returns (root: Frame)
      requires Good()
      modifies this
      ensures Pre(root, 0) == old(View(stack)).nodes && Nested(root)
    {
      while |stack| > 1
        invariant Good() && View(stack).nodes == old(View(stack)).nodes
        decreases |stack|
      {
        Attach();
      }
      root := stack[0];
      assert stack == [] + [root];
      StackPreAppend([], root);
    }
  }

  lemma PopValid(st: Flat)
    requires Valid(st) && |st.open| > 1
    ensures Valid(Pop(st))
  {
  }

  lemma AdjacentHold(s: seq<Frame>, p: Frame, f: Frame)
    requires Valid(View(s + [p] + [f]))
    ensures MayHold(p.ctx, f.ctx)
  {
    StackPreAppend(s, p);
    StackPreAppend(s + [p], f);
    var st := View(s + [p] + [f]);
    assert st.open[|s|] == |StackPre(s)| && st.open[|s| + 1] == |StackPre(s + [p])|;
  }
}
