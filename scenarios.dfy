/** Short command sequences a tree builder sends to the sink, with what the
    resulting tree is proved to look like. */
module Scenarios {
  import opened Tags
  import opened Tree
  import opened Sink

  /** Two elements created alike are still two different nodes. */
  method DistinctCreations() returns (a: Handle, b: Handle)
    ensures SameNode(a, a) && SameNode(b, b) && !SameNode(a, b)
  {
    var p := new HtmlParser();
    a := p.CreateElement("p", [Attribute("class", "x")]);
    b := p.CreateElement("p", [Attribute("class", "x")]);
  }

  /** The template contents handed out for a template element stay the same
      while the tree around the element changes. */
  method TemplateContentsStable() returns (first: Handle, second: Handle)
    ensures first == second
  {
    var p := new HtmlParser();
    var doc := p.GetDocument();
    var t := p.CreateElement("template", []);
    first := p.GetTemplateContents(t);
    p.Append(doc, AppendNode(t));
    var c := p.CreateComment("note");
    p.Append(first, AppendNode(c));
    p.AddAttrsIfMissing(t, [Attribute("id", "a")]);
    p.RemoveFromParent(t);
    second := p.GetTemplateContents(t);
  }

  /** The table after appending the parentless, childless `e` to the childless
      `doc` and then the text runs `a` and `b` to `e`. */
  lemma ElementWithTwoRuns(d0: seq<Tag>, doc: Handle, e: Handle, a: string, b: string)
    requires WellFormed(d0) && doc < |d0| && e < |d0| && doc != e
    requires d0[doc].inner == [] && d0[e].inner == [] && d0[e].parent == None
    ensures var d1 := Appended(d0, doc, AppendNode(e));
      && WellFormed(d1) && doc < |d1| && e < |d1|
      && var d2 := Appended(d1, e, AppendText(a));
      && WellFormed(d2) && e < |d2|
      && var d3 := Appended(d2, e, AppendText(b));
      && WellFormed(d3) && |d3| == |d0| + 1
      && d3[doc].inner == [e] && d3[e].name == d0[e].name && d3[e].inner == [|d0|]
      && d3[|d0|].kind == Text && d3[|d0|].textContents == a + b
  {
    var d1 := Appended(d0, doc, AppendNode(e));
    AppendedSpec(d0, doc, AppendNode(e));
    AppendedFrame(d0, doc, AppendNode(e));
    assert d1[doc].inner == [e] && d1[e].inner == [];
    TextRunsCoalesce(d1, e, a, b);
    var d2 := Appended(d1, e, AppendText(a));
    AppendedSpec(d1, e, AppendText(a));
    AppendedFrame(d1, e, AppendText(a));
    AppendedSpec(d2, e, AppendText(b));
    AppendedFrame(d2, e, AppendText(b));
  }

  /** `<html>` holding text that arrives in the two runs `a` and `b`: the
      document has one child, which has one text child with both runs. */
  method HtmlWithTwoTextRuns(a: string, b: string) returns (ast: HtmlAst, html: Handle)
    ensures WellFormed(ast.data) && html < |ast.data|
    ensures ast.data[0].inner == [html] && ast.data[html].name == "html"
    ensures |ast.data[html].inner| == 1
    ensures var t := ast.data[html].inner[0];
      t < |ast.data| && ast.data[t].kind == Text && ast.data[t].textContents == a + b
  {
    var p := new HtmlParser();
    var doc := p.GetDocument();
    html := p.CreateElement("html", []);
    ghost var d0 := p.data;
    assert html == 1 && d0[0].inner == [] && d0[1].inner == [] && d0[1].parent == None;
    ElementWithTwoRuns(d0, doc, html, a, b);
    p.Append(doc, AppendNode(html));
    p.Append(html, AppendText(a));
    p.Append(html, AppendText(b));
    ast := p.Finish();
  }
}
