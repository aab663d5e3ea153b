/** Worked examples: the documents of the repository's own tests, taken through the
    ProseMirror-to-mdast direction. The texts are left as parameters. */
module Scenarios {
  import opened Results
  import opened HandlerResults
  import PM = ProseMirror
  import Md = Mdast
  import opened MarkRuns
  import opened FromProseMirror
  import opened FromProseMirrorProps
  import opened ExampleNames

  function NoNodeProps(n: PM.Node): Md.Props { map[] }
  function NoMarkProps(m: PM.Mark): Md.Props { map[] }

  /** `paragraph: fromPmNode("paragraph")`, `em: fromPmMark("emphasis")`, `strong: fromPmMark("strong")`. */
  const ToMdast := State(PM.Schema(PmDoc),
                         map["paragraph" := WrapNode(ParagraphType, NoNodeProps)],
                         map["em" := WrapMark(EmphasisType, NoMarkProps), "strong" := WrapMark(StrongType, NoMarkProps)])

  /** `p(x, em(y, strong(z)))` in flat form. */
  function NestedPara(x: string, y: string, z: string): PM.Node
  {
    PM.Element(PmParagraph, map[], [PM.Text(x, []), PM.Text(y, [Em]), PM.Text(z, [Em, Strong])], [])
  }

  /** A lone unmarked text child converts to one mdast text. */
  lemma UnmarkedText(t: PM.Node, parent: PM.Node)
    requires t.Text? && parent.Element? && t in parent.content
    ensures ChildrenOf([Marked(t, [])], parent)
    ensures Hydrate(ToMdast, [Marked(t, [])], parent) == [Md.Text(t.text)]
  {
    UnmarkedChildrenConvertEach(ToMdast, [Marked(t, [])], parent);
    assert OneEach(ToMdast, [Marked(t, [])], parent) == [Single(Md.Text(t.text))];
    assert Splice([Single(Md.Text(t.text))]) == [Md.Text(t.text)] + Splice([]);
  }

  lemma StrongLevel(x: string, y: string, z: string)
    ensures ChildrenOf([Marked(PM.Text(z, [Em, Strong]), [Strong])], NestedPara(x, y, z))
    ensures Hydrate(ToMdast, [Marked(PM.Text(z, [Em, Strong]), [Strong])], NestedPara(x, y, z))
            == [Md.Parent(StrongType, map[], [Md.Text(z)], map[])]
  {
    var p := NestedPara(x, y, z);
    var t := PM.Text(z, [Em, Strong]);
    var part := [Marked(t, [Strong])];
    assert t == p.content[2];
    assert ChildrenOf(part, p);
    SharedMarkWrappedOnce(ToMdast, part, p);
    assert Strip(part) == [Marked(t, [])];
    UnmarkedText(t, p);
  }

  /** Inside the emphasis, the children split into an unmarked run and a strong run. */
  lemma EmSplit(x: string, y: string, z: string)
    ensures var a := [Marked(PM.Text(y, [Em]), [])];
            var b := [Marked(PM.Text(z, [Em, Strong]), [Strong])];
            && ChildrenOf(a, NestedPara(x, y, z)) && ChildrenOf(b, NestedPara(x, y, z))
            && KeyOf(a[|a| - 1]) != KeyOf(b[0])
  {
    var p := NestedPara(x, y, z);
    assert p.content[1] == PM.Text(y, [Em]);
    assert p.content[2] == PM.Text(z, [Em, Strong]);
  }

  lemma EmLevel(x: string, y: string, z: string)
    ensures ChildrenOf([Marked(PM.Text(y, [Em]), []), Marked(PM.Text(z, [Em, Strong]), [Strong])], NestedPara(x, y, z))
    ensures Hydrate(ToMdast, [Marked(PM.Text(y, [Em]), []), Marked(PM.Text(z, [Em, Strong]), [Strong])], NestedPara(x, y, z))
            == [Md.Text(y), Md.Parent(StrongType, map[], [Md.Text(z)], map[])]
  {
    var p := NestedPara(x, y, z);
    var a := [Marked(PM.Text(y, [Em]), [])];
    var b := [Marked(PM.Text(z, [Em, Strong]), [Strong])];
    EmSplit(x, y, z);
    HydrateSplitsAtKeyChange(ToMdast, a, b, p);
    assert a + b == [Marked(PM.Text(y, [Em]), []), Marked(PM.Text(z, [Em, Strong]), [Strong])];
    assert Hydrate(ToMdast, a, p) == [Md.Text(y)] by {
      UnmarkedText(PM.Text(y, [Em]), p);
    }
    assert Hydrate(ToMdast, b, p) == [Md.Parent(StrongType, map[], [Md.Text(z)], map[])] by {
      StrongLevel(x, y, z);
    }
  }

  lemma EmphasisRun(x: string, y: string, z: string)
    ensures ChildrenOf([Marked(PM.Text(y, [Em]), [Em]), Marked(PM.Text(z, [Em, Strong]), [Em, Strong])], NestedPara(x, y, z))
    ensures Hydrate(ToMdast, [Marked(PM.Text(y, [Em]), [Em]), Marked(PM.Text(z, [Em, Strong]), [Em, Strong])], NestedPara(x, y, z))
            == [Md.Parent(EmphasisType, map[], [Md.Text(y), Md.Parent(StrongType, map[], [Md.Text(z)], map[])], map[])]
  {
    var p := NestedPara(x, y, z);
    var part := [Marked(PM.Text(y, [Em]), [Em]), Marked(PM.Text(z, [Em, Strong]), [Em, Strong])];
    assert ChildrenOf(part, p);
    SharedMarkWrappedOnce(ToMdast, part, p);
    assert Strip(part) == [Marked(PM.Text(y, [Em]), []), Marked(PM.Text(z, [Em, Strong]), [Strong])];
    EmLevel(x, y, z);
  }

  lemma NestedChildren(x: string, y: string, z: string)
    ensures Items(NestedPara(x, y, z))
            == [Marked(PM.Text(x, []), [])] + [Marked(PM.Text(y, [Em]), [Em]), Marked(PM.Text(z, [Em, Strong]), [Em, Strong])]
  {
  }

  /** The paragraph's children split into an unmarked run and an emphasised run. */
  lemma NestedSplit(x: string, y: string, z: string)
    ensures var a := [Marked(PM.Text(x, []), [])];
            var b := [Marked(PM.Text(y, [Em]), [Em]), Marked(PM.Text(z, [Em, Strong]), [Em, Strong])];
            && ChildrenOf(a, NestedPara(x, y, z)) && ChildrenOf(b, NestedPara(x, y, z))
            && KeyOf(a[|a| - 1]) != KeyOf(b[0])
  {
    var p := NestedPara(x, y, z);
    assert p.content[0] == PM.Text(x, []);
    assert p.content[1] == PM.Text(y, [Em]);
    assert p.content[2] == PM.Text(z, [Em, Strong]);
  }

  lemma NestedHydrate(x: string, y: string, z: string)
    ensures var a := [Marked(PM.Text(x, []), [])];
            var b := [Marked(PM.Text(y, [Em]), [Em]), Marked(PM.Text(z, [Em, Strong]), [Em, Strong])];
            && ChildrenOf(a + b, NestedPara(x, y, z))
            && Hydrate(ToMdast, a + b, NestedPara(x, y, z))
               == [Md.Text(x),
                   Md.Parent(EmphasisType, map[], [Md.Text(y), Md.Parent(StrongType, map[], [Md.Text(z)], map[])], map[])]
  {
    var p := NestedPara(x, y, z);
    var a := [Marked(PM.Text(x, []), [])];
    var b := [Marked(PM.Text(y, [Em]), [Em]), Marked(PM.Text(z, [Em, Strong]), [Em, Strong])];
    NestedSplit(x, y, z);
    HydrateSplitsAtKeyChange(ToMdast, a, b, p);
    assert Hydrate(ToMdast, a, p) == [Md.Text(x)] by {
      UnmarkedText(PM.Text(x, []), p);
    }
    assert Hydrate(ToMdast, b, p)
        == [Md.Parent(EmphasisType, map[], [Md.Text(y), Md.Parent(StrongType, map[], [Md.Text(z)], map[])], map[])] by {
      EmphasisRun(x, y, z);
    }
  }

  /** Flat marks become nested wrappers: `x *y **z***`, the test's
      `This *is a **document.***`. */
  lemma NestedMarksBecomeWrappers(x: string, y: string, z: string)
    ensures All(ToMdast, NestedPara(x, y, z))
            == [Md.Text(x),
                Md.Parent(EmphasisType, map[], [Md.Text(y), Md.Parent(StrongType, map[], [Md.Text(z)], map[])], map[])]
  {
    NestedChildren(x, y, z);
    NestedHydrate(x, y, z);
  }

  /** A paragraph with one unmarked text. */
  function PlainPara(w: string): PM.Node
  {
    PM.Element(PmParagraph, map[], [PM.Text(w, [])], [])
  }

  lemma PlainParagraph(w: string)
    ensures All(ToMdast, PlainPara(w)) == [Md.Text(w)]
  {
    var p := PlainPara(w);
    var t := p.content[0];
    assert All(ToMdast, p) == Hydrate(ToMdast, [Marked(t, [])], p) by {
      assert Items(p) == [Marked(t, [])];
    }
    UnmarkedText(t, p);
  }

  /** `doc(p(x, em(y, strong(z))), p(w))`. */
  function Doc(x: string, y: string, z: string, w: string): PM.Node
  {
    PM.Element(PmDoc, map[], [NestedPara(x, y, z), PlainPara(w)], [])
  }

  /** Two single answers splice to their two nodes. */
  lemma SpliceTwo(a: Md.Node, b: Md.Node)
    ensures Splice([Single(a), Single(b)]) == [a, b]
  {
    assert Splice([Single(b)]) == [b] + Splice([Single(b)][1..]);
    assert Splice([Single(a), Single(b)]) == [a] + Splice([Single(a), Single(b)][1..]);
    assert [Single(a), Single(b)][1..] == [Single(b)];
  }

  /** A node with two unmarked children converts them one by one. */
  lemma TwoUnmarkedChildren(s: State, n: PM.Node, c: PM.Node, d: PM.Node)
    requires n.Element? && n.content == [c, d] && c.marks == [] && d.marks == []
    ensures All(s, n) == Splice([One(s, c, Some(n)), One(s, d, Some(n))])
  {
    var items := [Marked(c, []), Marked(d, [])];
    assert Items(n) == items;
    UnmarkedChildrenConvertEach(s, items, n);
    OneEachTwo(s, items, n);
  }

  /** Two children convert one after the other. */
  lemma OneEachTwo(s: State, items: seq<Marked>, n: PM.Node)
    requires |items| == 2 && ChildrenOf(items, n)
    ensures OneEach(s, items, n) == [One(s, items[0].node, Some(n)), One(s, items[1].node, Some(n))]
  {
    assert OneEach(s, items[1..], n) == [One(s, items[1].node, Some(n))] + OneEach(s, items[2..], n);
  }

  /** The document's two unmarked paragraphs convert one by one. */
  lemma DocChildren(x: string, y: string, z: string, w: string)
    ensures All(ToMdast, Doc(x, y, z, w))
            == [Md.Parent(ParagraphType, map[], All(ToMdast, NestedPara(x, y, z)), map[]),
                Md.Parent(ParagraphType, map[], All(ToMdast, PlainPara(w)), map[])]
  {
    TwoUnmarkedChildren(ToMdast, Doc(x, y, z, w), NestedPara(x, y, z), PlainPara(w));
    SpliceTwo(Md.Parent(ParagraphType, map[], All(ToMdast, NestedPara(x, y, z)), map[]),
              Md.Parent(ParagraphType, map[], All(ToMdast, PlainPara(w)), map[]));
  }

  /** The whole test document `doc(p(x, em(y, strong(z))), p(w))`: the top node becomes
      the root, each paragraph a `paragraph` wrapper around its converted children. */
  lemma NestedMarksDocument(x: string, y: string, z: string, w: string)
    ensures FromProseMirror.FromProseMirror(PM.Schema(PmDoc), ToMdast.nodes, ToMdast.marks, Doc(x, y, z, w))
            == Single(Md.Parent(RootType, map[], [
                 Md.Parent(ParagraphType, map[], [
                   Md.Text(x),
                   Md.Parent(EmphasisType, map[], [Md.Text(y), Md.Parent(StrongType, map[], [Md.Text(z)], map[])], map[])
                 ], map[]),
                 Md.Parent(ParagraphType, map[], [Md.Text(w)], map[])
               ], map[]))
  {
    assert CreateState(PM.Schema(PmDoc), ToMdast.nodes, ToMdast.marks) == ToMdast;
    DocChildren(x, y, z, w);
    NestedMarksBecomeWrappers(x, y, z);
    PlainParagraph(w);
  }
}
