/** Worked examples for the mdast-to-ProseMirror direction, after the repository's own
    tests: nested emphasis flattens to marks, a hard break trims the next line, and a
    reference takes the first of two definitions that differ only in case. */
module ToScenarios {
  import opened Results
  import opened HandlerResults
  import PM = ProseMirror
  import Md = Mdast
  import opened MarkdownText
  import opened DefinitionTable
  import opened ToProseMirror
  import opened ToProseMirrorProps
  import opened Revert
  import opened ExampleNames

  /** The node type names only these examples use. */
  const BreakType: Md.GenericKind := "break"
  const ThematicBreakType: Md.GenericKind := "thematicBreak"
  const PmHardBreak: PM.ElementKind := "hard_break"

  /** `createAndFill` in a schema whose nodes accept any content. */
  function FillAsIs(k: PM.ElementKind, content: seq<PM.Node>): Option<seq<PM.Node>> { Some(content) }

  /** A mark set that appends a mark not yet present. */
  function Append(m: PM.Mark, marks: seq<PM.Mark>): seq<PM.Mark> { if m in marks then marks else marks + [m] }

  function KeepLines(value: string): string { value }
  function NoHtml(n: Md.Node): Out<PM.Node> { Nothing }
  function NoAttrs(n: Md.Node): PM.Attrs { map[] }

  /** The `link` mark's attributes, read off the `link` node. */
  function LinkAttrs(n: Md.Node): PM.Attrs
  {
    if n.Parent? && "url" in n.props then map["href" := n.props["url"]] else map[]
  }

  /** A hard break node. */
  function HardBreak(n: Md.Node, parent: Option<Md.Node>): Out<PM.Node>
  {
    Single(PM.Element(PmHardBreak, map[], [], []))
  }

  /** `paragraph: toPmNode(paragraph)`, `emphasis: toPmMark(em)`, `strong: toPmMark(strong)`,
      `link: toPmMark(link, …)` and a `break` handler. */
  const Handlers: map<string, Handler> :=
    map["paragraph" := ToNode(PmParagraph, NoAttrs),
        "emphasis" := ToMark("em", NoAttrs),
        "strong" := ToMark("strong", NoAttrs),
        "link" := ToMark("link", LinkAttrs),
        "break" := Leaf(HardBreak)]

  function StateWith(t: Tables): State
  {
    State(PM.Schema(PmDoc), Handlers, FillAsIs, Append, KeepLines, NoHtml, t)
  }

  /** Texts without line breaks convert unchanged and unmarked. */
  predicate SingleLine(x: string)
  {
    forall i :: 0 <= i < |x| ==> x[i] != '\n'
  }

  lemma PlainText(t: Tables, x: string, parent: Md.Node)
    requires SingleLine(x)
    ensures Handle(StateWith(t), Md.Text(x), Some(parent)) == Success(Single(PM.Text(x, [])))
  {
    TextWithoutBreaksKept(StateWith(t), Md.Text(x), Some(parent));
  }

  /** The children loop over a single child. */
  lemma OnlyChild(s: State, owner: Md.Node, asParent: Md.Node, c: Md.Node)
    requires Md.Children(owner) == [c] && Handle(s, c, Some(asParent)).Success?
    ensures AllOf(s, owner, asParent, 0) == Success(Contribution(Handle(s, c, Some(asParent)).value))
  {
    assert AllOf(s, owner, asParent, 1) == Success([]);
    assert Contribution(Handle(s, c, Some(asParent)).value) + [] == Contribution(Handle(s, c, Some(asParent)).value);
  }

  /** The children loop over two children, the first not a break. */
  lemma TwoChildren(s: State, owner: Md.Node, c: Md.Node, d: Md.Node)
    requires Md.Children(owner) == [c, d] && !Md.IsType(c, "break")
    requires Handle(s, c, Some(owner)).Success? && Handle(s, d, Some(owner)).Success?
    ensures AllOf(s, owner, owner, 0)
            == Success(Contribution(Handle(s, c, Some(owner)).value) + Contribution(Handle(s, d, Some(owner)).value))
  {
    var rest := Contribution(Handle(s, d, Some(owner)).value);
    assert AllOf(s, owner, owner, 2) == Success([]);
    assert rest + [] == rest;
    assert AllOf(s, owner, owner, 1) == Success(rest);
  }

  /** A `toPmMark` handler without attributes on one text. */
  lemma MarkText(s: State, k: string, n: Md.Node, parent: Option<Md.Node>, y: string, marks: seq<PM.Mark>)
    requires s.addToSet == Append
    ensures Apply(s, ToMark(k, NoAttrs), n, parent, [PM.Text(y, marks)])
            == Many([PM.Text(y, Append(PM.Mark(k, map[]), marks))])
  {
    assert WithMarks(PM.Text(y, marks), s.addToSet(PM.Mark(k, NoAttrs(n)), marks))
        == PM.Text(y, Append(PM.Mark(k, map[]), marks));
  }

  /** `*y*`: the text gains the emphasis mark. */
  lemma EmphasisLevel(t: Tables, y: string, parent: Md.Node)
    requires SingleLine(y)
    ensures var e := Md.Parent(EmphasisType, map[], [Md.Text(y)], map[]);
            Handle(StateWith(t), e, Some(parent)) == Success(Many([PM.Text(y, [Em])]))
  {
    var s := StateWith(t);
    var e := Md.Parent(EmphasisType, map[], [Md.Text(y)], map[]);
    PlainText(t, y, e);
    OnlyChild(s, e, e, Md.Text(y));
    assert Handle(s, e, Some(parent)) == Invoke(s, Handlers["emphasis"], e, Some(parent), e);
    assert Append(Em, []) == [Em];
    MarkText(s, "em", e, Some(parent), y, []);
  }

  /** `**_y_**`: both marks, the inner one first. */
  lemma StrongLevel(t: Tables, y: string, parent: Md.Node)
    requires SingleLine(y)
    ensures var g := Md.Parent(StrongType, map[], [Md.Parent(EmphasisType, map[], [Md.Text(y)], map[])], map[]);
            Handle(StateWith(t), g, Some(parent)) == Success(Many([PM.Text(y, [Em, Strong])]))
  {
    var s := StateWith(t);
    var e := Md.Parent(EmphasisType, map[], [Md.Text(y)], map[]);
    var g := Md.Parent(StrongType, map[], [e], map[]);
    EmphasisLevel(t, y, g);
    OnlyChild(s, g, g, e);
    assert Handle(s, g, Some(parent)) == Invoke(s, Handlers["strong"], g, Some(parent), g);
    assert Append(Strong, [Em]) == [Em, Strong];
    MarkText(s, "strong", g, Some(parent), y, [Em]);
  }

  /** The paragraph `x **_y_**`. */
  function NestedPara(x: string, y: string): Md.Node
  {
    Md.Parent(ParagraphType, map[], [Md.Text(x), Md.Parent(StrongType, map[], [Md.Parent(EmphasisType, map[], [Md.Text(y)], map[])], map[])], map[])
  }

  lemma NestedParagraphChildren(t: Tables, x: string, y: string)
    requires SingleLine(x) && SingleLine(y)
    ensures AllOf(StateWith(t), NestedPara(x, y), NestedPara(x, y), 0) == Success([PM.Text(x, []), PM.Text(y, [Em, Strong])])
  {
    var s := StateWith(t);
    var p := NestedPara(x, y);
    var g := Md.Children(p)[1];
    PlainText(t, x, p);
    StrongLevel(t, y, p);
    TwoChildren(s, p, Md.Text(x), g);
    assert Contribution(Handle(s, Md.Text(x), Some(p)).value) == [PM.Text(x, [])];
    assert Contribution(Handle(s, g, Some(p)).value) == [PM.Text(y, [Em, Strong])];
    assert [PM.Text(x, [])] + [PM.Text(y, [Em, Strong])] == [PM.Text(x, []), PM.Text(y, [Em, Strong])];
  }

  lemma NestedParagraph(t: Tables, x: string, y: string, parent: Md.Node)
    requires SingleLine(x) && SingleLine(y)
    ensures Handle(StateWith(t), NestedPara(x, y), Some(parent))
            == Success(Single(PM.Element(PmParagraph, map[], [PM.Text(x, []), PM.Text(y, [Em, Strong])], [])))
  {
    var s := StateWith(t);
    var p := NestedPara(x, y);
    NestedParagraphChildren(t, x, y);
    assert Handle(s, p, Some(parent)) == Invoke(s, Handlers["paragraph"], p, Some(parent), p);
  }

  /** Nested mdast wrappers become flat marks on the text: the document `x **_y_**`
      converts to one paragraph whose second text carries both marks. */
  lemma NestedWrappersBecomeMarks(t: Tables, x: string, y: string)
    requires SingleLine(x) && SingleLine(y)
    ensures Handle(StateWith(t), Md.Parent(RootType, map[], [NestedPara(x, y)], map[]), None)
            == Success(Single(PM.Element(PmDoc, map[], [PM.Element(PmParagraph, map[], [PM.Text(x, []), PM.Text(y, [Em, Strong])], [])], [])))
  {
    var s := StateWith(t);
    var root := Md.Parent(RootType, map[], [NestedPara(x, y)], map[]);
    NestedParagraph(t, x, y, root);
    OnlyChild(s, root, root, NestedPara(x, y));
  }

  /** One turn of the children loop on a child that does not follow a break. */
  lemma StepPlain(s: State, owner: Md.Node, i: nat, rest: seq<PM.Node>)
    requires i < |Md.Children(owner)| && (i == 0 || !Md.IsType(Md.Children(owner)[i - 1], "break"))
    requires Handle(s, Md.Children(owner)[i], Some(owner)).Success?
    requires AllOf(s, owner, owner, i + 1) == Success(rest)
    ensures AllOf(s, owner, owner, i) == Success(Contribution(Handle(s, Md.Children(owner)[i], Some(owner)).value) + rest)
  {
  }

  /** One turn of the children loop on a child that follows a break. */
  lemma StepAfterBreak(s: State, owner: Md.Node, i: nat, rest: seq<PM.Node>)
    requires 0 < i < |Md.Children(owner)| && Md.IsType(Md.Children(owner)[i - 1], "break")
    requires Handle(s, Md.Children(owner)[i], Some(owner)).Success?
    requires AllOf(s, owner, owner, i + 1) == Success(rest)
    ensures AllOf(s, owner, owner, i)
            == Success(Contribution(AfterBreak(Handle(s, Md.Children(owner)[i], Some(owner)).value)) + rest)
  {
  }

  /** The paragraph `x`, a hard break, then a line indented by `blanks`. */
  function BrokenPara(x: string, blanks: string, y: string): Md.Node
  {
    Md.Parent(ParagraphType, map[], [Md.Text(x), Md.Parent(BreakType, map[], [], map[]), Md.Text(blanks + y)], map[])
  }

  /** The `break` handler answers a hard break node. */
  lemma BreakHandled(t: Tables, parent: Md.Node)
    ensures Md.IsType(Md.Parent(BreakType, map[], [], map[]), "break")
    ensures Handle(StateWith(t), Md.Parent(BreakType, map[], [], map[]), Some(parent))
            == Success(Single(PM.Element(PmHardBreak, map[], [], [])))
  {
    var br := Md.Parent(BreakType, map[], [], map[]);
    assert Handle(StateWith(t), br, Some(parent)) == Invoke(StateWith(t), Handlers["break"], br, Some(parent), br);
  }

  /** The indented line after the break loses its blanks. */
  lemma TrimmedLine(t: Tables, blanks: string, y: string, parent: Md.Node)
    requires SingleLine(blanks + y)
    requires AllMarkdownSpace(blanks) && (|y| == 0 || !IsMarkdownSpace(y[0]))
    ensures Handle(StateWith(t), Md.Text(blanks + y), Some(parent)).Success?
    ensures Contribution(AfterBreak(Handle(StateWith(t), Md.Text(blanks + y), Some(parent)).value)) == [PM.Text(y, [])]
  {
    PlainText(t, blanks + y, parent);
    TrimSpaceStartExact(blanks, y);
    assert AfterBreak(Single(PM.Text(blanks + y, []))) == Single(PM.Text(y, []));
  }

  lemma BrokenTail(t: Tables, x: string, blanks: string, y: string)
    requires SingleLine(blanks + y)
    requires AllMarkdownSpace(blanks) && (|y| == 0 || !IsMarkdownSpace(y[0]))
    ensures AllOf(StateWith(t), BrokenPara(x, blanks, y), BrokenPara(x, blanks, y), 2) == Success([PM.Text(y, [])])
  {
    var s := StateWith(t);
    var p := BrokenPara(x, blanks, y);
    assert AllOf(s, p, p, 3) == Success([]);
    BreakHandled(t, p);
    TrimmedLine(t, blanks, y, p);
    StepAfterBreak(s, p, 2, []);
    assert [PM.Text(y, [])] + [] == [PM.Text(y, [])];
  }

  lemma BrokenMiddle(t: Tables, x: string, blanks: string, y: string)
    requires SingleLine(blanks + y)
    requires AllMarkdownSpace(blanks) && (|y| == 0 || !IsMarkdownSpace(y[0]))
    ensures AllOf(StateWith(t), BrokenPara(x, blanks, y), BrokenPara(x, blanks, y), 1)
            == Success([PM.Element(PmHardBreak, map[], [], []), PM.Text(y, [])])
  {
    var s := StateWith(t);
    var p := BrokenPara(x, blanks, y);
    var hb := PM.Element(PmHardBreak, map[], [], []);
    BrokenTail(t, x, blanks, y);
    BreakHandled(t, p);
    assert !Md.IsType(Md.Children(p)[0], "break");
    StepPlain(s, p, 1, [PM.Text(y, [])]);
    assert Contribution(Single(hb)) + [PM.Text(y, [])] == [hb, PM.Text(y, [])];
  }

  lemma BrokenChildren(t: Tables, x: string, blanks: string, y: string)
    requires SingleLine(x) && SingleLine(blanks + y)
    requires AllMarkdownSpace(blanks) && (|y| == 0 || !IsMarkdownSpace(y[0]))
    ensures AllOf(StateWith(t), BrokenPara(x, blanks, y), BrokenPara(x, blanks, y), 0)
            == Success([PM.Text(x, []), PM.Element(PmHardBreak, map[], [], []), PM.Text(y, [])])
  {
    var s := StateWith(t);
    var p := BrokenPara(x, blanks, y);
    var hb := PM.Element(PmHardBreak, map[], [], []);
    BrokenMiddle(t, x, blanks, y);
    PlainText(t, x, p);
    StepPlain(s, p, 0, [hb, PM.Text(y, [])]);
    assert Contribution(Single(PM.Text(x, []))) + [hb, PM.Text(y, [])] == [PM.Text(x, []), hb, PM.Text(y, [])];
  }

  /** The line after a hard break loses its indentation, and only that: the paragraph
      `x`, break, `blanks + y` becomes `x`, a hard break node, `y`. */
  lemma BreakTrimsNextLine(t: Tables, x: string, blanks: string, y: string, parent: Md.Node)
    requires SingleLine(x) && SingleLine(blanks + y)
    requires AllMarkdownSpace(blanks) && (|y| == 0 || !IsMarkdownSpace(y[0]))
    ensures Handle(StateWith(t), BrokenPara(x, blanks, y), Some(parent))
            == Success(Single(PM.Element(PmParagraph, map[], [PM.Text(x, []), PM.Element(PmHardBreak, map[], [], []), PM.Text(y, [])], [])))
  {
    var s := StateWith(t);
    var p := BrokenPara(x, blanks, y);
    BrokenChildren(t, x, blanks, y);
    assert Handle(s, p, Some(parent)) == Invoke(s, Handlers["paragraph"], p, Some(parent), p);
  }

  /** The shortcut reference `[y]` to identifier `x`. */
  function Ref(y: string): Md.Node
  {
    Md.LinkReference("x", None, Md.Shortcut, [Md.Text(y)], map[])
  }

  /** A paragraph holding `[y]`, then the definitions `[X]: u1` and `[x]: u2`. */
  function RefDoc(y: string, u1: string, u2: string): Md.Node
  {
    Md.Parent(RootType, map[], [
      Md.Parent(ParagraphType, map[], [Ref(y)], map[]),
      Md.Definition("X", u1, None, map[]),
      Md.Definition("x", u2, None, map[])
    ], map[])
  }

  lemma RefDocOrder(y: string, u1: string, u2: string)
    ensures Preorder(RefDoc(y, u1, u2))
            == [RefDoc(y, u1, u2), Md.Parent(ParagraphType, map[], [Ref(y)], map[]), Ref(y), Md.Text(y),
                Md.Definition("X", u1, None, map[]), Md.Definition("x", u2, None, map[])]
  {
    var para := Md.Parent(ParagraphType, map[], [Ref(y)], map[]);
    var d1 := Md.Definition("X", u1, None, map[]);
    var d2 := Md.Definition("x", u2, None, map[]);
    assert PreorderAll([Md.Text(y)]) == [Md.Text(y)] by {
      assert PreorderAll([Md.Text(y)][1..]) == [];
    }
    assert Preorder(Ref(y)) == [Ref(y), Md.Text(y)];
    assert PreorderAll([Ref(y)]) == [Ref(y), Md.Text(y)] by {
      assert PreorderAll([Ref(y)][1..]) == [];
    }
    assert Preorder(para) == [para, Ref(y), Md.Text(y)];
    var kids := [para, d1, d2];
    assert PreorderAll(kids[2..]) == [d2] by {
      assert PreorderAll(kids[2..][1..]) == [];
    }
    assert PreorderAll(kids[1..]) == [d1, d2] by {
      assert kids[1..][1..] == kids[2..];
    }
    assert PreorderAll(kids) == [para, Ref(y), Md.Text(y), d1, d2];
  }

  /** The fifth node met, `[X]: u1`, is the first definition of `X`. */
  lemma RefDocFirst(y: string, u1: string, u2: string)
    ensures |Preorder(RefDoc(y, u1, u2))| > 4 && Preorder(RefDoc(y, u1, u2))[4] == Md.Definition("X", u1, None, map[])
    ensures First(LinkDefinitions, Preorder(RefDoc(y, u1, u2)), 4, Upper(Ref(y).identifier))
  {
    RefDocOrder(y, u1, u2);
    assert Upper("x") == "X" && Upper("X") == "X";
  }

  /** The reference is handed to the `link` handler as a link to the first definition. */
  lemma RefResolves(y: string, u1: string, u2: string, parent: Md.Node)
    ensures var s := StateWith(BuildTables(RefDoc(y, u1, u2)));
            Handle(s, Ref(y), Some(parent))
            == Invoke(s, ToMark("link", LinkAttrs), LinkNode(Md.Definition("X", u1, None, map[]), Ref(y)), Some(parent), Ref(y))
  {
    var tree := RefDoc(y, u1, u2);
    var s := StateWith(BuildTables(tree));
    RefDocFirst(y, u1, u2);
    ReferenceUsesFirstDefinition(s, tree, Ref(y), Some(parent), 4);
  }

  /** The link handler marks the reference's text with the definition's destination. */
  lemma LinkMarksText(t: Tables, y: string, u: string, parent: Md.Node)
    requires SingleLine(y)
    ensures Invoke(StateWith(t), ToMark("link", LinkAttrs), LinkNode(Md.Definition("X", u, None, map[]), Ref(y)), Some(parent), Ref(y))
            == Success(Many([PM.Text(y, [PM.Mark("link", map["href" := u])])]))
  {
    var s := StateWith(t);
    var link := LinkNode(Md.Definition("X", u, None, map[]), Ref(y));
    assert LinkAttrs(link) == map["href" := u];
    PlainText(t, y, link);
    OnlyChild(s, Ref(y), link, Md.Text(y));
    assert Append(PM.Mark("link", map["href" := u]), []) == [PM.Mark("link", map["href" := u])];
    assert WithMarks(PM.Text(y, []), s.addToSet(PM.Mark("link", LinkAttrs(link)), []))
        == PM.Text(y, [PM.Mark("link", map["href" := u])]);
    assert AllOf(s, Ref(y), link, 0) == Success([PM.Text(y, [])]);
    assert Apply(s, ToMark("link", LinkAttrs), link, Some(parent), [PM.Text(y, [])])
        == Many([PM.Text(y, [PM.Mark("link", map["href" := u])])]);
  }

  /** Two definitions whose identifiers differ only in case: the reference `[y]` takes
      the destination of the first, `u1`, and its text carries the link mark. */
  lemma FirstOfTwoDefinitionsWins(y: string, u1: string, u2: string, parent: Md.Node)
    requires SingleLine(y)
    ensures var s := CreateState(PM.Schema(PmDoc), Handlers, FillAsIs, Append, KeepLines, NoHtml, RefDoc(y, u1, u2));
            Handle(s, Ref(y), Some(parent)) == Success(Many([PM.Text(y, [PM.Mark("link", map["href" := u1])])]))
  {
    var tree := RefDoc(y, u1, u2);
    assert CreateState(PM.Schema(PmDoc), Handlers, FillAsIs, Append, KeepLines, NoHtml, tree) == StateWith(BuildTables(tree));
    RefResolves(y, u1, u2, parent);
    LinkMarksText(BuildTables(tree), y, u1, parent);
  }

  /** With no definition for it, `[y]` turns back into the literal text `[y]`. */
  lemma UnresolvedShortcutReverts(t: Tables, y: string, parent: Md.Node)
    requires SingleLine(y) && Upper("x") !in t.definitions
    ensures Handle(StateWith(t), Ref(y), Some(parent)) == Success(Many([PM.Text("[" + y + "]", [])]))
  {
    var s := StateWith(t);
    PlainText(t, y, Ref(y));
    OnlyChild(s, Ref(y), Ref(y), Md.Text(y));
    assert AllOf(s, Ref(y), Ref(y), 0) == Success([PM.Text(y, [])]);
    assert Bracket([PM.Text(y, [])], "]") == [PM.Text("[" + y + "]", [])];
  }

  /** A paragraph of one single-line text converts, wherever it sits. */
  lemma TextParagraphConverts(t: Tables, x: string, parent: Md.Node)
    requires SingleLine(x)
    ensures Handle(StateWith(t), Md.Parent(ParagraphType, map[], [Md.Text(x)], map[]), Some(parent)).Success?
  {
    var s := StateWith(t);
    var p := Md.Parent(ParagraphType, map[], [Md.Text(x)], map[]);
    PlainText(t, x, p);
    OnlyChild(s, p, p, Md.Text(x));
    assert Handle(s, p, Some(parent)) == Invoke(s, Handlers["paragraph"], p, Some(parent), p);
  }

  /** A root whose second child fails fails with that child's error. */
  lemma RootFailsAtSecondChild(s: State, root: Md.Node, c: Md.Node, d: Md.Node, e: ConvertError)
    requires root.Parent? && root.kind == "root" && "root" !in s.handlers && root.children == [c, d]
    requires Handle(s, c, Some(root)).Success? && Handle(s, d, Some(root)) == Failure(e)
    ensures Handle(s, root, None) == Failure(e)
  {
    assert AllOf(s, root, root, 1) == Failure(e);
    RootConvertsChildren(s, root, None);
  }

  /** A thematic break: no handler and no built-in default. */
  function ThematicBreak(): Md.Node
  {
    Md.Parent(ThematicBreakType, map[], [], map[])
  }

  lemma ThematicBreakUnknown(t: Tables, parent: Md.Node)
    ensures Handle(StateWith(t), ThematicBreak(), Some(parent)) == Failure(UnknownNode("thematicBreak"))
  {
    assert "thematicBreak" !in Handlers && "thematicBreak" !in Defaults;
  }

  /** A node type nobody handles, here a thematic break, stops the whole conversion
      with the error naming its type. */
  lemma UnknownTypeStopsConversion(t: Tables, x: string)
    requires SingleLine(x)
    ensures var root := Md.Parent(RootType, map[], [Md.Parent(ParagraphType, map[], [Md.Text(x)], map[]), ThematicBreak()], map[]);
            && Handle(StateWith(t), root, None) == Failure(UnknownNode("thematicBreak"))
            && Message(Handle(StateWith(t), root, None).error) == "unknown markdown node: " + "thematicBreak"
  {
    var s := StateWith(t);
    var p := Md.Parent(ParagraphType, map[], [Md.Text(x)], map[]);
    var root := Md.Parent(RootType, map[], [p, ThematicBreak()], map[]);
    TextParagraphConverts(t, x, root);
    ThematicBreakUnknown(t, root);
    assert "root" !in Handlers;
    RootFailsAtSecondChild(s, root, p, ThematicBreak(), UnknownNode("thematicBreak"));
  }
}
