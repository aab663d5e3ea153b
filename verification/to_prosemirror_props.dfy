/** What the mdast-to-ProseMirror conversion promises: errors are never swallowed, a
    reference resolves to the first matching definition whatever the case of its
    identifier, an unresolved one reads back as the text it was written as, and a mark
    handler marks every converted child. */
module ToProseMirrorProps {
  import opened Results
  import opened HandlerResults
  import PM = ProseMirror
  import Md = Mdast
  import opened MarkdownText
  import opened DefinitionTable
  import opened Revert
  import opened ToProseMirror

  /** One turn of the children loop: it goes on only past a child that converts, and a
      failure, the child's or a later one's, comes out unchanged. */
  lemma AllOfStep(s: State, owner: Md.Node, asParent: Md.Node, i: nat)
    requires i < |Md.Children(owner)|
    ensures var h := Handle(s, Md.Children(owner)[i], Some(asParent));
            && (AllOf(s, owner, asParent, i).Success? <==> h.Success? && AllOf(s, owner, asParent, i + 1).Success?)
            && (h.Failure? ==> AllOf(s, owner, asParent, i) == Failure(h.error))
            && (h.Success? && AllOf(s, owner, asParent, i + 1).Failure? ==>
                  AllOf(s, owner, asParent, i) == Failure(AllOf(s, owner, asParent, i + 1).error))
  {
  }

  /** The children loop succeeds exactly when every remaining child converts. */
  lemma {:induction false} AllSucceeds(s: State, owner: Md.Node, asParent: Md.Node, i: nat)
    requires i <= |Md.Children(owner)|
    ensures AllOf(s, owner, asParent, i).Success? <==>
              forall j :: i <= j < |Md.Children(owner)| ==> Handle(s, Md.Children(owner)[j], Some(asParent)).Success?
    decreases |Md.Children(owner)| - i
  {
    var kids := Md.Children(owner);
    if i < |kids| {
      AllSucceeds(s, owner, asParent, i + 1);
      AllOfStep(s, owner, asParent, i);
      if AllOf(s, owner, asParent, i).Success? {
        forall j | i <= j < |kids|
          ensures Handle(s, kids[j], Some(asParent)).Success?
        {
          if j > i {
            assert i + 1 <= j;
          }
        }
      }
    } else {
      assert AllOf(s, owner, asParent, i) == Success([]);
    }
  }

  /** When the children loop fails, it fails with the error of the first child that does
      not convert: errors are passed on unchanged. */
  lemma {:induction false} AllFailsAtFirst(s: State, owner: Md.Node, asParent: Md.Node, i: nat)
    requires i <= |Md.Children(owner)|
    ensures AllOf(s, owner, asParent, i).Failure? ==>
              exists j :: && i <= j < |Md.Children(owner)|
                          && Handle(s, Md.Children(owner)[j], Some(asParent)) == Failure(AllOf(s, owner, asParent, i).error)
                          && forall k :: i <= k < j ==> Handle(s, Md.Children(owner)[k], Some(asParent)).Success?
    decreases |Md.Children(owner)| - i
  {
    var kids := Md.Children(owner);
    if i < |kids| {
      AllOfStep(s, owner, asParent, i);
      var r := AllOf(s, owner, asParent, i);
      var h := Handle(s, kids[i], Some(asParent));
      if h.Success? && r.Failure? {
        AllFailsAtFirst(s, owner, asParent, i + 1);
        var j :| && i + 1 <= j < |kids|
                 && Handle(s, kids[j], Some(asParent)) == Failure(r.error)
                 && forall k :: i + 1 <= k < j ==> Handle(s, kids[k], Some(asParent)).Success?;
        assert forall k :: i <= k < j ==> Handle(s, kids[k], Some(asParent)).Success?;
      }
    } else {
      assert AllOf(s, owner, asParent, i) == Success([]);
    }
  }

  /** The two kinds of message start differently. */
  lemma MessageHead(e: ConvertError)
    ensures |Message(e)| > 0
    ensures Message(e)[0] == (if e.UnknownNode? then 'u' else 'E')
  {
  }

  /** The thrown message tells the errors apart: it names the unknown type or shows the
      non-node, and the two kinds of message never coincide. */
  lemma MessageDeterminesError(a: ConvertError, b: ConvertError)
    requires Message(a) == Message(b)
    ensures a == b
  {
    var ma, mb := Message(a), Message(b);
    MessageHead(a);
    MessageHead(b);
    if a.UnknownNode? && b.UnknownNode? {
      var n := |"unknown markdown node: "|;
      assert a.kind == ma[n..] && b.kind == mb[n..];
    } else if a.InvalidNode? && b.InvalidNode? {
      var n := |"Expected node, not `"|;
      assert a.shown == ma[n..|ma| - 1] && b.shown == mb[n..|mb| - 1];
    }
  }

  /** The built-in `root` handler: the root converts exactly when all its children do,
      passes their error on, and otherwise fills the schema's top node with them. */
  lemma RootConvertsChildren(s: State, n: Md.Node, parent: Option<Md.Node>)
    requires n.Parent? && n.kind == "root" && "root" !in s.handlers
    ensures Handle(s, n, parent).Success? <==> All(s, n).Success?
    ensures All(s, n).Failure? ==> Handle(s, n, parent) == Failure(All(s, n).error)
    ensures All(s, n).Success? ==>
              Handle(s, n, parent) == Success(CreateAndFill(s, s.schema.topNode, map[], All(s, n).value))
  {
    assert Md.TypeOf(n).value == "root" && "root" !in Ignored;
  }

  /** The compiler on an mdast root with no user `root` handler, under the definition
      tables of the whole tree: it fails with the first child's error when a top-level child
      does not convert; otherwise it fails when the top node cannot be filled with the
      converted children or `doc.check()` rejects the filled node, and yields that node. */
  lemma CompileRoot(schema: PM.Schema, handlers: map<string, Handler>,
                    fill: (PM.ElementKind, seq<PM.Node>) -> Option<seq<PM.Node>>,
                    addToSet: (PM.Mark, seq<PM.Mark>) -> seq<PM.Mark>,
                    trimLines: string -> string, html: Md.Node -> Out<PM.Node>,
                    check: PM.Node -> bool, tree: Md.Node)
    requires tree.Parent? && tree.kind == "root" && "root" !in handlers
    ensures var s := CreateState(schema, handlers, fill, addToSet, trimLines, html, tree);
            var r := Compile(schema, handlers, fill, addToSet, trimLines, html, check, tree);
            && Tabulates(Preorder(tree), s.tables)
            && (All(s, tree).Success? <==> forall j :: 0 <= j < |tree.children| ==> Handle(s, tree.children[j], Some(tree)).Success?)
            && (All(s, tree).Failure? ==> r == Failure(ConversionFailed(All(s, tree).error)))
            && (All(s, tree).Success? && fill(schema.topNode, All(s, tree).value).None? ==> r == Failure(NotADocument))
            && (All(s, tree).Success? && fill(schema.topNode, All(s, tree).value).Some? ==>
                  var doc := PM.Element(schema.topNode, map[], fill(schema.topNode, All(s, tree).value).value, []);
                  r == if check(doc) then Success(doc) else Failure(InvalidDocument))
  {
    var s := CreateState(schema, handlers, fill, addToSet, trimLines, html, tree);
    RootConvertsChildren(s, tree, None);
    AllSucceeds(s, tree, tree, 0);
  }

  /** What `all` keeps of child `i`: its answer, trimmed when the previous sibling is a
      `break`; nothing for a child that does not convert. */
  function ChildAnswer(s: State, owner: Md.Node, asParent: Md.Node, i: nat): Out<PM.Node>
    requires i < |Md.Children(owner)|
  {
    var kids := Md.Children(owner);
    match Handle(s, kids[i], Some(asParent))
    case Failure(_) => Nothing
    case Success(o) => if i > 0 && Md.IsType(kids[i - 1], "break") then AfterBreak(o) else o
  }

  /** The children's answers from child `i` on, in order. */
  function ChildAnswers(s: State, owner: Md.Node, asParent: Md.Node, i: nat): (outs: seq<Out<PM.Node>>)
    requires i <= |Md.Children(owner)|
    ensures |outs| == |Md.Children(owner)| - i
    ensures forall j :: 0 <= j < |outs| ==> outs[j] == ChildAnswer(s, owner, asParent, i + j)
  {
    seq(|Md.Children(owner)| - i, j requires 0 <= j < |Md.Children(owner)| - i => ChildAnswer(s, owner, asParent, i + j))
  }

  /** The value of a successful `all`: the children's answers, in order, with `null`s
      dropped, arrays spliced in place, and the answer after a `break` trimmed. */
  lemma {:induction false} AllOfSplices(s: State, owner: Md.Node, asParent: Md.Node, i: nat)
    requires i <= |Md.Children(owner)|
    ensures AllOf(s, owner, asParent, i).Success? ==>
              AllOf(s, owner, asParent, i).value == Splice(ChildAnswers(s, owner, asParent, i))
    decreases |Md.Children(owner)| - i
  {
    var kids := Md.Children(owner);
    if i < |kids| {
      AllOfSplices(s, owner, asParent, i + 1);
      var outs := ChildAnswers(s, owner, asParent, i);
      assert outs[1..] == ChildAnswers(s, owner, asParent, i + 1);
      assert Splice(outs) == Contribution(outs[0]) + Splice(outs[1..]);
    } else {
      assert AllOf(s, owner, asParent, i) == Success([]);
    }
  }

  /** The children loop depends on the owner only through its children. */
  lemma {:induction false} AllOfSharesChildren(s: State, a: Md.Node, b: Md.Node, asParent: Md.Node, i: nat)
    requires Md.Children(a) == Md.Children(b) && i <= |Md.Children(a)|
    ensures AllOf(s, a, asParent, i) == AllOf(s, b, asParent, i)
    decreases |Md.Children(a)| - i
  {
    if i < |Md.Children(a)| {
      AllOfSharesChildren(s, a, b, asParent, i + 1);
    }
  }

  /** A node of a type that neither the user nor the built-ins handle, anywhere among
      the children of a converted node, makes the whole conversion fail: content is never
      dropped silently. */
  lemma UnknownChildFails(s: State, owner: Md.Node, asParent: Md.Node, j: int)
    requires 0 <= j < |Md.Children(owner)|
    requires var c := Md.Children(owner)[j];
             !c.NotNode? && Md.TypeOf(c).value !in s.handlers && Md.TypeOf(c).value !in Defaults
    ensures AllOf(s, owner, asParent, 0).Failure?
  {
    AllSucceeds(s, owner, asParent, 0);
  }

  /** A resolved reference: with no user handler for references, a reference whose
      upper-cased identifier is the first definition of that identifier in the tree (in
      document order) is handed to the user's `link` handler as a link to that
      definition's destination. */
  lemma ReferenceUsesFirstDefinition(s: State, tree: Md.Node, ref: Md.Node, parent: Option<Md.Node>, i: int)
    requires ref.LinkReference?
    requires s.tables == BuildTables(tree)
    requires "linkReference" !in s.handlers && "link" in s.handlers
    requires First(LinkDefinitions, Preorder(tree), i, Upper(ref.identifier))
    ensures Preorder(tree)[i].Definition?
    ensures Handle(s, ref, parent) == Invoke(s, s.handlers["link"], LinkNode(Preorder(tree)[i], ref), parent, ref)
  {
    FirstDefinitionWins(LinkDefinitions, Preorder(tree), i, Upper(ref.identifier));
  }

  /** Identifiers match case-insensitively: two references with the same children and
      data whose identifiers differ only in letter case convert identically once resolved. */
  lemma ReferenceMatchIgnoresCase(s: State, a: Md.Node, b: Md.Node, parent: Option<Md.Node>)
    requires a.LinkReference? && b.LinkReference?
    requires |a.identifier| == |b.identifier|
    requires forall i :: 0 <= i < |a.identifier| ==> CaseVariant(a.identifier[i], b.identifier[i])
    requires a.children == b.children && a.data == b.data
    requires "linkReference" !in s.handlers && Upper(a.identifier) in s.tables.definitions
    ensures Handle(s, a, parent) == Handle(s, b, parent)
  {
    UpperIgnoresCase(a.identifier, b.identifier);
    var d := s.tables.definitions[Upper(a.identifier)];
    var link := LinkNode(d, a);
    assert LinkNode(d, b) == link;
    if "link" in s.handlers {
      AllOfSharesChildren(s, a, b, link, 0);
      assert Invoke(s, s.handlers["link"], link, parent, a) == Invoke(s, s.handlers["link"], link, parent, b);
    }
    assert Handle(s, a, parent) == ResolveReference(s, a, parent);
    assert Handle(s, b, parent) == ResolveReference(s, b, parent);
  }

  /** An unresolved reference, with no user handler for references, reads back as the
      bracketed text it was written as: `[`, the text of its converted children, then the
      closing part for its reference style. */
  lemma UnresolvedReferenceReverts(s: State, ref: Md.Node, parent: Option<Md.Node>)
    requires ref.LinkReference?
    requires "linkReference" !in s.handlers && Upper(ref.identifier) !in s.tables.definitions
    ensures Handle(s, ref, parent).Success? <==> All(s, ref).Success?
    ensures Handle(s, ref, parent).Success? ==>
              && Handle(s, ref, parent).value.Many?
              && Handle(s, ref, parent).value.nodes
                 == Bracket(All(s, ref).value, Suffix(ref.referenceType, ref.labelText, ref.identifier))
              && PM.TextOfAll(Handle(s, ref, parent).value.nodes)
                 == "[" + PM.TextOfAll(All(s, ref).value) + Suffix(ref.referenceType, ref.labelText, ref.identifier)
  {
  }

  /** A resolved reference with neither a `linkReference` nor a `link` handler converts
      to nothing. */
  lemma ResolvedWithoutLinkHandler(s: State, ref: Md.Node, parent: Option<Md.Node>)
    requires ref.LinkReference?
    requires "linkReference" !in s.handlers && "link" !in s.handlers
    requires Upper(ref.identifier) in s.tables.definitions
    ensures Handle(s, ref, parent) == Success(Nothing)
  {
  }

  /** `toPmMark`: every converted child, in order, gains the mark through `addToSet` and is
      otherwise unchanged. */
  lemma MarkHandlerMarksEachChild(s: State, markType: string, getAttrs: Md.Node -> PM.Attrs,
                                  n: Md.Node, parent: Option<Md.Node>, children: seq<PM.Node>)
    ensures var o := Apply(s, ToMark(markType, getAttrs), n, parent, children);
            && o.Many? && |o.nodes| == |children|
            && forall i :: 0 <= i < |children| ==>
                 && o.nodes[i].marks == s.addToSet(PM.Mark(markType, getAttrs(n)), children[i].marks)
                 && o.nodes[i].TypeName() == children[i].TypeName()
                 && PM.TextContent(o.nodes[i]) == PM.TextContent(children[i])
                 && o.nodes[i].(marks := children[i].marks) == children[i]
  {
  }

  /** `toPmNode`: the node converts exactly when its children do, and then becomes one
      node of the handler's type with the handler's attributes over `createAndFill`'s
      completion of the children, or nothing when they cannot be completed. */
  lemma NodeHandlerFillsChildren(s: State, nodeType: PM.ElementKind, getAttrs: Md.Node -> PM.Attrs,
                                 n: Md.Node, parent: Option<Md.Node>)
    ensures var r := Invoke(s, ToNode(nodeType, getAttrs), n, parent, n);
            && (r.Success? <==> All(s, n).Success?)
            && (All(s, n).Failure? ==> r == Failure(All(s, n).error))
            && (r.Success? ==>
                  && !r.value.Many?
                  && (r.value.Nothing? <==> s.fill(nodeType, All(s, n).value).None?)
                  && (r.value.Single? ==>
                        r.value.node == PM.Element(nodeType, getAttrs(n), s.fill(nodeType, All(s, n).value).value, [])))
  {
  }

  /** The default text handler keeps a value without line breaks as the trimmed value. */
  lemma TextWithoutBreaksKept(s: State, n: Md.Node, parent: Option<Md.Node>)
    requires n.Text? && "text" !in s.handlers
    requires forall i :: 0 <= i < |s.trimLines(n.value)| - 1 ==> s.trimLines(n.value)[i] != '\n'
    ensures Handle(s, n, parent) == Success(Single(PM.Text(s.trimLines(n.value), [])))
  {
    ReplaceNewlinesKeepsSingleLines(s.trimLines(n.value));
  }
}
