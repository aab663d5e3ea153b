/** The development-build assertion `one` makes about the converted children of the top
    node. As written it demands that some child be an mdast root, while its message
    ("Expected non-root nodes") asks that none be. With `fromPmNode` and `fromPmMark`
    handlers no child is ever a root, so the check as written rejects every such
    document and the intended check accepts every one. */
module RootCheck {
  import opened Results
  import opened HandlerResults
  import opened MarkRuns
  import opened FromProseMirror
  import opened FromProseMirrorProps
  import PM = ProseMirror
  import Md = Mdast
  import Scenarios
  import ExampleNames

  /** The message the assertion fails with. */
  const RootMessage := "Expected non-root nodes"

  /** No node of the list is an mdast root. */
  predicate NoRoot(ns: seq<Md.Node>)
  {
    forall i :: 0 <= i < |ns| ==> !Md.IsType(ns[i], "root")
  }

  /** The top-node branch of `one` with the assertion as written: it passes only when
      some converted child is a root. */
  function CheckAsWritten(children: seq<Md.Node>): Result<Md.Node, string>
  {
    if !NoRoot(children) then Success(Root(children)) else Failure(RootMessage)
  }

  /** The same branch with the assertion its message describes: no child may be a root. */
  function CheckIntended(children: seq<Md.Node>): Result<Md.Node, string>
  {
    if NoRoot(children) then Success(Root(children)) else Failure(RootMessage)
  }

  /** Only `fromPmNode` and `fromPmMark` handlers, none of which builds a root. */
  ghost predicate WrappersOnly(s: State)
  {
    && (forall k :: k in s.nodes ==> s.nodes[k].WrapNode? && s.nodes[k].kind != "root")
    && (forall k :: k in s.marks ==> s.marks[k].WrapMark? && s.marks[k].kind != "root")
  }

  /** No member has the top node's type. */
  ghost predicate NoTopNode(s: State, items: seq<Marked>)
  {
    forall i :: 0 <= i < |items| ==> items[i].node.TypeName() != s.schema.topNode
  }

  lemma NoRootAppend(a: seq<Md.Node>, b: seq<Md.Node>)
    requires NoRoot(a) && NoRoot(b)
    ensures NoRoot(a + b)
  {
    forall i | 0 <= i < |a + b|
      ensures !Md.IsType((a + b)[i], "root")
    {
      if i < |a| {
        assert (a + b)[i] == a[i];
      } else {
        assert (a + b)[i] == b[i - |a|];
      }
    }
  }

  /** A child that is not a top node converts to no root. */
  lemma OneNoRoot(s: State, n: PM.Node, parent: Option<PM.Node>)
    requires WrappersOnly(s) && n.TypeName() != s.schema.topNode
    ensures NoRoot(Contribution(One(s, n, parent)))
  {
  }

  lemma {:induction false} OneEachNoRoot(s: State, items: seq<Marked>, parent: PM.Node)
    requires ChildrenOf(items, parent) && WrappersOnly(s) && NoTopNode(s, items)
    ensures NoRoot(Splice(OneEach(s, items, parent)))
    decreases |items|
  {
    if |items| > 0 {
      OneNoRoot(s, items[0].node, Some(parent));
      OneEachNoRoot(s, items[1..], parent);
      NoRootAppend(Contribution(One(s, items[0].node, Some(parent))), Splice(OneEach(s, items[1..], parent)));
    }
  }

  /** With wrapper handlers only, grouping marks never yields a root. */
  lemma {:induction false} HydrateNoRoot(s: State, items: seq<Marked>, parent: PM.Node)
    requires ChildrenOf(items, parent) && WrappersOnly(s) && NoTopNode(s, items)
    ensures NoRoot(Hydrate(s, items, parent))
    decreases MaxMarks(items), 2, 0
  {
    var parts := Partition(items);
    PartsWithin(items, parts, parent);
    PartsNoRoot(s, parts, parent, MaxMarks(items));
  }

  lemma {:induction false} PartsNoRoot(s: State, parts: seq<seq<Marked>>, parent: PM.Node, bound: nat)
    requires parent.Element? && WrappersOnly(s)
    requires forall k, i :: 0 <= k < |parts| && 0 <= i < |parts[k]| ==>
               parts[k][i].node in parent.content && |parts[k][i].marks| <= bound
               && parts[k][i].node.TypeName() != s.schema.topNode
    ensures NoRoot(Splice(ProcessParts(s, parts, parent, bound)))
    decreases bound, 1, |parts|
  {
    if |parts| > 0 {
      MaxMarksAtMost(parts[0], bound);
      assert ChildrenOf(parts[0], parent) && NoTopNode(s, parts[0]);
      RunNoRoot(s, parts[0], parent);
      PartsNoRoot(s, parts[1..], parent, bound);
      SpliceAppend(ProcessChildPartition(s, parts[0], parent), ProcessParts(s, parts[1..], parent, bound));
      NoRootAppend(Splice(ProcessChildPartition(s, parts[0], parent)), Splice(ProcessParts(s, parts[1..], parent, bound)));
    }
  }

  lemma {:induction false} RunNoRoot(s: State, part: seq<Marked>, parent: PM.Node)
    requires ChildrenOf(part, parent) && WrappersOnly(s) && NoTopNode(s, part)
    ensures NoRoot(Splice(ProcessChildPartition(s, part, parent)))
    decreases MaxMarks(part), 0, 0
  {
    if |part| == 0 || |part[0].marks| == 0 {
      OneEachNoRoot(s, part, parent);
    } else {
      var m := part[0].marks[0];
      StripShrinks(part);
      StripKeepsNodes(s, part, parent);
      HydrateNoRoot(s, Strip(part), parent);
      if m.kind in s.marks {
        HandledRunWrapped(s, part, parent);
        WrapperNoRoot(s.marks[m.kind], m, parent, Hydrate(s, Strip(part), parent));
      } else {
        UnhandledRunKept(s, part, parent);
      }
    }
  }

  /** Removing marks keeps the members' nodes. */
  lemma StripKeepsNodes(s: State, part: seq<Marked>, parent: PM.Node)
    requires ChildrenOf(part, parent) && NoTopNode(s, part)
    ensures ChildrenOf(Strip(part), parent) && NoTopNode(s, Strip(part))
  {
  }

  /** A `fromPmMark` wrapper is not a root. */
  lemma WrapperNoRoot(h: MarkHandler, m: PM.Mark, parent: PM.Node, children: seq<Md.Node>)
    requires h.WrapMark? && h.kind != "root"
    ensures NoRoot(Splice([ApplyMark(h, m, parent, children)]))
  {
    var w := ApplyMark(h, m, parent, children);
    assert Splice([w]) == Contribution(w) + Splice([w][1..]);
  }

  /** With `fromPmNode` and `fromPmMark` handlers that build no root, a node none of
      whose children has the top node's type converts to children none of which is a root. */
  lemma WrapperChildrenNeverRoot(s: State, n: PM.Node)
    requires WrappersOnly(s) && n.Element?
    requires forall c :: c in n.content ==> c.TypeName() != s.schema.topNode
    ensures NoRoot(All(s, n))
  {
    var items := Items(n);
    assert ChildrenOf(items, n) && NoTopNode(s, items);
    HydrateNoRoot(s, items, n);
  }

  /** As written, the assertion rejects every such document: the top-node branch never
      gets past it. */
  lemma AsWrittenRejectsWrapperDocuments(s: State, doc: PM.Node)
    requires WrappersOnly(s) && doc.Element?
    requires forall c :: c in doc.content ==> c.TypeName() != s.schema.topNode
    ensures CheckAsWritten(All(s, doc)) == Failure(RootMessage)
  {
    WrapperChildrenNeverRoot(s, doc);
  }

  /** The intended assertion accepts every such document and yields the root. */
  lemma IntendedAcceptsWrapperDocuments(s: State, doc: PM.Node)
    requires WrappersOnly(s) && doc.Element?
    requires forall c :: c in doc.content ==> c.TypeName() != s.schema.topNode
    ensures CheckIntended(All(s, doc)) == Success(Root(All(s, doc)))
  {
    WrapperChildrenNeverRoot(s, doc);
  }

  /** The document of the nested-marks test, `doc(p(x, em(y, strong(z))), p(w))` with
      `fromPmNode`/`fromPmMark` handlers: the assertion as written rejects it, the
      intended one yields exactly the root `fromProseMirror` returns. */
  lemma NestedMarksTestDocument(x: string, y: string, z: string, w: string)
    ensures var d := Scenarios.Doc(x, y, z, w);
            && CheckAsWritten(All(Scenarios.ToMdast, d)) == Failure(RootMessage)
            && CheckIntended(All(Scenarios.ToMdast, d)).Success?
            && FromProseMirror.FromProseMirror(PM.Schema(ExampleNames.PmDoc), Scenarios.ToMdast.nodes, Scenarios.ToMdast.marks, d)
               == Single(CheckIntended(All(Scenarios.ToMdast, d)).value)
  {
    var s := Scenarios.ToMdast;
    var d := Scenarios.Doc(x, y, z, w);
    assert WrappersOnly(s);
    assert forall c :: c in d.content ==> c.TypeName() != s.schema.topNode;
    AsWrittenRejectsWrapperDocuments(s, d);
    IntendedAcceptsWrapperDocuments(s, d);
  }
}
