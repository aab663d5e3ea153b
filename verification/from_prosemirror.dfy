/** ProseMirror → mdast: `one` dispatches on the node type, `all` converts the children,
    and `hydrateMarks` turns the marks of adjacent children into shared wrapper nodes. */
module FromProseMirror {
  import opened Results
  import opened HandlerResults
  import opened MarkRuns
  import PM = ProseMirror
  import Md = Mdast

  /** A node handler. `WrapNode` is the shape `fromPmNode(type, getAttrs)` builds; `NodeFn`
      is any other handler, given the node, its parent and the converted children
      (`state.all(node)`; conversion in this direction never fails, so computing them up
      front changes nothing). */
  datatype NodeHandler =
    | WrapNode(kind: Md.GenericKind, getAttrs: PM.Node -> Md.Props)
    | NodeFn(f: (PM.Node, Option<PM.Node>, seq<Md.Node>) -> Out<Md.Node>)

  /** A mark handler. `WrapMark` is the shape `fromPmMark(type, getAttrs)` builds; `MarkFn`
      is any other handler of the mark, the parent and the converted children. */
  datatype MarkHandler =
    | WrapMark(kind: Md.GenericKind, getAttrs: PM.Mark -> Md.Props)
    | MarkFn(f: (PM.Mark, PM.Node, seq<Md.Node>) -> Out<Md.Node>)

  /** The conversion state: the schema and the two partial handler tables. */
  datatype State = State(schema: PM.Schema, nodes: map<string, NodeHandler>, marks: map<string, MarkHandler>)

  /** `createState(nodeHandlers, markHandlers)`. */
  function CreateState(schema: PM.Schema, nodes: map<string, NodeHandler>, marks: map<string, MarkHandler>): (s: State)
    ensures s.nodes == nodes && s.marks == marks && s.schema == schema
  {
    State(schema, nodes, marks)
  }

  /** Runs a node handler on a node whose children have already been converted. */
  function ApplyNode(h: NodeHandler, n: PM.Node, parent: Option<PM.Node>, children: seq<Md.Node>): (r: Out<Md.Node>)
    ensures h.WrapNode? ==> r == Single(Md.Parent(h.kind, h.getAttrs(n), children, map[]))
  {
    match h
    case WrapNode(kind, getAttrs) => Single(Md.Parent(kind, getAttrs(n), children, map[]))
    case NodeFn(f) => f(n, parent, children)
  }

  /** Runs a mark handler on the converted members of one run. */
  function ApplyMark(h: MarkHandler, m: PM.Mark, parent: PM.Node, children: seq<Md.Node>): (r: Out<Md.Node>)
    ensures h.WrapMark? ==> r == Single(Md.Parent(h.kind, h.getAttrs(m), children, map[]))
  {
    match h
    case WrapMark(kind, getAttrs) => Single(Md.Parent(kind, getAttrs(m), children, map[]))
    case MarkFn(f) => f(m, parent, children)
  }

  /** The handler `fromPmNode(type, getAttrs)` returns. */
  function FromPmNode(kind: Md.GenericKind, getAttrs: PM.Node -> Md.Props): (h: NodeHandler)
    ensures forall n, p, c :: ApplyNode(h, n, p, c) == Single(Md.Parent(kind, getAttrs(n), c, map[]))
  {
    WrapNode(kind, getAttrs)
  }

  /** The handler `fromPmMark(type, getAttrs)` returns. */
  function FromPmMark(kind: Md.GenericKind, getAttrs: PM.Mark -> Md.Props): (h: MarkHandler)
    ensures forall m, p, c :: ApplyMark(h, m, p, c) == Single(Md.Parent(kind, getAttrs(m), c, map[]))
  {
    WrapMark(kind, getAttrs)
  }

  /** The mdast root wrapping converted children. */
  function Root(children: seq<Md.Node>): Md.Node
  {
    Md.Parent("root", map[], children, map[])
  }

  /** `state.one(pmNode, parent)`: a registered node handler first, then the defaults
      for the top node type and for text; any other node converts to nothing. */
  function One(s: State, n: PM.Node, parent: Option<PM.Node>): (r: Out<Md.Node>)
    ensures n.TypeName() in s.nodes ==> r == ApplyNode(s.nodes[n.TypeName()], n, parent, All(s, n))
    ensures n.TypeName() !in s.nodes && n.Element? && n.kind == s.schema.topNode ==> r == Single(Root(All(s, n)))
    ensures n.TypeName() !in s.nodes && n.Text? ==> r == Single(Md.Text(n.text))
    ensures n.TypeName() !in s.nodes && n.Element? && n.kind != s.schema.topNode ==> r == Nothing
    decreases n, 3, 0, 0, 0
  {
    if n.TypeName() in s.nodes then ApplyNode(s.nodes[n.TypeName()], n, parent, All(s, n))
    else if n.Element? && n.kind == s.schema.topNode then Single(Root(All(s, n)))
    else if n.Text? then Single(Md.Text(n.text))
    else Nothing
  }

  /** The children of `n`, each paired with its own marks. */
  function Items(n: PM.Node): (items: seq<Marked>)
    ensures |items| == |n.Children()|
    ensures forall i :: 0 <= i < |items| ==> items[i] == Marked(n.Children()[i], n.Children()[i].marks)
  {
    seq(|n.Children()|, i requires 0 <= i < |n.Children()| => Marked(n.Children()[i], n.Children()[i].marks))
  }

  /** `state.all(pmNode)`: the children of `n`, converted with their marks grouped. */
  function All(s: State, n: PM.Node): seq<Md.Node>
    decreases n, 2, 0, 0, 0
  {
    if n.Text? then [] else Hydrate(s, Items(n), n)
  }

  /** The children of `parent` listed in `items` all belong to it. */
  ghost predicate ChildrenOf(items: seq<Marked>, parent: PM.Node)
  {
    parent.Element? && forall i :: 0 <= i < |items| ==> items[i].node in parent.content
  }

  /** The longest mark list among `items`, which bounds the wrapper nesting depth. */
  ghost function MaxMarks(items: seq<Marked>): (r: nat)
    ensures forall i :: 0 <= i < |items| ==> |items[i].marks| <= r
  {
    if |items| == 0 then 0
    else
      var rest := MaxMarks(items[1..]);
      assert forall i :: 1 <= i < |items| ==> items[i] == items[1..][i - 1];
      if |items[0].marks| > rest then |items[0].marks| else rest
  }

  /** `MaxMarks` is the least bound. */
  lemma {:induction false} MaxMarksAtMost(items: seq<Marked>, b: nat)
    requires forall i :: 0 <= i < |items| ==> |items[i].marks| <= b
    ensures MaxMarks(items) <= b
  {
    if |items| > 0 {
      assert forall i :: 0 <= i < |items[1..]| ==> items[1..][i] == items[i + 1];
      MaxMarksAtMost(items[1..], b);
    }
  }

  /** `marks.slice(1)`: the marks after the first one (none if there are none). */
  function Rest(marks: seq<PM.Mark>): (r: seq<PM.Mark>)
    ensures |marks| > 0 ==> r == marks[1..] && |r| == |marks| - 1
    ensures |marks| == 0 ==> r == []
  {
    if |marks| == 0 then [] else marks[1..]
  }

  /** Every member of a run with its first mark removed: the input of the recursive call. */
  function Strip(part: seq<Marked>): (r: seq<Marked>)
    ensures |r| == |part|
    ensures forall i :: 0 <= i < |r| ==> r[i] == Marked(part[i].node, Rest(part[i].marks))
  {
    seq(|part|, i requires 0 <= i < |part| => Marked(part[i].node, Rest(part[i].marks)))
  }

  /** Stripping a run whose first member is marked lowers the longest mark list. */
  lemma StripShrinks(part: seq<Marked>)
    requires |part| > 0 && |part[0].marks| > 0
    ensures MaxMarks(Strip(part)) < MaxMarks(part)
  {
    var m := MaxMarks(part);
    assert |part[0].marks| <= m;
    MaxMarksAtMost(Strip(part), m - 1);
  }

  /** `hydrateMarks(children, parent)`: convert every run and splice the answers,
      dropping the `null` ones. */
  function Hydrate(s: State, items: seq<Marked>, parent: PM.Node): seq<Md.Node>
    requires ChildrenOf(items, parent)
    decreases parent, 1, MaxMarks(items), 2, 0
  {
    var parts := Partition(items);
    PartsWithin(items, parts, parent);
    Splice(ProcessParts(s, parts, parent, MaxMarks(items)))
  }

  /** Every run of the partition draws its members from `items`. */
  lemma PartsWithin(items: seq<Marked>, parts: seq<seq<Marked>>, parent: PM.Node)
    requires ChildrenOf(items, parent) && Flatten(parts) == items
    ensures forall k, i :: 0 <= k < |parts| && 0 <= i < |parts[k]| ==>
              parts[k][i] in items && parts[k][i].node in parent.content && |parts[k][i].marks| <= MaxMarks(items)
  {
    forall k, i | 0 <= k < |parts| && 0 <= i < |parts[k]|
      ensures parts[k][i] in items
    {
      FlattenContains(parts, k, i);
    }
  }

  /** A member of a run is a member of the concatenation. */
  lemma {:induction false} FlattenContains(parts: seq<seq<Marked>>, k: nat, i: nat)
    requires k < |parts| && i < |parts[k]|
    ensures parts[k][i] in Flatten(parts)
  {
    var init := parts[..|parts| - 1];
    assert Flatten(parts) == Flatten(init) + parts[|parts| - 1];
    if k < |parts| - 1 {
      assert parts[k] == init[k];
      FlattenContains(init, k, i);
    } else {
      assert parts[k][i] == Flatten(parts)[|Flatten(init)| + i];
    }
  }

  /** `partitioned.flatMap(processChildPartition)`, one run after another. */
  function ProcessParts(s: State, parts: seq<seq<Marked>>, parent: PM.Node, ghost bound: nat): seq<Out<Md.Node>>
    requires parent.Element?
    requires forall k, i :: 0 <= k < |parts| && 0 <= i < |parts[k]| ==>
               parts[k][i].node in parent.content && |parts[k][i].marks| <= bound
    decreases parent, 1, bound, 1, |parts|
  {
    if |parts| == 0 then []
    else
      MaxMarksAtMost(parts[0], bound);
      ProcessChildPartition(s, parts[0], parent) + ProcessParts(s, parts[1..], parent, bound)
  }

  /** `processChildPartition(nodes, parent)`: a run without marks converts member by member;
      otherwise the first member's leading mark is removed from every member, the rest is
      converted recursively, and the mark's handler wraps the result, or, without a
      handler, the converted children are kept as they are. */
  function ProcessChildPartition(s: State, part: seq<Marked>, parent: PM.Node): seq<Out<Md.Node>>
    requires ChildrenOf(part, parent)
    decreases parent, 1, MaxMarks(part), 0, 0
  {
    if |part| == 0 || |part[0].marks| == 0 then OneEach(s, part, parent)
    else
      var m := part[0].marks[0];
      StripShrinks(part);
      var children := Hydrate(s, Strip(part), parent);
      if m.kind in s.marks then [ApplyMark(s.marks[m.kind], m, parent, children)]
      else seq(|children|, i requires 0 <= i < |children| => Single(children[i]))
  }

  /** `nodes.map((node) => state.one(node.node, parent))`. */
  function OneEach(s: State, items: seq<Marked>, parent: PM.Node): (r: seq<Out<Md.Node>>)
    requires ChildrenOf(items, parent)
    ensures |r| == |items|
    decreases parent, 0, 0, 0, |items|
  {
    if |items| == 0 then []
    else [One(s, items[0].node, Some(parent))] + OneEach(s, items[1..], parent)
  }

  /** `fromProseMirror(doc, options)`: the document converted by `one` with no parent. */
  function FromProseMirror(schema: PM.Schema, nodes: map<string, NodeHandler>, marks: map<string, MarkHandler>,
                           doc: PM.Node): (r: Out<Md.Node>)
    ensures doc.TypeName() !in nodes && doc.Element? && doc.kind == schema.topNode ==>
              r == Single(Root(All(CreateState(schema, nodes, marks), doc)))
    ensures doc.TypeName() in nodes ==>
              r == ApplyNode(nodes[doc.TypeName()], doc, None, All(CreateState(schema, nodes, marks), doc))
  {
    One(CreateState(schema, nodes, marks), doc, None)
  }
}
