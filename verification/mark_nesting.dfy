/** Nesting without loss: when every mark has a `fromPmMark` handler, reading the wrappers
    back off the produced mdast gives every child again, in order, with its marks. */
module MarkNesting {
  import opened Results
  import opened HandlerResults
  import opened MarkRuns
  import opened MarkRunsProps
  import opened FromProseMirror
  import opened FromProseMirrorProps
  import PM = ProseMirror
  import Md = Mdast

  /** A wrapper as a reader sees it: its type and fields. */
  datatype Layer = Layer(kind: string, props: Md.Props)

  /** A converted leaf with the wrappers around it, outermost first. */
  datatype Leaf = Leaf(node: Md.Node, layers: seq<Layer>)

  /** Puts every leaf under one more, outermost wrapper. */
  function Under(l: Layer, leaves: seq<Leaf>): (r: seq<Leaf>)
    ensures |r| == |leaves|
    ensures forall i :: 0 <= i < |r| ==> r[i] == Leaf(leaves[i].node, [l] + leaves[i].layers)
  {
    seq(|leaves|, i requires 0 <= i < |leaves| => Leaf(leaves[i].node, [l] + leaves[i].layers))
  }

  /** The leaves of an mdast forest, descending only into wrappers whose type is in `wrappers`. */
  function Unnest(ns: seq<Md.Node>, wrappers: set<string>): seq<Leaf>
    decreases ns
  {
    if |ns| == 0 then [] else UnnestOne(ns[0], wrappers) + Unnest(ns[1..], wrappers)
  }

  function UnnestOne(n: Md.Node, wrappers: set<string>): seq<Leaf>
    decreases n
  {
    if n.Parent? && n.kind in wrappers then Under(Layer(n.kind, n.props), Unnest(n.children, wrappers))
    else [Leaf(n, [])]
  }

  lemma {:induction false} UnnestAppend(a: seq<Md.Node>, b: seq<Md.Node>, wrappers: set<string>)
    ensures Unnest(a + b, wrappers) == Unnest(a, wrappers) + Unnest(b, wrappers)
    decreases |a|
  {
    if |a| == 0 {
      assert a + b == b;
    } else {
      assert (a + b)[1..] == a[1..] + b;
      UnnestAppend(a[1..], b, wrappers);
    }
  }

  /** The mark has a `fromPmMark` handler whose node type is read back as a wrapper. */
  ghost predicate WrapsInto(s: State, m: PM.Mark, wrappers: set<string>)
  {
    m.kind in s.marks && s.marks[m.kind].WrapMark? && s.marks[m.kind].kind in wrappers
  }

  /** Every mark of every member wraps into `wrappers`. */
  ghost predicate MarksWrap(s: State, items: seq<Marked>, wrappers: set<string>)
  {
    forall i, j :: 0 <= i < |items| && 0 <= j < |items[i].marks| ==> WrapsInto(s, items[i].marks[j], wrappers)
  }

  /** The answer is one node that is not itself read as a wrapper. */
  predicate PlainLeaf(o: Out<Md.Node>, wrappers: set<string>)
  {
    o.Single? && !(o.node.Parent? && o.node.kind in wrappers)
  }

  /** Every member, converted on its own, is a plain leaf. */
  ghost predicate LeavesPlain(s: State, items: seq<Marked>, parent: PM.Node, wrappers: set<string>)
  {
    forall i :: 0 <= i < |items| ==> PlainLeaf(One(s, items[i].node, Some(parent)), wrappers)
  }

  /** The wrapper a `fromPmMark` handler builds for `m`. */
  function LayerOf(s: State, m: PM.Mark): Layer
  {
    if m.kind in s.marks && s.marks[m.kind].WrapMark? then
      Layer(s.marks[m.kind].kind, s.marks[m.kind].getAttrs(m))
    else Layer("", map[])
  }

  /** The wrappers a leaf should sit in: one per mark, in mark order. */
  function Layers(s: State, marks: seq<PM.Mark>): (r: seq<Layer>)
    ensures |r| == |marks|
    ensures forall j :: 0 <= j < |r| ==> r[j] == LayerOf(s, marks[j])
  {
    seq(|marks|, j requires 0 <= j < |marks| => LayerOf(s, marks[j]))
  }

  /** The node of a single-node answer. */
  function NodeOf(o: Out<Md.Node>): Md.Node
  {
    if o.Single? then o.node else Md.NotNode("")
  }

  /** A member converted on its own, inside the wrappers of its marks. */
  function ExpectedLeaf(s: State, item: Marked, parent: PM.Node): Leaf
  {
    Leaf(NodeOf(One(s, item.node, Some(parent))), Layers(s, item.marks))
  }

  /** Each member converted on its own, inside the wrappers of its marks. */
  function Expected(s: State, items: seq<Marked>, parent: PM.Node): (r: seq<Leaf>)
    ensures |r| == |items|
    ensures forall i :: 0 <= i < |items| ==> r[i] == ExpectedLeaf(s, items[i], parent)
  {
    seq(|items|, i requires 0 <= i < |items| => ExpectedLeaf(s, items[i], parent))
  }

  lemma ExpectedAppend(s: State, a: seq<Marked>, b: seq<Marked>, parent: PM.Node)
    ensures Expected(s, a + b, parent) == Expected(s, a, parent) + Expected(s, b, parent)
  {
  }

  /** Nesting theorem: every leaf ends inside exactly the wrappers of its marks, outermost
      first, and the leaves keep their order. Neighbours sharing a mark share its wrapper. */
  lemma {:induction false} NestingRoundTrip(s: State, items: seq<Marked>, parent: PM.Node, wrappers: set<string>)
    requires ChildrenOf(items, parent)
    requires MarksWrap(s, items, wrappers) && LeavesPlain(s, items, parent, wrappers)
    ensures Unnest(Hydrate(s, items, parent), wrappers) == Expected(s, items, parent)
    decreases MaxMarks(items), 2, 0
  {
    var parts := Partition(items);
    PartsWithin(items, parts, parent);
    forall k | 0 <= k < |parts|
      ensures MarksWrap(s, parts[k], wrappers) && LeavesPlain(s, parts[k], parent, wrappers)
    {
      forall i | 0 <= i < |parts[k]|
        ensures exists t :: 0 <= t < |items| && items[t] == parts[k][i]
      {
        assert parts[k][i] in items;
      }
    }
    PartsRoundTrip(s, parts, parent, MaxMarks(items), wrappers);
  }

  lemma {:induction false} PartsRoundTrip(s: State, parts: seq<seq<Marked>>, parent: PM.Node, bound: nat, wrappers: set<string>)
    requires parent.Element?
    requires forall k, i :: 0 <= k < |parts| && 0 <= i < |parts[k]| ==>
               parts[k][i].node in parent.content && |parts[k][i].marks| <= bound
    requires NonEmptyRuns(parts) && UniformRuns(parts)
    requires forall k :: 0 <= k < |parts| ==>
               MarksWrap(s, parts[k], wrappers) && LeavesPlain(s, parts[k], parent, wrappers)
    ensures Unnest(Splice(ProcessParts(s, parts, parent, bound)), wrappers) == Expected(s, Flatten(parts), parent)
    decreases bound, 1, |parts|
  {
    if |parts| == 0 {
      assert Flatten(parts) == [];
    } else {
      var rest := parts[1..];
      assert NonEmptyRuns(rest) && UniformRuns(rest) by {
        forall k, i | 0 <= k < |rest| && 0 <= i < |rest[k]|
          ensures KeyOf(rest[k][i]) == KeyOf(rest[k][0])
        {
          assert rest[k] == parts[k + 1];
        }
      }
      MaxMarksAtMost(parts[0], bound);
      assert ChildrenOf(parts[0], parent);
      assert forall i :: 0 <= i < |parts[0]| ==> KeyOf(parts[0][i]) == KeyOf(parts[0][0]);
      RunRoundTrip(s, parts[0], parent, wrappers);
      PartsRoundTrip(s, rest, parent, bound, wrappers);
      FlattenCons(parts);
      ExpectedAppend(s, parts[0], Flatten(rest), parent);
      var here := ProcessChildPartition(s, parts[0], parent);
      var there := ProcessParts(s, rest, parent, bound);
      SpliceAppend(here, there);
      UnnestAppend(Splice(here), Splice(there), wrappers);
    }
  }

  lemma {:induction false} RunRoundTrip(s: State, part: seq<Marked>, parent: PM.Node, wrappers: set<string>)
    requires ChildrenOf(part, parent) && |part| > 0
    requires forall i :: 0 <= i < |part| ==> KeyOf(part[i]) == KeyOf(part[0])
    requires MarksWrap(s, part, wrappers) && LeavesPlain(s, part, parent, wrappers)
    ensures Unnest(Splice(ProcessChildPartition(s, part, parent)), wrappers) == Expected(s, part, parent)
    decreases MaxMarks(part), 0, 2
  {
    if |part[0].marks| == 0 {
      forall i | 0 <= i < |part|
        ensures part[i].marks == []
      {
        assert KeyOf(part[i]) == NoMarks;
      }
      PlainRun(s, part, parent, wrappers);
    } else {
      MarkedRunRoundTrip(s, part, parent, wrappers);
    }
  }

  lemma {:induction false} MarkedRunRoundTrip(s: State, part: seq<Marked>, parent: PM.Node, wrappers: set<string>)
    requires ChildrenOf(part, parent) && |part| > 0 && |part[0].marks| > 0
    requires forall i :: 0 <= i < |part| ==> KeyOf(part[i]) == KeyOf(part[0])
    requires MarksWrap(s, part, wrappers) && LeavesPlain(s, part, parent, wrappers)
    ensures Unnest(Splice(ProcessChildPartition(s, part, parent)), wrappers) == Expected(s, part, parent)
    decreases MaxMarks(part), 0, 1
  {
    var m := part[0].marks[0];
    assert WrapsInto(s, m, wrappers);
    StripShrinks(part);
    SharedLead(part, m);
    StrippedStillWraps(s, part, parent, m, wrappers);
    var stripped := Strip(part);
    var children := Hydrate(s, stripped, parent);
    NestingRoundTrip(s, stripped, parent, wrappers);
    HandledRunWrapped(s, part, parent);
    var h := s.marks[m.kind];
    var wrapper := Md.Parent(h.kind, h.getAttrs(m), children, map[]);
    WrapperUnnests(wrapper, wrappers);
    WrappedLayers(s, part, parent, m, Expected(s, stripped, parent));
  }

  /** Every member of a run keyed by a mark starts with that mark. */
  lemma SharedLead(part: seq<Marked>, m: PM.Mark)
    requires |part| > 0 && |part[0].marks| > 0 && part[0].marks[0] == m
    requires forall i :: 0 <= i < |part| ==> KeyOf(part[i]) == KeyOf(part[0])
    ensures forall i :: 0 <= i < |part| ==> |part[i].marks| > 0 && part[i].marks[0] == m
  {
    forall i | 0 <= i < |part|
      ensures |part[i].marks| > 0 && part[i].marks[0] == m
    {
      assert KeyOf(part[i]) == Leading(m);
    }
  }

  /** Removing the shared leading mark keeps the members' other marks and their nodes. */
  lemma StrippedStillWraps(s: State, part: seq<Marked>, parent: PM.Node, m: PM.Mark, wrappers: set<string>)
    requires forall i :: 0 <= i < |part| ==> |part[i].marks| > 0 && part[i].marks[0] == m
    requires MarksWrap(s, part, wrappers) && LeavesPlain(s, part, parent, wrappers)
    ensures MarksWrap(s, Strip(part), wrappers) && LeavesPlain(s, Strip(part), parent, wrappers)
  {
    var stripped := Strip(part);
    forall i, j | 0 <= i < |stripped| && 0 <= j < |stripped[i].marks|
      ensures WrapsInto(s, stripped[i].marks[j], wrappers)
    {
      assert stripped[i].marks[j] == part[i].marks[j + 1];
    }
    forall i | 0 <= i < |stripped|
      ensures PlainLeaf(One(s, stripped[i].node, Some(parent)), wrappers)
    {
      assert stripped[i].node == part[i].node;
    }
  }

  /** One wrapper read back: its children's leaves under its layer. */
  lemma WrapperUnnests(wrapper: Md.Node, wrappers: set<string>)
    requires wrapper.Parent? && wrapper.kind in wrappers
    ensures Unnest(Splice([Single(wrapper)]), wrappers)
            == Under(Layer(wrapper.kind, wrapper.props), Unnest(wrapper.children, wrappers))
  {
    assert Splice([Single(wrapper)]) == [wrapper] by {
      assert Splice([Single(wrapper)]) == [wrapper] + Splice([Single(wrapper)][1..]);
    }
    assert Unnest([wrapper], wrappers) == UnnestOne(wrapper, wrappers) + Unnest([wrapper][1..], wrappers);
  }

  /** A member's leaf is its leaf without the leading mark, under that mark's wrapper. */
  lemma LeafUnderLead(s: State, item: Marked, parent: PM.Node, m: PM.Mark)
    requires |item.marks| > 0 && item.marks[0] == m
    ensures var inner := ExpectedLeaf(s, Marked(item.node, item.marks[1..]), parent);
            ExpectedLeaf(s, item, parent) == Leaf(inner.node, [LayerOf(s, m)] + inner.layers)
  {
    assert Layers(s, item.marks) == [LayerOf(s, m)] + Layers(s, item.marks[1..]);
  }

  /** Putting the run's shared wrapper over the stripped members' leaves gives their full layers. */
  lemma WrappedLayers(s: State, part: seq<Marked>, parent: PM.Node, m: PM.Mark, inner: seq<Leaf>)
    requires forall i :: 0 <= i < |part| ==> |part[i].marks| > 0 && part[i].marks[0] == m
    requires inner == Expected(s, Strip(part), parent)
    ensures Under(LayerOf(s, m), inner) == Expected(s, part, parent)
  {
    var a := Under(LayerOf(s, m), inner);
    var b := Expected(s, part, parent);
    forall i | 0 <= i < |part|
      ensures a[i] == b[i]
    {
      assert Strip(part)[i] == Marked(part[i].node, part[i].marks[1..]);
      LeafUnderLead(s, part[i], parent, m);
    }
  }

  /** Unmarked plain leaves come back as themselves, under no wrapper. */
  lemma {:induction false} PlainRun(s: State, items: seq<Marked>, parent: PM.Node, wrappers: set<string>)
    requires ChildrenOf(items, parent)
    requires forall i :: 0 <= i < |items| ==> items[i].marks == []
    requires LeavesPlain(s, items, parent, wrappers)
    ensures Unnest(Splice(OneEach(s, items, parent)), wrappers) == Expected(s, items, parent)
    decreases |items|
  {
    if |items| > 0 {
      var o := One(s, items[0].node, Some(parent));
      PlainRun(s, items[1..], parent, wrappers);
      assert OneEach(s, items, parent) == [o] + OneEach(s, items[1..], parent);
      SpliceAppend([o], OneEach(s, items[1..], parent));
      assert Splice([o]) == [o.node] + Splice([o][1..]);
      UnnestAppend([o.node], Splice(OneEach(s, items[1..], parent)), wrappers);
      assert Unnest([o.node], wrappers) == UnnestOne(o.node, wrappers) + Unnest([o.node][1..], wrappers);
      assert Expected(s, items, parent) == [Leaf(NodeOf(o), [])] + Expected(s, items[1..], parent);
    }
  }
}
