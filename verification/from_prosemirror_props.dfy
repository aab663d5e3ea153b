/** What `hydrateMarks` guarantees: content and order are kept, a run shares one wrapper,
    unhandled marks are dropped without losing content, and with `fromPmMark` handlers
    every leaf ends up inside exactly the wrappers of its marks, outermost first. */
module FromProseMirrorProps {
  import opened Results
  import opened HandlerResults
  import opened MarkRuns
  import opened MarkRunsProps
  import opened FromProseMirror
  import PM = ProseMirror
  import Md = Mdast

  /** Reading the runs from the front gives the same concatenation. */
  lemma {:induction false} FlattenCons(parts: seq<seq<Marked>>)
    requires |parts| > 0
    ensures Flatten(parts) == parts[0] + Flatten(parts[1..])
    decreases |parts|
  {
    if |parts| == 1 {
      assert parts[..0] == [];
      assert parts[1..] == [];
    } else {
      var init := parts[..|parts| - 1];
      FlattenCons(init);
      assert init[1..] == parts[1..][..|parts[1..]| - 1];
      assert parts[1..][|parts[1..]| - 1] == parts[|parts| - 1];
    }
  }

  /** Converting members one by one distributes over concatenation. */
  lemma {:induction false} OneEachAppend(s: State, a: seq<Marked>, b: seq<Marked>, parent: PM.Node)
    requires ChildrenOf(a, parent) && ChildrenOf(b, parent)
    ensures ChildrenOf(a + b, parent)
    ensures OneEach(s, a + b, parent) == OneEach(s, a, parent) + OneEach(s, b, parent)
    decreases |a|
  {
    if |a| > 0 {
      assert (a + b)[1..] == a[1..] + b;
      OneEachAppend(s, a[1..], b, parent);
    } else {
      assert a + b == b;
    }
  }

  /** Member-by-member conversion looks at the nodes only, never at the marks. */
  lemma {:induction false} OneEachIgnoresMarks(s: State, a: seq<Marked>, b: seq<Marked>, parent: PM.Node)
    requires ChildrenOf(a, parent) && ChildrenOf(b, parent) && |a| == |b|
    requires forall i :: 0 <= i < |a| ==> a[i].node == b[i].node
    ensures OneEach(s, a, parent) == OneEach(s, b, parent)
    decreases |a|
  {
    if |a| > 0 {
      OneEachIgnoresMarks(s, a[1..], b[1..], parent);
    }
  }

  /** A run partition's members are children of the parent within the mark bound. */
  lemma RunsWithin(items: seq<Marked>, parts: seq<seq<Marked>>, parent: PM.Node)
    requires ChildrenOf(items, parent) && IsRunPartition(items, parts)
    ensures forall k, i :: 0 <= k < |parts| && 0 <= i < |parts[k]| ==>
              parts[k][i].node in parent.content && |parts[k][i].marks| <= MaxMarks(items)
  {
    PartsWithin(items, parts, parent);
  }

  /** No mark of any member has a handler. */
  ghost predicate NoMarkHandled(s: State, items: seq<Marked>)
  {
    forall i, j :: 0 <= i < |items| && 0 <= j < |items[i].marks| ==> items[i].marks[j].kind !in s.marks
  }

  /** Marks without a handler are dropped and the content is kept: the children convert
      exactly as if they carried no marks at all. */
  lemma {:induction false} UnhandledMarksDropped(s: State, items: seq<Marked>, parent: PM.Node)
    requires ChildrenOf(items, parent) && NoMarkHandled(s, items)
    ensures Hydrate(s, items, parent) == Splice(OneEach(s, items, parent))
    decreases MaxMarks(items), 2, 0
  {
    var parts := Partition(items);
    PartsWithin(items, parts, parent);
    forall k | 0 <= k < |parts|
      ensures NoMarkHandled(s, parts[k])
    {
      forall i, j | 0 <= i < |parts[k]| && 0 <= j < |parts[k][i].marks|
        ensures parts[k][i].marks[j].kind !in s.marks
      {
        var x := parts[k][i];
        assert x in items;
        var t :| 0 <= t < |items| && items[t] == x;
      }
    }
    PartsDropped(s, parts, parent, MaxMarks(items));
  }

  lemma {:induction false} PartsDropped(s: State, parts: seq<seq<Marked>>, parent: PM.Node, bound: nat)
    requires parent.Element?
    requires forall k, i :: 0 <= k < |parts| && 0 <= i < |parts[k]| ==>
               parts[k][i].node in parent.content && |parts[k][i].marks| <= bound
    requires forall k :: 0 <= k < |parts| ==> NoMarkHandled(s, parts[k])
    ensures ChildrenOf(Flatten(parts), parent)
    ensures Splice(ProcessParts(s, parts, parent, bound)) == Splice(OneEach(s, Flatten(parts), parent))
    decreases bound, 1, |parts|
  {
    if |parts| == 0 {
      assert Flatten(parts) == [];
    } else {
      MaxMarksAtMost(parts[0], bound);
      assert ChildrenOf(parts[0], parent);
      RunDropped(s, parts[0], parent);
      PartsDropped(s, parts[1..], parent, bound);
      FlattenCons(parts);
      OneEachAppend(s, parts[0], Flatten(parts[1..]), parent);
      SpliceAppend(ProcessChildPartition(s, parts[0], parent), ProcessParts(s, parts[1..], parent, bound));
      SpliceAppend(OneEach(s, parts[0], parent), OneEach(s, Flatten(parts[1..]), parent));
    }
  }

  lemma {:induction false} RunDropped(s: State, part: seq<Marked>, parent: PM.Node)
    requires ChildrenOf(part, parent) && NoMarkHandled(s, part)
    ensures Splice(ProcessChildPartition(s, part, parent)) == Splice(OneEach(s, part, parent))
    decreases MaxMarks(part), 0, 0
  {
    if |part| > 0 && |part[0].marks| > 0 {
      StripShrinks(part);
      var stripped := Strip(part);
      assert part[0].marks[0].kind !in s.marks;
      UnhandledRunKept(s, part, parent);
      assert NoMarkHandled(s, stripped);
      UnhandledMarksDropped(s, stripped, parent);
      OneEachIgnoresMarks(s, stripped, part, parent);
    }
  }

  /** A run led by a mark without a handler contributes its converted members unwrapped. */
  lemma UnhandledRunKept(s: State, part: seq<Marked>, parent: PM.Node)
    requires ChildrenOf(part, parent) && |part| > 0 && |part[0].marks| > 0
    requires part[0].marks[0].kind !in s.marks
    ensures ChildrenOf(Strip(part), parent)
    ensures Splice(ProcessChildPartition(s, part, parent)) == Hydrate(s, Strip(part), parent)
  {
    SpliceSingles(Hydrate(s, Strip(part), parent));
  }

  /** Children without marks form one run and convert member by member, with no wrapper. */
  lemma UnmarkedChildrenConvertEach(s: State, items: seq<Marked>, parent: PM.Node)
    requires ChildrenOf(items, parent)
    requires forall i :: 0 <= i < |items| ==> items[i].marks == []
    ensures Hydrate(s, items, parent) == Splice(OneEach(s, items, parent))
  {
    if |items| > 0 {
      SingleRun(items);
      ProcessOnePart(s, items, parent, MaxMarks(items));
      assert ProcessChildPartition(s, items, parent) == OneEach(s, items, parent);
    } else {
      assert Partition(items) == [];
    }
  }

  /** A partition of one run is converted as that run. */
  lemma ProcessOnePart(s: State, part: seq<Marked>, parent: PM.Node, bound: nat)
    requires parent.Element?
    requires forall i :: 0 <= i < |part| ==> part[i].node in parent.content && |part[i].marks| <= bound
    ensures ChildrenOf(part, parent)
    ensures ProcessParts(s, [part], parent, bound) == ProcessChildPartition(s, part, parent)
  {
    assert ProcessParts(s, [part], parent, bound)
        == ProcessChildPartition(s, part, parent) + ProcessParts(s, [], parent, bound);
  }

  /** A run led by a mark with a handler becomes that handler's one answer. */
  lemma HandledRunWrapped(s: State, part: seq<Marked>, parent: PM.Node)
    requires ChildrenOf(part, parent) && |part| > 0 && |part[0].marks| > 0
    requires part[0].marks[0].kind in s.marks
    ensures ChildrenOf(Strip(part), parent)
    ensures var m := part[0].marks[0];
            ProcessChildPartition(s, part, parent)
            == [ApplyMark(s.marks[m.kind], m, parent, Hydrate(s, Strip(part), parent))]
  {
  }

  /** Adjacent children that share a leading mark with a handler get one wrapper: the
      handler runs once, on the children converted with that mark removed. */
  lemma SharedMarkWrappedOnce(s: State, items: seq<Marked>, parent: PM.Node)
    requires ChildrenOf(items, parent) && |items| > 0 && |items[0].marks| > 0
    requires forall i :: 0 <= i < |items| ==> |items[i].marks| > 0 && items[i].marks[0] == items[0].marks[0]
    requires items[0].marks[0].kind in s.marks
    ensures ChildrenOf(Strip(items), parent)
    ensures var m := items[0].marks[0];
            Hydrate(s, items, parent)
            == Contribution(ApplyMark(s.marks[m.kind], m, parent, Hydrate(s, Strip(items), parent)))
  {
    SingleRun(items);
    ProcessOnePart(s, items, parent, MaxMarks(items));
    HandledRunWrapped(s, items, parent);
    var m := items[0].marks[0];
    var out := ApplyMark(s.marks[m.kind], m, parent, Hydrate(s, Strip(items), parent));
    assert Hydrate(s, items, parent) == Splice([out]);
    assert Splice([out]) == Contribution(out) + Splice([out][1..]);
  }

  /** Concatenating partitions concatenates what they split. */
  lemma {:induction false} FlattenAppend(p: seq<seq<Marked>>, q: seq<seq<Marked>>)
    ensures Flatten(p + q) == Flatten(p) + Flatten(q)
    decreases |q|
  {
    if |q| == 0 {
      assert p + q == p;
    } else {
      var init, last := q[..|q| - 1], q[|q| - 1];
      var pq := p + q;
      assert pq[..|pq| - 1] == p + init && pq[|pq| - 1] == last;
      FlattenAppend(p, init);
      assert Flatten(pq) == Flatten(p + init) + last;
      assert Flatten(q) == Flatten(init) + last;
    }
  }

  /** Every member of every run is a child of `parent` with at most `bound` marks. */
  ghost predicate Within(parts: seq<seq<Marked>>, parent: PM.Node, bound: nat)
  {
    parent.Element? &&
    forall k, i :: 0 <= k < |parts| && 0 <= i < |parts[k]| ==>
      parts[k][i].node in parent.content && |parts[k][i].marks| <= bound
  }

  lemma WithinAppend(p: seq<seq<Marked>>, q: seq<seq<Marked>>, parent: PM.Node, bound: nat)
    requires Within(p, parent, bound) && Within(q, parent, bound)
    ensures Within(p + q, parent, bound)
  {
    forall k, i | 0 <= k < |p + q| && 0 <= i < |(p + q)[k]|
      ensures (p + q)[k][i].node in parent.content && |(p + q)[k][i].marks| <= bound
    {
      if k < |p| { assert (p + q)[k] == p[k]; } else { assert (p + q)[k] == q[k - |p|]; }
    }
  }

  lemma WithinTail(p: seq<seq<Marked>>, parent: PM.Node, bound: nat)
    requires Within(p, parent, bound) && |p| > 0
    ensures Within(p[1..], parent, bound) && ChildrenOf(p[0], parent)
  {
    forall k, i | 0 <= k < |p[1..]| && 0 <= i < |p[1..][k]|
      ensures p[1..][k][i].node in parent.content && |p[1..][k][i].marks| <= bound
    {
      assert p[1..][k] == p[k + 1];
    }
  }

  /** The run-by-run conversion distributes over concatenated partitions. */
  lemma {:induction false} ProcessPartsAppend(s: State, p: seq<seq<Marked>>, q: seq<seq<Marked>>, parent: PM.Node, bound: nat)
    requires Within(p, parent, bound) && Within(q, parent, bound)
    ensures Within(p + q, parent, bound)
    ensures ProcessParts(s, p + q, parent, bound) == ProcessParts(s, p, parent, bound) + ProcessParts(s, q, parent, bound)
    decreases |p|
  {
    WithinAppend(p, q, parent, bound);
    if |p| == 0 {
      assert p + q == q;
    } else {
      var pq := p + q;
      assert pq[0] == p[0] && pq[1..] == p[1..] + q;
      WithinTail(p, parent, bound);
      ProcessPartsAppend(s, p[1..], q, parent, bound);
      var head := ProcessChildPartition(s, p[0], parent);
      assert ProcessParts(s, pq, parent, bound) == head + ProcessParts(s, pq[1..], parent, bound);
      assert ProcessParts(s, p, parent, bound) == head + ProcessParts(s, p[1..], parent, bound);
    }
  }

  /** The mark bound only drives termination; it does not change the answer. */
  lemma {:induction false} ProcessPartsAnyBound(s: State, parts: seq<seq<Marked>>, parent: PM.Node, b1: nat, b2: nat)
    requires Within(parts, parent, b1) && Within(parts, parent, b2)
    ensures ProcessParts(s, parts, parent, b1) == ProcessParts(s, parts, parent, b2)
    decreases |parts|
  {
    if |parts| > 0 {
      assert forall k :: 0 <= k < |parts[1..]| ==> parts[1..][k] == parts[k + 1];
      ProcessPartsAnyBound(s, parts[1..], parent, b1, b2);
    }
  }

  /** Two run partitions side by side form the run partition of the concatenation when
      the key changes at the seam. */
  lemma RunPartitionAppend(a: seq<Marked>, pa: seq<seq<Marked>>, b: seq<Marked>, pb: seq<seq<Marked>>)
    requires IsRunPartition(a, pa) && IsRunPartition(b, pb)
    requires |a| > 0 && |b| > 0 && KeyOf(a[|a| - 1]) != KeyOf(b[0])
    ensures IsRunPartition(a + b, pa + pb)
  {
    var parts := pa + pb;
    FlattenAppend(pa, pb);
    assert NonEmptyRuns(parts) by {
      forall k | 0 <= k < |parts|
        ensures |parts[k]| > 0
      {
        if k < |pa| { assert parts[k] == pa[k]; } else { assert parts[k] == pb[k - |pa|]; }
      }
    }
    assert UniformRuns(parts) by {
      forall k, i | 0 <= k < |parts| && 0 <= i < |parts[k]|
        ensures KeyOf(parts[k][i]) == KeyOf(parts[k][0])
      {
        if k < |pa| { assert parts[k] == pa[k]; } else { assert parts[k] == pb[k - |pa|]; }
      }
    }
    FlattenLast(pa);
    FlattenCons(pb);
    var last := pa[|pa| - 1];
    assert KeyOf(last[0]) != KeyOf(pb[0][0]) by {
      assert KeyOf(last[|last| - 1]) == KeyOf(last[0]);
    }
    assert MaximalRuns(parts) by {
      forall k | 1 <= k < |parts|
        ensures KeyOf(parts[k - 1][0]) != KeyOf(parts[k][0])
      {
        if k < |pa| {
          assert parts[k - 1] == pa[k - 1] && parts[k] == pa[k];
        } else if k > |pa| {
          assert parts[k - 1] == pb[k - 1 - |pa|] && parts[k] == pb[k - |pa|];
        } else {
          assert parts[k - 1] == last && parts[k] == pb[0];
        }
      }
    }
  }

  /** Where the key changes between two stretches of children, the partition of the whole
      is the partitions of the stretches side by side. */
  lemma PartitionAppend(a: seq<Marked>, b: seq<Marked>)
    requires |a| > 0 && |b| > 0 && KeyOf(a[|a| - 1]) != KeyOf(b[0])
    ensures Partition(a + b) == Partition(a) + Partition(b)
  {
    RunPartitionAppend(a, Partition(a), b, Partition(b));
    PartitionCharacterized(a + b, Partition(a) + Partition(b));
  }

  /** Both halves of runs within bounds are within bounds. */
  lemma WithinSplit(p: seq<seq<Marked>>, q: seq<seq<Marked>>, parent: PM.Node, bound: nat)
    requires Within(p + q, parent, bound)
    ensures Within(p, parent, bound) && Within(q, parent, bound)
  {
    assert forall k :: 0 <= k < |p| ==> p[k] == (p + q)[k];
    assert forall k :: 0 <= k < |q| ==> q[k] == (p + q)[|p| + k];
  }

  /** Runs never reach across a change of leading mark: where the key changes between
      two stretches of children, each stretch converts on its own. */
  lemma HydrateSplitsAtKeyChange(s: State, a: seq<Marked>, b: seq<Marked>, parent: PM.Node)
    requires ChildrenOf(a, parent) && ChildrenOf(b, parent)
    requires |a| > 0 && |b| > 0 && KeyOf(a[|a| - 1]) != KeyOf(b[0])
    ensures ChildrenOf(a + b, parent)
    ensures Hydrate(s, a + b, parent) == Hydrate(s, a, parent) + Hydrate(s, b, parent)
  {
    var items := a + b;
    assert ChildrenOf(items, parent) by {
      assert forall i :: 0 <= i < |items| ==> items[i] == (if i < |a| then a[i] else b[i - |a|]);
    }
    var pa := Partition(a);
    var pb := Partition(b);
    PartitionAppend(a, b);
    var bound := MaxMarks(items);
    PartsWithin(items, pa + pb, parent);
    assert Within(pa + pb, parent, bound);
    WithinSplit(pa, pb, parent, bound);
    PartsWithin(a, pa, parent);
    PartsWithin(b, pb, parent);
    ProcessPartsAppend(s, pa, pb, parent, bound);
    ProcessPartsAnyBound(s, pa, parent, bound, MaxMarks(a));
    ProcessPartsAnyBound(s, pb, parent, bound, MaxMarks(b));
    SpliceAppend(ProcessParts(s, pa, parent, bound), ProcessParts(s, pb, parent, bound));
  }
}
