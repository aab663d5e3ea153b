/** The grouping pass of `hydrateMarks`: adjacent children are split into maximal runs
    that share their leading mark, or that all have no marks left. */
module MarkRuns {
  import PM = ProseMirror

  /** A child together with the marks not yet turned into wrappers (`PmMarkedNode`). */
  datatype Marked = Marked(node: PM.Node, marks: seq<PM.Mark>)

  /** What a run has in common: no marks at all, or one leading mark. */
  datatype Key = NoMarks | Leading(mark: PM.Mark)

  function KeyOf(x: Marked): Key
  {
    if |x.marks| == 0 then NoMarks else Leading(x.marks[0])
  }

  /** The test that lets `child` join the run whose last member is `last`:
      both have no marks, or both have marks and the leading ones are equal. */
  function Joins(child: Marked, last: Marked): (r: bool)
    ensures r <==> KeyOf(child) == KeyOf(last)
  {
    (|child.marks| == 0 && |last.marks| == 0)
    || (|child.marks| > 0 && |last.marks| > 0 && child.marks[0] == last.marks[0])
  }

  /** The reducer: start the first run, extend the last run, or open a new one. */
  function Step(acc: seq<seq<Marked>>, child: Marked): seq<seq<Marked>>
  {
    if |acc| == 0 then [[child]]
    else
      var last := acc[|acc| - 1];
      if |last| == 0 then acc + [[child]]
      else if Joins(child, last[|last| - 1]) then acc[..|acc| - 1] + [last + [child]]
      else acc + [[child]]
  }

  /** Concatenation of the runs, read from the back like the left fold that builds them. */
  function Flatten(parts: seq<seq<Marked>>): seq<Marked>
  {
    if |parts| == 0 then [] else Flatten(parts[..|parts| - 1]) + parts[|parts| - 1]
  }

  /** Every run is non-empty. */
  ghost predicate NonEmptyRuns(parts: seq<seq<Marked>>)
  {
    forall k :: 0 <= k < |parts| ==> |parts[k]| > 0
  }

  /** Every member of a run has the key of the run's first member. */
  ghost predicate UniformRuns(parts: seq<seq<Marked>>)
    requires NonEmptyRuns(parts)
  {
    forall k, i :: 0 <= k < |parts| && 0 <= i < |parts[k]| ==> KeyOf(parts[k][i]) == KeyOf(parts[k][0])
  }

  /** Neighbouring runs have different keys, so no run could be longer. */
  ghost predicate MaximalRuns(parts: seq<seq<Marked>>)
    requires NonEmptyRuns(parts)
  {
    forall k :: 1 <= k < |parts| ==> KeyOf(parts[k - 1][0]) != KeyOf(parts[k][0])
  }

  /** `parts` splits `items`, in order, into maximal runs of one key each. */
  ghost predicate IsRunPartition(items: seq<Marked>, parts: seq<seq<Marked>>)
  {
    && Flatten(parts) == items
    && NonEmptyRuns(parts)
    && UniformRuns(parts)
    && MaximalRuns(parts)
  }

  /** The partition `hydrateMarks` computes with `children.reduce(…, [])`. */
  function Partition(items: seq<Marked>): (parts: seq<seq<Marked>>)
    ensures IsRunPartition(items, parts)
  {
    if |items| == 0 then []
    else
      var prefix := items[..|items| - 1];
      var parts := Step(Partition(prefix), items[|items| - 1]);
      StepKeepsRuns(prefix, Partition(prefix), items[|items| - 1]);
      assert prefix + [items[|items| - 1]] == items;
      parts
  }

  /** One reducer step extends a run partition of `prefix` to one of `prefix + [child]`. */
  lemma StepKeepsRuns(prefix: seq<Marked>, acc: seq<seq<Marked>>, child: Marked)
    requires IsRunPartition(prefix, acc)
    ensures IsRunPartition(prefix + [child], Step(acc, child))
  {
    var r := Step(acc, child);
    if |acc| == 0 {
      assert r == [[child]];
      assert Flatten(r) == Flatten(r[..0]) + [child];
    } else if Joins(child, acc[|acc| - 1][|acc[|acc| - 1]| - 1]) {
      JoinKeepsRuns(prefix, acc, child);
    } else {
      OpenKeepsRuns(prefix, acc, child);
    }
  }

  /** A child with the last run's key extends that run. */
  lemma JoinKeepsRuns(prefix: seq<Marked>, acc: seq<seq<Marked>>, child: Marked)
    requires IsRunPartition(prefix, acc) && |acc| > 0
    requires Joins(child, acc[|acc| - 1][|acc[|acc| - 1]| - 1])
    ensures IsRunPartition(prefix + [child], Step(acc, child))
  {
    var r := Step(acc, child);
    var last := acc[|acc| - 1];
    var init := acc[..|acc| - 1];
    assert acc == init + [last];
    assert Flatten(acc) == Flatten(init) + last;
    assert r == init + [last + [child]];
    assert r[..|r| - 1] == init;
    assert Flatten(r) == Flatten(init) + (last + [child]);
    forall k, i | 0 <= k < |r| && 0 <= i < |r[k]|
      ensures KeyOf(r[k][i]) == KeyOf(r[k][0])
    {
      if k < |r| - 1 {
        assert r[k] == acc[k];
      } else if i == |last| {
        assert KeyOf(last[|last| - 1]) == KeyOf(last[0]);
      }
    }
    forall k | 1 <= k < |r|
      ensures KeyOf(r[k - 1][0]) != KeyOf(r[k][0])
    {
      assert r[k - 1][0] == acc[k - 1][0];
      assert r[k][0] == acc[k][0];
    }
  }

  /** A child with another key than the last run's opens a new run. */
  lemma OpenKeepsRuns(prefix: seq<Marked>, acc: seq<seq<Marked>>, child: Marked)
    requires IsRunPartition(prefix, acc) && |acc| > 0
    requires !Joins(child, acc[|acc| - 1][|acc[|acc| - 1]| - 1])
    ensures IsRunPartition(prefix + [child], Step(acc, child))
  {
    var r := Step(acc, child);
    var last := acc[|acc| - 1];
    assert r == acc + [[child]];
    assert r[..|r| - 1] == acc;
    forall k, i | 0 <= k < |r| && 0 <= i < |r[k]|
      ensures KeyOf(r[k][i]) == KeyOf(r[k][0])
    {
      if k < |r| - 1 {
        assert r[k] == acc[k];
      }
    }
    forall k | 1 <= k < |r|
      ensures KeyOf(r[k - 1][0]) != KeyOf(r[k][0])
    {
      if k == |r| - 1 {
        assert KeyOf(last[|last| - 1]) == KeyOf(last[0]);
      } else {
        assert r[k - 1] == acc[k - 1] && r[k] == acc[k];
      }
    }
  }
}

module MarkRunsProps {
  import opened MarkRuns
  import PM = ProseMirror

  /** Dropping the last run of a run partition leaves a run partition of the rest. */
  lemma InitIsRunPartition(items: seq<Marked>, parts: seq<seq<Marked>>)
    requires IsRunPartition(items, parts) && |parts| > 0
    ensures |parts[|parts| - 1]| <= |items|
    ensures IsRunPartition(items[..|items| - |parts[|parts| - 1]|], parts[..|parts| - 1])
    ensures items[|items| - |parts[|parts| - 1]|..] == parts[|parts| - 1]
  {
    var init := parts[..|parts| - 1];
    var last := parts[|parts| - 1];
    assert Flatten(parts) == Flatten(init) + last;
    assert items[..|items| - |last|] == Flatten(init);
    forall k, i | 0 <= k < |init| && 0 <= i < |init[k]|
      ensures KeyOf(init[k][i]) == KeyOf(init[k][0])
    {
      assert init[k] == parts[k];
    }
    forall k | 1 <= k < |init|
      ensures KeyOf(init[k - 1][0]) != KeyOf(init[k][0])
    {
      assert init[k - 1] == parts[k - 1] && init[k] == parts[k];
    }
  }

  /** The last member of a concatenation of non-empty runs is the last member of the last run. */
  lemma FlattenLast(parts: seq<seq<Marked>>)
    requires NonEmptyRuns(parts) && |parts| > 0
    ensures |Flatten(parts)| > 0
    ensures Flatten(parts)[|Flatten(parts)| - 1] == parts[|parts| - 1][|parts[|parts| - 1]| - 1]
  {
    assert Flatten(parts) == Flatten(parts[..|parts| - 1]) + parts[|parts| - 1];
  }

  /** In two run partitions of the same items, the last run of `p` is at least as long as that of `q`. */
  lemma LastRunNotShorter(items: seq<Marked>, p: seq<seq<Marked>>, q: seq<seq<Marked>>)
    requires IsRunPartition(items, p) && IsRunPartition(items, q)
    requires |p| > 0 && |q| > 0
    ensures |p[|p| - 1]| >= |q[|q| - 1]|
  {
    var lp := p[|p| - 1];
    var lq := q[|q| - 1];
    var n := |items|;
    InitIsRunPartition(items, p);
    InitIsRunPartition(items, q);
    var init := p[..|p| - 1];
    var prefix := items[..n - |lp|];
    if |init| > 0 {
      FlattenLast(init);
      var j := n - |lp| - 1;
      assert items[j] == prefix[|prefix| - 1];
      assert init[|init| - 1] == p[|p| - 2];
      assert KeyOf(items[j]) == KeyOf(p[|p| - 2][0]);
      assert KeyOf(p[|p| - 2][0]) != KeyOf(lp[0]);
      assert lp[0] == items[n - |lp|];
      assert KeyOf(items[n - |lp|]) == KeyOf(items[n - 1]) by {
        assert items[n - 1] == lp[|lp| - 1];
      }
      // every member of the last run of q has the key of the last item, items[j] does not
      forall t | n - |lq| <= t < n
        ensures KeyOf(items[t]) == KeyOf(items[n - 1])
      {
        assert items[t] == lq[t - (n - |lq|)];
        assert items[n - 1] == lq[|lq| - 1];
      }
      assert j < n - |lq|;
    } else {
      assert Flatten(init) == [];
    }
  }

  /** There is only one way to split a list into maximal runs of one key. */
  lemma {:induction false} RunPartitionUnique(items: seq<Marked>, p: seq<seq<Marked>>, q: seq<seq<Marked>>)
    requires IsRunPartition(items, p) && IsRunPartition(items, q)
    ensures p == q
    decreases |items|
  {
    if |p| == 0 || |q| == 0 {
      if |p| > 0 { FlattenLast(p); }
      if |q| > 0 { FlattenLast(q); }
    } else {
      LastRunNotShorter(items, p, q);
      LastRunNotShorter(items, q, p);
      InitIsRunPartition(items, p);
      InitIsRunPartition(items, q);
      var m := |p[|p| - 1]|;
      RunPartitionUnique(items[..|items| - m], p[..|p| - 1], q[..|q| - 1]);
      assert p == p[..|p| - 1] + [p[|p| - 1]];
      assert q == q[..|q| - 1] + [q[|q| - 1]];
    }
  }

  /** `hydrateMarks` groups exactly into the maximal runs: its partition is the only one. */
  lemma PartitionCharacterized(items: seq<Marked>, parts: seq<seq<Marked>>)
    ensures Partition(items) == parts <==> IsRunPartition(items, parts)
  {
    if IsRunPartition(items, parts) {
      RunPartitionUnique(items, Partition(items), parts);
    }
  }

  /** Children that all share one key form a single run. */
  lemma SingleRun(items: seq<Marked>)
    requires |items| > 0
    requires forall i :: 0 <= i < |items| ==> KeyOf(items[i]) == KeyOf(items[0])
    ensures Partition(items) == [items]
  {
    var parts := [items];
    assert Flatten(parts) == Flatten(parts[..0]) + items;
    assert NonEmptyRuns(parts);
    assert UniformRuns(parts) by {
      forall k, i | 0 <= k < |parts| && 0 <= i < |parts[k]|
        ensures KeyOf(parts[k][i]) == KeyOf(parts[k][0])
      {
        assert parts[k] == items;
      }
    }
    assert MaximalRuns(parts);
    PartitionCharacterized(items, parts);
  }

  /** Adjacency, not the mark alone, defines grouping: `[m], [], [m]` stays three runs. */
  lemma SeparatedMarksNotMerged(a: PM.Node, b: PM.Node, c: PM.Node, m: PM.Mark)
    ensures var items := [Marked(a, [m]), Marked(b, []), Marked(c, [m])];
            Partition(items) == [[items[0]], [items[1]], [items[2]]]
  {
    var items := [Marked(a, [m]), Marked(b, []), Marked(c, [m])];
    var parts := [[items[0]], [items[1]], [items[2]]];
    assert Flatten(parts[..1]) == [items[0]] by {
      assert Flatten(parts[..1]) == Flatten(parts[..1][..0]) + parts[0];
    }
    assert Flatten(parts[..2]) == Flatten(parts[..1]) + parts[1] by {
      assert parts[..2][..1] == parts[..1];
    }
    assert Flatten(parts) == Flatten(parts[..2]) + parts[2] by {
      assert parts[..2] == parts[..|parts| - 1];
    }
    assert Flatten(parts) == items;
    PartitionCharacterized(items, parts);
  }
}
