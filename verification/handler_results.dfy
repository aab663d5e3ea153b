/** What a conversion handler hands back, and how a list of such answers is spliced. */
module HandlerResults {

  /** A handler answers `null`, one node, or an array of nodes. */
  datatype Out<+T> = Nothing | Single(node: T) | Many(nodes: seq<T>)

  /** The nodes one answer contributes: none for `null`, the array spliced in place. */
  function Contribution<T>(o: Out<T>): seq<T>
  {
    match o
    case Nothing => []
    case Single(n) => [n]
    case Many(ns) => ns
  }

  /** Drops the `null` answers and splices the arrays in place, keeping order. */
  function Splice<T>(outs: seq<Out<T>>): seq<T>
  {
    if |outs| == 0 then [] else Contribution(outs[0]) + Splice(outs[1..])
  }

  /** Splicing distributes over concatenation: answers keep their relative order. */
  lemma {:induction false} SpliceAppend<T>(a: seq<Out<T>>, b: seq<Out<T>>)
    ensures Splice(a + b) == Splice(a) + Splice(b)
  {
    if |a| == 0 {
      assert a + b == b;
    } else {
      assert (a + b)[1..] == a[1..] + b;
      SpliceAppend(a[1..], b);
    }
  }

  /** Wrapping every node as a single answer and splicing gives the nodes back. */
  lemma {:induction false} SpliceSingles<T>(ns: seq<T>)
    ensures Splice(seq(|ns|, i requires 0 <= i < |ns| => Single(ns[i]))) == ns
  {
    var outs := seq(|ns|, i requires 0 <= i < |ns| => Single(ns[i]));
    if |ns| > 0 {
      assert outs[1..] == seq(|ns[1..]|, i requires 0 <= i < |ns[1..]| => Single(ns[1..][i]));
      SpliceSingles(ns[1..]);
      assert ns == [ns[0]] + ns[1..];
    }
  }
}
