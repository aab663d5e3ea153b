/** The definition tables `createState` fills with one pre-order scan of the mdast tree:
    identifiers are upper-cased and the first definition of an identifier wins, as link
    reference definitions do in section 4.7 of the CommonMark specification. */
module DefinitionTable {
  import opened Results
  import opened MarkdownText
  import Md = Mdast

  /** The order in which `visit(tree, …)` meets the nodes: a node, then its children's walks. */
  function Preorder(n: Md.Node): (r: seq<Md.Node>)
    ensures |r| > 0 && r[0] == n
    decreases n
  {
    match n
    case Parent(_, _, kids, _) => [n] + PreorderAll(kids)
    case LinkReference(_, _, _, kids, _) => [n] + PreorderAll(kids)
    case FootnoteDefinition(_, kids) => [n] + PreorderAll(kids)
    case _ => [n]
  }

  function PreorderAll(ns: seq<Md.Node>): seq<Md.Node>
    decreases ns
  {
    if |ns| == 0 then [] else Preorder(ns[0]) + PreorderAll(ns[1..])
  }

  /** `definitionById` and `footnoteById`. */
  datatype Tables = Tables(definitions: map<string, Md.DefinitionNode>, footnotes: map<string, Md.FootnoteNode>)

  /** The two tables: link (and image) definitions, and footnote definitions. */
  datatype Kind = LinkDefinitions | FootnoteDefinitions

  /** `n` is a definition of the kind's node type whose normalised identifier is `k`. */
  predicate Defines(kind: Kind, n: Md.Node, k: string)
  {
    match kind
    case LinkDefinitions => n.Definition? && Upper(n.identifier) == k
    case FootnoteDefinitions => n.FootnoteDefinition? && Upper(n.identifier) == k
  }

  /** The table of one kind. */
  function TableOf(t: Tables, kind: Kind): map<string, Md.Node>
  {
    match kind
    case LinkDefinitions => t.definitions
    case FootnoteDefinitions => t.footnotes
  }

  /** The visitor: record a definition under its upper-cased identifier unless that
      identifier is already taken; every other node leaves the tables alone. */
  function Visit(t: Tables, n: Md.Node): Tables
  {
    match n
    case Definition(identifier, _, _, _) =>
      var id := Upper(identifier);
      if id in t.definitions then t else t.(definitions := t.definitions[id := n])
    case FootnoteDefinition(identifier, _) =>
      var id := Upper(identifier);
      if id in t.footnotes then t else t.(footnotes := t.footnotes[id := n])
    case _ => t
  }

  /** What one visit does to the table of one kind: it adds `n` under a new identifier
      that `n` defines, and otherwise changes nothing. */
  lemma VisitEffect(t: Tables, n: Md.Node, kind: Kind)
    ensures forall k :: Defines(kind, n, k) && k !in TableOf(t, kind) ==>
              TableOf(Visit(t, n), kind) == TableOf(t, kind)[k := n]
    ensures (forall k :: Defines(kind, n, k) ==> k in TableOf(t, kind)) ==>
              TableOf(Visit(t, n), kind) == TableOf(t, kind)
  {
  }

  /** `nodes[i]` is the first definition of `k` of the given kind. */
  ghost predicate First(kind: Kind, nodes: seq<Md.Node>, i: int, k: string)
  {
    0 <= i < |nodes| && Defines(kind, nodes[i], k) && forall j :: 0 <= j < i ==> !Defines(kind, nodes[j], k)
  }

  /** There is only one first definition. */
  lemma FirstUnique(kind: Kind, nodes: seq<Md.Node>, i: int, j: int, k: string)
    requires First(kind, nodes, i, k) && First(kind, nodes, j, k)
    ensures i == j
  {
  }

  /** The table holds, for every identifier of the kind defined among `nodes`, its first
      definition, and nothing else. */
  ghost predicate TabulatesKind(kind: Kind, nodes: seq<Md.Node>, m: map<string, Md.Node>)
  {
    && (forall k :: k in m <==> exists i :: 0 <= i < |nodes| && Defines(kind, nodes[i], k))
    && (forall k :: k in m ==> exists i :: First(kind, nodes, i, k) && m[k] == nodes[i])
  }

  /** Both tables are exactly the first definitions met in `nodes`. */
  ghost predicate Tabulates(nodes: seq<Md.Node>, t: Tables)
  {
    TabulatesKind(LinkDefinitions, nodes, t.definitions) && TabulatesKind(FootnoteDefinitions, nodes, t.footnotes)
  }

  /** The visitor run over `nodes` in order. */
  function Scan(nodes: seq<Md.Node>): (t: Tables)
    ensures Tabulates(nodes, t)
  {
    if |nodes| == 0 then Tables(map[], map[])
    else
      var prefix := nodes[..|nodes| - 1];
      var x := nodes[|nodes| - 1];
      assert prefix + [x] == nodes;
      VisitTabulates(LinkDefinitions, prefix, Scan(prefix), x);
      VisitTabulates(FootnoteDefinitions, prefix, Scan(prefix), x);
      Visit(Scan(prefix), x)
  }

  lemma VisitTabulates(kind: Kind, prefix: seq<Md.Node>, t: Tables, x: Md.Node)
    requires TabulatesKind(kind, prefix, TableOf(t, kind))
    ensures TabulatesKind(kind, prefix + [x], TableOf(Visit(t, x), kind))
  {
    VisitKeepsFirsts(kind, prefix, t, x);
    VisitKeepsDomain(kind, prefix, t, x);
  }

  /** A first definition stays first when more nodes follow. */
  lemma FirstExtends(kind: Kind, prefix: seq<Md.Node>, x: Md.Node, i: int, k: string)
    requires First(kind, prefix, i, k)
    ensures First(kind, prefix + [x], i, k) && (prefix + [x])[i] == prefix[i]
  {
    var nodes := prefix + [x];
    assert forall j :: 0 <= j <= i ==> nodes[j] == prefix[j];
  }

  /** A definition of an identifier no earlier node defines is its first. */
  lemma FirstAtEnd(kind: Kind, prefix: seq<Md.Node>, x: Md.Node, k: string)
    requires Defines(kind, x, k)
    requires forall j :: 0 <= j < |prefix| ==> !Defines(kind, prefix[j], k)
    ensures First(kind, prefix + [x], |prefix|, k) && (prefix + [x])[|prefix|] == x
  {
    var nodes := prefix + [x];
    assert forall j :: 0 <= j < |prefix| ==> nodes[j] == prefix[j];
  }

  /** After the visit every entry is still the first definition of its identifier. */
  lemma VisitKeepsFirsts(kind: Kind, prefix: seq<Md.Node>, t: Tables, x: Md.Node)
    requires TabulatesKind(kind, prefix, TableOf(t, kind))
    ensures var nodes := prefix + [x];
            var r := TableOf(Visit(t, x), kind);
            forall k :: k in r ==> exists i :: First(kind, nodes, i, k) && r[k] == nodes[i]
  {
    var nodes := prefix + [x];
    var m := TableOf(t, kind);
    var r := TableOf(Visit(t, x), kind);
    VisitEffect(t, x, kind);
    forall k | k in r
      ensures exists i :: First(kind, nodes, i, k) && r[k] == nodes[i]
    {
      if k in m {
        var i :| First(kind, prefix, i, k) && m[k] == prefix[i];
        FirstExtends(kind, prefix, x, i, k);
      } else {
        assert Defines(kind, x, k);
        FirstAtEnd(kind, prefix, x, k);
      }
    }
  }

  /** After the visit the table has an entry exactly for the identifiers defined so far. */
  lemma VisitKeepsDomain(kind: Kind, prefix: seq<Md.Node>, t: Tables, x: Md.Node)
    requires TabulatesKind(kind, prefix, TableOf(t, kind))
    ensures var nodes := prefix + [x];
            var r := TableOf(Visit(t, x), kind);
            forall k :: k in r <==> exists i :: 0 <= i < |nodes| && Defines(kind, nodes[i], k)
  {
    var nodes := prefix + [x];
    var r := TableOf(Visit(t, x), kind);
    VisitEffect(t, x, kind);
    forall k | exists i :: 0 <= i < |nodes| && Defines(kind, nodes[i], k)
      ensures k in r
    {
      var i :| 0 <= i < |nodes| && Defines(kind, nodes[i], k);
      if i < |prefix| {
        assert nodes[i] == prefix[i];
      }
    }
    forall k | k in r
      ensures exists i :: 0 <= i < |nodes| && Defines(kind, nodes[i], k)
    {
      if k in TableOf(t, kind) {
        var i :| 0 <= i < |prefix| && Defines(kind, prefix[i], k);
        assert nodes[i] == prefix[i];
      } else {
        assert nodes[|prefix|] == x;
      }
    }
  }

  /** The tables `createState` builds for a tree. */
  function BuildTables(tree: Md.Node): (t: Tables)
    ensures Tabulates(Preorder(tree), t)
  {
    Scan(Preorder(tree))
  }

  /** First definition wins: the table entry for `k` is the first definition of `k` met in
      the scan, whatever definitions of `k` follow it; link and footnote definitions go
      to their own tables. */
  lemma FirstDefinitionWins(kind: Kind, nodes: seq<Md.Node>, i: int, k: string)
    requires First(kind, nodes, i, k)
    ensures k in TableOf(Scan(nodes), kind) && TableOf(Scan(nodes), kind)[k] == nodes[i]
  {
    var m := TableOf(Scan(nodes), kind);
    assert k in m;
    var j :| First(kind, nodes, j, k) && m[k] == nodes[j];
    FirstUnique(kind, nodes, i, j, k);
  }
}
