/** The flat-mark document model: leaves carry an ordered list of marks, no wrappers. */
module ProseMirror {

  /** Attribute values are not interpreted by the core. */
  type Attrs = map<string, string>

  /** A formatting mark. `Mark.eq` compares the type and the attributes structurally,
      which is exactly datatype equality here (maps are order-independent). */
  datatype Mark = Mark(kind: string, attrs: Attrs)

  /** Node type names other than the built-in text type. */
  type ElementKind = s: string | s != "text" witness "paragraph"

  /** A text leaf or a node with content; both carry their marks, outermost first. */
  datatype Node =
    | Text(text: string, marks: seq<Mark>)
    | Element(kind: ElementKind, attrs: Attrs, content: seq<Node>, marks: seq<Mark>)
  {
    /** `node.type.name`. */
    function TypeName(): string
    {
      if Text? then "text" else kind
    }

    /** `node.children`: a text node has none. */
    function Children(): seq<Node>
    {
      if Text? then [] else content
    }
  }

  /** The part of a schema the core consults: the name of its top node type. */
  datatype Schema = Schema(topNode: ElementKind)

  /** The concatenated text of a node, `textContent`. */
  function TextContent(n: Node): string
    decreases n
  {
    match n
    case Text(t, _) => t
    case Element(_, _, content, _) => TextOfAll(content)
  }

  /** The concatenated text of a list of nodes. */
  function TextOfAll(ns: seq<Node>): string
    decreases ns
  {
    if |ns| == 0 then "" else TextContent(ns[0]) + TextOfAll(ns[1..])
  }

  lemma {:induction false} TextOfAllAppend(a: seq<Node>, b: seq<Node>)
    ensures TextOfAll(a + b) == TextOfAll(a) + TextOfAll(b)
  {
    if |a| == 0 {
      assert a + b == b;
    } else {
      assert (a + b)[1..] == a[1..] + b;
      TextOfAllAppend(a[1..], b);
    }
  }

  lemma TextOfAllCons(n: Node, rest: seq<Node>)
    ensures TextOfAll([n] + rest) == TextContent(n) + TextOfAll(rest)
  {
    assert ([n] + rest)[1..] == rest;
  }

  lemma TextOfAllSnoc(init: seq<Node>, n: Node)
    ensures TextOfAll(init + [n]) == TextOfAll(init) + TextContent(n)
  {
    TextOfAllAppend(init, [n]);
    TextOfAllCons(n, []);
    assert [n] + [] == [n];
  }
}
