/** The nested-mark document model (mdast): formatting is a wrapper node around its content. */
module Mdast {
  import opened Results

  /** Node fields the core does not interpret (`url`, `depth`, …) and `data`. */
  type Props = map<string, string>

  /** The style a reference was written in: `[a]`, `[a][]` or `[text][a]`. */
  datatype ReferenceType = Shortcut | Collapsed | Full

  /** Type tags whose fields the core reads; each has its own constructor below. */
  const Dedicated: set<string> := {"text", "linkReference", "imageReference", "definition", "footnoteDefinition"}

  /** Every other type tag (`root`, `paragraph`, `emphasis`, `link`, `break`, `html`, …). */
  type GenericKind = s: string | s !in Dedicated witness "paragraph"

  datatype Node =
    | Text(value: string)
    | Parent(kind: GenericKind, props: Props, children: seq<Node>, data: Props)
    | Literal(kind: GenericKind, props: Props, value: string)
    | LinkReference(identifier: string, labelText: Option<string>, referenceType: ReferenceType,
                    children: seq<Node>, data: Props)
    | ImageReference(identifier: string, labelText: Option<string>, referenceType: ReferenceType,
                     alt: string, data: Props)
    | Definition(identifier: string, url: string, title: Option<string>, data: Props)
    | FootnoteDefinition(identifier: string, children: seq<Node>)
      /** A value found where a node was expected: anything without a `type` field. */
    | NotNode(shown: string)

  /** The `type` tag the dispatch looks at; a non-node has none. */
  function TypeOf(n: Node): Option<string>
  {
    match n
    case Text(_) => Some("text")
    case Parent(k, _, _, _) => Some(k)
    case Literal(k, _, _) => Some(k)
    case LinkReference(_, _, _, _, _) => Some("linkReference")
    case ImageReference(_, _, _, _, _) => Some("imageReference")
    case Definition(_, _, _, _) => Some("definition")
    case FootnoteDefinition(_, _) => Some("footnoteDefinition")
    case NotNode(_) => None
  }

  /** `node.children`, empty for nodes that have none. */
  function Children(n: Node): seq<Node>
  {
    match n
    case Parent(_, _, kids, _) => kids
    case LinkReference(_, _, _, kids, _) => kids
    case FootnoteDefinition(_, kids) => kids
    case _ => []
  }

  /** True for a node whose type tag is `t`. */
  predicate IsType(n: Node, t: string)
  {
    TypeOf(n) == Some(t)
  }

  /** A definition node, the kind the link definition table stores. */
  type DefinitionNode = n: Node | n.Definition? witness Definition("", "", None, map[])

  /** A footnote definition node, the kind the footnote table stores. */
  type FootnoteNode = n: Node | n.FootnoteDefinition? witness FootnoteDefinition("", [])
}
