/** The type names and marks the worked examples of both directions share. */
module ExampleNames {
  import PM = ProseMirror
  import Md = Mdast

  /** The mdast node type names of the examples. */
  const ParagraphType: Md.GenericKind := "paragraph"
  const EmphasisType: Md.GenericKind := "emphasis"
  const StrongType: Md.GenericKind := "strong"
  const RootType: Md.GenericKind := "root"

  /** The ProseMirror node type names of the examples. */
  const PmDoc: PM.ElementKind := "doc"
  const PmParagraph: PM.ElementKind := "paragraph"

  const Em := PM.Mark("em", map[])
  const Strong := PM.Mark("strong", map[])
}
