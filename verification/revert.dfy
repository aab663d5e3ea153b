/** Turning an unresolved reference back into the literal bracket syntax it was written in
    (links and images, sections 6.3 and 6.4 of the CommonMark specification). */
module Revert {
  import opened Results
  import PM = ProseMirror
  import Md = Mdast

  /** `node.label || node.identifier`: an absent or empty label falls back to the identifier. */
  function LabelOrIdentifier(labelText: Option<string>, identifier: string): string
  {
    if labelText.Some? && labelText.value != "" then labelText.value else identifier
  }

  /** The closing part of a reference: `]`, `][]` or `][label]`. */
  function Suffix(t: Md.ReferenceType, labelText: Option<string>, identifier: string): string
  {
    match t
    case Shortcut => "]"
    case Collapsed => "][]"
    case Full => "][" + LabelOrIdentifier(labelText, identifier) + "]"
  }

  /** What a reader of the closing part learns: the style and, for a full reference, the label. */
  datatype Closing = Closing(referenceType: Md.ReferenceType, labelText: string)

  /** Reads a closing part back. */
  function ReadSuffix(s: string): Option<Closing>
  {
    if s == "]" then Some(Closing(Md.Shortcut, ""))
    else if s == "][]" then Some(Closing(Md.Collapsed, ""))
    else if |s| >= 3 && s[..2] == "][" && s[|s| - 1] == ']' then Some(Closing(Md.Full, s[2..|s| - 1]))
    else None
  }

  /** The suffix records the reference style, and for a full reference the label, so that
      the literal text reads back as the same kind of reference. */
  lemma SuffixReadsBack(t: Md.ReferenceType, labelText: Option<string>, identifier: string)
    requires t == Md.Full ==> LabelOrIdentifier(labelText, identifier) != ""
    ensures ReadSuffix(Suffix(t, labelText, identifier))
            == Some(Closing(t, if t == Md.Full then LabelOrIdentifier(labelText, identifier) else ""))
  {
    if t == Md.Full {
      var l := LabelOrIdentifier(labelText, identifier);
      var s := Suffix(t, labelText, identifier);
      assert s[..2] == "][" && s[2..|s| - 1] == l;
      assert |s| > 3;
    }
  }

  /** An unresolved image reference becomes the single text `![alt` followed by the suffix. */
  function RevertImage(n: Md.Node): (r: seq<PM.Node>)
    requires n.ImageReference?
    ensures |r| == 1 && r[0].Text? && r[0].marks == []
    ensures r[0].text == "![" + n.alt + Suffix(n.referenceType, n.labelText, n.identifier)
  {
    [PM.Text("![" + n.alt + Suffix(n.referenceType, n.labelText, n.identifier), [])]
  }

  /** `[` in front of a leading text child, or a `[` text inserted before the children. */
  function Open(contents: seq<PM.Node>): (r: seq<PM.Node>)
    ensures |r| > 0 && r[0].Text?
    ensures PM.TextOfAll(r) == "[" + PM.TextOfAll(contents)
    ensures |contents| > 0 && contents[0].Text? ==>
              r == [PM.Text("[" + contents[0].text, contents[0].marks)] + contents[1..]
    ensures !(|contents| > 0 && contents[0].Text?) ==> r == [PM.Text("[", [])] + contents
  {
    if |contents| > 0 && contents[0].Text? then
      var r := [PM.Text("[" + contents[0].text, contents[0].marks)] + contents[1..];
      PM.TextOfAllCons(r[0], contents[1..]);
      PM.TextOfAllCons(contents[0], contents[1..]);
      assert [contents[0]] + contents[1..] == contents;
      r
    else
      PM.TextOfAllCons(PM.Text("[", []), contents);
      [PM.Text("[", [])] + contents
  }

  /** The suffix appended to a trailing text child, or pushed as a text of its own. */
  function Close(front: seq<PM.Node>, suffix: string): (r: seq<PM.Node>)
    requires |front| > 0
    ensures |r| > 0 && r[|r| - 1].Text?
    ensures PM.TextOfAll(r) == PM.TextOfAll(front) + suffix
    ensures front[|front| - 1].Text? ==>
              r == front[..|front| - 1] + [PM.Text(front[|front| - 1].text + suffix, front[|front| - 1].marks)]
    ensures !front[|front| - 1].Text? ==> r == front + [PM.Text(suffix, [])]
  {
    var last := front[|front| - 1];
    var init := front[..|front| - 1];
    assert front == init + [last];
    PM.TextOfAllSnoc(init, last);
    if last.Text? then
      PM.TextOfAllSnoc(init, PM.Text(last.text + suffix, last.marks));
      init + [PM.Text(last.text + suffix, last.marks)]
    else
      PM.TextOfAllSnoc(front, PM.Text(suffix, []));
      front + [PM.Text(suffix, [])]
  }

  /** `[` put before a first child: joined to a text, which keeps its marks, or as an
      unmarked text of its own in front of any other node. */
  function Opened(c: PM.Node): seq<PM.Node>
  {
    if c.Text? then [PM.Text("[" + c.text, c.marks)] else [PM.Text("[", []), c]
  }

  /** The suffix put after a last child: joined to a text, which keeps its marks, or as an
      unmarked text of its own after any other node. */
  function Closed(c: PM.Node, suffix: string): seq<PM.Node>
  {
    if c.Text? then [PM.Text(c.text + suffix, c.marks)] else [c, PM.Text(suffix, [])]
  }

  /** The converted children of an unresolved link reference between `[` and the suffix:
      the result reads as `[`, the text of the children, then the suffix. A text at either
      end takes the bracket or the suffix into its own text and keeps its marks; any other
      end child is kept and gets an unmarked text beside it; inner children are kept. */
  function Bracket(contents: seq<PM.Node>, suffix: string): (r: seq<PM.Node>)
    ensures |r| > 0 && r[0].Text? && r[|r| - 1].Text?
    ensures PM.TextOfAll(r) == "[" + PM.TextOfAll(contents) + suffix
    ensures |contents| == 0 ==> r == [PM.Text("[" + suffix, [])]
    ensures |contents| == 1 && contents[0].Text? ==>
              r == [PM.Text("[" + contents[0].text + suffix, contents[0].marks)]
    ensures |contents| == 1 && !contents[0].Text? ==>
              r == [PM.Text("[", []), contents[0], PM.Text(suffix, [])]
    ensures |contents| >= 2 ==>
              r == Opened(contents[0]) + contents[1..|contents| - 1] + Closed(contents[|contents| - 1], suffix)
  {
    var front := Open(contents);
    var r := Close(front, suffix);
    if |contents| >= 2 then
      var c0, cn := contents[0], contents[|contents| - 1];
      var inner := contents[1..|contents| - 1];
      assert contents[1..] == inner + [cn];
      assert front == Opened(c0) + inner + [cn];
      assert front[..|front| - 1] == Opened(c0) + inner;
      r
    else
      r
  }

  /** What `revert` holds in its list when written with `copy`: a ProseMirror node, or what
      `head.copy(Fragment.from(schema.text(…)))` makes of a text node. ProseMirror's
      `Node.copy` keeps the type, attributes and marks and swaps in the new content, so the
      copy is a node of the text type that holds a text child and has no `text` of its own. */
  datatype Held = Plain(node: PM.Node) | TextCopy(inner: PM.Node, marks: seq<PM.Mark>)

  /** `held.type === schema.nodes["text"]`. */
  predicate HasTextType(h: Held)
  {
    h.TextCopy? || h.node.Text?
  }

  /** `held.text` inside a string concatenation: an undefined field prints as `undefined`. */
  function TextField(h: Held): string
  {
    if h.Plain? && h.node.Text? then h.node.text else "undefined"
  }

  /** The marks a held node carries. */
  function HeldMarks(h: Held): seq<PM.Mark>
  {
    if h.TextCopy? then h.marks else h.node.marks
  }

  /** `textContent` of a held node. */
  function HeldText(h: Held): string
  {
    if h.TextCopy? then PM.TextContent(h.inner) else PM.TextContent(h.node)
  }

  /** The opening step as written: a leading text child is replaced by its copy over `[` and its text. */
  function OpenAsWritten(contents: seq<PM.Node>): seq<Held>
  {
    var held := seq(|contents|, i requires 0 <= i < |contents| => Plain(contents[i]));
    if |contents| > 0 && contents[0].Text? then
      [TextCopy(PM.Text("[" + contents[0].text, []), contents[0].marks)] + held[1..]
    else
      [Plain(PM.Text("[", []))] + held
  }

  /** The closing step as written: a trailing node of the text type is replaced by its copy
      over its `text` field and the suffix. */
  function CloseAsWritten(front: seq<Held>, suffix: string): seq<Held>
    requires |front| > 0
  {
    var tail := front[|front| - 1];
    if HasTextType(tail) then
      front[..|front| - 1] + [TextCopy(PM.Text(TextField(tail) + suffix, []), HeldMarks(tail))]
    else
      front + [Plain(PM.Text(suffix, []))]
  }

  /** `revert` on the converted children of a link reference, as written. */
  function BracketAsWritten(contents: seq<PM.Node>, suffix: string): seq<Held>
  {
    CloseAsWritten(OpenAsWritten(contents), suffix)
  }

  /** As written, a reference whose only converted child is a text loses that text: the
      closing step reads the `text` field of the head's copy, which is undefined, so the
      result reads `undefined` and the suffix instead of `[`, the text and the suffix. */
  lemma AsWrittenSingleTextLost(t: string, marks: seq<PM.Mark>, suffix: string)
    ensures BracketAsWritten([PM.Text(t, marks)], suffix) == [TextCopy(PM.Text("undefined" + suffix, []), marks)]
    ensures HeldText(BracketAsWritten([PM.Text(t, marks)], suffix)[0]) != "[" + t + suffix
  {
    var front := OpenAsWritten([PM.Text(t, marks)]);
    assert front == [TextCopy(PM.Text("[" + t, []), marks)];
    assert ("[" + t + suffix)[0] == '[';
  }
}
