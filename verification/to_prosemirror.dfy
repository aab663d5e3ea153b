/** mdast to ProseMirror: the type dispatch with its defaults, the children loop that
    trims after hard breaks, and reference resolution against the definition table. */
module ToProseMirror {
  import opened Results
  import opened HandlerResults
  import PM = ProseMirror
  import Md = Mdast
  import opened MarkdownText
  import opened DefinitionTable
  import opened Revert

  /** Why a conversion stops: `unknown` and `invalid` throw. */
  datatype ConvertError =
    | UnknownNode(kind: string)
    | InvalidNode(shown: string)

  /** The message each error is thrown with. */
  function Message(e: ConvertError): string
  {
    match e
    case UnknownNode(kind) => "unknown markdown node: " + kind
    case InvalidNode(shown) => "Expected node, not `" + shown + "`"
  }

  /** A user handler. `toPmNode` and `toPmMark` convert the node's children first;
      a custom handler either receives the converted children or never asks for them. */
  datatype Handler =
      /** `toPmNode(nodeType, getAttrs)`. */
    | ToNode(nodeType: PM.ElementKind, getAttrs: Md.Node -> PM.Attrs)
      /** `toPmMark(markType, getAttrs)`. */
    | ToMark(markType: string, getAttrs: Md.Node -> PM.Attrs)
      /** A handler that calls `state.all(node)` and builds its result from the children. */
    | Custom(build: (Md.Node, Option<Md.Node>, seq<PM.Node>) -> Out<PM.Node>)
      /** A handler that does not convert the node's children. */
    | Leaf(make: (Md.Node, Option<Md.Node>) -> Out<PM.Node>)

  /** The conversion state. The schema-dependent parts of ProseMirror are parameters:
      `fill` is `createAndFill`'s completion of a content list (absent when the content
      cannot be made valid), `addToSet` is `Mark.addToSet`, `trimLines` is the
      trim-lines package and `html` the whole embedded-HTML path. */
  datatype State = State(
    schema: PM.Schema,
    handlers: map<string, Handler>,
    fill: (PM.ElementKind, seq<PM.Node>) -> Option<seq<PM.Node>>,
    addToSet: (PM.Mark, seq<PM.Mark>) -> seq<PM.Mark>,
    trimLines: string -> string,
    html: Md.Node -> Out<PM.Node>,
    tables: Tables)

  /** `createState`: the tables hold the first definition of every identifier in the tree. */
  function CreateState(schema: PM.Schema, handlers: map<string, Handler>,
                       fill: (PM.ElementKind, seq<PM.Node>) -> Option<seq<PM.Node>>,
                       addToSet: (PM.Mark, seq<PM.Mark>) -> seq<PM.Mark>,
                       trimLines: string -> string, html: Md.Node -> Out<PM.Node>,
                       tree: Md.Node): (s: State)
    ensures Tabulates(Preorder(tree), s.tables)
    ensures s.schema == schema && s.handlers == handlers
  {
    State(schema, handlers, fill, addToSet, trimLines, html, BuildTables(tree))
  }

  /** Types with a built-in handler. */
  const Defaults: set<string> := {"toml", "yaml", "definition", "footnoteDefinition", "root", "html", "text", "linkReference"}

  /** Types whose built-in handler produces nothing. */
  const Ignored: set<string> := {"toml", "yaml", "definition", "footnoteDefinition"}

  /** `nodeType.createAndFill(attrs, children)`. */
  function CreateAndFill(s: State, nodeType: PM.ElementKind, attrs: PM.Attrs, children: seq<PM.Node>): (r: Out<PM.Node>)
    ensures r.Nothing? <==> s.fill(nodeType, children).None?
    ensures r.Single? ==> r.node == PM.Element(nodeType, attrs, s.fill(nodeType, children).value, [])
    ensures !r.Many?
  {
    match s.fill(nodeType, children)
    case None => Nothing
    case Some(content) => Single(PM.Element(nodeType, attrs, content, []))
  }

  /** `child.mark(marks)`: the same node with its marks replaced. */
  function WithMarks(n: PM.Node, marks: seq<PM.Mark>): (r: PM.Node)
    ensures r.marks == marks && r.TypeName() == n.TypeName() && PM.TextContent(r) == PM.TextContent(n)
    ensures r.(marks := n.marks) == n
  {
    match n
    case Text(t, _) => PM.Text(t, marks)
    case Element(k, a, c, _) => PM.Element(k, a, c, marks)
  }

  /** A children-converting handler applied to the converted children. */
  function Apply(s: State, h: Handler, n: Md.Node, parent: Option<Md.Node>, children: seq<PM.Node>): Out<PM.Node>
    requires !h.Leaf?
  {
    match h
    case ToNode(nodeType, getAttrs) => CreateAndFill(s, nodeType, getAttrs(n), children)
    case ToMark(markType, getAttrs) =>
      var mark := PM.Mark(markType, getAttrs(n));
      Many(seq(|children|, i requires 0 <= i < |children| => WithMarks(children[i], s.addToSet(mark, children[i].marks))))
    case Custom(build) => build(n, parent, children)
  }

  /** `after` is `before` with a prefix of spaces and tabs removed. */
  predicate DropsBlankPrefix(before: string, after: string)
  {
    && |after| <= |before|
    && after == before[|before| - |after|..]
    && AllMarkdownSpace(before[..|before| - |after|])
  }

  /** Leading blanks removed from a leading text child, which loses its marks. */
  function TrimHead(content: seq<PM.Node>): (r: seq<PM.Node>)
    requires |content| > 0 && content[0].Text?
    ensures |r| == |content| && r[1..] == content[1..]
    ensures r[0] == PM.Text(TrimSpaceStart(content[0].text), [])
    ensures DropsBlankPrefix(PM.TextOfAll(content), PM.TextOfAll(r))
  {
    var head := content[0];
    var trimmed := PM.Text(TrimSpaceStart(head.text), []);
    var rest := content[1..];
    var r := [trimmed] + rest;
    assert content == [head] + rest;
    PM.TextOfAllCons(head, rest);
    PM.TextOfAllCons(trimmed, rest);
    var tail := PM.TextOfAll(rest);
    var cut := |head.text| - |trimmed.text|;
    assert (head.text + tail)[cut..] == head.text[cut..] + tail;
    assert (head.text + tail)[..cut] == head.text[..cut];
    r
  }

  /** A text result after a break: its leading blanks go, and so do its marks. */
  function TrimText(n: PM.Node): (r: PM.Node)
    requires n.Text?
    ensures r.Text? && r.marks == []
    ensures DropsBlankPrefix(PM.TextContent(n), PM.TextContent(r))
    ensures |r.text| == 0 || !IsMarkdownSpace(r.text[0])
  {
    PM.Text(TrimSpaceStart(n.text), [])
  }

  /** Another single result after a break whose first child is text: that child is trimmed. */
  function TrimFirstChild(n: PM.Node): (r: PM.Node)
    requires n.Element? && |n.content| > 0 && n.content[0].Text?
    ensures r.Element? && r.kind == n.kind && r.attrs == n.attrs && r.marks == n.marks
    ensures r.content == TrimHead(n.content)
    ensures DropsBlankPrefix(PM.TextContent(n), PM.TextContent(r))
  {
    n.(content := TrimHead(n.content))
  }

  /** What `all` does to a child's result when the previous sibling is a hard break:
      a text result loses its leading blanks (and its marks); another single node whose
      first child is text has that child's leading blanks removed. Either way only
      leading blanks of the text content go. */
  function AfterBreak(o: Out<PM.Node>): (r: Out<PM.Node>)
    ensures o.Single? <==> r.Single?
    ensures !o.Single? ==> r == o
    ensures o.Single? ==> r.node.TypeName() == o.node.TypeName()
    ensures o.Single? && o.node.Element? ==> r.node.marks == o.node.marks
    ensures o.Single? ==> DropsBlankPrefix(PM.TextContent(o.node), PM.TextContent(r.node))
    ensures o.Single? && o.node.Text? ==> r == Single(TrimText(o.node))
    ensures o.Single? && o.node.Element? && |o.node.content| > 0 && o.node.content[0].Text? ==>
              r == Single(TrimFirstChild(o.node))
    ensures o.Single? && o.node.Element? && !(|o.node.content| > 0 && o.node.content[0].Text?) ==> r == o
  {
    if !o.Single? then o
    else if o.node.Text? then Single(TrimText(o.node))
    else if |o.node.content| > 0 && o.node.content[0].Text? then Single(TrimFirstChild(o.node))
    else
      var t := PM.TextContent(o.node);
      assert t[|t| - |t|..] == t && t[..0] == [];
      o
  }

  /** `handle`: the built-in handlers for ignored types, `root`, `html` and `text`, with the
      user's handlers taking precedence over them, and `linkReference`, which defers to a
      user handler itself; a type nobody handles is an error, and so is a non-node. */
  function Handle(s: State, n: Md.Node, parent: Option<Md.Node>): (r: Result<Out<PM.Node>, ConvertError>)
    ensures n.NotNode? ==> r == Failure(InvalidNode(n.shown))
    ensures n.LinkReference? && "linkReference" in s.handlers ==>
              r == Invoke(s, s.handlers["linkReference"], n, parent, n)
    ensures !n.NotNode? && !n.LinkReference? && Md.TypeOf(n).value in s.handlers ==>
              r == Invoke(s, s.handlers[Md.TypeOf(n).value], n, parent, n)
    ensures !n.NotNode? && Md.TypeOf(n).value !in s.handlers ==>
              && (Md.TypeOf(n).value in Ignored ==> r == Success(Nothing))
              && (Md.TypeOf(n).value == "html" ==> r == Success(s.html(n)))
              && (n.Text? ==> r == Success(Single(PM.Text(ReplaceNewlines(s.trimLines(n.value)), []))))
              && (Md.TypeOf(n).value !in Defaults ==> r == Failure(UnknownNode(Md.TypeOf(n).value)))
    decreases n, 2, 0
  {
    if n.NotNode? then Failure(InvalidNode(n.shown))
    else if n.LinkReference? then ResolveReference(s, n, parent)
    else
      var t := Md.TypeOf(n).value;
      if t in s.handlers then Invoke(s, s.handlers[t], n, parent, n)
      else if t in Ignored then Success(Nothing)
      else if t == "root" then
        var children :- AllOf(s, n, n, 0);
        Success(CreateAndFill(s, s.schema.topNode, map[], children))
      else if t == "html" then Success(s.html(n))
      else if n.Text? then Success(Single(PM.Text(ReplaceNewlines(s.trimLines(n.value)), [])))
      else Failure(UnknownNode(t))
  }

  /** Runs handler `h` on `n`. `owner` is the node whose children `n` shares (a resolved
      reference hands its own children to the link handler). */
  function Invoke(s: State, h: Handler, n: Md.Node, parent: Option<Md.Node>, owner: Md.Node): (r: Result<Out<PM.Node>, ConvertError>)
    requires Md.Children(n) == Md.Children(owner)
    ensures h.Leaf? ==> r == Success(h.make(n, parent))
    ensures !h.Leaf? ==>
              (r.Success? <==> AllOf(s, owner, n, 0).Success?)
              && (r.Success? ==> r.value == Apply(s, h, n, parent, AllOf(s, owner, n, 0).value))
    decreases owner, 1, 0
  {
    if h.Leaf? then Success(h.make(n, parent))
    else
      var children :- AllOf(s, owner, n, 0);
      Success(Apply(s, h, n, parent, children))
  }

  /** The `link` node a resolved reference stands for: the definition's destination and
      title, the reference's children, and both nodes' data with the reference's winning. */
  function LinkNode(d: Md.DefinitionNode, ref: Md.Node): (link: Md.Node)
    requires ref.LinkReference?
    ensures link.Parent? && link.kind == "link" && link.children == ref.children
    ensures "url" in link.props && link.props["url"] == d.url
    ensures ("title" in link.props) <==> d.title.Some?
    ensures d.title.Some? ==> link.props["title"] == d.title.value
    ensures link.data.Keys == d.data.Keys + ref.data.Keys
    ensures forall k :: k in ref.data ==> link.data[k] == ref.data[k]
    ensures forall k :: k in d.data && k !in ref.data ==> link.data[k] == d.data[k]
  {
    var props := map["url" := d.url];
    var props := if d.title.Some? then props["title" := d.title.value] else props;
    Md.Parent("link", props, ref.children, d.data + ref.data)
  }

  /** The built-in `linkReference` handler: a user handler for `linkReference` wins;
      otherwise the upper-cased identifier is looked up, a miss is reverted to literal
      text, and a hit becomes a `link` node handed to the user's `link` handler (nothing
      when there is none). */
  function ResolveReference(s: State, n: Md.Node, parent: Option<Md.Node>): (r: Result<Out<PM.Node>, ConvertError>)
    requires n.LinkReference?
    decreases n, 1, 1
  {
    if "linkReference" in s.handlers then Invoke(s, s.handlers["linkReference"], n, parent, n)
    else
      var id := Upper(n.identifier);
      if id !in s.tables.definitions then
        var contents :- AllOf(s, n, n, 0);
        Success(Many(Bracket(contents, Suffix(n.referenceType, n.labelText, n.identifier))))
      else
        var link := LinkNode(s.tables.definitions[id], n);
        if "link" in s.handlers then Invoke(s, s.handlers["link"], link, parent, n)
        else Success(Nothing)
  }

  /** `all` from the `i`-th child of `owner` on, each child converted with `asParent` as
      its parent; a child after a `break` sibling is trimmed, a child that converts to
      nothing is skipped, and the first error ends the loop. */
  function AllOf(s: State, owner: Md.Node, asParent: Md.Node, i: nat): Result<seq<PM.Node>, ConvertError>
    requires i <= |Md.Children(owner)|
    decreases owner, 0, |Md.Children(owner)| - i
  {
    var kids := Md.Children(owner);
    if i == |kids| then Success([])
    else
      var o :- Handle(s, kids[i], Some(asParent));
      var adjusted := if i > 0 && Md.IsType(kids[i - 1], "break") then AfterBreak(o) else o;
      var rest :- AllOf(s, owner, asParent, i + 1);
      Success(Contribution(adjusted) + rest)
  }

  /** `state.all(node)`. */
  function All(s: State, n: Md.Node): Result<seq<PM.Node>, ConvertError>
  {
    AllOf(s, n, n, 0)
  }

  /** Why the compiler stops: the conversion throws, its answer is not one node (so
      `doc.check` is not a function of it), or `Node.check` rejects the document. */
  datatype CompileError =
    | ConversionFailed(error: ConvertError)
    | NotADocument
    | InvalidDocument

  /** The compiler: convert the tree with a state created from it, then `doc.check()`.
      `check` is `Node.check`'s verdict under the schema. */
  function Compile(schema: PM.Schema, handlers: map<string, Handler>,
                   fill: (PM.ElementKind, seq<PM.Node>) -> Option<seq<PM.Node>>,
                   addToSet: (PM.Mark, seq<PM.Mark>) -> seq<PM.Mark>,
                   trimLines: string -> string, html: Md.Node -> Out<PM.Node>,
                   check: PM.Node -> bool, tree: Md.Node): Result<PM.Node, CompileError>
  {
    match Handle(CreateState(schema, handlers, fill, addToSet, trimLines, html, tree), tree, None)
    case Failure(e) => Failure(ConversionFailed(e))
    case Success(Single(doc)) => if check(doc) then Success(doc) else Failure(InvalidDocument)
    case Success(_) => Failure(NotADocument)
  }
}
