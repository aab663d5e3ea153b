# remark-prosemirror, modelled in Dafny

remark-prosemirror converts between two shapes of the same rich-text document:

- **mdast**: the markdown syntax tree of the unified ecosystem. Formatting is a wrapper node around the text it formats (`emphasis`, `strong`, `link`, …).
- **ProseMirror**: the editor's flat document model. Each leaf carries an ordered list of marks, and there are no wrapper nodes.

This project models both conversion cores as pure functions over immutable datatypes, and proves what they promise.

**ProseMirror to mdast** (`lib/mdast-util-from-prosemirror.ts`):
- `one` dispatches on the node type. A registered node handler wins. Otherwise the schema's top node becomes an mdast `root`, a text node becomes an mdast `text`, and anything else becomes `null`.
- `all` pairs every child with its marks and calls `hydrateMarks`.
- `hydrateMarks` splits the children into maximal runs that share their leading mark, or that all have no marks left.
- `processChildPartition` converts each run. An unmarked run converts child by child. Otherwise the leading mark is removed from every member, the run converts recursively, and the mark's handler wraps the result once. When the mark has no handler, the converted children are kept unwrapped.
- `null` answers are dropped and array answers are spliced in place.
- `fromPmNode` and `fromPmMark` are modelled as handler shapes (`WrapNode`, `WrapMark`). Any other handler is a function value.

**mdast to ProseMirror** (`remarkProseMirror.ts`):
- `createState` builds the link-definition and footnote-definition tables with one pre-order `visit`. Identifiers are upper-cased and the first definition wins, as for link reference definitions in section 4.7 of the CommonMark specification.
- `all` converts the children in order and skips `null` answers. After a `break` sibling, it trims the leading spaces and tabs of the next result's text (`trimMarkdownSpaceStart`). The first error ends the conversion.
- `handle` is the type dispatch, and the state's `one` calls it directly:
  - `toml`, `yaml`, `definition` and `footnoteDefinition` are ignored.
  - The built-in `root`, `html` and `text` handlers apply, and user handlers override them.
  - `linkReference` defers to a user `linkReference` handler. Otherwise it resolves the upper-cased identifier: a hit becomes a `link` node passed to the user's `link` handler.
  - A miss is reverted to its literal bracket syntax (`revert`, after sections 6.3 and 6.4 of the CommonMark specification).
  - An unknown type throws `unknown markdown node: <type>`, and a non-node throws ``Expected node, not `…` ``.
- `toPmNode` and `toPmMark` are handler shapes (`ToNode`, `ToMark`).
- The compiler converts the tree with a state created from that same tree, and `doc.check()` must accept the answer.
- `revert` is modelled as evidently intended: the end texts are re-texted. As written, its `copy` calls build text-typed copies (see Findings).

Thrown errors are a `Result` failure (`ConvertError`), and a handler's `null | node | node[]` answer is `Out<T>`.

ProseMirror's schema machinery is not modelled. Its operations are parameters of the state:
- `createAndFill`'s content completion (`fill`)
- `Mark.addToSet` (`addToSet`)
- the trim-lines package (`trimLines`)
- the whole embedded-HTML path (`html`)
- `Node.check`'s verdict on the compiled document (`check`)

`Mark.eq` is datatype equality.

Modules, one file each:

| module | file | concept |
|---|---|---|
| `Results` | results.dfy | `Option`, `Result` |
| `HandlerResults` | handler_results.dfy | `Out`, splicing |
| `ProseMirror` | prosemirror.dfy | marks, nodes, schema |
| `Mdast` | mdast.dfy | mdast nodes |
| `MarkRuns`, `MarkRunsProps` | mark_runs.dfy | the run partition of `hydrateMarks` |
| `FromProseMirror` | from_prosemirror.dfy | `one`, `all`, `hydrateMarks`, `processChildPartition` |
| `FromProseMirrorProps` | from_prosemirror_props.dfy | properties of the conversion |
| `MarkNesting` | mark_nesting.dfy | wrappers read back give every leaf its marks |
| `RootCheck` | root_check.dfy | the top-node assertion of `one` |
| `ExampleNames` | example_names.dfy | type names and marks shared by the worked examples |
| `Scenarios` | scenarios.dfy | the nested-marks test document |
| `MarkdownText` | markdown_text.dfy | `trimMarkdownSpaceStart`, `replaceNewlines`, upper-casing |
| `DefinitionTable` | definition_table.dfy | the definition scan |
| `Revert` | revert.dfy | literal reconstruction of references |
| `ToProseMirror` | to_prosemirror.dfy | `handle`, `all`, reference resolution, compiler |
| `ToProseMirrorProps` | to_prosemirror_props.dfy | properties of the conversion |
| `ToScenarios` | to_scenarios.dfy | worked mdast documents |

## Model

| member | source | states |
|---|---|---|
| FromProseMirror.CreateState | lib/mdast-util-from-prosemirror.ts:22-31 | the state carries exactly the given node and mark handler tables |
| FromProseMirror.One | lib/mdast-util-from-prosemirror.ts:33-61 | a registered node handler takes precedence over every default and gets the converted children; otherwise the top node becomes a root over its converted children, a text node a text with the same value, and any other node nothing, without an error |
| FromProseMirror.Items | lib/mdast-util-from-prosemirror.ts:112-117 | `all` pairs every child, in order, with its own marks |
| FromProseMirror.Rest | lib/mdast-util-from-prosemirror.ts:68 | `marks.slice(1)` drops exactly the first mark, and an empty list stays empty |
| FromProseMirror.Strip | lib/mdast-util-from-prosemirror.ts:67-70 | the recursive call sees every member with its node kept and exactly its first mark removed |
| FromProseMirror.StripShrinks | lib/mdast-util-from-prosemirror.ts:67-70 | removing the leading mark lowers the longest mark list, so the recursion depth is bounded by it |
| FromProseMirror.FromPmNode | lib/mdast-util-from-prosemirror.ts:155-174 | the handler answers one node of the given type, with the fields `getAttrs` reads off the node and the converted children |
| FromProseMirror.FromPmMark | lib/mdast-util-from-prosemirror.ts:176-190 | the handler answers one node of the given type, with the fields `getAttrs` reads off the mark and the converted children |
| FromProseMirror.FromProseMirror | lib/mdast-util-from-prosemirror.ts:122-132 | an unhandled top node converts to the root over its converted children; a handled one is its handler's answer |
| MarkRuns.Joins | lib/mdast-util-from-prosemirror.ts:90-95 | a child joins the last run exactly when both have no marks, or both have marks with equal leading marks |
| MarkRuns.Partition | lib/mdast-util-from-prosemirror.ts:80-104 | the reduce yields a run partition: the runs concatenate to the children in order, none is empty, each has one key, and neighbouring runs have different keys |
| MarkRuns.StepKeepsRuns | lib/mdast-util-from-prosemirror.ts:80-104 | one reducer step extends a run partition of the children seen so far to one that includes the next child |
| MarkRunsProps.RunPartitionUnique | lib/mdast-util-from-prosemirror.ts:80-104 | a list has exactly one split into maximal single-key runs |
| MarkRunsProps.PartitionCharacterized | lib/mdast-util-from-prosemirror.ts:80-104 | the reduce returns a split if and only if that split is a run partition of the children |
| MarkRunsProps.SingleRun | lib/mdast-util-from-prosemirror.ts:90-101 | children that all share one key form a single run |
| MarkRunsProps.SeparatedMarksNotMerged | lib/mdast-util-from-prosemirror.ts:90-103 | `[m], [], [m]` stays three runs: the two marked children are not merged across the unmarked one |
| FromProseMirrorProps.UnmarkedChildrenConvertEach | lib/mdast-util-from-prosemirror.ts:66 | children without marks convert one by one through `one`, in order, with no wrapper |
| FromProseMirrorProps.HandledRunWrapped | lib/mdast-util-from-prosemirror.ts:71-73 | a run led by a handled mark calls that handler once, with the mark, the parent and the run converted without the mark |
| FromProseMirrorProps.SharedMarkWrappedOnce | lib/mdast-util-from-prosemirror.ts:63-74 | adjacent children sharing a handled leading mark get one wrapper around all of them |
| FromProseMirrorProps.UnhandledMarksDropped | lib/mdast-util-from-prosemirror.ts:71-72 | marks without a handler are dropped and the content is kept: the children convert as if unmarked |
| FromProseMirrorProps.PartitionAppend | lib/mdast-util-from-prosemirror.ts:80-104 | where the key changes between two stretches of children, the partition of the whole is the two partitions side by side |
| FromProseMirrorProps.ProcessPartsAppend | lib/mdast-util-from-prosemirror.ts:106-107 | converting the runs distributes over concatenated partitions, keeping the runs' order |
| FromProseMirrorProps.HydrateSplitsAtKeyChange | lib/mdast-util-from-prosemirror.ts:76-110 | runs never reach across a change of leading mark: each side of the change converts on its own and the results are concatenated |
| HandlerResults.SpliceAppend | lib/mdast-util-from-prosemirror.ts:106-109 | dropping `null` answers and splicing arrays keeps the answers' relative order |
| HandlerResults.SpliceSingles | lib/mdast-util-from-prosemirror.ts:72 | an unhandled mark's converted children come out as they are |
| MarkNesting.NestingRoundTrip | lib/mdast-util-from-prosemirror.ts:63-110 | with `fromPmMark` handlers for every mark, reading the wrappers back gives every child, in order, inside exactly the wrappers of its marks, outermost first |
| MarkNesting.Expected | lib/mdast-util-from-prosemirror.ts:112-117 | the reference reading: each child converted on its own, under one wrapper per mark, in mark order |
| RootCheck.WrapperChildrenNeverRoot | lib/mdast-util-from-prosemirror.ts:112-117 | with `fromPmNode`/`fromPmMark` handlers that build no root, and no child of the top node's type, no converted child is a root |
| RootCheck.AsWrittenRejectsWrapperDocuments | lib/mdast-util-from-prosemirror.ts:48-51 | the top-node assertion as written fails on every such document |
| RootCheck.IntendedAcceptsWrapperDocuments | lib/mdast-util-from-prosemirror.ts:48-51 | the assertion its message describes passes on every such document and yields the root |
| RootCheck.NestedMarksTestDocument | lib/mdast-util-from-prosemirror.test.ts:133-161 | the test's document fails the assertion as written; the intended one yields the root `fromProseMirror` returns |
| Scenarios.NestedMarksBecomeWrappers | lib/mdast-util-from-prosemirror.test.ts:133-161 | `x` and `em(y, strong(z))` become a text and an `emphasis` wrapping a text and a `strong` |
| Scenarios.NestedMarksDocument | lib/mdast-util-from-prosemirror.test.ts:133-161 | the whole test document converts to a root of two `paragraph`s with the nested wrappers |
| MarkdownText.TrimSpaceStart | remarkProseMirror.ts:198-208 | the result is a suffix of the input, what is removed is spaces and tabs only, and the result is empty or starts with neither |
| MarkdownText.TrimMarkdownSpaceStart | remarkProseMirror.ts:198-208 | the index walk over character codes 9 and 32 computes the same result as the functional trim |
| MarkdownText.TrimSpaceStartExact | remarkProseMirror.ts:198-208 | any prefix of spaces and tabs put in front of a text not starting with one comes back off, and only that prefix |
| MarkdownText.TrimSpaceStartIdempotent | remarkProseMirror.ts:198-208 | trimming twice gives the same as trimming once |
| MarkdownText.ReplaceNewlines | remarkProseMirror.ts:139-141 | the length is kept, and a position becomes a space exactly when it holds a line feed followed by a character other than a line feed |
| MarkdownText.ReplaceNewlinesKeepsSingleLines | remarkProseMirror.ts:139-141 | a text with no line feed before its last character is unchanged |
| MarkdownText.Upper | remarkProseMirror.ts:61 | upper-casing keeps the length and maps every character on its own |
| MarkdownText.UpperIdempotent | remarkProseMirror.ts:61 | a normalised identifier is its own normal form |
| MarkdownText.UpperIgnoresCase | remarkProseMirror.ts:287 | identifiers that agree at every position up to the case of an ASCII letter (equal, or letters 32 code points apart) normalise alike |
| DefinitionTable.VisitEffect | remarkProseMirror.ts:59-69 | one visit adds a definition under a new upper-cased identifier to its own table and otherwise changes nothing |
| DefinitionTable.Scan | remarkProseMirror.ts:58-70 | visiting nodes in order leaves each table holding, for every identifier defined, its first definition, and nothing else |
| DefinitionTable.BuildTables | remarkProseMirror.ts:58-70 | the tables built for a tree tabulate the first definitions in its pre-order |
| DefinitionTable.FirstDefinitionWins | remarkProseMirror.ts:63-68 | the entry for an identifier is its first definition, whatever later definitions of it follow |
| DefinitionTable.FirstUnique | remarkProseMirror.ts:65-68 | an identifier has only one first definition |
| ToProseMirror.CreateState | remarkProseMirror.ts:39-72 | the state's tables are exactly the first definitions met in the tree's pre-order |
| Revert.SuffixReadsBack | remarkProseMirror.ts:148-155 | the closing part reads back as the same reference style, and for a full reference as the label, or the identifier without one |
| Revert.RevertImage | remarkProseMirror.ts:157-159 | an unresolved image reference becomes the single unmarked text `![`, alt, suffix |
| Revert.Open | remarkProseMirror.ts:162-168 | `[` joins a leading text child, keeping its marks; otherwise an unmarked `[` text is inserted before the unchanged children; the text reads `[` then the children's text |
| Revert.Close | remarkProseMirror.ts:170-178 | the suffix joins a trailing text child, keeping its marks; otherwise an unmarked suffix text is pushed after the unchanged list; the text reads the list's text then the suffix |
| Revert.Bracket | remarkProseMirror.ts:161-180 | the result reads `[`, the children's text, then the suffix. No children give the text `[` plus suffix; one text child gives one text `[`, its text, the suffix, with its marks; one other child is kept between an unmarked `[` and suffix; with two or more, each end text takes the bracket or suffix and keeps its marks, each other end child gets an unmarked text beside it, and inner children are kept |
| Revert.AsWrittenSingleTextLost | remarkProseMirror.ts:161-180 | with `copy` as ProseMirror defines it, a reference whose only child is a text comes back as a text-typed node reading `undefined` and the suffix, not `[`, the text and the suffix |
| ToProseMirror.CreateAndFill | remarkProseMirror.ts:256 | `createAndFill` gives nothing exactly when the content cannot be completed, and otherwise one node of the type over the completed content |
| ToProseMirror.WithMarks | remarkProseMirror.ts:330 | `child.mark(marks)` replaces the marks and keeps everything else: putting the old marks back gives the node itself |
| ToProseMirror.TrimHead | remarkProseMirror.ts:114-122 | the first text child loses its leading blanks and its marks; the other children are kept |
| ToProseMirror.TrimText | remarkProseMirror.ts:100-106 | a text result after a break loses its marks and exactly its leading blanks: only spaces and tabs go, and none is left at the start |
| ToProseMirror.TrimFirstChild | remarkProseMirror.ts:108-122 | a node result after a break keeps its type, attributes and marks, and its first text child loses its leading blanks |
| ToProseMirror.AfterBreak | remarkProseMirror.ts:99-123 | after a break, a text result is trimmed, a node whose first child is text has that child trimmed, and any other node, array or `null` passes unchanged; only leading blanks of the text content are removed |
| ToProseMirror.Handle | remarkProseMirror.ts:238-310 | a non-node fails with `invalid`; a user handler for the node's type wins over every default, for `linkReference` by the built-in handler deferring to it; otherwise ignored types give nothing, `html` and `text` use their defaults, and any other type fails with `unknown` |
| ToProseMirror.Invoke | remarkProseMirror.ts:312-332 | a handler that converts children succeeds exactly when the children do, and is applied to them |
| ToProseMirror.LinkNode | remarkProseMirror.ts:290-299 | the link takes the definition's url and title and the reference's children; its data merges both, with the reference's entries winning |
| ToProseMirrorProps.AllOfStep | remarkProseMirror.ts:93-131 | one turn of the loop goes on only past a child that converts, and passes a failure on unchanged |
| ToProseMirrorProps.AllSucceeds | remarkProseMirror.ts:87-136 | `all` succeeds exactly when every child converts |
| ToProseMirrorProps.AllOfSplices | remarkProseMirror.ts:87-136 | a successful `all` is the children's answers in order, `null`s dropped and arrays spliced in place, the answer after a `break` sibling trimmed |
| ToProseMirrorProps.AllFailsAtFirst | remarkProseMirror.ts:87-136 | a failing `all` fails with the error of the first child that does not convert, and every earlier child converts |
| ToProseMirrorProps.AllOfSharesChildren | remarkProseMirror.ts:294 | the loop depends on the owner only through its children, so a resolved link converts the reference's children |
| ToProseMirrorProps.MessageHead | remarkProseMirror.ts:183-220 | the two kinds of thrown message start differently |
| ToProseMirrorProps.MessageDeterminesError | remarkProseMirror.ts:183-220 | the thrown message determines the error: the unknown type or the shown non-node |
| ToProseMirrorProps.RootConvertsChildren | remarkProseMirror.ts:254-258 | the default `root` converts exactly when its children do, passes their error on, and fills the schema's top node with them |
| ToProseMirrorProps.CompileRoot | remarkProseMirror.ts:362-377 | under the whole tree's definition tables, the compiler on a root fails with the first error when a top-level child does not convert, fails when the top node cannot be filled or `doc.check()` rejects it, and otherwise yields the filled top node |
| ToProseMirrorProps.UnknownChildFails | remarkProseMirror.ts:246-248 | a node of an unhandled type among the children makes the conversion fail; content is never dropped silently |
| ToProseMirrorProps.ReferenceUsesFirstDefinition | remarkProseMirror.ts:279-301 | a reference whose identifier is defined goes to the `link` handler as a link to the first definition in document order |
| ToProseMirrorProps.ReferenceMatchIgnoresCase | remarkProseMirror.ts:287-288 | references whose identifiers differ only in letter case convert identically |
| ToProseMirrorProps.UnresolvedReferenceReverts | remarkProseMirror.ts:289 | an unresolved reference converts exactly when its children do, to the bracketed list of its converted children, which reads `[`, their text, then its closing part |
| ToProseMirrorProps.ResolvedWithoutLinkHandler | remarkProseMirror.ts:300 | a resolved reference with no `link` handler converts to nothing |
| ToProseMirrorProps.NodeHandlerFillsChildren | remarkProseMirror.ts:312-321 | `toPmNode` converts exactly when the children do, and gives one node of its type with its attributes over the completed content, or nothing |
| ToProseMirrorProps.MarkHandlerMarksEachChild | remarkProseMirror.ts:323-332 | `toPmMark` gives every converted child, in order, with the mark added to its marks and otherwise unchanged: type, attributes, content and text are kept |
| ToProseMirrorProps.TextWithoutBreaksKept | remarkProseMirror.ts:272-277 | the default text handler keeps a trimmed value without line breaks as it is, unmarked |
| ToScenarios.NestedWrappersBecomeMarks | remarkProseMirror.ts:323-332 | `toPmMark` handlers flatten nesting: `x **_y_**` becomes a paragraph whose second text carries both the `em` and the `strong` mark (an analogue of the test at lib/remark-prosemirror.test.ts:90-125, which drives another implementation) |
| ToScenarios.BreakTrimsNextLine | remarkProseMirror.ts:99-106 | `x`, a hard break, then an indented line give `x`, a hard break node, and the line without its indentation |
| ToScenarios.FirstOfTwoDefinitionsWins | remarkProseMirror.ts:58-70 | of two definitions differing only in case, the reference takes the first's url as the link mark's `href` |
| ToScenarios.UnresolvedShortcutReverts | remarkProseMirror.ts:143-181 | with `revert` as evidently intended, an undefined shortcut reference `[y]` becomes the literal text `[y]` |
| ToScenarios.UnknownTypeStopsConversion | remarkProseMirror.ts:186-188 | a thematic break with no handler stops the whole conversion with `unknown markdown node: thematicBreak` |

## Left out

- FromProseMirror.FromProseMirror: the state's `schema` stands for the document's own schema. `one` compares a node's type with `pmNode.type.schema.topNodeType`, and the source never reads `options.schema`, so the two differ only when the caller passes a schema other than the document's.
- The embedded-HTML path (`html` after `fromHtml`, and `hastElementHandle`) is one parameter of the state, because it needs an HTML parser.
- The trim-lines package is a parameter (`trimLines`), because it is an external package.
- ProseMirror's `createAndFill` is a parameter (`fill`), because its schema content completion and default attributes are not part of this code. So is `Mark.addToSet` (`addToSet`), because its mark-rank ordering comes from the schema.
- `doc.check()` in the compiler is a parameter (`check`), because the schema's content validation is not part of this code. Its `TypeError` and `RangeError` messages are not modelled: they are the `NotADocument` and `InvalidDocument` errors.
- Revert.Bracket: follows the evidently intended `withText` for the two `copy(Fragment.from(schema.text(…)))` calls, not the code as written (see Findings).
- Revert.Open: keeps the leading text's marks on a plain text node, as `withText` would; the code as written builds a text-typed copy instead.
- Revert.Close: likewise joins the suffix to the trailing text's own text, which the code as written reads as `undefined` when that text is the head's copy.
- ToScenarios.UnresolvedShortcutReverts: holds for the corrected `revert`; as written, `[y]` reads `undefined]` (Revert.AsWrittenSingleTextLost).
- `Fragment` identities are not modelled. `Fragment.from(content).replaceChild(0, …)` is a sequence update.
- ProseMirror's refusal of empty text nodes (`schema.text("")` throws) is not modelled. An empty text is an ordinary text here.
- MarkdownText.Upper: upper-cases ASCII letters only. JavaScript's `toUpperCase` is full Unicode and can change the length.
- `footnoteCounts` and `footnoteOrder` are not modelled, because this code declares them and never updates them.
- The `devlop` assertion of `one` is not part of `FromProseMirror.One`, which follows the production build, where the assertion is a no-op. It is modelled on its own in `RootCheck`; see Findings.
- Handlers are modelled as functions of their node, parent and converted children. A handler that throws, or that calls `state.one` on nodes other than its own children, is not modelled.
- `revert`'s image branch is modelled (`Revert.RevertImage`) but unreachable from `handle`, which has no built-in `imageReference` handler.
- An image reference's `alt` is a string. An absent `alt`, which prints as `undefined`, is not modelled.
- A definition's `title` of `null` is modelled as an absent title, so `LinkNode` then has no `title` field.
- The empty-partition branch of the reduce (lib/mdast-util-from-prosemirror.ts:86-87) is unreachable and folded into the run-opening case.
- lib/remark-prosemirror.ts delegates to `mdast-util-to-prosemirror.js`, which is not part of this model. Also out: `index.ts` re-exports, and the lint configuration files.

## Findings

| source | as written | input that shows it | evidently intended | confidence | as-written member | corrected member |
|---|---|---|---|---|---|---|
| lib/mdast-util-from-prosemirror.ts:48-51 | the development-build assertion on the top node's converted children requires that SOME child be an mdast root (`children.some(… is root)`), while its message reads "Expected non-root nodes" | the nested-marks test document `doc(p("This ", em("is a ", strong("document."))), p("It has two paragraphs."))` with `fromPmNode`/`fromPmMark` handlers: its converted children are two `paragraph`s, so the assertion fails | no converted child is a root (`!children.some(…)`) | high for the inverted condition; not executed | RootCheck.AsWrittenRejectsWrapperDocuments | RootCheck.IntendedAcceptsWrapperDocuments |
| remarkProseMirror.ts:161-178 | `revert` rebuilds the end texts with `head.copy(Fragment.from(schema.text(…)))`; `Node.copy` keeps the text type and swaps in content, so the copy is a text-typed node holding a text child, with no `text` of its own, and the closing step then reads that missing `text` | an undefined shortcut reference `[y]` whose only converted child is the text `y`: the closing step concatenates `undefined` and `]`, so the result reads `undefined]` | `head.withText("[" + head.text)` and `tail.withText(tail.text + suffix)`: one text `[y]` keeping the child's marks | high that `copy` does not re-text a text node; not executed | Revert.AsWrittenSingleTextLost | Revert.Bracket |
