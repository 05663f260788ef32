# rehype-mermaid, modelled in Dafny

The site's rehype plugin `rehypeMermaid` runs on every compiled Markdown
document after syntax highlighting. It walks the HAST (HTML abstract syntax
tree) and finds each `pre` element whose language attribute is exactly
`"mermaid"`. It rewrites that element in place into a `div` of class
`mermaid`, whose only child is a text node holding the block's text, so that
the Mermaid library can render it in the browser. Nothing else in the
document is touched.

The project has four files:

- `hast.dfy` (module `Hast`) holds the document as a value: nodes, property
  maps in which JavaScript `null` and `undefined` are kept apart, the
  `properties?.[key]` lookup, and `Flatten`, which stands in for `toText`
  and reads text in document order.
- `mermaid_spec.dfy` (module `MermaidSpec`) states what the plugin does on
  tree values. It covers the language lookup with `??`, the match test, the
  rewrite of a matching `pre` (`Convert`) and the result of the whole pass
  (`Transform`). The lemmas prove the plugin's promises about it.
- `rehype_mermaid.dfy` (module `RehypeMermaid`) is the plugin as it runs. A
  class `HNode` has the fields the plugin reads and assigns. The visitor
  assigns `tagName`, `properties` and `children` of the matching object in
  place. The pre-order walk of `visit(tree, 'element', …)` is a set of
  mutually recursive methods. Every node object carries a ghost `Model`, the
  tree value it stands for. The walk is proved to leave the root object
  standing for `Transform` of its old value. This is the link between the
  in-place mutation and the function that rebuilds the tree.
- `mermaid_examples.dfy` (module `MermaidExamples`) works through concrete
  documents: each attribute spelling, the precedence of the two keys, a
  `null` key, the exact comparison, and a nested block.

The language test follows the code: `node.properties?.dataLanguage ??
node.properties?.['data-language']`. The hyphenated key is consulted only
when the camel-cased one is absent (`undefined`) or `null`. A camel-cased
key holding any other value decides alone, even if that value is an empty
string or a number. The description of the plugin only says that
`pre[data-language="mermaid"]` is matched; the model follows the code.

The walk follows `unist-util-visit`. The visitor runs on a node before its
children are read, so a converted `pre` is walked into through its new
children, one text leaf with nothing to visit. Its old subtree, a nested
mermaid `pre` included, is never visited and survives only as text.

## Model

| member | source | states |
|---|---|---|
| Hast.Flatten | src/plugins/rehype-mermaid.mjs:17 | the text of a node, standing in for `toText`: a text leaf gives its value, a comment gives nothing, and a root or element gives the text of its children |
| Hast.FlattenAll | src/plugins/rehype-mermaid.mjs:17 | the text of a list of siblings: empty for no siblings, the one sibling's text for one |
| Hast.FlattenAllAppend | src/plugins/rehype-mermaid.mjs:17 | text is read in document order: the text of two consecutive runs of siblings is the first run's text followed by the second's |
| Hast.FlattenAllCons | src/plugins/rehype-mermaid.mjs:17 | the first child's text comes before the text of the children after it |
| Hast.Get | src/plugins/rehype-mermaid.mjs:13 | `properties?.[key]` is defined exactly when `properties` exists and holds the key, and is then the stored value |
| MermaidSpec.Coalesce | src/plugins/rehype-mermaid.mjs:13 | `a ?? b` is `a` when `a` is defined and not `null`, and `b` when `a` is `undefined` or `null` |
| MermaidSpec.Language | src/plugins/rehype-mermaid.mjs:13 | no `properties` gives no language. A present, non-null `dataLanguage` is the language. Otherwise the language is `data-language` if present and undefined if not |
| MermaidSpec.IsMermaidPre | src/plugins/rehype-mermaid.mjs:12-15 | the visitor's test: only an element tagged `pre` that has properties can match. The full if-and-only-if is MermaidSpec.MatchRule |
| MermaidSpec.MatchRule | src/plugins/rehype-mermaid.mjs:12-15 | an element matches if and only if it is a `pre`, has properties, and either `dataLanguage` is exactly `"mermaid"`, or `dataLanguage` is absent or null and `data-language` is exactly `"mermaid"` |
| MermaidSpec.Convert | src/plugins/rehype-mermaid.mjs:17-20 | the rewritten element is a `div` whose properties are exactly `{className: ["mermaid"]}` and whose only child is a text leaf with the old element's text (empty text included). It has the same text content as before and no longer matches |
| MermaidSpec.Transform | src/plugins/rehype-mermaid.mjs:11-21 | a matching `pre` becomes `Convert` of itself. Any other node keeps its type, tag, properties and number of children |
| MermaidSpec.TransformAll | src/plugins/rehype-mermaid.mjs:11 | siblings are transformed one by one, each in its own position |
| MermaidSpec.FixedPointIffFree | src/plugins/rehype-mermaid.mjs:12-15 | a document is left exactly as it was if and only if it holds no matching `pre`. Non-`pre` elements, text and comments are never changed |
| MermaidSpec.ChildrenFixedIffFree | src/plugins/rehype-mermaid.mjs:11-15 | a list of siblings is left unchanged if and only if none of them holds a matching `pre` |
| MermaidSpec.TransformLeavesNoMermaidPre | src/plugins/rehype-mermaid.mjs:12-18 | after the pass no matching `pre` is left anywhere in the document |
| MermaidSpec.TransformIdempotent | src/plugins/rehype-mermaid.mjs:12-18 | running the pass on its own output changes nothing |
| MermaidSpec.TransformKeepsText | src/plugins/rehype-mermaid.mjs:17-20 | the text content of the document is the same before and after the pass |
| MermaidSpec.TransformAllKeepsText | src/plugins/rehype-mermaid.mjs:17-20 | the text content of a list of siblings is the same before and after the pass |
| MermaidSpec.PositionKept | src/plugins/rehype-mermaid.mjs:11-20 | every node the walk reaches stays at the same child-index path and is replaced by its own transform, so nothing is moved |
| RehypeMermaid.HNode.TextLeaf | src/plugins/rehype-mermaid.mjs:20 | `{type: 'text', value}` is a new leaf object standing for `Text(value)` |
| RehypeMermaid.ToText | src/plugins/rehype-mermaid.mjs:17 | `toText(node)` read off the objects is `Flatten` of the value the node stands for |
| RehypeMermaid.MermaidVisitor | src/plugins/rehype-mermaid.mjs:11-21 | a matching `pre` object now stands for `Convert` of its old value, and its only child is a new text leaf, which is all its footprint holds besides itself. Any other element object is not changed at all. Either way the object's fields take one `VisitorStep`: they are kept, or a matching `pre` becomes a `div.mermaid` with one text child |
| RehypeMermaid.RewriteInPlace | src/plugins/rehype-mermaid.mjs:17-20 | the same object gets tag `div`, properties `{className: ["mermaid"]}` and one new text child holding the text taken before the rewrite |
| RehypeMermaid.VisitElements | src/plugins/rehype-mermaid.mjs:11 | after the walk below `n`, the object `n` stands for `Transform` of its old value. The only objects the walk adds are text leaves. Every object that was in the subtree keeps its tag, properties and children objects, unless it was itself a matching `pre`, which is now a `div.mermaid` with one text child. An `n` that did not match keeps its own fields |
| RehypeMermaid.VisitElement | src/plugins/rehype-mermaid.mjs:11-20 | the visitor runs on the element before its children are read. The element then stands for `Transform` of its old value, and the only objects added are text leaves. Every old object keeps its fields unless it was a matching `pre` and is converted. When the element itself matched, no other object of its old subtree is changed at all, because that subtree is never visited |
| RehypeMermaid.VisitAfterVisitor | src/plugins/rehype-mermaid.mjs:11 | once the visitor has returned, the walk reads the element's children as they are now. The element's own fields and children objects stay, and the element stands for `Transform` of its value before the visitor. Every object below keeps its fields unless it was a matching `pre` and is converted |
| RehypeMermaid.VisitChildren | src/plugins/rehype-mermaid.mjs:11 | the children objects stay the same and in the same order, and the parent's tag and properties are kept. The parent stands for itself with its children transformed. Only text leaves are added, and every object below keeps its fields unless it was a matching `pre` and is converted |
| RehypeMermaid.VisitEach | src/plugins/rehype-mermaid.mjs:11 | each child object of a list, visited left to right, stands afterwards for the transform of its old value. The only objects added are text leaves, and every object of the subtrees keeps its fields unless it was a matching `pre` and is converted |
| RehypeMermaid.VisitChildAt | src/plugins/rehype-mermaid.mjs:11 | visiting one child transforms it and adds only text leaves. Every object of its subtree keeps its fields unless it was a matching `pre` and is converted. Its siblings' values, children and footprints are left alone |
| RehypeMermaid.Transformer | src/plugins/rehype-mermaid.mjs:9-23 | the transformer mutates the document it is given in place. The same root object stands afterwards for `Transform` of the old document. Every object new to the document is a text leaf, so no element is replaced. Every object of the old document keeps its tag, properties and children objects unless it was a matching `pre`, which is now a `div.mermaid` with one text child. In particular the root's children objects and, where they did not match, their children objects are the ones they had |
| MermaidExamples.CamelCaseBlockConverted | src/plugins/rehype-mermaid.mjs:13-20 | a `pre` with `dataLanguage: "mermaid"` becomes `div.mermaid` with its text |
| MermaidExamples.HyphenatedBlockConvertedThroughCode | src/plugins/rehype-mermaid.mjs:13-17 | `data-language` is honoured, and the text is taken through a nested `code` element |
| MermaidExamples.OtherLanguageUntouched | src/plugins/rehype-mermaid.mjs:14-15 | a `pre` in another language is unchanged |
| MermaidExamples.CamelCaseKeyWins | src/plugins/rehype-mermaid.mjs:13 | `dataLanguage: "python"` wins over `data-language: "mermaid"` |
| MermaidExamples.NullCamelCaseFallsBack | src/plugins/rehype-mermaid.mjs:13 | a `null` `dataLanguage` gives way to `data-language`, and an empty block still gets a text child |
| MermaidExamples.ComparisonIsExact | src/plugins/rehype-mermaid.mjs:14 | `"Mermaid"` and `"mermaid "` do not match |
| MermaidExamples.NestedBlockBecomesText | src/plugins/rehype-mermaid.mjs:11-20 | a mermaid `pre` nested in another one ends up only as text inside the outer `div` |
| MermaidExamples.BlockRewrittenInPlace | src/plugins/rehype-mermaid.mjs:9-20 | a document built from node objects and run through the transformer: the root keeps the `pre` object as its child, and that object is now a `div.mermaid` holding the block's text |
| MermaidExamples.NestedObjectsKept | src/plugins/rehype-mermaid.mjs:10-11 | a mermaid block two levels down: the root keeps its `section` object and the `section` keeps its `pre` object |

## Left out

- `hast-util-to-text` is modelled as the in-order concatenation of text leaves, with comments contributing nothing. The real library follows the HTML innerText algorithm. That algorithm can insert line breaks around block-level descendants and collapse white space, and those are not modelled. For a code block it is the plain concatenation.
- `toText` on a node that is itself a comment is not modelled; the plugin only calls it on elements.
- `unist-util-visit` is modelled only as far as the plugin uses it: a pre-order walk that calls the visitor on every element and reads a node's children after the visitor returns. Its `SKIP`, `EXIT` and index-returning protocol is not modelled, because the visitor returns nothing.
- The `position` and `data` fields of a node are not modelled. The rewrite assigns only `tagName`, `properties` and `children`, so the converted `div` keeps the `position` and `data` of the `pre` it was. The `type` field is kept too; it is modelled as a constant (`HNode.kind`).
- The node's index and parent, which `visit` also passes to the visitor, are not modelled; the visitor does not use them.
- `doctype` and `raw` nodes are not modelled. They are not elements and have no children, so the visitor never sees them and the walk passes over them; how `toText` treats a `raw` node inside a block is not modelled.
- Property values are strings, integers, booleans, string lists and `null`; floating-point numbers and other JavaScript values are not modelled. Lookups through the object prototype chain are not modelled either.
- RehypeMermaid.Transformer: the transformer returns `undefined`, and the pipeline keeps the same, mutated root. The method therefore has no result.
- RehypeMermaid.Transformer: the clause on old objects allows any matching `pre` to be converted, including one inside the old subtree of a converted block. That such a nested block is left untouched is proved one level down, in `RehypeMermaid.VisitElement`, and is not carried up to the whole document; the document's value, `Transform` of the old one, no longer contains that subtree.
- src/components/InteractiveCanvas.tsx is a canvas animation component with floating-point drawing and browser event plumbing. It is not part of this model.
- astro.config.mjs only wires the plugin into the build. It is not part of this model.
- The syntax highlighter that sets the language attribute upstream and the browser-side Mermaid renderer are not part of this model.
