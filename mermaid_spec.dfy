/** What the rehype-mermaid plugin does to a document, stated on tree values:
    the match test on one element, the rewrite of a matching `pre`, and the
    result of the whole pre-order pass. The in-place pass over the mutable
    tree (module RehypeMermaid) is proved to produce `Transform` of its input. */
module MermaidSpec {
  import opened Hast

  /** The two spellings of the language attribute that the highlighter may
      emit; the camel-cased one is looked up first. */
  const DataLanguage := "dataLanguage"
  const DataLanguageAttr := "data-language"

  /** The class marker the browser-side renderer selects on. */
  const MermaidClass: Properties := map["className" := List(["mermaid"])]

  /** JavaScript's `a ?? b`: `a` unless it is `undefined` or `null`. */
  function Coalesce(a: Option<PropValue>, b: Option<PropValue>): (r: Option<PropValue>)
    ensures a.Some? && a.value != Null ==> r == a
    ensures a.None? || a.value == Null ==> r == b
  {
    if a.None? || a.value == Null then b else a
  }

  /** `node.properties?.dataLanguage ?? node.properties?.['data-language']` */
  function Language(props: Option<Properties>): (r: Option<PropValue>)
    ensures props.None? ==> r == None
    ensures props.Some? && DataLanguage in props.value && props.value[DataLanguage] != Null ==>
              r == Some(props.value[DataLanguage])
    ensures props.Some? && (DataLanguage !in props.value || props.value[DataLanguage] == Null) ==>
              (r.Some? <==> DataLanguageAttr in props.value) &&
              (r.Some? ==> r.value == props.value[DataLanguageAttr])
  {
    Coalesce(Get(props, DataLanguage), Get(props, DataLanguageAttr))
  }

  /** The test the visitor applies to an element: a `pre` whose language is
      exactly the string "mermaid". */
  predicate IsMermaidPre(n: Node)
    ensures IsMermaidPre(n) ==> n.Element? && n.tagName == "pre" && n.properties.Some?
  {
    n.Element? && n.tagName == "pre" && Language(n.properties) == Some(Str("mermaid"))
  }

  /** Which `pre` elements match, said directly on the property map: the
      camel-cased key decides whenever it holds anything but `null`, the
      hyphenated key is consulted only when the camel-cased one is absent or
      `null`, the comparison is exact, and no property map means no match. */
  lemma MatchRule(n: Node)
    requires n.Element?
    ensures IsMermaidPre(n) <==>
      n.tagName == "pre" && n.properties.Some? &&
      ( (DataLanguage in n.properties.value
          && n.properties.value[DataLanguage] == Str("mermaid"))
      || ((DataLanguage !in n.properties.value || n.properties.value[DataLanguage] == Null)
          && DataLanguageAttr in n.properties.value
          && n.properties.value[DataLanguageAttr] == Str("mermaid")))
  {
  }

  /** The element the visitor turns a matching `pre` into. */
  function Convert(n: Node): (r: Node)
    ensures r.Element? && r.tagName == "div" && r.properties == Some(MermaidClass)
    ensures r.children == [Text(Flatten(n))]
    ensures Flatten(r) == Flatten(n)
    ensures !IsMermaidPre(r)
  {
    var text := Flatten(n);
    assert FlattenAll([Text(text)]) == FlattenAll([]) + text;
    Element("div", Some(MermaidClass), [Text(text)])
  }

  /** The node-level fields of `r` are those of `n`, and it has as many
      children: what an element that the visitor does not rewrite keeps. */
  predicate SameShell(n: Node, r: Node)
  {
    match n
    case Root(cs) => r.Root? && |r.children| == |cs|
    case Element(tag, props, cs) =>
      r.Element? && r.tagName == tag && r.properties == props && |r.children| == |cs|
    case Text(_) => r == n
    case Comment(_) => r == n
  }

  /** The document after the plugin's pre-order pass: a matching `pre` is
      replaced by `Convert` of it and its subtree is not visited; every other
      node keeps its own fields and has its children transformed in place. */
  function Transform(n: Node): (r: Node)
    decreases n, 1
    ensures IsMermaidPre(n) ==> r == Convert(n)
    ensures !IsMermaidPre(n) ==> SameShell(n, r)
  {
    match n
    case Text(_) => n
    case Comment(_) => n
    case Root(cs) => Root(TransformAll(cs))
    case Element(tag, props, cs) =>
      if IsMermaidPre(n) then Convert(n) else Element(tag, props, TransformAll(cs))
  }

  /** Transforms a list of siblings; every child keeps its position. */
  function TransformAll(cs: seq<Node>): (r: seq<Node>)
    decreases cs, 0
    ensures |r| == |cs|
    ensures forall i :: 0 <= i < |cs| ==> r[i] == Transform(cs[i])
  {
    if cs == [] then [] else TransformAll(cs[..|cs| - 1]) + [Transform(cs[|cs| - 1])]
  }

  /** No matching `pre` anywhere in the tree. */
  predicate MermaidFree(n: Node)
  {
    !IsMermaidPre(n) &&
    match n
    case Root(cs) => forall i :: 0 <= i < |cs| ==> MermaidFree(cs[i])
    case Element(_, _, cs) => forall i :: 0 <= i < |cs| ==> MermaidFree(cs[i])
    case Text(_) => true
    case Comment(_) => true
  }

  /** A tree is left exactly as it was if and only if it holds no matching
      `pre`: non-`pre` elements, text and comments are never changed. */
  lemma {:induction false} FixedPointIffFree(n: Node)
    decreases n
    ensures Transform(n) == n <==> MermaidFree(n)
  {
    match n
    case Text(_) =>
    case Comment(_) =>
    case Root(cs) =>
      ChildrenFixedIffFree(cs);
    case Element(_, _, cs) =>
      if IsMermaidPre(n) {
        assert Transform(n).tagName == "div" != n.tagName;
      } else {
        ChildrenFixedIffFree(cs);
      }
  }

  lemma {:induction false} ChildrenFixedIffFree(cs: seq<Node>)
    decreases cs, 0
    ensures TransformAll(cs) == cs <==> forall i :: 0 <= i < |cs| ==> MermaidFree(cs[i])
  {
    forall i | 0 <= i < |cs|
      ensures Transform(cs[i]) == cs[i] <==> MermaidFree(cs[i])
    {
      FixedPointIffFree(cs[i]);
    }
    if TransformAll(cs) == cs {
      forall i | 0 <= i < |cs| ensures MermaidFree(cs[i]) {
        assert TransformAll(cs)[i] == cs[i];
      }
    }
  }

  /** After the pass no matching `pre` is left anywhere, nested ones included:
      a converted node is a `div` holding one text leaf. */
  lemma {:induction false} TransformLeavesNoMermaidPre(n: Node)
    decreases n
    ensures MermaidFree(Transform(n))
  {
    match n
    case Text(_) =>
    case Comment(_) =>
    case Root(cs) =>
      forall i | 0 <= i < |cs| ensures MermaidFree(Transform(n).children[i]) {
        TransformLeavesNoMermaidPre(cs[i]);
      }
    case Element(_, _, cs) =>
      if !IsMermaidPre(n) {
        forall i | 0 <= i < |cs| ensures MermaidFree(Transform(n).children[i]) {
          TransformLeavesNoMermaidPre(cs[i]);
        }
      }
  }

  /** Running the pass on its own output changes nothing. */
  lemma TransformIdempotent(n: Node)
    ensures Transform(Transform(n)) == Transform(n)
  {
    TransformLeavesNoMermaidPre(n);
    FixedPointIffFree(Transform(n));
  }

  /** The text content of the whole document is unchanged by the pass: each
      converted `pre` carries exactly the text it had. */
  lemma {:induction false} TransformKeepsText(n: Node)
    decreases n, 1
    ensures Flatten(Transform(n)) == Flatten(n)
  {
    match n
    case Text(_) =>
    case Comment(_) =>
    case Root(cs) =>
      TransformAllKeepsText(cs);
    case Element(_, _, cs) =>
      if !IsMermaidPre(n) {
        TransformAllKeepsText(cs);
      }
  }

  lemma {:induction false} TransformAllKeepsText(cs: seq<Node>)
    decreases cs, 0
    ensures FlattenAll(TransformAll(cs)) == FlattenAll(cs)
  {
    if cs != [] {
      var k := |cs| - 1;
      var ts := TransformAll(cs);
      assert ts[..k] == TransformAll(cs[..k]);
      TransformAllKeepsText(cs[..k]);
      TransformKeepsText(cs[k]);
    }
  }

  /** The node reached from `t` by following child indices `p`. */
  function At(t: Node, p: seq<nat>): Option<Node>
    decreases p
  {
    if p == [] then Some(t)
    else if p[0] < |Children(t)| then At(Children(t)[p[0]], p[1..])
    else None
  }

  /** Every node strictly above the end of `p` is reached and is not a
      matching `pre`, so the pass walks down all of `p`. */
  predicate VisitedPath(t: Node, p: seq<nat>)
  {
    forall k :: 0 <= k < |p| ==> At(t, p[..k]).Some? && !IsMermaidPre(At(t, p[..k]).value)
  }

  /** Every node the pass reaches stays at the same position in the document
      and is replaced by its own transform: nothing is moved, and a node is
      rewritten only if it is a matching `pre` (then it becomes `Convert` of
      itself, with the text of its subtree as its one child). */
  lemma {:induction false} PositionKept(t: Node, p: seq<nat>)
    requires At(t, p).Some?
    requires VisitedPath(t, p)
    decreases p
    ensures At(Transform(t), p) == Some(Transform(At(t, p).value))
  {
    if p != [] {
      assert At(t, p[..0]) == Some(t) by { assert p[..0] == []; }
      var c := Children(t)[p[0]];
      assert Children(Transform(t)) == TransformAll(Children(t));
      forall k | 0 <= k < |p[1..]|
        ensures At(c, p[1..][..k]).Some? && !IsMermaidPre(At(c, p[1..][..k]).value)
      {
        assert p[..k + 1][0] == p[0] && p[..k + 1][1..] == p[1..][..k];
        assert At(t, p[..k + 1]) == At(c, p[1..][..k]);
      }
      PositionKept(c, p[1..]);
    }
  }
}
