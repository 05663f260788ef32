/** Concrete documents and what the pass makes of them. */
module MermaidExamples {
  import opened Hast
  import opened MermaidSpec
  import RehypeMermaid

  /** A block annotated with the camel-cased key becomes a mermaid `div`. */
  lemma CamelCaseBlockConverted()
    ensures Transform(Element("pre", Some(map[DataLanguage := Str("mermaid")]),
                              [Text("graph TD; A-->B;")]))
         == Element("div", Some(MermaidClass), [Text("graph TD; A-->B;")])
  {
    assert FlattenAll([Text("graph TD; A-->B;")]) == "graph TD; A-->B;";
  }

  /** The hyphenated key is honoured too, and the text is taken through the
      nested `code` element. */
  lemma HyphenatedBlockConvertedThroughCode()
    ensures Transform(Element("pre", Some(map[DataLanguageAttr := Str("mermaid")]),
                              [Element("code", Some(map[]), [Text("flowchart LR")])]))
         == Element("div", Some(MermaidClass), [Text("flowchart LR")])
  {
    var code := Element("code", Some(map[]), [Text("flowchart LR")]);
    assert FlattenAll([code]) == Flatten(code) == "flowchart LR" by {
      assert FlattenAll([Text("flowchart LR")]) == "flowchart LR";
    }
  }

  /** A block in another language is left exactly as it was. */
  lemma OtherLanguageUntouched()
    ensures var n := Element("pre", Some(map[DataLanguage := Str("python")]), [Text("print(1)")]);
            Transform(n) == n
  {
  }

  /** The camel-cased key wins even when the hyphenated one says "mermaid". */
  lemma CamelCaseKeyWins()
    ensures var n := Element("pre", Some(map[DataLanguage := Str("python"),
                                             DataLanguageAttr := Str("mermaid")]), []);
            Transform(n) == n
  {
  }

  /** A camel-cased key holding `null` gives way to the hyphenated one. */
  lemma NullCamelCaseFallsBack()
    ensures Transform(Element("pre", Some(map[DataLanguage := Null,
                                              DataLanguageAttr := Str("mermaid")]), []))
         == Element("div", Some(MermaidClass), [Text("")])
  {
    var props := map[DataLanguage := Null, DataLanguageAttr := Str("mermaid")];
    var n := Element("pre", Some(props), []);
    assert Language(Some(props)) == Some(Str("mermaid"));
    assert Flatten(n) == FlattenAll([]) == "";
  }

  /** The comparison is exact: no case folding, no trimming. */
  lemma ComparisonIsExact()
    ensures var n := Element("pre", Some(map[DataLanguage := Str("Mermaid")]), []);
            Transform(n) == n
    ensures var n := Element("pre", Some(map[DataLanguage := Str("mermaid ")]), []);
            Transform(n) == n
  {
  }

  /** A mermaid block nested in another one is not converted on its own: it
      ends up as text inside the outer `div`. */
  lemma NestedBlockBecomesText()
    ensures (var inner := Element("pre", Some(map[DataLanguage := Str("mermaid")]), [Text("x")]);
             Transform(Element("pre", Some(map[DataLanguage := Str("mermaid")]), [inner]))
             == Element("div", Some(MermaidClass), [Text("x")]))
  {
    var inner := Element("pre", Some(map[DataLanguage := Str("mermaid")]), [Text("x")]);
    assert FlattenAll([inner]) == Flatten(inner) == "x" by {
      assert FlattenAll([Text("x")]) == "x";
    }
  }

  /** A document of node objects whose root holds one `pre` block tagged as
      mermaid, with the single text leaf `text` inside. */
  method MermaidDocument(text: string) returns (root: RehypeMermaid.HNode, block: RehypeMermaid.HNode)
    ensures root.Valid() && fresh(root.Repr) && root.children == [block]
    ensures root.Model == Root([Element("pre", Some(map[DataLanguage := Str("mermaid")]), [Text(text)])])
  {
    var leaf := new RehypeMermaid.HNode.TextLeaf(text);
    block := new RehypeMermaid.HNode.Wrap(RehypeMermaid.ElementType, "pre",
                                          Some(map[DataLanguage := Str("mermaid")]), leaf);
    root := new RehypeMermaid.HNode.Wrap(RehypeMermaid.RootType, "", None, block);
  }

  /** A document holding one mermaid block, built from node objects and run
      through the transformer: the `pre` object itself becomes the `div`, and
      stays the root's child. */
  method BlockRewrittenInPlace() returns (root: RehypeMermaid.HNode, block: RehypeMermaid.HNode)
    ensures root.children == [block]
    ensures block.tagName == "div" && block.properties == Some(MermaidClass)
    ensures |block.children| == 1 && block.children[0].value == "graph TD;"
  {
    root, block := MermaidDocument("graph TD;");
    assert FlattenAll([Text("graph TD;")]) == "graph TD;";
    RehypeMermaid.Transformer(root);
    assert block.Valid() && block.children[0].Valid();
  }

  /** A mermaid block two levels down: the root keeps its `section` object
      and the `section` keeps its `pre` object, which is rewritten in place
      rather than replaced. */
  method NestedObjectsKept()
      returns (root: RehypeMermaid.HNode, section: RehypeMermaid.HNode, block: RehypeMermaid.HNode)
    ensures root.children == [section] && section.children == [block]
    ensures section.tagName == "section"
  {
    var leaf := new RehypeMermaid.HNode.TextLeaf("pie");
    block := new RehypeMermaid.HNode.Wrap(RehypeMermaid.ElementType, "pre",
                                          Some(map[DataLanguageAttr := Str("mermaid")]), leaf);
    section := new RehypeMermaid.HNode.Wrap(RehypeMermaid.ElementType, "section", None, block);
    root := new RehypeMermaid.HNode.Wrap(RehypeMermaid.RootType, "", None, section);
    RehypeMermaid.Transformer(root);
  }
}
