/** The rehype-mermaid plugin as it runs on the shared, mutable document: the
    tree walk visits every element in pre-order, and the visitor closure
    assigns the fields of a matching `pre` element in place. Every node object
    stands for a tree value (`Model`); the walk is proved to leave the root
    standing for `MermaidSpec.Transform` of what it stood for before. */
module RehypeMermaid {
  import opened Hast
  import opened MermaidSpec

  /** The `type` field of a HAST node object. */
  datatype NodeType = RootType | ElementType | TextType | CommentType

  /** A HAST node object, with the fields the plugin reads and assigns.
      `Model` is the tree value the object and its descendants stand for and
      `Repr` the set of objects in its subtree. */
  class HNode {
    const kind: NodeType
    var tagName: string
    var properties: Option<Properties>
    var children: seq<HNode>
    const value: string
    ghost var Model: Node
    ghost var Repr: set<object>

    /** The object heads a proper tree (no child is shared between two
        parents, no node is its own descendant) whose value is `Model`. */
    ghost predicate Valid()
      reads this, Repr
      ensures Valid() ==> this in Repr
    {
      this in Repr &&
      (forall i :: 0 <= i < |children| ==>
         children[i] in Repr && children[i].Repr <= Repr && this !in children[i].Repr) &&
      (forall i, j :: 0 <= i < j < |children| ==> children[i].Repr !! children[j].Repr) &&
      (forall i :: 0 <= i < |children| ==> children[i].Valid()) &&
      match kind
      case TextType => children == [] && Model == Text(value)
      case CommentType => children == [] && Model == Comment(value)
      case RootType =>
        Model.Root? && |Model.children| == |children| &&
        forall i :: 0 <= i < |children| ==> children[i].Model == Model.children[i]
      case ElementType =>
        Model.Element? && Model.tagName == tagName && Model.properties == properties &&
        |Model.children| == |children| &&
        forall i :: 0 <= i < |children| ==> children[i].Model == Model.children[i]
    }

    /** `{type: 'text', value: v}` */
    constructor TextLeaf(v: string)
      ensures Valid() && fresh(Repr) && Repr == {this}
      ensures kind == TextType && value == v && Model == Text(v)
    {
      kind := TextType;
      tagName := "";
      properties := None;
      children := [];
      value := v;
      Model := Text(v);
      Repr := {this};
    }

    /** A root (`k == RootType`) or an element with the one child `c`, as a
        parser would build it. */
    constructor Wrap(k: NodeType, tag: string, props: Option<Properties>, c: HNode)
      requires k == RootType || k == ElementType
      requires c.Valid()
      ensures Valid() && Repr == {this} + c.Repr
      ensures kind == k && children == [c]
      ensures k == RootType ==> Model == Root([c.Model])
      ensures k == ElementType ==> Model == Element(tag, props, [c.Model])
    {
      kind := k;
      tagName := tag;
      properties := props;
      children := [c];
      value := "";
      Model := if k == RootType then Root([c.Model]) else Element(tag, props, [c.Model]);
      Repr := {this} + c.Repr;
    }
  }

  /** `toText(node)`: the text content of the subtree headed by `n`, read off
      the objects without changing them. */
  method ToText(n: HNode) returns (s: string)
    requires n.Valid()
    decreases n.Model
    ensures s == Flatten(n.Model)
  {
    if n.kind == TextType {
      s := n.value;
    } else if n.kind == CommentType {
      s := "";
    } else {
      ghost var cs := n.Model.children;
      s := "";
      var i := 0;
      while i < |n.children|
        invariant 0 <= i <= |n.children| == |cs|
        invariant s == FlattenAll(cs[..i])
      {
        var t := ToText(n.children[i]);
        assert cs[..i + 1][..i] == cs[..i];
        s := s + t;
        i := i + 1;
      }
      assert cs[..i] == cs;
    }
  }

  /** The visitor closure, called on each element: a `pre` whose language is
      "mermaid" is rewritten in place; any other element is left untouched. */
  method MermaidVisitor(node: HNode)
    requires node.Valid() && node.kind == ElementType
    modifies node
    ensures node.Valid()
    ensures fresh(node.Repr - old(node.Repr))
    ensures OnlyTextAdded(node.Repr, old(node.Repr))
    ensures VisitorStep(node.kind, old(FieldsOf(node)), FieldsOf(node))
    ensures IsMermaidPre(old(node.Model)) ==>
              node.Model == Convert(old(node.Model)) &&
              |node.children| == 1 && fresh(node.children[0]) &&
              node.children[0].kind == TextType && node.Repr == {node, node.children[0]}
    ensures !IsMermaidPre(old(node.Model)) ==> unchanged(node)
  {
    if node.tagName != "pre" {
      return;
    }
    var lang := Language(node.properties);
    var isMermaid := lang == Some(Str("mermaid"));
    if !isMermaid {
      return;
    }
    RewriteInPlace(node);
  }

  /** The rewrite of a matching `pre`: its text is taken first, then the
      same object becomes a `div` of class "mermaid" whose one child is a new
      text leaf holding that text. Every other property is dropped and the
      old children are detached. */
  method RewriteInPlace(node: HNode)
    requires node.Valid() && node.kind == ElementType
    modifies node
    ensures node.Valid()
    ensures node.tagName == "div" && node.properties == Some(MermaidClass)
    ensures |node.children| == 1 && fresh(node.children[0])
    ensures node.Repr == {node, node.children[0]}
    ensures node.children[0].kind == TextType && node.children[0].value == Flatten(old(node.Model))
    ensures node.Model == Convert(old(node.Model))
  {
    ghost var was := node.Model;
    var text := ToText(node);
    var leaf := new HNode.TextLeaf(text);
    node.tagName := "div";
    node.properties := Some(MermaidClass);
    node.children := [leaf];
    Reattach(node, {node, leaf}, Convert(was));
  }

  /** Every object in `now` that was not in `before` is a text leaf: the walk
      allocates text nodes and no other node. */
  ghost predicate OnlyTextAdded(now: set<object>, before: set<object>)
  {
    forall o: HNode :: o in now && o !in before ==> o.kind == TextType
  }

  lemma TextAddedTrans(s0: set<object>, s1: set<object>, s2: set<object>)
    requires OnlyTextAdded(s1, s0) && OnlyTextAdded(s2, s1)
    ensures OnlyTextAdded(s2, s0)
  {
  }

  /** The fields of a node object that the visitor assigns. */
  datatype Fields = Fields(tagName: string, properties: Option<Properties>, children: seq<HNode>)

  function FieldsOf(o: HNode): Fields
    reads o`tagName, o`properties, o`children
  {
    Fields(o.tagName, o.properties, o.children)
  }

  /** What the walk may do to the fields of one node object: leave them as
      they are or, only for a `pre` whose language is "mermaid", make it a
      `div` of class "mermaid" with one text child. */
  predicate VisitorStep(k: NodeType, a: Fields, b: Fields)
  {
    a == b ||
    (k == ElementType && a.tagName == "pre" && Language(a.properties) == Some(Str("mermaid")) &&
     b.tagName == "div" && b.properties == Some(MermaidClass) &&
     |b.children| == 1 && b.children[0].kind == TextType)
  }

  /** A rewritten node is a `div`, so it is never rewritten a second time. */
  lemma VisitorStepTrans(k: NodeType, a: Fields, b: Fields, c: Fields)
    requires VisitorStep(k, a, b) && VisitorStep(k, b, c)
    ensures VisitorStep(k, a, c)
  {
  }

  /** A node that can have children. */
  predicate IsParent(k: NodeType)
  {
    k == RootType || k == ElementType
  }

  /** `visit(tree, 'element', visitor)`: calls the visitor on `n` if it is an
      element, then walks the children `n` has once the visitor returns.
      Text and comment nodes have nothing to visit. */
  method VisitElements(n: HNode)
    requires n.Valid()
    modifies n.Repr
    decreases n.Model, 5
    ensures n.Valid()
    ensures fresh(n.Repr - old(n.Repr))
    ensures OnlyTextAdded(n.Repr, old(n.Repr))
    ensures forall o: HNode :: o in old(n.Repr) ==> VisitorStep(o.kind, old(FieldsOf(o)), FieldsOf(o))
    ensures n.Model == Transform(old(n.Model))
    ensures !IsMermaidPre(old(n.Model)) ==>
              n.children == old(n.children) && n.tagName == old(n.tagName) &&
              n.properties == old(n.properties)
  {
    if n.kind == ElementType {
      VisitElement(n);
    } else if n.kind == RootType {
      VisitChildren(n, n.Model);
    }
  }

  /** The visit of one element: the visitor runs first, then the walk goes on
      into the children the element has once the visitor returns. The old
      subtree of a converted `pre` is no longer reachable from it and is never
      visited; its one new text child has nothing to visit. */
  method VisitElement(n: HNode)
    requires n.Valid() && n.kind == ElementType
    modifies n.Repr
    decreases n.Model, 4
    ensures n.Valid()
    ensures fresh(n.Repr - old(n.Repr))
    ensures OnlyTextAdded(n.Repr, old(n.Repr))
    ensures forall o: HNode :: o in old(n.Repr) ==> VisitorStep(o.kind, old(FieldsOf(o)), FieldsOf(o))
    ensures n.Model == Transform(old(n.Model))
    ensures !IsMermaidPre(old(n.Model)) ==>
              n.children == old(n.children) && n.tagName == old(n.tagName) &&
              n.properties == old(n.properties)
    ensures IsMermaidPre(old(n.Model)) ==>
              forall o: HNode :: o in old(n.Repr) && o != n ==> FieldsOf(o) == old(FieldsOf(o))
  {
    ghost var m, r0 := n.Model, n.Repr;
    MermaidVisitor(n);
    ghost var r1 := n.Repr;
    VisitAfterVisitor(n, m);
    TextAddedTrans(r0, r1, n.Repr);
  }

  /** The rest of the visit of an element once the visitor has returned: the
      walk goes on into the children the element has now. `m` is what the
      element stood for before the visitor ran. */
  method VisitAfterVisitor(n: HNode, ghost m: Node)
    requires n.Valid() && n.kind == ElementType
    requires IsMermaidPre(m) ==>
               n.Model == Convert(m) && |n.children| == 1 && n.children[0].kind == TextType
    requires !IsMermaidPre(m) ==> n.Model == m
    modifies n.Repr
    decreases m, 3
    ensures n.Valid()
    ensures fresh(n.Repr - old(n.Repr))
    ensures OnlyTextAdded(n.Repr, old(n.Repr))
    ensures forall o: HNode :: o in old(n.Repr) ==> VisitorStep(o.kind, old(FieldsOf(o)), FieldsOf(o))
    ensures n.Model == Transform(m)
    ensures n.children == old(n.children) && n.tagName == old(n.tagName) &&
            n.properties == old(n.properties)
  {
    VisitChildren(n, m);
    if IsMermaidPre(m) {
      assert TransformAll([Text(Flatten(m))]) == [Text(Flatten(m))];
    }
  }

  /** The objects `cs` head valid subtrees that lie inside `acc`, share no
      object with each other and do not contain `parent`. */
  ghost predicate Forest(cs: seq<HNode>, parent: HNode, acc: set<object>)
    reads acc
  {
    (forall j :: 0 <= j < |cs| ==> cs[j] in acc && cs[j].Repr <= acc && parent !in cs[j].Repr) &&
    (forall j, k :: 0 <= j < k < |cs| ==> cs[j].Repr !! cs[k].Repr) &&
    (forall j :: 0 <= j < |cs| ==> cs[j].Valid())
  }

  /** The part of the walk that descends: visits the children of `n` left to
      right. The child objects stay the same and in the same order; each
      stands afterwards for its own transform. */
  method VisitChildren(n: HNode, ghost bound: Node)
    requires n.Valid() && IsParent(n.kind) && (bound.Root? || bound.Element?)
    requires forall j :: 0 <= j < |n.children| && IsParent(n.children[j].kind) ==>
               j < |bound.children| && n.children[j].Model == bound.children[j]
    modifies n.Repr
    decreases bound, 2
    ensures n.Valid()
    ensures n.children == old(n.children)
    ensures n.tagName == old(n.tagName) && n.properties == old(n.properties)
    ensures old(n.Model).Root? ==> n.Model == Root(TransformAll(old(n.Model).children))
    ensures old(n.Model).Element? ==>
              n.Model == Element(old(n.Model).tagName, old(n.Model).properties,
                                 TransformAll(old(n.Model).children))
    ensures fresh(n.Repr - old(n.Repr))
    ensures OnlyTextAdded(n.Repr, old(n.Repr))
    ensures forall o: HNode :: o in old(n.Repr) ==> VisitorStep(o.kind, old(FieldsOf(o)), FieldsOf(o))
  {
    ghost var m0 := n.Model;
    ghost var acc := VisitEach(n.children, n, n.Repr, bound);
    Reattach(n, acc, if n.kind == RootType then Root(TransformAll(m0.children))
                     else Element(n.tagName, n.properties, TransformAll(m0.children)));
  }

  /** The loop over a child list: visits `cs` left to right. Leaves have
      nothing to visit and are passed over. */
  method VisitEach(cs: seq<HNode>, ghost parent: HNode, ghost acc0: set<object>,
                   ghost bound: Node)
      returns (ghost acc: set<object>)
    requires parent in acc0 && Forest(cs, parent, acc0) && (bound.Root? || bound.Element?)
    requires forall j :: 0 <= j < |cs| && IsParent(cs[j].kind) ==>
               j < |bound.children| && cs[j].Model == bound.children[j]
    modifies acc0 - {parent}
    decreases bound, 1
    ensures parent in acc && Forest(cs, parent, acc) && fresh(acc - acc0)
    ensures OnlyTextAdded(acc, acc0)
    ensures forall o: HNode :: o in acc0 ==> VisitorStep(o.kind, old(FieldsOf(o)), FieldsOf(o))
    ensures forall j :: 0 <= j < |cs| ==> cs[j].Model == Transform(old(cs[j].Model))
  {
    acc := acc0;
    var i := 0;
    while i < |cs|
      invariant 0 <= i <= |cs|
      invariant parent in acc && fresh(acc - acc0)
      invariant OnlyTextAdded(acc, acc0)
      invariant forall o: HNode :: o in acc0 ==> VisitorStep(o.kind, old(FieldsOf(o)), FieldsOf(o))
      invariant Forest(cs, parent, acc)
      invariant forall j :: 0 <= j < i ==> cs[j].Model == Transform(old(cs[j].Model))
      invariant forall j :: i <= j < |cs| ==>
                  cs[j].Model == old(cs[j].Model)
      invariant forall j :: i <= j < |cs| && IsParent(cs[j].kind) ==>
                  j < |bound.children| && cs[j].Model == bound.children[j]
    {
      if IsParent(cs[i].kind) {
        label before:
        acc := VisitChildAt(cs, i, parent, acc, bound);
        forall o: HNode | o in acc0
          ensures VisitorStep(o.kind, old(FieldsOf(o)), FieldsOf(o))
        {
          VisitorStepTrans(o.kind, old(FieldsOf(o)), old@before(FieldsOf(o)), FieldsOf(o));
        }
      }
      i := i + 1;
    }
  }

  /** Gives `n` back its footprint and its value once its children have been
      visited. */
  ghost method Reattach(n: HNode, acc: set<object>, m: Node)
    requires n in acc && IsParent(n.kind) && Forest(n.children, n, acc)
    requires n.kind == RootType ==> m.Root?
    requires n.kind == ElementType ==>
               m.Element? && m.tagName == n.tagName && m.properties == n.properties
    requires (m.Root? || m.Element?) && |m.children| == |n.children|
    requires forall j :: 0 <= j < |n.children| ==> n.children[j].Model == m.children[j]
    modifies n`Repr, n`Model
    ensures n.Valid() && n.Repr == acc && n.Model == m
  {
    n.Repr := acc;
    n.Model := m;
  }

  /** One step of the walk over a child list: visits child `i`, which
      touches no other child's subtree. */
  method VisitChildAt(cs: seq<HNode>, i: nat, ghost parent: HNode, ghost acc: set<object>,
                      ghost bound: Node)
      returns (ghost acc': set<object>)
    requires i < |cs| && Forest(cs, parent, acc) && IsParent(cs[i].kind)
    requires (bound.Root? || bound.Element?) && i < |bound.children| &&
             cs[i].Model == bound.children[i]
    modifies cs[i].Repr
    decreases bound, 0
    ensures Forest(cs, parent, acc') && fresh(acc' - acc) && acc <= acc'
    ensures OnlyTextAdded(acc', acc)
    ensures forall o: HNode :: o in old(cs[i].Repr) ==> VisitorStep(o.kind, old(FieldsOf(o)), FieldsOf(o))
    ensures cs[i].Model == Transform(old(cs[i].Model))
    ensures forall j :: 0 <= j < |cs| && j != i ==>
              cs[j].Model == old(cs[j].Model) &&
              cs[j].Repr == old(cs[j].Repr)
  {
    var c := cs[i];
    VisitElements(c);
    acc' := acc + c.Repr;
  }

  /** The transformer `rehypeMermaid()` returns: it rewrites the document it
      is given in place and hands back no new tree. */
  method Transformer(tree: HNode)
    requires tree.Valid()
    modifies tree.Repr
    ensures tree.Valid()
    ensures fresh(tree.Repr - old(tree.Repr))
    ensures OnlyTextAdded(tree.Repr, old(tree.Repr))
    ensures forall o: HNode :: o in old(tree.Repr) ==> VisitorStep(o.kind, old(FieldsOf(o)), FieldsOf(o))
    ensures tree.Model == Transform(old(tree.Model))
    ensures !IsMermaidPre(old(tree.Model)) ==> tree.children == old(tree.children)
    ensures !IsMermaidPre(old(tree.Model)) ==>
              forall j :: 0 <= j < |tree.children| && !IsMermaidPre(old(tree.children[j].Model)) ==>
                tree.children[j].children == old(tree.children[j].children)
  {
    VisitElements(tree);
    if !IsMermaidPre(old(tree.Model)) {
      forall j | 0 <= j < |tree.children| && !IsMermaidPre(old(tree.children[j].Model))
        ensures tree.children[j].children == old(tree.children[j].children)
      {
        var c := tree.children[j];
        assert c in old(tree.Repr) && old(c.Valid());
      }
    }
  }
}
