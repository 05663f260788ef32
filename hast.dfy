/** Value model of a HAST (HTML abstract syntax tree) document, as the rehype
    pipeline hands it to a plugin, and of the text extraction that
    `hast-util-to-text` performs on it. */
module Hast {

  datatype Option<+T> = None | Some(value: T)

  /** A property value of a HAST element. JavaScript `null` is `Null`; a key
      that is not in the map is `undefined`. Numbers are integers here. */
  datatype PropValue =
    | Null
    | Str(s: string)
    | Num(n: int)
    | Bool(b: bool)
    | List(items: seq<string>)

  type Properties = map<string, PropValue>

  /** A HAST node. `properties` is optional because a consumer may meet an
      element whose `properties` field is missing. */
  datatype Node =
    | Root(children: seq<Node>)
    | Element(tagName: string, properties: Option<Properties>, children: seq<Node>)
    | Text(value: string)
    | Comment(value: string)

  /** The child list of a parent node; leaves have none. */
  function Children(n: Node): seq<Node>
  {
    if n.Root? || n.Element? then n.children else []
  }

  /** Looks a key up the way `properties?.[key]` does: `None` stands for
      `undefined`, both when `properties` is missing and when the key is. */
  function Get(props: Option<Properties>, key: string): (r: Option<PropValue>)
    ensures r.Some? <==> props.Some? && key in props.value
    ensures r.Some? ==> r.value == props.value[key]
  {
    if props.Some? && key in props.value then Some(props.value[key]) else None
  }

  /** The text content of a node: the in-order concatenation of the values
      of the text leaves below it. Comments below the node contribute
      nothing. */
  function Flatten(n: Node): (r: string)
    decreases n, 1
    ensures n.Text? ==> r == n.value
    ensures n.Comment? ==> r == ""
  {
    match n
    case Text(v) => v
    case Comment(_) => ""
    case Root(cs) => FlattenAll(cs)
    case Element(_, _, cs) => FlattenAll(cs)
  }

  /** Concatenates the text content of a list of siblings, left to right. */
  function FlattenAll(cs: seq<Node>): (r: string)
    decreases cs, 0
    ensures cs == [] ==> r == ""
    ensures |cs| == 1 ==> r == Flatten(cs[0])
  {
    if cs == [] then "" else FlattenAll(cs[..|cs| - 1]) + Flatten(cs[|cs| - 1])
  }

  /** The text of a list of siblings is read in document order: the text of
      a concatenation is the concatenation of the texts. */
  lemma {:induction false} FlattenAllAppend(a: seq<Node>, b: seq<Node>)
    decreases b
    ensures FlattenAll(a + b) == FlattenAll(a) + FlattenAll(b)
  {
    if b != [] {
      var k := |b| - 1;
      assert (a + b)[..|a + b| - 1] == a + b[..k];
      assert (a + b)[|a + b| - 1] == b[k];
      FlattenAllAppend(a, b[..k]);
    } else {
      assert a + b == a;
    }
  }

  /** Reading from the front: the first child's text comes first. */
  lemma FlattenAllCons(c: Node, cs: seq<Node>)
    ensures FlattenAll([c] + cs) == Flatten(c) + FlattenAll(cs)
  {
    FlattenAllAppend([c], cs);
  }
}
