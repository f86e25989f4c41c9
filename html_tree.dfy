/** The HTML tree the translator works on, as the parsing library hands it over: text
    nodes and elements. Only what the translator reads of a node is kept. */
module HtmlTree {
  import opened Common

  /** A text node, or an element with its tag name, its `class` list (empty when the
      attribute is absent), its other attributes and its children in document order. */
  datatype Node =
    | Text(text: string)
    | Element(name: string, classes: seq<string>, attrs: map<string, string>, children: seq<Node>)

  /** One entry of a flattened sequence: a node on its own, or a run of nodes merged
      into one block. */
  datatype Item<T> = Single(node: T) | Group(nodes: seq<T>)

  /** The class list of a node; a text node has none. */
  function ClassesOf(n: Node): (r: seq<string>)
  {
    if n.Element? then n.classes else []
  }

  /** The visible text under a node, text leaves in document order. */
  function TextOf(n: Node): (r: string)
  {
    match n
    case Text(s) => s
    case Element(_, _, _, kids) => TextOfAll(kids)
  }

  function TextOfAll(ns: seq<Node>): (r: string)
  {
    if ns == [] then "" else TextOf(ns[0]) + TextOfAll(ns[1..])
  }

  lemma {:induction false} TextOfAllAppend(a: seq<Node>, b: seq<Node>)
    ensures TextOfAll(a + b) == TextOfAll(a) + TextOfAll(b)
  {
    if a == [] {
      assert a + b == b;
    } else {
      assert (a + b)[0] == a[0] && (a + b)[1..] == a[1..] + b;
      TextOfAllAppend(a[1..], b);
    }
  }

  /** A blank marker for run merging (htmlconv.py:264-270): a `br` element, or a node whose
      rendering is empty once stripped. An element always renders with its own tag markup,
      so only a whitespace-only text node renders empty. */
  predicate IsBlank(n: Node)
  {
    match n
    case Text(s) => Strip(s) == []
    case Element(name, _, _, _) => Lower(name) == "br"
  }

  /** The parsing library's re-parse of `<span>` + node + `</span>`: a bare span around the node. */
  function SpanWrap(n: Node): (r: Node)
    ensures TextOf(r) == TextOf(n)
  {
    var r := Element("span", [], map[], [n]);
    assert [n][1..] == [];
    assert TextOfAll([n]) == TextOf(n) + TextOfAll([]);
    r
  }
}
