/** Turning flattened items into the text descriptors the document is built from
    (htmlconv.py:308-394). A descriptor is the dictionary the source builds, with its
    `type` as the constructor. */
module Descriptors {
  import opened Common
  import opened HtmlTree
  import opened Styling

  /** `partial`: one entry per merged node (None for a node that yields nothing), always
      followed by a newline. `list` and `table`: the element as it is, followed by a newline.
      `paragraph` from p/span/div: the element and its font. `paragraph` from text, u or i:
      the node wrapped in a bare span, with no font entry and no newline. */
  datatype Descriptor =
    | Partial(parts: seq<Option<Descriptor>>)
    | ListBlock(list: Node)
    | TableBlock(table: Node)
    | Paragraph(value: Node, font: Option<string>, appendNewline: bool)
    | Inline(value: Node)

  /** The `type` entry of a descriptor. */
  function Kind(d: Descriptor): (r: string)
  {
    match d
    case Partial(_) => "partial"
    case ListBlock(_) => "list"
    case TableBlock(_) => "table"
    case Paragraph(_, _, _) => "paragraph"
    case Inline(_) => "paragraph"
  }

  /** The `append_newline` entry of a descriptor. */
  function AppendsNewline(d: Descriptor): (r: bool)
  {
    match d
    case Paragraph(_, _, nl) => nl
    case Inline(_) => false
    case _ => true
  }

  /** The tag names the classification knows (compared as they are, without lower-casing). */
  predicate Known(n: Node)
  {
    n.Text? || n.name in {"ul", "ol", "table", "p", "span", "div", "br", "u", "i"}
  }

  /** The message of the error raised for an unknown tag when exceptions are requested. */
  function UnsupportedMessage(name: string): (r: string)
  {
    "cannot handle element type:" + name
  }

  /** The descriptor of one node: None for `br` and for unknown tags without exceptions. */
  function Describe(n: Node, useExc: bool): (r: Result<Option<Descriptor>, string>)
    ensures r.Ok? && r.value.Some? ==> (Kind(r.value.value) == "list" <==> n.Element? && n.name in {"ul", "ol"})
    ensures r.Ok? && r.value.Some? ==> (Kind(r.value.value) == "table" <==> n.Element? && n.name == "table")
    ensures r.Ok? && r.value.Some? ==> (AppendsNewline(r.value.value) <==> n.Element? && n.name !in {"span", "u", "i"})
    ensures r.Ok? && r.value.Some? ==> Kind(r.value.value) != "partial"
  {
    match n
    case Text(_) => Ok(Some(Inline(SpanWrap(n))))
    case Element(name, classes, _, _) =>
      if name in {"ul", "ol"} then Ok(Some(ListBlock(n)))
      else if name == "table" then Ok(Some(TableBlock(n)))
      else if name in {"p", "span", "div"} then Ok(Some(Paragraph(n, FontForClasses(classes, None), name != "span")))
      else if name == "br" then Ok(None)
      else if name in {"u", "i"} then Ok(Some(Inline(SpanWrap(n))))
      else if useExc then Err(UnsupportedMessage(name))
      else Ok(None)
  }

  /** The descriptors of a merged group's nodes, in order; the first error aborts. */
  function DescribeAll(nodes: seq<Node>, useExc: bool): (r: Result<seq<Option<Descriptor>>, string>)
  {
    if nodes == [] then Ok([])
    else match DescribeAll(nodes[..|nodes| - 1], useExc)
      case Err(e) => Err(e)
      case Ok(ds) =>
        match Describe(nodes[|nodes| - 1], useExc)
        case Err(e) => Err(e)
        case Ok(d) => Ok(ds + [d])
  }

  /** The descriptor of one flattened item. */
  function DescribeItem(item: Item<Node>, useExc: bool): (r: Result<Option<Descriptor>, string>)
  {
    match item
    case Single(n) => Describe(n, useExc)
    case Group(nodes) =>
      match DescribeAll(nodes, useExc)
      case Err(e) => Err(e)
      case Ok(ds) => Ok(Some(Partial(ds)))
  }

  /** What `_tag2txt` returns: the descriptors of the items in order, items that yield
      nothing skipped; the first error aborts. */
  function TextList(items: seq<Item<Node>>, useExc: bool): (r: Result<seq<Descriptor>, string>)
  {
    if items == [] then Ok([])
    else match TextList(items[..|items| - 1], useExc)
      case Err(e) => Err(e)
      case Ok(ds) =>
        match DescribeItem(items[|items| - 1], useExc)
        case Err(e) => Err(e)
        case Ok(None) => Ok(ds)
        case Ok(Some(d)) => Ok(ds + [d])
  }

  /** A node fails exactly when exceptions are requested and its tag is unknown, and the
      error names the tag. */
  lemma DescribeErrIff(n: Node, useExc: bool)
    ensures Describe(n, useExc).Err? <==> useExc && !Known(n)
    ensures Describe(n, useExc).Err? ==> Describe(n, useExc).error == UnsupportedMessage(n.name)
  {
  }

  /** A node yields nothing exactly when it is a `br`, or an unknown tag without exceptions. */
  lemma DescribeNothingIff(n: Node, useExc: bool)
    ensures Describe(n, useExc) == Ok(None) <==> n.Element? && (n.name == "br" || (!useExc && !Known(n)))
  {
  }

  /** A p/span/div paragraph carries the font of its first known class (None when there is
      none or no class at all) and ends its line unless it is a span; text, u and i become a
      span around the node, with the same text and no newline. */
  lemma DescribeParagraph(n: Node, useExc: bool)
    ensures n.Element? && n.name in {"p", "span", "div"} ==>
              && Describe(n, useExc).Ok? && Describe(n, useExc).value.Some?
              && var d := Describe(n, useExc).value.value;
                 d.Paragraph? && d.value == n && Kind(d) == "paragraph"
                 && (AppendsNewline(d) <==> n.name != "span")
                 && (d.font.Some? <==> exists i :: 0 <= i < |n.classes| && n.classes[i] in FontHub)
    ensures n.Text? || n.name in {"u", "i"} ==>
              && Describe(n, useExc).Ok? && Describe(n, useExc).value.Some?
              && var d := Describe(n, useExc).value.value;
                 d.Inline? && Kind(d) == "paragraph" && !AppendsNewline(d)
                 && d.value.name == "span" && d.value.children == [n] && TextOf(d.value) == TextOf(n)
  {
    if n.Element? && n.name in {"p", "span", "div"} {
      FirstFontIsFirstKnown(n.classes);
    }
  }

  /** A group fails exactly when one of its nodes does; otherwise it has one entry per node. */
  lemma {:induction false} DescribeAllFacts(nodes: seq<Node>, useExc: bool)
    ensures DescribeAll(nodes, useExc).Err? <==> exists i :: 0 <= i < |nodes| && Describe(nodes[i], useExc).Err?
    ensures DescribeAll(nodes, useExc).Ok? ==>
              && |DescribeAll(nodes, useExc).value| == |nodes|
              && forall i :: 0 <= i < |nodes| ==> Describe(nodes[i], useExc) == Ok(DescribeAll(nodes, useExc).value[i])
  {
    if nodes != [] {
      var init := nodes[..|nodes| - 1];
      DescribeAllFacts(init, useExc);
      assert forall i :: 0 <= i < |init| ==> init[i] == nodes[i];
    }
  }

  /** The driver fails exactly when some item does, which needs exceptions requested. */
  lemma {:induction false} TextListErrIff(items: seq<Item<Node>>, useExc: bool)
    ensures TextList(items, useExc).Err? <==> exists i :: 0 <= i < |items| && DescribeItem(items[i], useExc).Err?
  {
    if items != [] {
      var init := items[..|items| - 1];
      TextListErrIff(init, useExc);
      assert forall i :: 0 <= i < |init| ==> init[i] == items[i];
    }
  }

  /** Without exceptions nothing fails. */
  lemma {:induction false} NoErrorWithoutExc(items: seq<Item<Node>>)
    ensures TextList(items, false).Ok?
  {
    TextListErrIff(items, false);
    forall i | 0 <= i < |items|
      ensures DescribeItem(items[i], false).Ok?
    {
      match items[i]
      case Single(n) =>
      case Group(nodes) =>
        DescribeAllFacts(nodes, false);
    }
  }

  /** The driver keeps the items' descriptors in order, skipping exactly the items that
      yield nothing: each descriptor is that of an item, later items after earlier ones,
      and when no item yields nothing there is one descriptor per item. */
  lemma {:induction false} TextListInOrder(items: seq<Item<Node>>, useExc: bool)
    requires TextList(items, useExc).Ok?
    ensures |TextList(items, useExc).value| <= |items|
    ensures (forall i :: 0 <= i < |items| ==> DescribeItem(items[i], useExc) != Ok(None)) ==>
              |TextList(items, useExc).value| == |items|
              && forall i :: 0 <= i < |items| ==> DescribeItem(items[i], useExc) == Ok(Some(TextList(items, useExc).value[i]))
  {
    if items != [] {
      var init := items[..|items| - 1];
      TextListInOrder(init, useExc);
      assert forall i :: 0 <= i < |init| ==> init[i] == items[i];
    }
  }

  /** Whether an item yields a descriptor. */
  predicate Yields(item: Item<Node>, useExc: bool)
  {
    DescribeItem(item, useExc).Ok? && DescribeItem(item, useExc).value.Some?
  }

  /** The positions of the items that yield a descriptor, in increasing order. */
  function KeptPositions(items: seq<Item<Node>>, useExc: bool): (pos: seq<nat>)
    ensures forall k :: 0 <= k < |pos| ==> pos[k] < |items|
  {
    if items == [] then []
    else KeptPositions(items[..|items| - 1], useExc) + (if Yields(items[|items| - 1], useExc) then [|items| - 1] else [])
  }

  /** In general the driver keeps exactly the descriptors of the items that yield one, in
      item order: the k-th descriptor is that of the item at the k-th kept position, the
      positions increase strictly, and every item that yields a descriptor is kept. */
  lemma TextListPositions(items: seq<Item<Node>>, useExc: bool)
    requires TextList(items, useExc).Ok?
    ensures |KeptPositions(items, useExc)| == |TextList(items, useExc).value|
    ensures forall k :: 0 <= k < |KeptPositions(items, useExc)| ==>
              DescribeItem(items[KeptPositions(items, useExc)[k]], useExc) == Ok(Some(TextList(items, useExc).value[k]))
    ensures forall k, l :: 0 <= k < l < |KeptPositions(items, useExc)| ==> KeptPositions(items, useExc)[k] < KeptPositions(items, useExc)[l]
    ensures forall i :: 0 <= i < |items| && Yields(items[i], useExc) ==> i in KeptPositions(items, useExc)
  {
    KeptPositionsPick(items, useExc);
    KeptPositionsIncrease(items, useExc);
    KeptPositionsCover(items, useExc);
  }

  lemma {:induction false} KeptPositionsPick(items: seq<Item<Node>>, useExc: bool)
    requires TextList(items, useExc).Ok?
    ensures |KeptPositions(items, useExc)| == |TextList(items, useExc).value|
    ensures forall k :: 0 <= k < |KeptPositions(items, useExc)| ==>
              DescribeItem(items[KeptPositions(items, useExc)[k]], useExc) == Ok(Some(TextList(items, useExc).value[k]))
  {
    if items != [] {
      var init := items[..|items| - 1];
      KeptPositionsPick(init, useExc);
      var pos := KeptPositions(items, useExc);
      var initPos := KeptPositions(init, useExc);
      var r := TextList(items, useExc).value;
      var initR := TextList(init, useExc).value;
      forall k | 0 <= k < |pos|
        ensures DescribeItem(items[pos[k]], useExc) == Ok(Some(r[k]))
      {
        if k < |initPos| {
          assert pos[k] == initPos[k] && items[pos[k]] == init[initPos[k]];
          assert r[k] == initR[k];
        }
      }
    }
  }

  lemma {:induction false} KeptPositionsIncrease(items: seq<Item<Node>>, useExc: bool)
    ensures forall k, l :: 0 <= k < l < |KeptPositions(items, useExc)| ==> KeptPositions(items, useExc)[k] < KeptPositions(items, useExc)[l]
  {
    if items != [] {
      KeptPositionsIncrease(items[..|items| - 1], useExc);
    }
  }

  lemma {:induction false} KeptPositionsCover(items: seq<Item<Node>>, useExc: bool)
    ensures forall i :: 0 <= i < |items| && Yields(items[i], useExc) ==> i in KeptPositions(items, useExc)
  {
    if items != [] {
      var init := items[..|items| - 1];
      KeptPositionsCover(init, useExc);
      forall i | 0 <= i < |init| && Yields(items[i], useExc)
        ensures i in KeptPositions(items, useExc)
      {
        assert init[i] == items[i];
      }
    }
  }

  /** `_get_text_from_tag`: a merged group is described node by node. */
  method GetTextFromTag(item: Item<Node>, useExc: bool) returns (r: Result<Option<Descriptor>, string>)
    ensures r == DescribeItem(item, useExc)
  {
    match item {
      case Single(n) =>
        r := Describe(n, useExc);
      case Group(nodes) =>
        var cache: seq<Option<Descriptor>> := [];
        for i := 0 to |nodes|
          invariant DescribeAll(nodes[..i], useExc) == Ok(cache)
        {
          assert nodes[..i + 1][..i] == nodes[..i];
          var d := Describe(nodes[i], useExc);
          if d.Err? {
            assert nodes[..i + 1][..|nodes[..i + 1]| - 1] == nodes[..i];
            DescribeAllStopsAtError(nodes, i + 1, useExc);
            return Err(d.error);
          }
          cache := cache + [d.value];
        }
        assert nodes[..|nodes|] == nodes;
        r := Ok(Some(Partial(cache)));
    }
  }

  /** Once a prefix fails, the whole group fails with the same error. */
  lemma {:induction false} DescribeAllStopsAtError(nodes: seq<Node>, k: nat, useExc: bool)
    requires k <= |nodes| && DescribeAll(nodes[..k], useExc).Err?
    ensures DescribeAll(nodes, useExc) == DescribeAll(nodes[..k], useExc)
    decreases |nodes| - k
  {
    if k < |nodes| {
      assert nodes[..k + 1][..k] == nodes[..k];
      DescribeAllStopsAtError(nodes, k + 1, useExc);
    } else {
      assert nodes[..k] == nodes;
    }
  }

  /** Once a prefix fails, the whole driver fails with the same error. */
  lemma {:induction false} TextListStopsAtError(items: seq<Item<Node>>, k: nat, useExc: bool)
    requires k <= |items| && TextList(items[..k], useExc).Err?
    ensures TextList(items, useExc) == TextList(items[..k], useExc)
    decreases |items| - k
  {
    if k < |items| {
      assert items[..k + 1][..k] == items[..k];
      TextListStopsAtError(items, k + 1, useExc);
    } else {
      assert items[..k] == items;
    }
  }

  /** `_tag2txt`: describes each item in turn and keeps the descriptors that are not None. */
  method Tag2Txt(items: seq<Item<Node>>, useExc: bool) returns (r: Result<seq<Descriptor>, string>)
    ensures r == TextList(items, useExc)
  {
    var txtList: seq<Descriptor> := [];
    for i := 0 to |items|
      invariant TextList(items[..i], useExc) == Ok(txtList)
    {
      assert items[..i + 1][..i] == items[..i];
      var txt := GetTextFromTag(items[i], useExc);
      if txt.Err? {
        TextListStopsAtError(items, i + 1, useExc);
        return Err(txt.error);
      }
      if txt.value.Some? {
        txtList := txtList + [txt.value.value];
      }
    }
    assert items[..|items|] == items;
    r := Ok(txtList);
  }
}
