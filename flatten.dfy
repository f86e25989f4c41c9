/** Child expansion with class propagation and recursive flattening driven by the `expand`
    directive (htmlconv.py:166-256), and the per-tag driver `_filter_tag` (htmlconv.py:300-306).

    `_expand_tag` rewrites each element child's `class` attribute in place. The model works on
    values: the rewritten children are returned, `Touched` is a tag as that rewrite leaves it,
    and `Expansion` receives, with a tag, the classes its parent's rewrite appended to it. */
module Flatten {
  import opened Common
  import opened HtmlTree
  import opened Directives
  import opened Merge

  /** Text nodes and these tags (compared lower-cased) are never expanded. */
  predicate IsExempt(n: Node)
  {
    n.Text? || Lower(n.name) in {"u", "i", "br", "hr", "ul", "ol"}
  }

  /** An element child after its parent's `_expand_tag`: its own classes, then the parent's. */
  function WithParentClasses(child: Node, parentCls: seq<string>): (r: Node)
  {
    match child
    case Text(_) => child
    case Element(name, cls, attrs, kids) => Element(name, cls + parentCls, attrs, kids)
  }

  /** What `_expand_tag` returns: nothing for an exempt node, otherwise every child in
      document order, each element child carrying the parent classes after its own. */
  function ExpandedChildren(node: Node, parentCls: seq<string>): (r: seq<Node>)
  {
    if IsExempt(node) then []
    else seq(|node.children|, i requires 0 <= i < |node.children| => WithParentClasses(node.children[i], parentCls))
  }

  /** A tag as `_flatten_tag` leaves it when it does not expand it: its children rewritten
      with its own classes. */
  function Touched(t: Node): (r: Node)
  {
    if IsExempt(t) then t else t.(children := ExpandedChildren(t, t.classes))
  }

  /** `_expand_tag`: walks the children once, appending the parent classes to each element
      child and collecting every child. */
  method ExpandTag(node: Node, parentCls: seq<string>) returns (children: seq<Node>)
    ensures IsExempt(node) ==> children == []
    ensures !IsExempt(node) ==> |children| == |node.children|
    ensures !IsExempt(node) ==> forall i :: 0 <= i < |children| ==>
              if node.children[i].Text? then children[i] == node.children[i]
              else children[i] == node.children[i].(classes := node.children[i].classes + parentCls)
    ensures children == ExpandedChildren(node, parentCls)
  {
    children := [];
    if !IsExempt(node) {
      var kids := node.children;
      for i := 0 to |kids|
        invariant |children| == i
        invariant forall j :: 0 <= j < i ==> children[j] == WithParentClasses(kids[j], parentCls)
      {
        var child := kids[i];
        if child.Element? {
          var newCls := child.classes + parentCls;
          if |newCls| > 0 {
            child := child.(classes := newCls);
          }
        }
        children := children + [child];
      }
    }
  }

  /** `_flatten_tag` before merging, applied to `tag` after its parent's `_expand_tag`
      appended `inherited` to its classes (nothing for the tag the caller starts from). */
  function Expansion(tag: Node, inherited: seq<string>, recursive: bool, attrName: string): (r: seq<Node>)
    ensures |r| >= 1
    ensures tag.Text? ==> r == [tag]
    decreases tag, 1
  {
    var t := WithParentClasses(tag, inherited);
    var children := ExpandedChildren(t, ClassesOf(t));
    match tag
    case Text(_) => [t]
    case Element(_, _, _, kids) =>
      if ExpandRequested(t, attrName) && |children| > 0 then
        if recursive then ExpansionAll(kids, ClassesOf(t), recursive, attrName) else children
      else [Touched(t)]
  }

  /** The in-order concatenation of the children's flattenings. */
  function ExpansionAll(kids: seq<Node>, inherited: seq<string>, recursive: bool, attrName: string): (r: seq<Node>)
    ensures |r| >= |kids|
    decreases kids, 0
  {
    if kids == [] then []
    else Expansion(kids[0], inherited, recursive, attrName) + ExpansionAll(kids[1..], inherited, recursive, attrName)
  }

  /** `_flatten_tag` at a given depth: the merge of blank-marker runs happens at the root only. */
  function FlattenTag(tag: Node, recursive: bool, depth: nat, attrName: string): (r: seq<Item<Node>>)
    ensures depth == 0 ==> Contents(r) == Filter(Expansion(tag, [], recursive, attrName), Not(IsBlank))
    ensures depth == 0 ==> forall i :: 0 <= i < |r| ==> WellFormedItem(r[i])
    ensures depth == 0 ==> forall n :: n in Contents(r) ==> !IsBlank(n)
    ensures depth > 0 ==> Contents(r) == Expansion(tag, [], recursive, attrName)
    ensures depth > 0 ==> forall i :: 0 <= i < |r| ==> r[i].Single?
  {
    var flat := Expansion(tag, [], recursive, attrName);
    if depth == 0 then
      MergedKeepsNonBlank(flat, IsBlank);
      MergedShape(flat, IsBlank);
      Merged(flat, IsBlank)
    else
      SinglesContents(flat);
      Singles(flat)
  }

  /** The sequence `_filter_tag` builds: each tag flattened and merged on its own, in order. */
  function FilteredTags(tags: seq<Node>, recursive: bool, attrName: string): (r: seq<Item<Node>>)
  {
    if tags == [] then []
    else FilteredTags(tags[..|tags| - 1], recursive, attrName) + FlattenTag(tags[|tags| - 1], recursive, 0, attrName)
  }

  /** `_filter_tag`: flattens every extracted tag at the root level and concatenates the results. */
  method FilterTag(tags: seq<Node>, recursive: bool, attrName: string) returns (tagCache: seq<Item<Node>>)
    ensures tagCache == FilteredTags(tags, recursive, attrName)
  {
    tagCache := [];
    for i := 0 to |tags|
      invariant tagCache == FilteredTags(tags[..i], recursive, attrName)
    {
      assert tags[..i + 1][..i] == tags[..i];
      tagCache := tagCache + FlattenTag(tags[i], recursive, 0, attrName);
    }
    assert tags[..|tags|] == tags;
  }

  /** A node the recursive flattening would leave as it is: no `expand` flag, or nothing to expand. */
  predicate Settled(n: Node, attrName: string)
  {
    !(ExpandRequested(n, attrName) && |ExpandedChildren(n, ClassesOf(n))| > 0)
  }

  /** A suffix test for class lists. */
  predicate EndsWith(s: seq<string>, suffix: seq<string>)
  {
    |suffix| <= |s| && s[|s| - |suffix|..] == suffix
  }

  lemma TouchedKeepsShape(t: Node, attrName: string)
    ensures ExpandRequested(Touched(t), attrName) == ExpandRequested(t, attrName)
    ensures IsExempt(Touched(t)) == IsExempt(t)
    ensures ClassesOf(Touched(t)) == ClassesOf(t)
    ensures t.Element? ==> |Touched(t).children| == |t.children|
  {
  }

  lemma {:induction false} RewrittenChildrenKeepText(kids: seq<Node>, parentCls: seq<string>)
    ensures TextOfAll(seq(|kids|, i requires 0 <= i < |kids| => WithParentClasses(kids[i], parentCls))) == TextOfAll(kids)
  {
    var rewritten := seq(|kids|, i requires 0 <= i < |kids| => WithParentClasses(kids[i], parentCls));
    if kids != [] {
      RewrittenChildrenKeepText(kids[1..], parentCls);
      assert rewritten[1..] == seq(|kids[1..]|, i requires 0 <= i < |kids[1..]| => WithParentClasses(kids[1..][i], parentCls));
      assert TextOf(rewritten[0]) == TextOf(kids[0]);
    }
  }

  /** Flattening neither drops nor reorders text: the text of the flattened nodes, in order,
      is the text of the tag. */
  lemma {:induction false} ExpansionKeepsText(tag: Node, inherited: seq<string>, recursive: bool, attrName: string)
    ensures TextOfAll(Expansion(tag, inherited, recursive, attrName)) == TextOf(tag)
    decreases tag, 1
  {
    var t := WithParentClasses(tag, inherited);
    var out := Expansion(tag, inherited, recursive, attrName);
    match tag
    case Text(_) =>
      assert TextOfAll([t]) == TextOf(t) + TextOfAll([]);
    case Element(_, _, _, kids) =>
      var children := ExpandedChildren(t, ClassesOf(t));
      if ExpandRequested(t, attrName) && |children| > 0 {
        if recursive {
          ExpansionAllKeepsText(kids, ClassesOf(t), recursive, attrName);
        } else {
          RewrittenChildrenKeepText(kids, ClassesOf(t));
        }
      } else {
        assert TextOfAll([Touched(t)]) == TextOf(Touched(t)) + TextOfAll([]);
        if !IsExempt(t) {
          RewrittenChildrenKeepText(kids, ClassesOf(t));
        }
      }
  }

  lemma {:induction false} ExpansionAllKeepsText(kids: seq<Node>, inherited: seq<string>, recursive: bool, attrName: string)
    ensures TextOfAll(ExpansionAll(kids, inherited, recursive, attrName)) == TextOfAll(kids)
    decreases kids, 0
  {
    if kids != [] {
      ExpansionKeepsText(kids[0], inherited, recursive, attrName);
      ExpansionAllKeepsText(kids[1..], inherited, recursive, attrName);
      TextOfAllAppend(Expansion(kids[0], inherited, recursive, attrName), ExpansionAll(kids[1..], inherited, recursive, attrName));
    }
  }

  /** Recursive flattening goes all the way down: no node it yields asks to be expanded
      and has children to expand. */
  lemma {:induction false} RecursiveExpansionSettles(tag: Node, inherited: seq<string>, attrName: string)
    ensures forall o :: o in Expansion(tag, inherited, true, attrName) ==> Settled(o, attrName)
    decreases tag, 1
  {
    var t := WithParentClasses(tag, inherited);
    match tag
    case Text(_) =>
    case Element(_, _, _, kids) =>
      var children := ExpandedChildren(t, ClassesOf(t));
      if ExpandRequested(t, attrName) && |children| > 0 {
        RecursiveExpansionAllSettles(kids, ClassesOf(t), attrName);
      } else {
        TouchedKeepsShape(t, attrName);
      }
  }

  lemma {:induction false} RecursiveExpansionAllSettles(kids: seq<Node>, inherited: seq<string>, attrName: string)
    ensures forall o :: o in ExpansionAll(kids, inherited, true, attrName) ==> Settled(o, attrName)
    decreases kids, 0
  {
    if kids != [] {
      RecursiveExpansionSettles(kids[0], inherited, attrName);
      RecursiveExpansionAllSettles(kids[1..], inherited, attrName);
    }
  }

  /** Class propagation: every element the flattening yields carries, at the end of its class
      list, the classes of the tag it came from. */
  lemma {:induction false} ExpansionInheritsClasses(tag: Node, inherited: seq<string>, recursive: bool, attrName: string)
    ensures forall o :: o in Expansion(tag, inherited, recursive, attrName) && o.Element? ==>
              EndsWith(o.classes, ClassesOf(WithParentClasses(tag, inherited)))
    decreases tag, 1
  {
    var t := WithParentClasses(tag, inherited);
    match tag
    case Text(_) =>
    case Element(_, _, _, kids) =>
      var cls := ClassesOf(t);
      var children := ExpandedChildren(t, cls);
      if ExpandRequested(t, attrName) && |children| > 0 {
        if recursive {
          ExpansionAllInheritsClasses(kids, cls, attrName);
        } else {
          forall o | o in children && o.Element?
            ensures EndsWith(o.classes, cls)
          {
            var i :| 0 <= i < |children| && children[i] == o;
            assert o.classes == kids[i].classes + cls;
          }
        }
      } else {
        TouchedKeepsShape(t, attrName);
      }
  }

  lemma {:induction false} ExpansionAllInheritsClasses(kids: seq<Node>, inherited: seq<string>, attrName: string)
    ensures forall o :: o in ExpansionAll(kids, inherited, true, attrName) && o.Element? ==> EndsWith(o.classes, inherited)
    decreases kids, 0
  {
    if kids != [] {
      var k := kids[0];
      ExpansionInheritsClasses(k, inherited, true, attrName);
      ExpansionAllInheritsClasses(kids[1..], inherited, attrName);
      forall o | o in Expansion(k, inherited, true, attrName) && o.Element?
        ensures EndsWith(o.classes, inherited)
      {
        var c := ClassesOf(WithParentClasses(k, inherited));
        assert EndsWith(c, inherited);
        assert EndsWith(o.classes, c);
        assert o.classes[|o.classes| - |inherited|..] == c[|c| - |inherited|..];
      }
    }
  }

  /** Every node the driver's flattenings yield, tag after tag, before merging. */
  function FlatNodes(tags: seq<Node>, recursive: bool, attrName: string): (r: seq<Node>)
  {
    if tags == [] then []
    else FlatNodes(tags[..|tags| - 1], recursive, attrName) + Expansion(tags[|tags| - 1], [], recursive, attrName)
  }

  /** Across all tags, flattening keeps every piece of text, in document order. */
  lemma {:induction false} FlatNodesKeepText(tags: seq<Node>, recursive: bool, attrName: string)
    ensures TextOfAll(FlatNodes(tags, recursive, attrName)) == TextOfAll(tags)
  {
    if tags != [] {
      var init := tags[..|tags| - 1];
      var last := tags[|tags| - 1];
      FlatNodesKeepText(init, recursive, attrName);
      ExpansionKeepsText(last, [], recursive, attrName);
      TextOfAllAppend(FlatNodes(init, recursive, attrName), Expansion(last, [], recursive, attrName));
      TextOfAllLast(tags);
    }
  }

  lemma TextOfAllLast(tags: seq<Node>)
    requires tags != []
    ensures TextOfAll(tags) == TextOfAll(tags[..|tags| - 1]) + TextOf(tags[|tags| - 1])
  {
    var init := tags[..|tags| - 1];
    var last := tags[|tags| - 1];
    assert tags == init + [last];
    TextOfAllAppend(init, [last]);
    assert TextOfAll([last]) == TextOf(last) + TextOfAll([]);
  }

  /** What the driver hands on holds no blank marker and every merged group has at least
      two nodes. */
  lemma {:induction false} FilteredTagsWellFormed(tags: seq<Node>, recursive: bool, attrName: string)
    ensures forall i :: 0 <= i < |FilteredTags(tags, recursive, attrName)| ==> WellFormedItem(FilteredTags(tags, recursive, attrName)[i])
    ensures forall n :: n in Contents(FilteredTags(tags, recursive, attrName)) ==> !IsBlank(n)
  {
    if tags != [] {
      var init := tags[..|tags| - 1];
      var flat := Expansion(tags[|tags| - 1], [], recursive, attrName);
      FilteredTagsWellFormed(init, recursive, attrName);
      MergedShape(flat, IsBlank);
      var before := FilteredTags(init, recursive, attrName);
      var merged := Merged(flat, IsBlank);
      ContentsAppend(before, merged);
    }
  }

  /** The nodes the driver hands on are exactly the non-blank flattened nodes, in order. */
  lemma {:induction false} FilteredTagsContents(tags: seq<Node>, recursive: bool, attrName: string)
    ensures Contents(FilteredTags(tags, recursive, attrName)) == Filter(FlatNodes(tags, recursive, attrName), Not(IsBlank))
  {
    if tags != [] {
      var init := tags[..|tags| - 1];
      var flat := Expansion(tags[|tags| - 1], [], recursive, attrName);
      FilteredTagsContents(init, recursive, attrName);
      MergedKeepsNonBlank(flat, IsBlank);
      ContentsAppend(FilteredTags(init, recursive, attrName), Merged(flat, IsBlank));
      FilterAppend(FlatNodes(init, recursive, attrName), flat, Not(IsBlank));
    }
  }
}
