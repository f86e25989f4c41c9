/** Selector-driven extraction of the tags to translate (htmlconv.py:77-94). The parsing
    library's attribute search is the function `find`. */
module Extract {
  import opened Common
  import opened HtmlTree

  /** A selector: an attribute dictionary handed to the search, or a value of another type. */
  datatype Selector = AttrFilter(attrs: map<string, string>) | NotADict

  /** The text the default placeholder markup `&nbsp;` parses to: one no-break space. */
  const DefaultNaText: string := "\U{A0}"

  /** The placeholder used when the caller gives none: a bare span around the `na.str` text. */
  function DefaultPlaceholder(naText: string): (r: Node)
    ensures r.Element? && r.name == "span" && r.children == [Text(naText)]
    ensures TextOf(r) == naText
  {
    SpanWrap(Text(naText))
  }

  /** What one selector contributes: nothing for a non-dictionary; otherwise its matches,
      or the placeholder alone when it has none and placeholders are requested. */
  function Contribution(sel: Selector, find: map<string, string> -> seq<Node>, addNa: bool, placeholder: Node): (r: seq<Node>)
  {
    match sel
    case NotADict => []
    case AttrFilter(attrs) =>
      var found := find(attrs);
      if |found| == 0 && addNa then [placeholder] else found
  }

  /** The list `_extract_tag` returns: the selectors' contributions in selector order. */
  function Extracted(sels: seq<Selector>, find: map<string, string> -> seq<Node>, addNa: bool, placeholder: Node): (r: seq<Node>)
  {
    if sels == [] then []
    else Extracted(sels[..|sels| - 1], find, addNa, placeholder) + Contribution(sels[|sels| - 1], find, addNa, placeholder)
  }

  /** `_extract_tag`: runs the search for every dictionary selector and extends the result. */
  method ExtractTag(sels: seq<Selector>, find: map<string, string> -> seq<Node>, addNa: bool, placeholder: Node)
    returns (ret: seq<Node>)
    ensures ret == Extracted(sels, find, addNa, placeholder)
  {
    ret := [];
    for i := 0 to |sels|
      invariant ret == Extracted(sels[..i], find, addNa, placeholder)
    {
      assert sels[..i + 1][..i] == sels[..i];
      if sels[i].AttrFilter? {
        var tagObj := find(sels[i].attrs);
        if |tagObj| == 0 && addNa {
          tagObj := tagObj + [placeholder];
        }
        ret := ret + tagObj;
      }
    }
    assert sels[..|sels|] == sels;
  }

  predicate IsDict(sel: Selector) { sel.AttrFilter? }

  /** Selectors that are not dictionaries change nothing. */
  lemma {:induction false} NonDictSkipped(sels: seq<Selector>, find: map<string, string> -> seq<Node>, addNa: bool, placeholder: Node)
    ensures Extracted(sels, find, addNa, placeholder) == Extracted(Filter(sels, IsDict), find, addNa, placeholder)
  {
    if sels != [] {
      var init := sels[..|sels| - 1];
      var last := sels[|sels| - 1];
      NonDictSkipped(init, find, addNa, placeholder);
      assert sels == init + [last];
      FilterAppend(init, [last], IsDict);
      var kept := Filter(init, IsDict);
      if IsDict(last) {
        assert Filter([last], IsDict) == [last];
        assert (kept + [last])[..|kept + [last]| - 1] == kept;
      } else {
        assert Filter([last], IsDict) == [];
        assert kept + [] == kept;
      }
    }
  }

  /** Every match of every dictionary selector is extracted, in selector order: the result
      is the concatenation of the contributions, and a contribution is the selector's
      matches unless it has none. */
  lemma {:induction false} ExtractedConcat(sels: seq<Selector>, find: map<string, string> -> seq<Node>, addNa: bool, placeholder: Node)
    ensures Extracted(sels, find, addNa, placeholder)
            == Concat(seq(|sels|, i requires 0 <= i < |sels| => Contribution(sels[i], find, addNa, placeholder)))
  {
    var parts := seq(|sels|, i requires 0 <= i < |sels| => Contribution(sels[i], find, addNa, placeholder));
    if sels != [] {
      var init := sels[..|sels| - 1];
      ExtractedConcat(init, find, addNa, placeholder);
      var initParts := seq(|init|, i requires 0 <= i < |init| => Contribution(init[i], find, addNa, placeholder));
      var lastPart := Contribution(sels[|sels| - 1], find, addNa, placeholder);
      assert parts == initParts + [lastPart];
      ConcatAppend(initParts, [lastPart]);
      assert Concat([lastPart]) == lastPart + Concat([]);
    }
  }

  /** Without `add.na` no placeholder is added: every extracted node is a match of some
      dictionary selector. With `add.na` an extracted node is such a match or the
      placeholder, and the placeholder appears only for a dictionary selector without matches. */
  lemma {:induction false} ExtractedOrigin(sels: seq<Selector>, find: map<string, string> -> seq<Node>, addNa: bool, placeholder: Node, n: Node)
    requires n in Extracted(sels, find, addNa, placeholder)
    ensures (exists i :: 0 <= i < |sels| && sels[i].AttrFilter? && n in find(sels[i].attrs))
            || (addNa && n == placeholder && exists i :: 0 <= i < |sels| && sels[i].AttrFilter? && find(sels[i].attrs) == [])
  {
    var init := sels[..|sels| - 1];
    var last := sels[|sels| - 1];
    if n in Extracted(init, find, addNa, placeholder) {
      ExtractedOrigin(init, find, addNa, placeholder, n);
      assert forall i :: 0 <= i < |init| ==> init[i] == sels[i];
    } else {
      assert n in Contribution(last, find, addNa, placeholder);
    }
  }

  /** With `add.na` every dictionary selector contributes at least one node, so there are
      at least as many nodes as dictionary selectors; without it, exactly the matches. */
  lemma {:induction false} ExtractedLength(sels: seq<Selector>, find: map<string, string> -> seq<Node>, addNa: bool, placeholder: Node)
    ensures addNa ==> |Extracted(sels, find, addNa, placeholder)| >= |Filter(sels, IsDict)|
    ensures !addNa ==> |Extracted(sels, find, addNa, placeholder)| == MatchCount(sels, find)
  {
    if sels != [] {
      var init := sels[..|sels| - 1];
      var last := sels[|sels| - 1];
      ExtractedLength(init, find, addNa, placeholder);
      assert sels == init + [last];
      FilterAppend(init, [last], IsDict);
    }
  }

  /** The number of matches of the dictionary selectors. */
  function MatchCount(sels: seq<Selector>, find: map<string, string> -> seq<Node>): (r: nat)
  {
    if sels == [] then 0
    else MatchCount(sels[..|sels| - 1], find) + (if sels[|sels| - 1].AttrFilter? then |find(sels[|sels| - 1].attrs)| else 0)
  }
}
