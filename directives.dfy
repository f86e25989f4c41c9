/** Extraction directives: the space-separated tokens of a node's directive attribute,
    read into a key/value map (htmlconv.py:44-62). */
module Directives {
  import opened Common
  import opened HtmlTree

  /** The attribute read when the caller names no other one. */
  const DefaultDirectiveAttribute: string := "data-rtf-directive"

  /** A bare token is the boolean True; `key=value` carries the text after the first `=`. */
  datatype DirectiveValue = Flag | Setting(value: string)

  predicate IsSingleSpace(c: char) { c == ' ' }

  predicate IsEquals(c: char) { c == '=' }

  predicate NonEmpty(s: string) { s != [] }

  function StripAll(parts: seq<string>): (r: seq<string>)
    ensures |r| == |parts|
    ensures forall i :: 0 <= i < |r| ==> r[i] == Strip(parts[i])
  {
    seq(|parts|, i requires 0 <= i < |parts| => Strip(parts[i]))
  }

  /** The tokens of a directive attribute: the text split on single spaces, each piece
      stripped, empty pieces dropped. */
  function Tokens(attr: string): (ts: seq<string>)
    ensures forall i :: 0 <= i < |ts| ==> ts[i] != []
    ensures forall i :: 0 <= i < |ts| ==> ' ' !in ts[i]
    ensures forall i :: 0 <= i < |ts| ==> !IsSpace(ts[i][0]) && !IsSpace(ts[i][|ts[i]| - 1])
  {
    var stripped := StripAll(Split(attr, IsSingleSpace));
    StrippedPiecesHaveNoSpace(attr);
    FilterSubset(stripped, NonEmpty);
    var ts := Filter(stripped, NonEmpty);
    assert forall i :: 0 <= i < |ts| ==> ts[i] in stripped;
    ts
  }

  /** The tokens are the non-empty stripped pieces in attribute order: the k-th token is
      the stripped piece at the k-th kept position, the positions increase strictly, and
      every piece whose strip is non-empty is kept. */
  lemma TokensInOrder(attr: string)
    ensures var pieces := Split(attr, IsSingleSpace);
            var pos := FilterPositions(StripAll(pieces), NonEmpty);
            && |pos| == |Tokens(attr)|
            && (forall k :: 0 <= k < |pos| ==> Tokens(attr)[k] == Strip(pieces[pos[k]]))
            && (forall k, l :: 0 <= k < l < |pos| ==> pos[k] < pos[l])
            && (forall i :: 0 <= i < |pieces| && Strip(pieces[i]) != [] ==> i in pos)
  {
    var stripped := StripAll(Split(attr, IsSingleSpace));
    FilterAtPositions(stripped, NonEmpty);
    assert Tokens(attr) == Filter(stripped, NonEmpty);
  }

  lemma StrippedPiecesHaveNoSpace(attr: string)
    ensures forall p :: p in StripAll(Split(attr, IsSingleSpace)) ==> ' ' !in p
  {
    var pieces := Split(attr, IsSingleSpace);
    SplitRejoin(attr, IsSingleSpace);
    var stripped := StripAll(pieces);
    forall i, j | 0 <= i < |stripped| && 0 <= j < |stripped[i]|
      ensures stripped[i][j] != ' '
    {
      var c := stripped[i][j];
      assert c in pieces[i];
      var k :| 0 <= k < |pieces[i]| && pieces[i][k] == c;
      assert !IsSingleSpace(pieces[i][k]);
    }
  }

  /** One token read as a directive: text before the first `=` maps to the rest, a token
      without `=` maps to Flag. */
  function ParseToken(t: string): (r: (string, DirectiveValue))
  {
    var k := FirstIndex(t, IsEquals);
    if k < |t| then (t[..k], Setting(t[k + 1..])) else (t, Flag)
  }

  /** A token with `=` is cut at its first `=`: the key holds no `=` and key, `=` and value
      give the token back; a token without `=` is a flag under its own name. */
  lemma ParseTokenCutsAtFirstEquals(t: string)
    ensures '=' in t ==>
              && ParseToken(t).1.Setting? && '=' !in ParseToken(t).0
              && ParseToken(t).0 + "=" + ParseToken(t).1.value == t
    ensures '=' !in t ==> ParseToken(t) == (t, Flag)
  {
    var k := FirstIndex(t, IsEquals);
    if k < |t| {
      assert t == t[..k] + "=" + t[k + 1..];
    }
  }

  /** The map the tokens build when read left to right, a later key overwriting an earlier one. */
  function DirectivesOf(ts: seq<string>): (r: map<string, DirectiveValue>)
  {
    if ts == [] then map[]
    else
      var d := ParseToken(ts[|ts| - 1]);
      DirectivesOf(ts[..|ts| - 1])[d.0 := d.1]
  }

  /** A key is present exactly when some token names it. */
  lemma {:induction false} DirectivesKeys(ts: seq<string>, key: string)
    ensures key in DirectivesOf(ts) <==> exists i :: 0 <= i < |ts| && ParseToken(ts[i]).0 == key
  {
    if ts != [] {
      var n := |ts| - 1;
      var init := ts[..n];
      DirectivesKeys(init, key);
      assert forall i :: 0 <= i < n ==> init[i] == ts[i];
    }
  }

  /** The value of a key is that of the last token naming it. */
  lemma {:induction false} DirectivesLastWins(ts: seq<string>, key: string)
    requires key in DirectivesOf(ts)
    ensures exists i :: 0 <= i < |ts| && ParseToken(ts[i]).0 == key && ParseToken(ts[i]).1 == DirectivesOf(ts)[key]
                        && forall j :: i < j < |ts| ==> ParseToken(ts[j]).0 != key
  {
    var n := |ts| - 1;
    var init := ts[..n];
    var last := ParseToken(ts[n]);
    assert DirectivesOf(ts) == DirectivesOf(init)[last.0 := last.1];
    if last.0 != key {
      DirectivesLastWins(init, key);
      var i :| 0 <= i < n && ParseToken(init[i]).0 == key && ParseToken(init[i]).1 == DirectivesOf(init)[key]
               && forall j :: i < j < n ==> ParseToken(init[j]).0 != key;
      assert init[i] == ts[i];
      assert forall j :: i < j < |ts| ==> ParseToken(ts[j]).0 != key by {
        forall j | i < j < |ts|
          ensures ParseToken(ts[j]).0 != key
        {
          if j < n {
            assert init[j] == ts[j];
          }
        }
      }
    }
  }

  /** The directives of a node: none for a text node or a missing attribute. */
  function NodeDirectives(node: Node, attrName: string): (r: map<string, DirectiveValue>)
  {
    if node.Element? && attrName in node.attrs then DirectivesOf(Tokens(node.attrs[attrName]))
    else map[]
  }

  /** `_get_extraction_directive`: tokenises the attribute and fills the map token by token. */
  method GetExtractionDirective(node: Node, attrName: string) returns (directives: map<string, DirectiveValue>)
    ensures directives == NodeDirectives(node, attrName)
    ensures !(node.Element? && attrName in node.attrs) ==> directives == map[]
  {
    directives := map[];
    if node.Element? && attrName in node.attrs {
      directives := FillDirectives(Tokens(node.attrs[attrName]));
    }
  }

  /** The loop of `_get_extraction_directive`: each token, cut at its first `=`, overwrites
      its key. */
  method FillDirectives(tokens: seq<string>) returns (directives: map<string, DirectiveValue>)
    ensures directives == DirectivesOf(tokens)
  {
    directives := map[];
    for i := 0 to |tokens|
      invariant directives == DirectivesOf(tokens[..i])
    {
      var token := tokens[i];
      var k := FirstIndex(token, IsEquals);
      assert ParseToken(token) == if k < |token| then (token[..k], Setting(token[k + 1..])) else (token, Flag);
      if k < |token| {
        directives := directives[token[..k] := Setting(token[k + 1..])];
      } else {
        directives := directives[token := Flag];
      }
      assert tokens[..i + 1][..i] == tokens[..i];
    }
    assert tokens[..|tokens|] == tokens;
  }

  /** The `expand` directive is honoured only as the bare flag: `expand=yes` is text, not True. */
  predicate ExpandRequested(node: Node, attrName: string)
  {
    var d := NodeDirectives(node, attrName);
    "expand" in d && d["expand"] == Flag
  }

  /** A key without `=` maps to Flag exactly when the last token keyed by it is the bare key. */
  lemma {:induction false} FlagIffLastBare(ts: seq<string>, key: string)
    requires '=' !in key
    ensures (key in DirectivesOf(ts) && DirectivesOf(ts)[key] == Flag) <==>
              exists i :: 0 <= i < |ts| && ts[i] == key && forall j :: i < j < |ts| ==> ParseToken(ts[j]).0 != key
  {
    DirectivesKeys(ts, key);
    if key in DirectivesOf(ts) {
      DirectivesLastWins(ts, key);
      var i :| 0 <= i < |ts| && ParseToken(ts[i]).0 == key && ParseToken(ts[i]).1 == DirectivesOf(ts)[key]
               && forall j :: i < j < |ts| ==> ParseToken(ts[j]).0 != key;
      ParseTokenCutsAtFirstEquals(ts[i]);
      forall i' | 0 <= i' < |ts| && ts[i'] == key && (forall j :: i' < j < |ts| ==> ParseToken(ts[j]).0 != key)
        ensures i' == i
      {
        ParseTokenCutsAtFirstEquals(ts[i']);
      }
    } else {
      forall i | 0 <= i < |ts| && ts[i] == key
        ensures false
      {
        ParseTokenCutsAtFirstEquals(ts[i]);
      }
    }
  }

  /** `expand` is requested exactly when the last token keyed `expand` is the bare word. */
  lemma ExpandRequestedIff(node: Node, attrName: string)
    requires node.Element? && attrName in node.attrs
    ensures var ts := Tokens(node.attrs[attrName]);
      ExpandRequested(node, attrName) <==>
        exists i :: 0 <= i < |ts| && ts[i] == "expand" && forall j :: i < j < |ts| ==> ParseToken(ts[j]).0 != "expand"
  {
    FlagIffLastBare(Tokens(node.attrs[attrName]), "expand");
  }
}
