# RTFMaker HTML normalisation, style pool and document container in Dafny

RTFMaker turns a fragment of HTML into an RTF document. Its translator works in these steps:

1. It selects tags by attribute dictionaries (`_extract_tag`).
2. It flattens each selected tag (`_flatten_tag`). Flattening is driven by the `expand` token of a `data-rtf-directive` attribute. Every expanded child inherits its parent's CSS classes (`_expand_tag`).
3. At the root of each flattening it merges the runs of nodes between blank markers (`_merge_tag`). A blank marker is a `br` element or a whitespace-only text node.
4. It classifies every resulting item by tag name into `partial` / `list` / `table` / `paragraph` descriptors (`_get_text_from_tag`, `_tag2txt`). A paragraph's font comes from a fixed class-to-font table (`_map_css_cls_to_font`).

Beside the pipeline sit a validator for font definitions (`_font_def_validator`) and a helper that merges class lists (`_collect_cls`). There are also two small pieces of state:
- the style pool `StyleSet`, an insertion-ordered list that registers each name once;
- the document container `RTFDocument`, an append-only element list plus a document object built on the first write and reused afterwards.

Modules and files:
- `Common` (common.dfy) provides Option/Result, filtering, Python's `split(sep)`, `strip()`, ASCII lower-casing and decimal formatting.
- `HtmlTree` (html_tree.dfy) defines the node datatype: text nodes, and elements with a name, class list, attributes and children.
- `Directives` (directives.dfy) reads directive attributes.
- `Merge` (merge.dfy) merges runs between blank markers.
- `Flatten` (flatten.dfy) covers expansion, flattening and the per-tag driver `_filter_tag`.
- `Styling` (styling.dfy) covers class collection, font mapping and the font validator.
- `Descriptors` (descriptors.dfy) classifies items.
- `Extract` (extract.dfy) selects tags.
- `StylePool` (style_set.dfy) models the style pool.
- `Document` (document.dfy) models the document container.

The code works in place in three spots:
- Loops that build a list or map become methods with loop invariants, each proved equal to a specification function.
- `StyleSet` and `RTFDocument` are classes whose methods state their whole new state.
- `_expand_tag` rewrites each child's `class` attribute in place. The model works on values for this: the rewritten children are returned, and a tag as the rewrite leaves it is `Flatten.Touched`.

The class-to-font lookup stops at the first hit, but every miss before it overwrites the result with None. So a non-empty class list with no known class yields None, not the caller's default. The model keeps this behaviour.

The style and element collectors of the container are empty in the source. So the document it builds does not depend on the appended elements.

## Model

| member | source | states |
|---|---|---|
| Common.SplitRejoin | RTFMaker/htmlconv.py:51 | Splitting on a separator gives one run more than there are separators, and no run holds a separator. Putting the separators back between the runs gives the input. |
| Common.Strip | RTFMaker/htmlconv.py:51 | The stripped text is the input with a whitespace-only prefix and a whitespace-only suffix cut off. It is empty exactly when the input is all whitespace. Otherwise it starts and ends with non-whitespace. |
| Common.FormatParseRoundTrip | RTFMaker/core.py:90-91 | The decimal form of the element count reads back as that count. |
| HtmlTree.SpanWrap | RTFMaker/htmlconv.py:39-42 | Wrapping a node in a bare span keeps its text. |
| Directives.Tokens | RTFMaker/htmlconv.py:50-52 | Tokens are non-empty, hold no space and have non-whitespace ends. |
| Directives.TokensInOrder | RTFMaker/htmlconv.py:50-52 | The tokens are exactly the non-empty stripped pieces of the attribute split on single spaces, in attribute order: the k-th token is the stripped piece at the k-th kept position, the positions increase, and every piece whose strip is non-empty is kept. |
| Directives.ParseTokenCutsAtFirstEquals | RTFMaker/htmlconv.py:57-61 | A token with `=` is cut at its first `=`: the key holds no `=`, and key, `=` and value give the token back. A token without `=` is a flag under its own name. |
| Directives.DirectivesKeys | RTFMaker/htmlconv.py:55-61 | A key is in the map exactly when some token names it. |
| Directives.DirectivesLastWins | RTFMaker/htmlconv.py:55-61 | A key's value is that of the last token naming it. |
| Directives.GetExtractionDirective | RTFMaker/htmlconv.py:45-62 | The loop builds the map of the attribute's tokens. A text node or a missing attribute gives the empty map. |
| Directives.FlagIffLastBare | RTFMaker/htmlconv.py:56-61 | A key maps to True exactly when the last token keyed by it is the bare key. |
| Directives.ExpandRequestedIff | RTFMaker/htmlconv.py:233-236 | `expand` counts as requested exactly when the last token keyed `expand` is the bare word. `expand=yes` does not count. |
| Merge.EmitAllFacts | RTFMaker/htmlconv.py:272-281 | Emitting runs keeps their nodes in order, and every emitted group has at least two nodes. |
| Merge.SinglesContents | RTFMaker/htmlconv.py:296-297 | With no marker, the nodes pass through unchanged. |
| Merge.MergedKeepsNonBlank | RTFMaker/htmlconv.py:283-298 | The merged items hold exactly the non-blank nodes, in order. |
| Merge.MergedShape | RTFMaker/htmlconv.py:272-298 | No merged item holds a blank marker, and every group has at least two nodes. |
| Merge.MergedIsRuns | RTFMaker/htmlconv.py:286-295 | Whenever there is a marker, the result is the emitted runs between markers. The all-markers case agrees with that. |
| Merge.AllBlankRunsEmpty | RTFMaker/htmlconv.py:286-287 | A sequence made only of markers emits nothing. |
| Merge.WalkEmitsRuns | RTFMaker/htmlconv.py:288-295 | The index loop with its rolling stack emits the runs between markers. |
| Merge.MergeTag | RTFMaker/htmlconv.py:259-298 | The loop computes the merged sequence. |
| Merge.MergeExample | RTFMaker/htmlconv.py:259-298 | `[p1, br, p2, p3, br, p4]` merges to `[p1, [p2, p3], p4]`. |
| Flatten.ExpandTag | RTFMaker/htmlconv.py:167-212 | An exempt node (text, u, i, br, hr, ul, ol) gives no children. Any other node gives all its children in order. Text children are unchanged, and each element child's classes become its own classes followed by the parent's. |
| Flatten.Expansion | RTFMaker/htmlconv.py:215-253 | Flattening never loses a tag: it yields at least one node, and a text node is yielded as it is. |
| Flatten.ExpansionAll | RTFMaker/htmlconv.py:244-246 | The children's flattenings yield at least one node per child. |
| Flatten.FlattenTag | RTFMaker/htmlconv.py:215-256 | At the root, the items hold exactly the non-blank flattened nodes in order, hold no blank marker, and every group has at least two nodes. Below the root, every flattened node is its own item, unchanged and in order. |
| Flatten.TouchedKeepsShape | RTFMaker/htmlconv.py:237-252 | Rewriting a tag's children keeps its directives, its exemption, its classes and its number of children. |
| Flatten.ExpansionKeepsText | RTFMaker/htmlconv.py:215-253 | Flattening keeps the text of the tag, in document order. |
| Flatten.ExpansionAllKeepsText | RTFMaker/htmlconv.py:240-246 | The concatenated flattenings of the children keep the children's text. |
| Flatten.RecursiveExpansionSettles | RTFMaker/htmlconv.py:233-253 | After recursive flattening, no node yielded both asks to be expanded and has children to expand. |
| Flatten.RecursiveExpansionAllSettles | RTFMaker/htmlconv.py:240-246 | The same holds for the children's flattenings. |
| Flatten.ExpansionInheritsClasses | RTFMaker/htmlconv.py:195-229 | Every element yielded carries the flattened tag's classes at the end of its class list. |
| Flatten.ExpansionAllInheritsClasses | RTFMaker/htmlconv.py:240-246 | Every element from the children's flattenings ends with the parent's classes. |
| Flatten.FilterTag | RTFMaker/htmlconv.py:301-306 | The driver concatenates, in order, the root-level flattening and merging of each tag. |
| Flatten.FlatNodesKeepText | RTFMaker/htmlconv.py:301-306 | Across all tags, flattening keeps all text in order. |
| Flatten.FilteredTagsWellFormed | RTFMaker/htmlconv.py:301-306 | The driver's output holds no blank marker, and every group has at least two nodes. |
| Flatten.FilteredTagsContents | RTFMaker/htmlconv.py:301-306 | The driver's output holds exactly the non-blank flattened nodes, in order. |
| Styling.CollectedMembership | RTFMaker/htmlconv.py:68-71 | A name is collected exactly when some list argument holds it. |
| Styling.CollectCls | RTFMaker/htmlconv.py:65-75 | The result is None exactly when nothing was collected. Otherwise it is the list arguments concatenated, with other arguments ignored. |
| Styling.FirstFontIsFirstKnown | RTFMaker/htmlconv.py:159-163 | The lookup finds the font of the first known class, and finds nothing exactly when no class is known. |
| Styling.MapCssClsToFont | RTFMaker/htmlconv.py:148-164 | An empty class list gives the default. Otherwise the result is a font exactly when some class is known, and the font is a table entry. A non-empty list with no known class gives None. |
| Styling.FontDefValidator | RTFMaker/htmlconv.py:97-146 | The result is True exactly when all four fields are present as text inside their enumerations. |
| Styling.ValidAsWrittenFields | RTFMaker/htmlconv.py:103-143 | As written, the weight and style fields are required in effect. |
| Styling.IntSizeNeverValid | RTFMaker/htmlconv.py:111-142 | An integer font size passes the type check but never the enumeration. |
| Styling.AsWrittenImpliesIntended | RTFMaker/htmlconv.py:132-143 | The checks as written reject a superset of what the field table rejects. |
| Styling.ValidIntendedFields | RTFMaker/htmlconv.py:103-127 | The field table means: family and size are required, and weight and style may be missing. |
| Styling.OptionalFieldsRejectedAsWritten | RTFMaker/htmlconv.py:133-139 | `{font-family: Arial, font-size: 9pt}` is rejected as written but accepted by the field table. |
| Descriptors.Describe | RTFMaker/htmlconv.py:329-382 | A node's descriptor is a `list` exactly for ul and ol, a `table` exactly for table, and never `partial`. It ends its line exactly unless the node is text, span, u or i. |
| Descriptors.DescribeErrIff | RTFMaker/htmlconv.py:379-382 | A node fails exactly when `use_exc` is set and its tag is unknown. The error names the tag. |
| Descriptors.DescribeNothingIff | RTFMaker/htmlconv.py:365-382 | A node yields nothing exactly when it is a `br`, or an unknown tag without `use_exc`. |
| Descriptors.DescribeParagraph | RTFMaker/htmlconv.py:351-377 | A p/span/div element becomes a paragraph of itself. It has a font exactly when one of its classes is known, and a newline unless it is a span. Text, u and i become a span around the node, with the same text and no newline. |
| Descriptors.DescribeAllFacts | RTFMaker/htmlconv.py:315-325 | A merged group fails exactly when one of its nodes does. Otherwise it has one entry per node, in order. |
| Descriptors.TextListErrIff | RTFMaker/htmlconv.py:386-394 | The driver fails exactly when some item does. |
| Descriptors.NoErrorWithoutExc | RTFMaker/htmlconv.py:379-394 | Without `use_exc`, nothing fails. |
| Descriptors.TextListInOrder | RTFMaker/htmlconv.py:386-394 | At most one descriptor is kept per item. When no item yields nothing, the descriptors are the items' own, one per item and in order. |
| Descriptors.TextListPositions | RTFMaker/htmlconv.py:386-394 | In general the driver keeps exactly the descriptors of the items that yield one, in item order: the k-th descriptor is that of the item at the k-th kept position, the positions increase strictly, and every item that yields a descriptor is kept. |
| Descriptors.GetTextFromTag | RTFMaker/htmlconv.py:308-384 | The loop over a group builds its `partial` descriptor, and the first error aborts it. |
| Descriptors.Tag2Txt | RTFMaker/htmlconv.py:386-394 | The loop keeps the non-empty descriptors in order, and the first error aborts it. |
| Descriptors.DescribeAllStopsAtError | RTFMaker/htmlconv.py:317-318 | Once a prefix of a group fails, the whole group fails with the same error. |
| Descriptors.TextListStopsAtError | RTFMaker/htmlconv.py:389-390 | Once a prefix of the items fails, the driver fails with the same error. |
| Extract.DefaultPlaceholder | RTFMaker/htmlconv.py:82-86 | The default placeholder is a bare span around the `na.str` text. |
| Extract.ExtractTag | RTFMaker/htmlconv.py:78-94 | The loop builds the selectors' contributions in selector order. |
| Extract.NonDictSkipped | RTFMaker/htmlconv.py:88-89 | Selectors that are not dictionaries change nothing. |
| Extract.ExtractedConcat | RTFMaker/htmlconv.py:88-93 | The result is the concatenation of the contributions. |
| Extract.ExtractedOrigin | RTFMaker/htmlconv.py:88-93 | Every extracted node is a match of some dictionary selector. The only exception is the placeholder, and only with `add.na` and for a selector without matches. |
| Extract.ExtractedLength | RTFMaker/htmlconv.py:88-93 | With `add.na` there are at least as many nodes as dictionary selectors. Without it there are exactly the matches. |
| StylePool.UnnamedAppended | RTFMaker/utils.py:49-55 | A value with no name or an empty name is always appended. |
| StylePool.RegisteredUnchanged | RTFMaker/utils.py:49-54 | A value whose truthy name is already registered leaves the pool unchanged. |
| StylePool.AddAllExtends | RTFMaker/utils.py:46-55 | Existing items keep their places, new items come from the values, and every value's name ends up registered. |
| StylePool.AddAllSnoc | RTFMaker/utils.py:46-55 | Offering one more value is offering it to the pool that the earlier values left. |
| StylePool.AddAllInOrder | RTFMaker/utils.py:46-55 | The appended items are a subsequence of the values in argument order. A value is appended exactly when the pool left by the values before it does not already register its truthy name. |
| StylePool.NamesakeDropped | RTFMaker/utils.py:46-55 | Within one call, a value whose truthy name an earlier value carries leaves the pool unchanged. |
| StylePool.AddAllKeepsDistinct | RTFMaker/utils.py:46-55 | If the truthy names in the pool were distinct, they stay distinct. |
| StylePool.SecondNamesakeDropped | RTFMaker/utils.py:46-55 | Within one call, of two values sharing a truthy name only the first is added. |
| StylePool.StyleSet.constructor | RTFMaker/utils.py:24-25 | A new pool is empty. |
| StylePool.StyleSet.GetByName | RTFMaker/utils.py:27-44 | The result is the first item in insertion order whose name equals the query, or `default` when none does. |
| StylePool.StyleSet.Add | RTFMaker/utils.py:46-55 | The new pool is the old one with the values offered in order. |
| Document.RTFDocument.constructor | RTFMaker/core.py:27-30 | A new document has no elements, no default paragraph style and no built document. |
| Document.RTFDocument.Append | RTFMaker/core.py:32-35 | Exactly one element is added at the end, and nothing else changes. |
| Document.RTFDocument.Write | RTFMaker/core.py:50-71 | The document is built only when none is cached, so it is built once in all. The cached document is then written. |
| Document.RTFDocument.ToString | RTFMaker/core.py:73-87 | The result is the whole text of one write into a fresh buffer. |
| Document.RTFDocument.Repr | RTFMaker/core.py:89-94 | The representation carries the element count in decimal, which reads back as the length of the element list. |
| Document.WriteAfterAppend | RTFMaker/core.py:32-71 | Writing, appending, then writing again builds the document once and writes the same text twice. |

## Left out

- The HTML parser is not part of this model. Nodes are a datatype, and the search `findAll` is the function parameter `find` of `Extract.ExtractTag`. Parsing `&nbsp;` is represented by its result, `Extract.DefaultNaText`.
- HtmlTree.SpanWrap: the re-parse of `<span>` + node markup + `</span>` is modelled as a bare span around the node. Text that would parse as markup is not re-interpreted.
- HtmlTree.IsBlank: an element's rendered markup is taken to be never blank. Only `br` elements and whitespace-only text nodes are markers.
- Flatten.Expansion: the in-place class rewrite is modelled on values. A node reached by two separate flattenings (aliasing in the source) is not modelled, and neither is a rewrite accumulating over repeated calls.
- Flatten.FilterTag: the driver always starts at the root level, so a caller-supplied `depth` keyword is not modelled.
- The `callback.text.extraction` hook of `_get_text_from_tag` is not modelled, because it is caller-supplied code.
- Objects without a `name` attribute given to `_get_text_from_tag` are not modelled, because items are always nodes or groups of nodes.
- Descriptors.Describe: tag names are compared as given, and Lower is ASCII only, with no Unicode case folding.
- Flatten.IsExempt and HtmlTree.IsBlank: under Python 2, `str()` of a tag name holding a non-ASCII character raises UnicodeEncodeError (htmlconv.py:181 and 266), which aborts the translation. The model does not raise this error: it lower-cases the ASCII letters, keeps the other characters and carries on.
- Styling.FontDefValidator: the assertion that the argument is a dictionary is not modelled; the type guarantees it. Python 2 `str` and `unicode` are one string type.
- `translate`, `demo` and the `get_html_translator` factory are not modelled, because they are glue code and a demo page.
- The PyRTF writer is not part of this model. `BuiltDocument` is an opaque value, and what `write` puts into the file is the function parameter `render`. `StringIO` is a local string.
- `RPar` and `RTable` are not modelled, because they are stubs.
- `StyleSet.__init__` forwards its arguments to PyRTF's `AttributedList`, which is not part of this model. StylePool.StyleSet.constructor starts from an empty pool.
- StylePool.StyleSet.GetByName: pool items are style records with an optional name. A pool entry that is itself `None` is not modelled.
- Document.RTFDocument.Repr: the object address is a parameter, given as hexadecimal text.

## Findings

| source | as written | input that shows it | evidently intended | confidence | as-written member | corrected member |
|---|---|---|---|---|---|---|
| RTFMaker/htmlconv.py:133-139 | A missing optional field (`font-weight`, `font-style`) is looked up as the `_empty` marker. The marker fails the type check, so the definition is rejected although the field table marks the field `'required': False`. | `{'font-family': 'Arial', 'font-size': '9pt'}` | Missing optional fields are skipped, so the definition is valid. | high (not executed) | Styling.OptionalFieldsRejectedAsWritten | Styling.ValidIntendedFields |
