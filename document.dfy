/** The document container (core.py:22-94): an append-only list of elements and a document
    object built once, on the first write, and reused by every later write. */
module Document {
  import opened Common

  /** The writer's document object, which the model keeps opaque apart from what the
      container passes in: the style sheet (the style collector returns nothing) and the
      default language. */
  datatype BuiltDocument = BuiltDocument(styleSheet: Option<string>, defaultLanguage: string)

  const DefaultLanguage: string := "EnglishUS"

  /** The document `_to_rtf` builds. */
  const Built: BuiltDocument := BuiltDocument(None, DefaultLanguage)

  /** The fixed text of the representation before the element count. */
  const ReprPrefix: string := "<RTF document of "

  class RTFDocument<E> {
    /** The appended elements, in order. */
    var elementCache: seq<E>
    /** The default paragraph style: set to nothing and never changed here. */
    var defaultParagraphStyle: Option<string>
    /** The built document, once a write has happened. */
    var cachedDoc: Option<BuiltDocument>
    /** How many times the document object has been built. */
    ghost var builds: nat

    /** The document is built at most once, and is cached exactly when it has been built. */
    ghost predicate Valid()
      reads this
    {
      builds <= 1 && (cachedDoc.Some? <==> builds == 1) && (cachedDoc.Some? ==> cachedDoc.value == Built)
    }

    /** A new document: no elements, no default paragraph style, nothing built. */
    constructor()
      ensures Valid()
      ensures elementCache == [] && defaultParagraphStyle == None && cachedDoc == None && builds == 0
    {
      elementCache := [];
      defaultParagraphStyle := None;
      cachedDoc := None;
      builds := 0;
    }

    /** `append`: one element at the end; nothing else changes. */
    method Append(element: E)
      requires Valid()
      modifies this
      ensures Valid()
      ensures elementCache == old(elementCache) + [element]
      ensures defaultParagraphStyle == old(defaultParagraphStyle) && cachedDoc == old(cachedDoc) && builds == old(builds)
    {
      elementCache := elementCache + [element];
    }

    /** `_write`: builds the document only when none is cached, then hands the cached
        document to the writer; `render` is what the writer puts into the file. */
    method Write(render: BuiltDocument -> string) returns (written: string)
      requires Valid()
      modifies this
      ensures Valid()
      ensures cachedDoc == Some(Built) && builds == 1
      ensures old(cachedDoc).Some? ==> builds == old(builds)
      ensures written == render(Built)
      ensures elementCache == old(elementCache) && defaultParagraphStyle == old(defaultParagraphStyle)
    {
      if cachedDoc.None? {
        cachedDoc := Some(Built);
        builds := builds + 1;
      }
      written := render(cachedDoc.value);
    }

    /** `to_string`: a write into a fresh buffer, whose whole contents are returned; a
        second call returns the same text and builds nothing. */
    method ToString(render: BuiltDocument -> string) returns (s: string)
      requires Valid()
      modifies this
      ensures Valid()
      ensures s == render(Built)
      ensures cachedDoc == Some(Built) && builds == 1
      ensures elementCache == old(elementCache) && defaultParagraphStyle == old(defaultParagraphStyle)
    {
      var cache: string := [];
      var written := Write(render);
      cache := cache + written;
      s := cache;
    }

    /** The representation: the element count in decimal, then the hexadecimal address
        `addr` (the identity of the object, which the model takes as given). */
    function Repr(addr: string): (r: string)
      reads this
      ensures |r| > |ReprPrefix| + |FormatDecimal(|elementCache|)|
      ensures r[..|ReprPrefix|] == ReprPrefix
      ensures var digits := r[|ReprPrefix|..|ReprPrefix| + |FormatDecimal(|elementCache|)|];
              (forall j :: 0 <= j < |digits| ==> '0' <= digits[j] <= '9') && ParseDecimal(digits) == |elementCache|
      ensures r[|ReprPrefix| + |FormatDecimal(|elementCache|)|] == ' '
    {
      var count := FormatDecimal(|elementCache|);
      var r := ReprPrefix + count + " element(s) at 0x" + addr + ">";
      FormatParseRoundTrip(|elementCache|);
      assert r[|ReprPrefix|..|ReprPrefix| + |count|] == count;
      r
    }
  }

  /** Writing twice builds the document once and writes the same text twice; appending
      after the first write does not rebuild it. */
  method WriteAfterAppend<E>(doc: RTFDocument<E>, e: E, render: BuiltDocument -> string) returns (first: string, second: string)
    requires doc.Valid()
    modifies doc
    ensures doc.Valid() && doc.builds == 1
    ensures first == second
    ensures doc.elementCache == old(doc.elementCache) + [e]
  {
    first := doc.ToString(render);
    doc.Append(e);
    second := doc.ToString(render);
  }
}
