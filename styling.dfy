/** Class and font helpers of the translator: merging class lists (htmlconv.py:64-75),
    validating a font definition (htmlconv.py:96-146) and mapping CSS classes to a font
    (htmlconv.py:148-164). */
module Styling {
  import opened Common

  /** One argument of `_collect_cls`: a list or tuple of class names, or anything else. */
  datatype ClsArg = ClsList(names: seq<string>) | NotAList

  /** The class names of the list arguments, in argument order. */
  function Collected(args: seq<ClsArg>): (r: seq<string>)
  {
    if args == [] then []
    else Collected(args[..|args| - 1]) + (if args[|args| - 1].ClsList? then args[|args| - 1].names else [])
  }

  /** A name is collected exactly when some list argument holds it. */
  lemma {:induction false} CollectedMembership(args: seq<ClsArg>, x: string)
    ensures x in Collected(args) <==> exists i :: 0 <= i < |args| && args[i].ClsList? && x in args[i].names
  {
    if args != [] {
      var init := args[..|args| - 1];
      CollectedMembership(init, x);
      assert forall i :: 0 <= i < |init| ==> init[i] == args[i];
    }
  }

  /** `_collect_cls`: concatenates the list arguments, ignoring the others; None when
      nothing was collected. */
  method CollectCls(args: seq<ClsArg>) returns (r: Option<seq<string>>)
    ensures r == None <==> Collected(args) == []
    ensures r.Some? ==> r.value == Collected(args)
  {
    var cache: seq<string> := [];
    for i := 0 to |args|
      invariant cache == Collected(args[..i])
    {
      assert args[..i + 1][..i] == args[..i];
      if args[i].ClsList? {
        cache := cache + args[i].names;
      }
    }
    assert args[..|args|] == args;
    if |cache| > 0 {
      r := Some(cache);
    } else {
      r := None;
    }
  }

  /** The CSS class names with a known font, and that font as a CSS declaration. */
  const FontHub: map<string, string> := map[
    "med-font" := "font-family:Arial;font-size:9pt;",
    "bold-font" := "font-family:Arial;font-size:9pt;font-weight:bold;",
    "small-font" := "font-family:Arial;font-size:8pt;",
    "ref-text" := "font-family:Arial;font-size:8pt;font-style:italic;"
  ]

  /** The font of the first class name the hub knows, or None. */
  function FirstFont(names: seq<string>): (r: Option<string>)
  {
    if names == [] then None
    else if names[0] in FontHub then Some(FontHub[names[0]])
    else FirstFont(names[1..])
  }

  /** The result `_map_css_cls_to_font` promises: `default` only for an empty class list;
      otherwise the font of the first known class, and None (not `default`) when no class
      is known. */
  function FontForClasses(names: seq<string>, default: Option<string>): (r: Option<string>)
  {
    if names == [] then default else FirstFont(names)
  }

  /** FirstFont finds the first known class, and finds nothing exactly when no class is known. */
  lemma {:induction false} FirstFontIsFirstKnown(names: seq<string>)
    ensures FirstFont(names) == None <==> forall i :: 0 <= i < |names| ==> names[i] !in FontHub
    ensures FirstFont(names).Some? ==>
              exists i :: 0 <= i < |names| && names[i] in FontHub && FirstFont(names).value == FontHub[names[i]]
                          && forall j :: 0 <= j < i ==> names[j] !in FontHub
  {
    if names != [] && names[0] !in FontHub {
      FirstFontIsFirstKnown(names[1..]);
      assert forall i :: 1 <= i < |names| ==> names[i] == names[1..][i - 1];
      if FirstFont(names).Some? {
        var i :| 0 <= i < |names[1..]| && names[1..][i] in FontHub && FirstFont(names).value == FontHub[names[1..][i]]
                 && forall j :: 0 <= j < i ==> names[1..][j] !in FontHub;
        assert names[i + 1] == names[1..][i];
        assert forall j :: 1 <= j < i + 1 ==> names[j] == names[1..][j - 1];
      }
    }
  }

  /** `_map_css_cls_to_font`: looks the class names up in order and stops at the first hit;
      every miss overwrites the result with None. */
  method MapCssClsToFont(names: seq<string>, default: Option<string>) returns (ret: Option<string>)
    ensures ret == FontForClasses(names, default)
    ensures names != [] ==> (ret.Some? <==> exists i :: 0 <= i < |names| && names[i] in FontHub)
    ensures names != [] && ret.Some? ==> ret.value in FontHub.Values
  {
    ret := default;
    if |names| > 0 {
      var i := 0;
      while i < |names|
        invariant 0 <= i <= |names|
        invariant i > 0 ==> ret == None
        invariant FirstFont(names) == FirstFont(names[i..])
      {
        assert names[i..][1..] == names[i + 1..];
        if names[i] in FontHub {
          ret := Some(FontHub[names[i]]);
          break;
        }
        ret := None;
        i := i + 1;
      }
      FirstFontIsFirstKnown(names);
    }
  }

  /** A value in a font definition: text, an integer, or anything else. */
  datatype FieldValue = Str(s: string) | Int(i: int) | Other

  /** One entry of the field table: the field, whether it must be present, whether an
      integer is of an accepted type, and the accepted values. */
  datatype FieldRule = FieldRule(field: string, required: bool, allowsInt: bool, allowed: seq<string>)

  const FontFieldHub: seq<FieldRule> := [
    FieldRule("font-family", true, false, ["Arial", "Courier New", "Times", "Tahoma"]),
    FieldRule("font-size", true, true, ["8pt", "9pt"]),
    FieldRule("font-weight", false, false, ["bold"]),
    FieldRule("font-style", false, false, ["italic"])
  ]

  predicate TypeAccepted(rule: FieldRule, v: FieldValue)
  {
    v.Str? || (rule.allowsInt && v.Int?)
  }

  /** Membership in the accepted values: only text equals one of them. */
  predicate Enumerated(rule: FieldRule, v: FieldValue)
  {
    v.Str? && v.s in rule.allowed
  }

  /** One field as the checks are written: a missing field is looked up as a marker object,
      which is of no accepted type, so it fails whether or not the field is required. */
  predicate FieldPassesAsWritten(rule: FieldRule, def: map<string, FieldValue>)
  {
    rule.field in def && TypeAccepted(rule, def[rule.field]) && Enumerated(rule, def[rule.field])
  }

  predicate ValidAsWritten(def: map<string, FieldValue>)
  {
    |def| > 0 && forall k :: 0 <= k < |FontFieldHub| ==> FieldPassesAsWritten(FontFieldHub[k], def)
  }

  /** One field as the table means it: an optional field may be missing. */
  predicate FieldAcceptable(rule: FieldRule, def: map<string, FieldValue>)
  {
    if rule.field in def then TypeAccepted(rule, def[rule.field]) && Enumerated(rule, def[rule.field])
    else !rule.required
  }

  predicate ValidIntended(def: map<string, FieldValue>)
  {
    |def| > 0 && forall k :: 0 <= k < |FontFieldHub| ==> FieldAcceptable(FontFieldHub[k], def)
  }

  /** `_font_def_validator`: any failed check ends the scan with False. */
  method FontDefValidator(def: map<string, FieldValue>) returns (valid: bool)
    ensures valid == ValidAsWritten(def)
    ensures valid <==>
              && "font-family" in def && def["font-family"] in {Str("Arial"), Str("Courier New"), Str("Times"), Str("Tahoma")}
              && "font-size" in def && def["font-size"] in {Str("8pt"), Str("9pt")}
              && "font-weight" in def && def["font-weight"] == Str("bold")
              && "font-style" in def && def["font-style"] == Str("italic")
  {
    ValidAsWrittenFields(def);
    valid := false;
    if |def| == 0 {
      return;
    }
    for k := 0 to |FontFieldHub|
      invariant forall j :: 0 <= j < k ==> FieldPassesAsWritten(FontFieldHub[j], def)
    {
      var rule := FontFieldHub[k];
      if rule.required && rule.field !in def {
        return;
      }
      if rule.field !in def || !TypeAccepted(rule, def[rule.field]) {
        return;
      }
      if !Enumerated(rule, def[rule.field]) {
        return;
      }
    }
    valid := true;
  }

  /** As written, every field of the table must be present with an accepted value. */
  lemma ValidAsWrittenFields(def: map<string, FieldValue>)
    ensures ValidAsWritten(def) <==>
              && "font-family" in def && def["font-family"] in {Str("Arial"), Str("Courier New"), Str("Times"), Str("Tahoma")}
              && "font-size" in def && def["font-size"] in {Str("8pt"), Str("9pt")}
              && "font-weight" in def && def["font-weight"] == Str("bold")
              && "font-style" in def && def["font-style"] == Str("italic")
  {
    assert FontFieldHub[0].allowed == ["Arial", "Courier New", "Times", "Tahoma"];
    assert FontFieldHub[1].allowed == ["8pt", "9pt"];
    if ValidAsWritten(def) {
      assert FieldPassesAsWritten(FontFieldHub[0], def);
      assert FieldPassesAsWritten(FontFieldHub[1], def);
      assert FieldPassesAsWritten(FontFieldHub[2], def);
      assert FieldPassesAsWritten(FontFieldHub[3], def);
    }
  }

  /** An integer font size is of an accepted type but never one of the accepted values. */
  lemma IntSizeNeverValid(def: map<string, FieldValue>)
    requires "font-size" in def && def["font-size"].Int?
    ensures !ValidAsWritten(def)
    ensures !ValidIntended(def)
  {
    assert !FieldPassesAsWritten(FontFieldHub[1], def);
    assert !FieldAcceptable(FontFieldHub[1], def);
  }

  /** The checks as written only reject more than the table means. */
  lemma AsWrittenImpliesIntended(def: map<string, FieldValue>)
    requires ValidAsWritten(def)
    ensures ValidIntended(def)
  {
    forall k | 0 <= k < |FontFieldHub|
      ensures FieldAcceptable(FontFieldHub[k], def)
    {
      assert FieldPassesAsWritten(FontFieldHub[k], def);
    }
  }

  /** The table's meaning: family and size are required, weight and style may be missing. */
  lemma ValidIntendedFields(def: map<string, FieldValue>)
    ensures ValidIntended(def) <==>
              && |def| > 0
              && "font-family" in def && def["font-family"] in {Str("Arial"), Str("Courier New"), Str("Times"), Str("Tahoma")}
              && "font-size" in def && def["font-size"] in {Str("8pt"), Str("9pt")}
              && ("font-weight" in def ==> def["font-weight"] == Str("bold"))
              && ("font-style" in def ==> def["font-style"] == Str("italic"))
  {
    assert FontFieldHub[0].allowed == ["Arial", "Courier New", "Times", "Tahoma"];
    assert FontFieldHub[1].allowed == ["8pt", "9pt"];
    if ValidIntended(def) {
      assert FieldAcceptable(FontFieldHub[0], def);
      assert FieldAcceptable(FontFieldHub[1], def);
      assert FieldAcceptable(FontFieldHub[2], def);
      assert FieldAcceptable(FontFieldHub[3], def);
    }
  }

  /** A definition without the optional fields: rejected by the checks as written, accepted
      by the table's meaning. */
  lemma OptionalFieldsRejectedAsWritten()
    ensures var def := map["font-family" := Str("Arial"), "font-size" := Str("9pt")];
      !ValidAsWritten(def) && ValidIntended(def)
  {
    var def := map["font-family" := Str("Arial"), "font-size" := Str("9pt")];
    assert !FieldPassesAsWritten(FontFieldHub[2], def);
    ValidIntendedFields(def);
  }
}
