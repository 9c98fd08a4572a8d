/**
  Recipe names: a file name, a class extension and a multiconfig packed into one string, as in
  "mc:M:virtual:C:file".
 */
module RecipeNames {
  import opened ColonText

  // ----- the conversions -----

  /** `s` starts with the keyword and a colon. */
  predicate HasKeyword(s: string, keyword: string) {
    StartsWith(s, keyword + ":")
  }

  predicate IsMulticonfig(s: string) {
    HasKeyword(s, "mc") && Colons(s) >= 2
  }

  /** The multiconfig name and what follows it, by a split at the first two colons. */
  function CutMulticonfig(s: string): (string, string) {
    if IsMulticonfig(s) then (Head(Tail(s)), Tail(Tail(s))) else ("", s)
  }

  /** The file name and the class extension. */
  function CutVirtual(s: string): (string, string) {
    if HasKeyword(s, "virtual") then
      KeywordIsHead(s, "virtual");
      HeadAndTail(s);
      var elems := Split(s);
      (elems[|elems| - 1], Join(elems[1..|elems| - 1]))
    else (s, "")
  }

  /** virtualfn2realfn: the file name, the class extension and the multiconfig. */
  function VirtualToReal(virtualfn: string): (string, string, string) {
    var (mc, rest) := CutMulticonfig(virtualfn);
    var (fn, cls) := CutVirtual(rest);
    (fn, cls, mc)
  }

  function WithClass(fn: string, cls: string): string {
    if cls != "" then Glue("virtual", Glue(cls, fn)) else fn
  }

  function WithMulticonfig(s: string, mc: string): string {
    if mc != "" then Glue("mc", Glue(mc, s)) else s
  }

  /** realfn2virtual */
  function RealToVirtual(fn: string, cls: string, mc: string): string {
    WithMulticonfig(WithClass(fn, cls), mc)
  }

  /** variant2virtual */
  function VariantToVirtual(fn: string, variant: string): string {
    if variant == "" then fn
    else if IsMulticonfig(variant) then
      var elems := Split(variant);
      if elems[2] != "" then Glue("mc", Glue(elems[1], Glue("virtual", Glue(Join(elems[2..]), fn))))
      else Glue("mc", Glue(elems[1], fn))
    else Glue("virtual", Glue(variant, fn))
  }

  /** The texts that come out. */
  lemma PackedTexts(fn: string, cls: string, mc: string)
    ensures cls == "" && mc == "" ==> RealToVirtual(fn, cls, mc) == fn
    ensures cls != "" && mc == "" ==> RealToVirtual(fn, cls, mc) == "virtual:" + cls + ":" + fn
    ensures cls == "" && mc != "" ==> RealToVirtual(fn, cls, mc) == "mc:" + mc + ":" + fn
    ensures cls != "" && mc != "" ==> RealToVirtual(fn, cls, mc) == "mc:" + mc + ":virtual:" + cls + ":" + fn
  {
    assert "mc" + ":" == "mc:" && "virtual" + ":" == "virtual:";
    assert Glue("virtual", Glue(cls, fn)) == "virtual:" + cls + ":" + fn;
    assert Glue("mc", Glue(mc, fn)) == "mc:" + mc + ":" + fn;
    var inner := "virtual:" + cls + ":" + fn;
    assert Glue("mc", Glue(mc, inner)) == "mc:" + mc + ":" + inner;
    assert "mc:" + mc + ":" + inner == "mc:" + mc + ":virtual:" + cls + ":" + fn;
  }

  lemma KeywordIsHead(s: string, keyword: string)
    requires ':' !in keyword
    ensures HasKeyword(s, keyword) <==> ':' in s && Head(s) == keyword
  {
    HeadAndTail(s);
    if HasKeyword(s, keyword) {
      assert s == Glue(keyword, s[|keyword| + 1..]);
      GlueParts(keyword, s[|keyword| + 1..]);
      GlueColons(keyword, s[|keyword| + 1..]);
    }
  }

  lemma VirtualParts(s: string)
    requires HasKeyword(s, "virtual")
    ensures ':' in s && s == Glue("virtual", Tail(s)) && Split(s) == ["virtual"] + Split(Tail(s))
  {
    KeywordIsHead(s, "virtual");
    HeadAndTail(s);
  }

  lemma MulticonfigParts(s: string)
    requires IsMulticonfig(s)
    ensures s == Glue("mc", Glue(Head(Tail(s)), Tail(Tail(s)))) && |Tail(Tail(s))| < |s|
  {
    KeywordIsHead(s, "mc");
    HeadAndTail(s);
    SomeColon(Tail(s));
    HeadAndTail(Tail(s));
  }

  lemma GluedKeyword(keyword: string, s: string)
    requires ':' !in keyword
    ensures HasKeyword(Glue(keyword, s), keyword) && Head(Glue(keyword, s)) == keyword && Tail(Glue(keyword, s)) == s
  {
    GlueParts(keyword, s);
    GlueColons(keyword, s);
    KeywordIsHead(Glue(keyword, s), keyword);
  }

  // ----- round trips -----

  lemma MulticonfigIsCut(s: string, mc: string)
    requires mc != ""
    ensures ':' !in mc ==> CutMulticonfig(WithMulticonfig(s, mc)) == (mc, s)
    ensures ':' in mc ==> CutMulticonfig(WithMulticonfig(s, mc)).0 != mc
  {
    hide Glue, Head, Tail, Colons, HasKeyword;
    GluedKeyword("mc", Glue(mc, s));
    GlueColons(mc, s);
    GlueColons("mc", Glue(mc, s));
    if ':' !in mc {
      GlueParts(mc, s);
    }
  }

  lemma ClassIsCut(fn: string, cls: string)
    ensures CutVirtual(WithClass(fn, cls)) == (fn, cls) <==>
            if cls != "" then ':' !in fn else !HasKeyword(fn, "virtual")
  {
    hide Glue, Join, Colons, HasKeyword;
    if cls != "" {
      var s := WithClass(fn, cls);
      GluedKeyword("virtual", Glue(cls, fn));
      VirtualParts(s);
      SplitGlue(cls, fn);
      JoinSplit(cls);
      HeadAndTail(fn);
      if ':' !in fn {
        assert Split(s) == ["virtual"] + Split(cls) + [fn];
        assert Split(s)[1..|Split(s)| - 1] == Split(cls);
      }
    } else if HasKeyword(fn, "virtual") {
      VirtualParts(fn);
    }
  }

  lemma CutIsShorter(s: string)
    ensures |CutMulticonfig(s).1| <= |s| && |CutVirtual(s).0| <= |s|
    ensures IsMulticonfig(s) ==> |CutMulticonfig(s).1| < |s|
  {
    hide Glue, Head, Tail, Join, Split;
    if IsMulticonfig(s) {
      MulticonfigParts(s);
    }
    PartsFit(s);
  }

  /** A colon in the wrong place, or a file name that looks like a packed one, is what breaks it. */
  predicate Unambiguous(fn: string, cls: string, mc: string) {
    && ':' !in mc
    && (if cls != "" then ':' !in fn else !HasKeyword(fn, "virtual"))
    && (mc == "" && cls == "" ==> !IsMulticonfig(fn))
  }

  /** Exactly when unpacking undoes packing. */
  lemma RoundTripIff(fn: string, cls: string, mc: string)
    ensures VirtualToReal(RealToVirtual(fn, cls, mc)) == (fn, cls, mc) <==> Unambiguous(fn, cls, mc)
  {
    var s := WithClass(fn, cls);
    ClassIsCut(fn, cls);
    if mc != "" {
      hide CutVirtual, CutMulticonfig, WithClass, HasKeyword, IsMulticonfig, Glue;
      MulticonfigIsCut(s, mc);
    } else if cls != "" {
      GluedKeyword("virtual", Glue(cls, fn));
      KeywordIsHead(s, "mc");
      assert "virtual" != "mc" && !IsMulticonfig(s);
    } else {
      hide CutVirtual, CutMulticonfig, HasKeyword, IsMulticonfig;
      CutIsShorter(s);
      CutIsShorter(CutMulticonfig(s).1);
      NoMulticonfig(s);
    }
  }

  lemma NoMulticonfig(s: string)
    ensures !IsMulticonfig(s) ==> CutMulticonfig(s) == ("", s)
  {}

  /** What the file names and multiconfigs of real recipes satisfy is enough. */
  lemma RoundTrip(fn: string, cls: string, mc: string)
    requires ':' !in fn && ':' !in mc
    ensures VirtualToReal(RealToVirtual(fn, cls, mc)) == (fn, cls, mc)
  {
    RoundTripIff(fn, cls, mc);
    KeywordIsHead(fn, "virtual");
    KeywordIsHead(fn, "mc");
  }

  lemma ClassUncut(s: string)
    ensures var (fn, cls) := CutVirtual(s);
            && |WithClass(fn, cls)| <= |s|
            && (WithClass(fn, cls) == s <==> (HasKeyword(s, "virtual") ==> cls != ""))
  {
    hide Glue, Head, Tail, HasKeyword, Colons;
    if HasKeyword(s, "virtual") {
      VirtualParts(s);
      var parts := Split(Tail(s));
      GlueColons("virtual", Tail(s));
      JoinSplit(Tail(s));
      PartsFit(Tail(s));
      assert Split(s)[1..|Split(s)| - 1] == parts[..|parts| - 1];
      if |parts| > 1 {
        JoinLast(parts);
      }
    }
  }

  lemma EmptyMulticonfig(v: string)
    ensures IsMulticonfig(v) && CutMulticonfig(v).0 == "" <==> StartsWith(v, "mc::")
  {
    if IsMulticonfig(v) {
      MulticonfigParts(v);
      ColonAfterKeyword(Glue(Head(Tail(v)), Tail(Tail(v))));
      ColonAtStart(Head(Tail(v)), Tail(Tail(v)));
    }
    if StartsWith(v, "mc::") {
      StartsTwice(v);
    }
  }

  lemma ColonAfterKeyword(t: string)
    ensures StartsWith(Glue("mc", t), "mc::") <==> StartsWith(t, ":")
  {
    var s := Glue("mc", t);
    assert s[3..] == t && s[..3] == "mc:" && "mc::"[..3] == "mc:" && "mc::"[3] == ':';
    if StartsWith(t, ":") {
      assert s[3] == t[0] == ':';
      assert s[..4] == s[..3] + [s[3]];
    }
  }

  lemma ColonAtStart(a: string, b: string)
    requires ':' !in a
    ensures StartsWith(Glue(a, b), ":") <==> a == ""
  {
    assert a != "" ==> Glue(a, b)[0] == a[0] && a[0] in a;
  }

  lemma StartsTwice(v: string)
    requires StartsWith(v, "mc::")
    ensures IsMulticonfig(v)
  {
    assert v[..3] == v[..4][..3] == "mc:" && v[3] == ':';
    assert v == Glue("mc", v[3..]) && v[3] in v[3..];
    GlueColons("mc", v[3..]);
    GluedKeyword("mc", v[3..]);
    SomeColon(v[3..]);
  }

  /** The text spells out an empty class. */
  predicate SpellsEmptyClass(s: string) {
    (StartsWith(s, "virtual:") && Colons(s) == 1) || (StartsWith(s, "virtual::") && Colons(s) == 2)
  }

  lemma {:induction false} JoinIsEmpty(parts: seq<string>)
    ensures Join(parts) == "" <==> parts == [] || parts == [""]
  {}

  lemma DoubleColon(t: string)
    ensures StartsWith(Glue("virtual", t), "virtual::") <==> StartsWith(t, ":")
  {
    var s := Glue("virtual", t);
    assert s[8..] == t && s[..8] == "virtual:" && "virtual::"[..8] == "virtual:" && "virtual::"[8] == ':';
    if StartsWith(t, ":") {
      assert s[8] == t[0] == ':';
      assert s[..9] == s[..8] + [s[8]];
    }
  }

  lemma TwoColonsIncludeOne(s: string)
    ensures StartsWith(s, "virtual::") ==> HasKeyword(s, "virtual")
    ensures StartsWith(s, "virtual:") <==> HasKeyword(s, "virtual")
  {
    assert "virtual:" == "virtual" + ":" && "virtual::"[..8] == "virtual:";
    assert StartsWith(s, "virtual::") ==> s[..8] == s[..9][..8];
  }

  lemma ClassIsJoined(s: string)
    requires HasKeyword(s, "virtual")
    ensures var parts := Split(Tail(s));
            |parts| == Colons(s) && CutVirtual(s).1 == Join(parts[..|parts| - 1])
  {
    VirtualParts(s);
    CutVirtualIs(s);
    assert |Split(s)| == Colons(s) + 1;
    hide *;
    WithoutEnds("virtual", Split(Tail(s)));
  }

  lemma WithoutEnds<T>(x: T, parts: seq<T>)
    requires parts != []
    ensures ([x] + parts)[1..|[x] + parts| - 1] == parts[..|parts| - 1]
  {}

  lemma CutVirtualIs(s: string)
    requires HasKeyword(s, "virtual")
    ensures |Split(s)| > 1 && CutVirtual(s).1 == Join(Split(s)[1..|Split(s)| - 1])
  {
    VirtualParts(s);
    hide Join, Split, StartsWith, Colons, Head, Tail, Glue;
  }

  lemma ClassInParts(s: string)
    requires HasKeyword(s, "virtual")
    ensures var parts := Split(Tail(s));
            |parts| == Colons(s) && (CutVirtual(s).1 == "" <==> |parts| == 1 || (|parts| == 2 && parts[0] == ""))
  {
    ClassIsJoined(s);
    hide *;
    var parts := Split(Tail(s));
    JoinIsEmpty(parts[..|parts| - 1]);
    assert |parts| == 2 ==> parts[..1] == [parts[0]];
  }

  lemma EmptyClass(s: string)
    ensures HasKeyword(s, "virtual") && CutVirtual(s).1 == "" <==> SpellsEmptyClass(s)
  {
    TwoColonsIncludeOne(s);
    if HasKeyword(s, "virtual") {
      ClassInParts(s);
      VirtualParts(s);
      DoubleColon(Tail(s));
      EmptyHead(Tail(s));
      assert Tail(s) == "" ==> Colons(Tail(s)) == 0;
      hide Glue, Head, Tail, StartsWith, HasKeyword, Split, Colons, CutVirtual;
    }
  }

  /**
    Exactly when packing undoes unpacking: no empty multiconfig is spelled out, and no empty class in
    the text after the multiconfig.
   */
  lemma RepackIff(v: string)
    ensures (var (fn, cls, mc) := VirtualToReal(v); RealToVirtual(fn, cls, mc) == v) <==>
            !StartsWith(v, "mc::") && !SpellsEmptyClass(if IsMulticonfig(v) then Tail(Tail(v)) else v)
  {
    EmptyMulticonfig(v);
    EmptyClass(CutMulticonfig(v).1);
    hide Glue, CutVirtual, WithClass, HasKeyword, Head, Tail, IsMulticonfig, StartsWith, SpellsEmptyClass;
    var (mc, rest) := CutMulticonfig(v);
    var (fn, cls) := CutVirtual(rest);
    ClassUncut(rest);
    if IsMulticonfig(v) {
      MulticonfigParts(v);
      GlueSame(mc, WithClass(fn, cls), rest);
      GlueSame("mc", Glue(mc, WithClass(fn, cls)), Glue(mc, rest));
    }
  }

  lemma VariantParts(cls: string, mc: string)
    requires ':' !in mc
    ensures var variant := Glue("mc", Glue(mc, cls));
            IsMulticonfig(variant) && Split(variant)[1] == mc && Split(variant)[2..] == Split(cls)
  {
    hide Glue, HasKeyword, Head, Tail, Colons;
    GluedKeyword("mc", Glue(mc, cls));
    GlueColons(mc, cls);
    GlueColons("mc", Glue(mc, cls));
    SplitGlue("mc", Glue(mc, cls));
    SplitGlue(mc, cls);
    HeadAndTail(mc);
    HeadAndTail("mc");
    assert Split(mc) == [mc] && Split("mc") == ["mc"];
  }

  lemma EmptyHead(s: string)
    ensures Head(s) == "" <==> s == "" || StartsWith(s, ":")
  {}

  /** Exactly when naming a variant and packing its parts give the same name. */
  lemma VariantIff(fn: string, cls: string, mc: string)
    requires ':' !in mc
    ensures VariantToVirtual(fn, Glue("mc", Glue(mc, cls))) == RealToVirtual(fn, cls, mc) <==>
            mc != "" && !StartsWith(cls, ":")
  {
    var variant := Glue("mc", Glue(mc, cls));
    VariantParts(cls, mc);
    JoinSplit(cls);
    EmptyHead(cls);
    assert variant != "" && Split(variant)[2] == Split(variant)[2..][0] == Head(cls);
    var inner := if Head(cls) != "" then Glue("virtual", Glue(cls, fn)) else fn;
    assert VariantToVirtual(fn, variant) == Glue("mc", Glue(mc, inner));
    hide Split, Join, Head, IsMulticonfig, VariantToVirtual, Glue, StartsWith;
    GlueColons("mc", Glue(mc, inner));
    GlueColons(mc, inner);
    GlueColons("virtual", Glue(cls, fn));
    GlueColons(cls, fn);
    GlueSame(mc, inner, WithClass(fn, cls));
    GlueSame("mc", Glue(mc, inner), Glue(mc, WithClass(fn, cls)));
  }

  /** A variant's own name leads back to its parts. */
  lemma VariantRoundTrip(fn: string, cls: string, mc: string)
    requires ':' !in fn && ':' !in mc && mc != "" && !StartsWith(cls, ":")
    ensures VirtualToReal(VariantToVirtual(fn, Glue("mc", Glue(mc, cls)))) == (fn, cls, mc)
  {
    VariantIff(fn, cls, mc);
    RoundTrip(fn, cls, mc);
  }

  /** A variant that does not look like one with a multiconfig is the class. */
  lemma PlainVariantIff(fn: string, cls: string)
    ensures VariantToVirtual(fn, cls) == RealToVirtual(fn, cls, "") <==> !IsMulticonfig(cls)
  {
    if IsMulticonfig(cls) {
      var v := VariantToVirtual(fn, cls);
      assert v[0] == 'm' && RealToVirtual(fn, cls, "")[0] == 'v';
    }
  }
}
