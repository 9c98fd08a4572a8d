/** What each write makes of later reads, of the variable itself and of all others. */
module WriteLaws {
  import opened Wrappers
  import ColonText
  import opened Names
  import opened OverrideChoice
  import opened FlatStore
  import opened StoreUpdates
  import Laws = StoreLaws

  /** The two stores hold the same for every variable but `x`. */
  ghost predicate SameOthers(st: Store, st': Store, x: Name) {
    forall y :: y != x ==> Get(st', y) == Get(st, y)
  }

  // ----- flags -----

  lemma IndexStaysWell(st: Store, x: Name, flag: string, value: Text)
    requires Sound(st) && CanSetFlag(x, flag, value)
    ensures WellIndexed(SetFlag(st, x, flag, value).index)
  {
    if flag == "_defaultval" && |x| > 1 {
      UpdateIndexKeeps(st.index, x);
    }
  }

  /** A flag that was set reads as its value; every other flag and all other variables stay as they were. */
  lemma SetFlagThenRead(st: Store, x: Name, flag: string, value: Text, weak: bool, parsing: bool)
    requires Sound(st) && CanSetFlag(x, flag, value)
    ensures WellIndexed(SetFlag(st, x, flag, value).index)
    ensures flag != "" && (flag != "_content" || parsing) ==>
              RawFlag(SetFlag(st, x, flag, value), x, flag, weak, parsing) == Some(value)
    ensures var was, now := Get(st, x), Get(SetFlag(st, x, flag, value), x);
            && now.append == was.append && now.prepend == was.prepend
            && (flag != "_content" ==> now.content == was.content)
            && forall g :: g != flag || flag == "_content" ==>
                 (g in now.flags <==> g in was.flags) && (g in was.flags ==> now.flags[g] == was.flags[g])
    ensures SameOthers(st, SetFlag(st, x, flag, value), x)
  {
    IndexStaysWell(st, x, flag, value);
    hide Sound, UpdateIndex, Raw;
  }

  /** A weak default is read while the flag itself has no value, unless the reader wants none. */
  lemma WeakDefault(st: Store, x: Name, flag: string, value: Text, weak: bool, parsing: bool)
    requires Sound(st) && x != [] && flag !in {"", "_content"} && flag !in Get(st, x).flags
    ensures WellIndexed(SetFlag(st, x, "_defaultval_flag_" + flag, value).index)
    ensures RawFlag(SetFlag(st, x, "_defaultval_flag_" + flag, value), x, flag, weak, parsing) == if weak then Some(value) else None
  {
    var d := "_defaultval_flag_" + flag;
    assert |d| > |"_defaultval"| && |d| > |flag|;
    hide Sound, UpdateIndex, Raw;
  }

  /** The same for the variable's own value. */
  lemma WeakValue(st: Store, x: Name, value: Text, weak: bool)
    requires Sound(st) && CanSetFlag(x, "_defaultval", value)
    requires Get(st, x).content.None? && "_defaultval_flag__content" !in Get(st, x).flags
    ensures WellIndexed(SetFlag(st, x, "_defaultval", value).index)
    ensures RawFlag(SetFlag(st, x, "_defaultval", value), x, "_content", weak, true) == if weak then Some(value) else None
  {
    IndexStaysWell(st, x, "_defaultval", value);
    assert "_defaultval_flag_" + "_content" == "_defaultval_flag__content";
    assert |"_defaultval_flag__content"| != |"_defaultval"|;
    hide Sound, UpdateIndex, Raw;
  }

  /** A value hides its weak default. */
  lemma ValueHidesDefault(st: Store, x: Name, weak: bool)
    requires WellIndexed(st.index) && Get(st, x).content.Some?
    ensures RawFlag(st, x, "_content", weak, true) == Get(st, x).content
  {}

  /** A deleted flag has no value, and its weak default goes with it; without it nothing changes. */
  lemma DelFlagThenRead(st: Store, x: Name, flag: string, weak: bool, parsing: bool)
    requires Sound(st) && flag !in {"", "_content", ":append", ":prepend"}
    ensures DelFlag(st, x, flag).index == st.index && SameOthers(st, DelFlag(st, x, flag), x)
    ensures RawFlag(DelFlag(st, x, flag), x, flag, weak, parsing) ==
            if flag in Get(st, x).flags then None else RawFlag(st, x, flag, weak, parsing)
    ensures var was, now := Get(st, x), Get(DelFlag(st, x, flag), x);
            && now.content == was.content && now.append == was.append && now.prepend == was.prepend
            && forall g :: g != flag && g != "_defaultval_flag_" + flag ==>
                 (g in now.flags <==> g in was.flags) && (g in was.flags ==> now.flags[g] == was.flags[g])
  {
    assert |"_defaultval_flag_" + flag| > |flag|;
    hide Sound, Raw;
  }

  /** Deleting the value leaves its weak default; deleting operations leaves the value. */
  lemma DelSpecialFlags(st: Store, x: Name)
    ensures Get(DelFlag(st, x, ":append"), x).append == [] == Get(DelFlag(st, x, ":prepend"), x).prepend
    ensures Get(DelFlag(st, x, ":append"), x).content == Get(DelFlag(st, x, ":prepend"), x).content == Get(st, x).content
    ensures Get(DelFlag(st, x, ":append"), x).prepend == Get(st, x).prepend
    ensures Get(DelFlag(st, x, ":prepend"), x).append == Get(st, x).append
    ensures var now := Get(DelFlag(st, x, "_content"), x);
            && now.content == None && now.append == Get(st, x).append && now.prepend == Get(st, x).prepend
            && ("_defaultval" in now.flags <==> "_defaultval" in Get(st, x).flags)
  {
    assert |"_defaultval_flag_" + "_content"| > |"_defaultval"|;
  }

  // ----- deleting a variable -----

  /** A deleted variable has no value and no flag, and no variant; all others stay as they were. */
  lemma DelVarThenRead(st: Store, x: Name, flag: string, weak: bool, parsing: bool)
    requires Sound(st)
    ensures Sound(DelVar(st, x)) && RawFlag(DelVar(st, x), x, flag, weak, parsing) == None
    ensures SameOthers(st, DelVar(st, x), x) && x !in DelVar(st, x).index
  {
    DelVarKeeps(st, x);
    if |x| > 1 {
      RemovedStaysOut(st.index - {x}, x, |x| - 1);
    }
    assert Get(DelVar(st, x), x) == NOTHING && x !in DelVar(st, x).index;
    hide Sound, DropFromIndex, Overrides;
  }

  /** And no list mentions it any more; all other pairs stay where they were. */
  lemma DelVarUnlists(st: Store, x: Name, v: Name, p: Pair)
    requires Laws.IndexOk(st.index)
    ensures Laws.Listed(DelVar(st, x).index, v, p) <==> v != x && Laws.Listed(st.index, v, p) && p.full != x
  {
    Laws.DropFromIndexExact(st.index, x);
  }

  lemma {:induction false} RemovedStaysOut(index: Index, x: Name, k: nat)
    requires 1 <= k < |x|
    ensures RemoveSplits(index, x, k).Keys == index.Keys
    decreases k
  {
    var v := x[..k];
    var index' := if v in index then index[v := RemoveFirst(index[v], Pair(x, x[k..]))] else index;
    if k > 1 {
      RemovedStaysOut(index', x, k - 1);
    }
  }

  // ----- assignments -----

  /** `y` is a variant of `x` whose components are all in OVERRIDES. */
  ghost predicate IsActiveVariant(st: Store, x: Name, y: Name) {
    x in st.index && exists p <- st.index[x] :: p.full == y && forall c <- p.over :: c in Overrides(st)
  }

  lemma {:induction false} ActiveFullsAre(pairs: seq<Pair>, ovs: seq<Comp>, y: Name)
    ensures y in ActiveFulls(pairs, ovs) <==> exists p <- pairs :: p.full == y && forall c <- p.over :: c in ovs
  {
    if pairs != [] {
      var init, last := pairs[..|pairs| - 1], pairs[|pairs| - 1];
      ActiveFullsAre(init, ovs, y);
      assert pairs == init + [last];
    }
  }

  lemma {:induction false} DelAllIs(st: Store, xs: seq<Name>, y: Name)
    ensures Get(DelAll(st, xs), y) == if y in xs then NOTHING else Get(st, y)
    decreases |xs|
  {
    if xs != [] {
      DelAllIs(DelVar(st, xs[0]), xs[1..], y);
      assert y in xs <==> y == xs[0] || y in xs[1..];
    }
  }

  /**
    A plain assignment deletes exactly the active variants of the variable. The variable keeps its flags
    and loses its operations; everything else stays as it was.
   */
  lemma AssignDeletesActive(st: Store, x: Name, value: Text, y: Name)
    requires Sound(st) && CanSet(x) && ParseKeyword(x).None?
    ensures var st' := SetVar(st, x, value, false);
            Get(st', y) == if y == x then Entry(Some(value), [], [], Get(st, x).flags)
                           else if IsActiveVariant(st, x, y) then NOTHING else Get(st, y)
  {
    if x in st.index {
      ActiveFullsAre(st.index[x], Overrides(st), y);
      DelAllIs(st, ActiveFulls(st.index[x], Overrides(st)), y);
    }
    hide Overrides, UpdateIndex, ActiveFulls, DelAll, Sound;
  }

  /** An assignment while parsing only sets the value. */
  lemma AssignWhileParsing(st: Store, x: Name, value: Text)
    requires CanSet(x) && ParseKeyword(x).None?
    ensures var st' := SetVar(st, x, value, true);
            && Get(st', x) == Get(st, x).(content := Some(value)) && SameOthers(st, st', x)
            && st'.index == if |x| > 1 then UpdateIndex(st.index, x) else st.index
  {
    hide UpdateIndex;
  }

  /** After an assignment the variable is listed as a variant at each of its splits. */
  lemma AssignLists(st: Store, x: Name, value: Text, parsing: bool, v: Name, p: Pair)
    requires CanSet(x) && ParseKeyword(x).None? && |x| > 1 && Laws.IndexOk(st.index)
    ensures Laws.IsVariant(v, p) && p.full == x ==> Laws.Listed(SetVar(st, x, value, parsing).index, v, p)
  {
    var st' := if parsing then st else ClearVariants(st, x);
    if !parsing && x in st.index {
      Laws.DelAllIndexOk(st, ActiveFulls(st.index[x], Overrides(st)));
    }
    Laws.UpdateIndexOk(st'.index, x);
    hide UpdateIndex, ClearVariants, Overrides;
  }

  // ----- reading through a variant -----

  /** The value of the chosen variant is read in place of the variable's own. */
  lemma VariantReplacesValue(st: Store, x: Name, weak: bool, p: Pair)
    requires Sound(st) && x in st.index && Winner(st.index[x], Overrides(st)) == Some(p.full)
    requires Raw(st, p.full, true).Some? && Get(st, x).append == [] == Get(st, x).prepend
    ensures Raw(st, x, weak) == Raw(st, p.full, true)
  {
    hide Overrides, Winner;
  }

  /** A variable that is no variant's base, without operations, reads as its value or its weak default. */
  lemma PlainValue(st: Store, x: Name, weak: bool)
    requires Sound(st) && x !in st.index && Get(st, x).append == [] == Get(st, x).prepend
    ensures Raw(st, x, weak) == RawFlag(st, x, "_content", weak, true)
  {
    hide Overrides, Winner;
  }

  // ----- OVERRIDES -----

  /** The overrides are the text of OVERRIDES, cut at its colons. */
  lemma OverridesAreTheText(st: Store)
    requires Sound(st) && OverridesText(st).Some? && Literal(OverridesText(st).value)
    ensures var s, t := ColonText.Join(Overrides(st)), OverridesText(st).value;
            |s| == |t| && forall i :: 0 <= i < |t| ==> t[i] == Lit(s[i])
    ensures forall c <- Overrides(st) :: ':' !in c
  {
    var t := OverridesText(st).value;
    LettersSpell(t);
    ColonText.JoinSplit(Letters(t));
    hide Letters, ColonText.Split, ColonText.Join, OverridesText;
  }

  lemma {:induction false} LettersSpell(t: Text)
    requires Literal(t)
    ensures |Letters(t)| == |t| && forall i :: 0 <= i < |t| ==> t[i] == Lit(Letters(t)[i])
  {
    if t != [] {
      assert t[0] in t && forall tok <- t[1..] :: tok in t;
      LettersSpell(t[1..]);
    }
  }

  /** Without a value there is one empty override. */
  lemma NoOverrides(st: Store)
    requires OverridesText(st).None?
    ensures Overrides(st) == [""]
  {}
}
