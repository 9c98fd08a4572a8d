/** The mutators of the datastore, on the flat store. */
module StoreUpdates {
  import opened Wrappers
  import opened Names
  import opened OverrideChoice
  import opened FlatStore

  // ----- the override index -----

  function AddPair(index: Index, v: Name, p: Pair): Index {
    var pairs := if v in index then index[v] else [];
    if p in pairs then index else index[v := pairs + [p]]
  }

  /** The insertion loop, from the split before component `k` leftwards. */
  function AddSplits(index: Index, x: Name, k: nat): Index
    requires 1 <= k < |x|
    decreases k
  {
    if !IsOverrideComp(x[k]) then index
    else
      var index' := AddPair(index, x[..k], Pair(x, x[k..]));
      if k == 1 || x[..k - 1] == [""] then index' else AddSplits(index', x, k - 1)
  }

  /**
    `_setvar_update_overrides`.  `rfind` returns -1 for a name without a colon: the override
    is then the whole name and the short name is the name without its last character.
   */
  function UpdateIndex(index: Index, x: Name): Index
    requires x != []
  {
    if |x| > 1 then AddSplits(index, x, |x| - 1)
    else if IsOverrideComp(x[0]) then AddPair(index, [x[0][..|x[0]| - 1]], Pair(x, x))
    else index
  }

  /** `list.remove`: the first occurrence goes. */
  function RemoveFirst(pairs: seq<Pair>, p: Pair): (r: seq<Pair>)
    ensures forall q <- r :: q in pairs
  {
    if pairs == [] then []
    else if pairs[0] == p then pairs[1..]
    else [pairs[0]] + RemoveFirst(pairs[1..], p)
  }

  /** The removal loop of `delVar`, over the same splits. */
  function RemoveSplits(index: Index, x: Name, k: nat): Index
    requires 1 <= k < |x|
    decreases k
  {
    if !IsOverrideComp(x[k]) then index
    else
      var v := x[..k];
      var index' := if v in index then index[v := RemoveFirst(index[v], Pair(x, x[k..]))] else index;
      if k == 1 || x[..k - 1] == [""] then index' else RemoveSplits(index', x, k - 1)
  }

  function DropFromIndex(index: Index, x: Name): Index {
    if |x| > 1 then RemoveSplits(index - {x}, x, |x| - 1) else index - {x}
  }

  // ----- variables -----

  function DelVar(st: Store, x: Name): Store {
    Store(st.vars - {x}, DropFromIndex(st.index, x))
  }

  function DelAll(st: Store, xs: seq<Name>): Store
    decreases |xs|
  {
    if xs == [] then st else DelAll(DelVar(st, xs[0]), xs[1..])
  }

  function ActiveFulls(pairs: seq<Pair>, ovs: seq<Comp>): seq<Name> {
    if pairs == [] then []
    else
      var last := pairs[|pairs| - 1];
      ActiveFulls(pairs[..|pairs| - 1], ovs) + if IsActive(last.over, ovs) then [last.full] else []
  }

  /** A plain assignment deletes the active variants and forgets the others. */
  function ClearVariants(st: Store, x: Name): Store {
    if x in st.index then
      var st' := DelAll(st, ActiveFulls(st.index[x], Overrides(st)));
      st'.(index := st'.index - {x})
    else st
  }

  function AddOp(e: Entry, kind: Kind, op: Op): Entry
    requires !kind.Remove?
  {
    if kind.Append? then e.(append := e.append + [op]) else e.(prepend := e.prepend + [op])
  }

  function Defer(st: Store, kw: Keyword, value: Text): Store
    requires kw.base != [] && !kw.kind.Remove?
  {
    var e := AddOp(Get(st, kw.base), kw.kind, Op(value, kw.over));
    Put(st.(index := UpdateIndex(st.index, kw.base)), kw.base, e)
  }

  function Assign(st: Store, x: Name, value: Text, parsing: bool): Store
    requires x != []
  {
    var e := Get(st, x);
    var kept := if parsing then e else e.(append := [], prepend := []);
    var st' := if parsing then st else ClearVariants(st, x);
    var index := if |x| > 1 then UpdateIndex(st'.index, x) else st'.index;
    Put(st'.(index := index), x, kept.(content := Some(value)))
  }

  /** Names that `setVar` accepts here: not in the old syntax, and not a `:remove`. */
  predicate CanSet(x: Name) {
    && x != []
    && !OldSyntax(x)
    && (ParseKeyword(x).Some? ==> !ParseKeyword(x).value.kind.Remove?)
  }

  lemma {:induction false} KeywordBase(x: Name, i: nat)
    requires 1 <= i
    ensures KeywordFrom(x, i).Some? ==>
              1 <= |KeywordFrom(x, i).value.base| < |x| && KeywordFrom(x, i).value.base <= x
    decreases |x| - i
  {
    if i < |x| {
      KeywordBase(x, i + 1);
    }
  }

  function SetVar(st: Store, x: Name, value: Text, parsing: bool): Store
    requires CanSet(x)
  {
    var kw := ParseKeyword(x);
    KeywordBase(x, 1);
    if kw.Some? then Defer(st, kw.value, value) else Assign(st, x, value, parsing)
  }

  // ----- flags -----

  function WithFlag(e: Entry, flag: string, value: Text): Entry {
    if flag == "_content" then e.(content := Some(value)) else e.(flags := e.flags[flag := value])
  }

  function SetFlag(st: Store, x: Name, flag: string, value: Text): Store
    requires x != []
  {
    var index := if flag == "_defaultval" && |x| > 1 then UpdateIndex(st.index, x) else st.index;
    Put(st.(index := index), x, WithFlag(Get(st, x), flag, value))
  }

  function HasFlag(e: Entry, flag: string): bool {
    match flag
    case "_content" => e.content.Some?
    case ":append" => e.append != []
    case ":prepend" => e.prepend != []
    case _ => flag in e.flags
  }

  /** A flag takes its weak default with it, but only when the flag itself was there. */
  function WithoutFlag(e: Entry, flag: string): Entry {
    if !HasFlag(e, flag) then e
    else
      var e' := match flag
        case "_content" => e.(content := None)
        case ":append" => e.(append := [])
        case ":prepend" => e.(prepend := [])
        case _ => e.(flags := e.flags - {flag});
      e'.(flags := e'.flags - {"_defaultval_flag_" + flag})
  }

  function DelFlag(st: Store, x: Name, flag: string): Store {
    Put(st, x, WithoutFlag(Get(st, x), flag))
  }

  // ----- what the mutators keep -----

  /** The variable whose entry an assignment to `x` changes. */
  function Target(x: Name): (r: Name)
    requires x != []
    ensures r != []
  {
    var kw := ParseKeyword(x);
    KeywordBase(x, 1);
    if kw.Some? then kw.value.base else x
  }

  /** Assignments that keep OVERRIDES and FILE free of references, conditions and variants. */
  predicate Careful(x: Name, value: Text)
    requires CanSet(x)
  {
    var kw := ParseKeyword(x);
    && (Target(x)[0] == "OVERRIDES" ==> Target(x) == OVERRIDES)
    && (Target(x) == OVERRIDES || Target(x) == FILE ==> Literal(value))
    && (Target(x) == OVERRIDES && kw.Some? ==> kw.value.over == [])
  }

  lemma AddPairKeeps(index: Index, v: Name, p: Pair)
    requires WellIndexed(index)
    requires v != OVERRIDES && p.over != [] && p.full != OVERRIDES && TextLength(p.full) > TextLength(v)
    ensures WellIndexed(AddPair(index, v, p))
  {}

  lemma {:induction false} AddSplitsKeeps(index: Index, x: Name, k: nat)
    requires WellIndexed(index) && 1 <= k < |x| && x[0] != "OVERRIDES"
    ensures WellIndexed(AddSplits(index, x, k))
    decreases k
  {
    if IsOverrideComp(x[k]) {
      assert x == x[..k] + x[k..];
      TextLengthConcat(x[..k], x[k..]);
      var index' := AddPair(index, x[..k], Pair(x, x[k..]));
      AddPairKeeps(index, x[..k], Pair(x, x[k..]));
      if k > 1 && x[..k - 1] != [""] {
        AddSplitsKeeps(index', x, k - 1);
      }
    }
  }

  lemma UpdateIndexKeeps(index: Index, x: Name)
    requires WellIndexed(index) && x != [] && (x[0] != "OVERRIDES" || x == OVERRIDES)
    ensures WellIndexed(UpdateIndex(index, x))
  {
    if |x| > 1 {
      AddSplitsKeeps(index, x, |x| - 1);
    } else if IsOverrideComp(x[0]) {
      var short := x[0][..|x[0]| - 1];
      assert short != "" ==> short[0] == x[0][0];
      var shortened: Name := [short];
      assert shortened[1..] == [] && x[1..] == [];
      assert TextLength(shortened) == |short| + 1 && TextLength(x) == |x[0]| + 1;
      AddPairKeeps(index, [short], Pair(x, x));
    }
  }

  lemma {:induction false} RemoveSplitsKeeps(index: Index, x: Name, k: nat)
    requires WellIndexed(index) && 1 <= k < |x|
    ensures WellIndexed(RemoveSplits(index, x, k))
    ensures RemoveSplits(index, x, k).Keys == index.Keys
    decreases k
  {
    if IsOverrideComp(x[k]) {
      var v := x[..k];
      var index' := if v in index then index[v := RemoveFirst(index[v], Pair(x, x[k..]))] else index;
      if k > 1 && x[..k - 1] != [""] {
        RemoveSplitsKeeps(index', x, k - 1);
      }
    }
  }

  lemma DropFromIndexKeeps(index: Index, x: Name)
    requires WellIndexed(index)
    ensures WellIndexed(DropFromIndex(index, x))
    ensures DropFromIndex(index, x).Keys == index.Keys - {x}
  {
    if |x| > 1 {
      RemoveSplitsKeeps(index - {x}, x, |x| - 1);
    }
  }

  lemma DelVarKeeps(st: Store, x: Name)
    requires Sound(st)
    ensures Sound(DelVar(st, x))
    ensures Overrides(DelVar(st, x)) == if x == OVERRIDES then [""] else Overrides(st)
    ensures x != OVERRIDES ==> Get(DelVar(st, x), OVERRIDES) == Get(st, OVERRIDES)
  {
    DropFromIndexKeeps(st.index, x);
  }

  lemma {:induction false} DelAllKeeps(st: Store, xs: seq<Name>)
    requires Sound(st) && OVERRIDES !in xs
    ensures Sound(DelAll(st, xs)) && Overrides(DelAll(st, xs)) == Overrides(st)
    ensures Get(DelAll(st, xs), OVERRIDES) == Get(st, OVERRIDES)
    decreases |xs|
  {
    if xs != [] {
      DelVarKeeps(st, xs[0]);
      DelAllKeeps(DelVar(st, xs[0]), xs[1..]);
    }
  }

  lemma {:induction false} ActiveFullsFrom(pairs: seq<Pair>, ovs: seq<Comp>)
    ensures forall a :: a in ActiveFulls(pairs, ovs) <==> exists p <- pairs :: p.full == a && IsActive(p.over, ovs)
  {
    if pairs != [] {
      var init, last := pairs[..|pairs| - 1], pairs[|pairs| - 1];
      ActiveFullsFrom(init, ovs);
      assert pairs == init + [last];
    }
  }

  lemma ClearVariantsKeeps(st: Store, x: Name)
    requires Sound(st)
    ensures Sound(ClearVariants(st, x)) && Overrides(ClearVariants(st, x)) == Overrides(st)
    ensures Get(ClearVariants(st, x), OVERRIDES) == Get(st, OVERRIDES)
  {
    if x in st.index {
      var xs := ActiveFulls(st.index[x], Overrides(st));
      ActiveFullsFrom(st.index[x], Overrides(st));
      DelAllKeeps(st, xs);
    }
  }

  lemma PutKeeps(st: Store, x: Name, e: Entry)
    requires Sound(st) && (x == OVERRIDES ==> PlainOverrides(e))
    ensures Sound(Put(st, x, e))
    ensures x != OVERRIDES ==> Overrides(Put(st, x, e)) == Overrides(st)
  {}

  lemma DeferKeeps(st: Store, kw: Keyword, value: Text)
    requires Sound(st) && kw.base != [] && !kw.kind.Remove?
    requires kw.base[0] == "OVERRIDES" ==> kw.base == OVERRIDES && kw.over == [] && Literal(value)
    ensures Sound(Defer(st, kw, value))
    ensures kw.base != OVERRIDES ==> Overrides(Defer(st, kw, value)) == Overrides(st)
  {
    UpdateIndexKeeps(st.index, kw.base);
  }

  lemma AssignKeeps(st: Store, x: Name, value: Text, parsing: bool)
    requires Sound(st) && x != []
    requires x[0] == "OVERRIDES" ==> x == OVERRIDES && Literal(value)
    ensures Sound(Assign(st, x, value, parsing))
    ensures x != OVERRIDES ==> Overrides(Assign(st, x, value, parsing)) == Overrides(st)
  {
    ClearVariantsKeeps(st, x);
    var st' := if parsing then st else ClearVariants(st, x);
    UpdateIndexKeeps(st'.index, x);
    var e := Get(st, x);
    var kept := if parsing then e else e.(append := [], prepend := []);
    var index := if |x| > 1 then UpdateIndex(st'.index, x) else st'.index;
    PutKeeps(st'.(index := index), x, kept.(content := Some(value)));
  }

  /** An assignment to another variable leaves OVERRIDES alone; one to OVERRIDES keeps it plain. */
  lemma SetVarKeeps(st: Store, x: Name, value: Text, parsing: bool)
    requires Sound(st) && CanSet(x) && Careful(x, value)
    ensures Sound(SetVar(st, x, value, parsing))
    ensures Target(x) != OVERRIDES ==> Overrides(SetVar(st, x, value, parsing)) == Overrides(st)
  {
    var kw := ParseKeyword(x);
    KeywordBase(x, 1);
    if kw.Some? {
      DeferKeeps(st, kw.value, value);
    } else {
      AssignKeeps(st, x, value, parsing);
    }
  }

  /** Flags that may be set at all: operations are lists, and OVERRIDES has no variants. */
  predicate CanSetFlag(x: Name, flag: string, value: Text) {
    && x != []
    && flag !in {":append", ":prepend", ":remove"}
    && (flag == "_defaultval" && x[0] == "OVERRIDES" ==> x == OVERRIDES)
    && (flag == "_defaultval" && (x == OVERRIDES || x == FILE) ==> Literal(value))
  }

  /** Those that do not give OVERRIDES a value which `setVarFlag` fails to notice. */
  predicate CarefulFlag(x: Name, flag: string, value: Text) {
    CanSetFlag(x, flag, value) && (x == OVERRIDES ==> flag !in {"_content", "_defaultval_flag__content"})
  }

  lemma SetFlagKeeps(st: Store, x: Name, flag: string, value: Text)
    requires Sound(st) && CanSetFlag(x, flag, value)
    ensures Sound(SetFlag(st, x, flag, value)) <==> PlainOverrides(Get(SetFlag(st, x, flag, value), OVERRIDES))
    ensures x != OVERRIDES ==>
              Sound(SetFlag(st, x, flag, value)) && Overrides(SetFlag(st, x, flag, value)) == Overrides(st)
  {
    hide SplitValue;
    if flag == "_defaultval" && |x| > 1 {
      UpdateIndexKeeps(st.index, x);
    }
  }

  lemma CarefulFlagKeeps(st: Store, x: Name, flag: string, value: Text)
    requires Sound(st) && CarefulFlag(x, flag, value)
    ensures Sound(SetFlag(st, x, flag, value))
    ensures x != OVERRIDES || flag != "_defaultval" ==> Overrides(SetFlag(st, x, flag, value)) == Overrides(st)
  {
    hide SplitValue;
    SetFlagKeeps(st, x, flag, value);
    if x == OVERRIDES {
      var e, e' := Get(st, x), WithFlag(Get(st, x), flag, value);
      assert "_defaultval_flag_" + "_content" == "_defaultval_flag__content";
      assert FlagValue(e', "_content", true) == FlagValue(e, "_content", true) || flag == "_defaultval";
    }
  }

  lemma DelFlagKeeps(st: Store, x: Name, flag: string)
    requires Sound(st)
    ensures x != OVERRIDES ==> Sound(DelFlag(st, x, flag)) && Overrides(DelFlag(st, x, flag)) == Overrides(st)
    ensures Sound(DelFlag(st, x, flag)) <==> PlainOverrides(Get(DelFlag(st, x, flag), OVERRIDES))
  {}

  // ----- the order in which setVar works -----

  lemma {:induction false} DelAllPut(st: Store, x: Name, e: Entry, xs: seq<Name>)
    requires x !in xs
    ensures DelAll(Put(st, x, e), xs) == Put(DelAll(st, xs), x, e)
    decreases |xs|
  {
    if xs != [] {
      var y := xs[0];
      assert DelVar(Put(st, x, e), y).vars == Put(DelVar(st, y), x, e).vars;
      assert DelVar(Put(st, x, e), y) == Put(DelVar(st, y), x, e);
      DelAllPut(DelVar(st, y), x, e, xs[1..]);
    }
  }

  /** First step: the variable's own operations go, then its variants. */
  function Cleared(st: Store, x: Name): Store {
    ClearVariants(Put(st, x, Get(st, x).(append := [], prepend := [])), x)
  }

  /** Second step: the variable is listed as a variant itself, and gets its value. */
  function WithContent(st: Store, x: Name, value: Text): Store
    requires x != []
  {
    var index := if |x| > 1 then UpdateIndex(st.index, x) else st.index;
    Put(st.(index := index), x, Get(st, x).(content := Some(value)))
  }

  lemma OverridesKept(st: Store, x: Name, e: Entry)
    ensures x != OVERRIDES ==> Overrides(Put(st, x, e)) == Overrides(st)
  {}

  lemma ClearVariantsPut(st: Store, x: Name, e: Entry)
    requires Sound(st)
    ensures ClearVariants(Put(st, x, e), x) == Put(ClearVariants(st, x), x, e)
    ensures Get(ClearVariants(Put(st, x, e), x), x) == e
  {
    OverridesKept(st, x, e);
    if x in st.index {
      var xs := ActiveFulls(st.index[x], Overrides(st));
      ActiveFullsFrom(st.index[x], Overrides(st));
      hide Overrides, ActiveFulls, DelAll, Sound;
      DelAllPut(st, x, e, xs);
    }
  }

  lemma AssignInSteps(st: Store, x: Name, value: Text)
    requires Sound(st) && x != []
    ensures Assign(st, x, value, false) == WithContent(Cleared(st, x), x, value)
    ensures Assign(st, x, value, true) == WithContent(st, x, value)
  {
    var kept := Get(st, x).(append := [], prepend := []);
    hide ClearVariants, Sound, UpdateIndex;
    ClearVariantsPut(st, x, kept);
  }

  lemma ClearedKeeps(st: Store, x: Name)
    requires Sound(st)
    ensures var mid := Put(st, x, Get(st, x).(append := [], prepend := []));
            Sound(mid) && (x != OVERRIDES ==> Overrides(mid) == Overrides(st))
    ensures Sound(Cleared(st, x))
    ensures OVERRIDES !in st.index
  {
    var mid := Put(st, x, Get(st, x).(append := [], prepend := []));
    PutKeeps(st, x, Get(st, x).(append := [], prepend := []));
    ClearVariantsKeeps(mid, x);
  }

  lemma WithContentKeeps(st: Store, x: Name, value: Text)
    requires Sound(st) && x != [] && (x[0] == "OVERRIDES" ==> x == OVERRIDES && Literal(value))
    ensures Sound(WithContent(st, x, value))
    ensures x != OVERRIDES ==>
              Overrides(WithContent(st, x, value)) == Overrides(st) &&
              Get(WithContent(st, x, value), OVERRIDES) == Get(st, OVERRIDES)
  {
    UpdateIndexKeeps(st.index, x);
    var index := if |x| > 1 then UpdateIndex(st.index, x) else st.index;
    PutKeeps(st.(index := index), x, Get(st, x).(content := Some(value)));
  }
}
