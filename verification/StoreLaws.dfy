/** Laws of the datastore's mutators: the override index, and what is read after a write. */
module StoreLaws {
  import opened Wrappers
  import opened Names
  import opened OverrideChoice
  import opened FlatStore
  import opened StoreUpdates

  // ----- the shape of the override index -----

  /** The split of `x` before component `k` is one that the insertion loop reaches. */
  predicate IsSplit(x: Name, k: nat) {
    && 1 <= k < |x|
    && (forall j :: k <= j < |x| ==> IsOverrideComp(x[j]))
    && (k == 1 && |x| > 2 ==> x[0] != "")
  }

  predicate IsVariant(v: Name, p: Pair) {
    && |v| < |p.full|
    && IsSplit(p.full, |v|)
    && p.full == v + p.over
  }

  /** Every listed pair `[r, o]` of `v` has `r = v:o`, and no list has duplicates. */
  ghost predicate IndexOk(index: Index) {
    forall v <- index :: Distinct(index[v]) && forall p <- index[v] :: IsVariant(v, p)
  }

  ghost predicate Listed(index: Index, v: Name, p: Pair) {
    v in index && p in index[v]
  }

  lemma AddPairOk(index: Index, v: Name, p: Pair)
    requires IndexOk(index)
    ensures IndexOk(AddPair(index, v, p)) <==> IsVariant(v, p)
    ensures forall w, q :: Listed(AddPair(index, v, p), w, q) <==> Listed(index, w, q) || (w == v && q == p)
  {
    var index' := AddPair(index, v, p);
    assert Listed(index', v, p);
  }

  lemma VariantsAreSplits(x: Name)
    ensures forall v: Name, p: Pair :: p.full == x && IsVariant(v, p) ==>
              v == x[..|v|] && p == Pair(x, x[|v|..]) && IsOverrideComp(x[|v|])
  {
    forall v: Name, p: Pair | p.full == x && IsVariant(v, p)
      ensures v == x[..|v|] && p == Pair(x, x[|v|..]) && IsOverrideComp(x[|v|])
    {
      assert (v + p.over)[..|v|] == v && (v + p.over)[|v|..] == p.over;
    }
  }

  /** The insertion loop adds exactly the pairs of the reachable splits at `k` or before. */
  lemma {:induction false} AddSplitsExact(index: Index, x: Name, k: nat)
    requires IndexOk(index) && 1 <= k < |x|
    requires forall j :: k < j < |x| ==> IsOverrideComp(x[j])
    requires k == 1 && |x| > 2 ==> x[0] != ""
    ensures IndexOk(AddSplits(index, x, k))
    ensures forall v, p :: Listed(AddSplits(index, x, k), v, p) <==>
              Listed(index, v, p) || (p.full == x && IsVariant(v, p) && |v| <= k)
    decreases k
  {
    VariantsAreSplits(x);
    hide AddPair, IndexOk;
    if IsOverrideComp(x[k]) {
      var pair := Pair(x, x[k..]);
      assert x == x[..k] + x[k..] && IsVariant(x[..k], pair);
      AddPairOk(index, x[..k], pair);
      if k > 1 && x[..k - 1] != [""] {
        assert k - 1 == 1 ==> x[..1] == [x[0]];
        AddSplitsExact(AddPair(index, x[..k], pair), x, k - 1);
      }
    }
  }

  /** Names for which `_setvar_update_overrides` cuts off a character instead of a suffix. */
  predicate Unqualified(x: Name) {
    |x| == 1 && IsOverrideComp(x[0])
  }

  /** The index keeps its shape exactly when the name is not a bare lower-case one. */
  lemma UpdateIndexOk(index: Index, x: Name)
    requires IndexOk(index) && x != []
    ensures IndexOk(UpdateIndex(index, x)) <==> !Unqualified(x)
    ensures !Unqualified(x) ==> forall v, p :: Listed(UpdateIndex(index, x), v, p) <==>
              Listed(index, v, p) || (p.full == x && IsVariant(v, p))
  {
    if |x| > 1 {
      AddSplitsExact(index, x, |x| - 1);
    } else if IsOverrideComp(x[0]) {
      AddPairOk(index, [x[0][..|x[0]| - 1]], Pair(x, x));
    }
  }

  lemma {:induction false} RemoveFirstDistinct(pairs: seq<Pair>, p: Pair)
    requires Distinct(pairs)
    ensures Distinct(RemoveFirst(pairs, p))
    ensures forall q :: q in RemoveFirst(pairs, p) <==> q in pairs && q != p
  {
    if pairs != [] {
      RemoveFirstDistinct(pairs[1..], p);
      assert pairs == [pairs[0]] + pairs[1..];
      assert pairs[0] !in pairs[1..];
    }
  }

  /** The removal loop reaches every split at which `x` can be listed. */
  lemma {:induction false} RemoveSplitsExact(index: Index, x: Name, k: nat)
    requires IndexOk(index) && 1 <= k < |x|
    requires forall j :: k < j < |x| ==> IsOverrideComp(x[j])
    requires forall v, p :: Listed(index, v, p) && p.full == x ==> |v| <= k
    ensures IndexOk(RemoveSplits(index, x, k))
    ensures forall v, p :: Listed(RemoveSplits(index, x, k), v, p) <==> Listed(index, v, p) && p.full != x
    decreases k
  {
    forall v: Name, p: Pair | Listed(index, v, p) && p.full == x
      ensures IsVariant(v, p) && (|v| == k ==> v == x[..k] && p == Pair(x, x[k..]))
    {
      assert (v + p.over)[..|v|] == v && (v + p.over)[|v|..] == p.over;
    }
    if IsOverrideComp(x[k]) {
      var v, pair := x[..k], Pair(x, x[k..]);
      if v in index {
        RemoveFirstDistinct(index[v], pair);
      }
      var index' := if v in index then index[v := RemoveFirst(index[v], pair)] else index;
      assert forall w, p :: Listed(index', w, p) <==> Listed(index, w, p) && (w != v || p != pair);
      if k > 1 && x[..k - 1] != [""] {
        RemoveSplitsExact(index', x, k - 1);
      } else if k > 1 {
        assert x[0] == x[..k - 1][0] == "";
      }
    }
  }

  /** After `delVar(x)` no list mentions `x`; only the list of `x` itself goes with it. */
  lemma DropFromIndexExact(index: Index, x: Name)
    requires IndexOk(index)
    ensures IndexOk(DropFromIndex(index, x))
    ensures forall v, p :: Listed(DropFromIndex(index, x), v, p) <==> v != x && Listed(index, v, p) && p.full != x
  {
    assert forall v, p :: Listed(index - {x}, v, p) <==> v != x && Listed(index, v, p);
    assert forall v, p :: Listed(index - {x}, v, p) ==> IsVariant(v, p);
    if |x| > 1 {
      RemoveSplitsExact(index - {x}, x, |x| - 1);
    }
  }

  lemma {:induction false} DelAllIndexOk(st: Store, xs: seq<Name>)
    requires IndexOk(st.index)
    ensures IndexOk(DelAll(st, xs).index)
    decreases |xs|
  {
    if xs != [] {
      DropFromIndexExact(st.index, xs[0]);
      DelAllIndexOk(DelVar(st, xs[0]), xs[1..]);
    }
  }

  /** All assignments keep the index in shape, except an operation on a bare lower-case name. */
  lemma SetVarIndexOk(st: Store, x: Name, value: Text, parsing: bool)
    requires IndexOk(st.index) && CanSet(x)
    ensures IndexOk(SetVar(st, x, value, parsing).index) <==> !(ParseKeyword(x).Some? && Unqualified(Target(x)))
  {
    if ParseKeyword(x).Some? {
      UpdateIndexOk(st.index, Target(x));
    } else {
      if x in st.index {
        DelAllIndexOk(st, ActiveFulls(st.index[x], Overrides(st)));
      }
      var st' := if parsing then st else ClearVariants(st, x);
      UpdateIndexOk(st'.index, x);
    }
  }

  // ----- reading what was written -----

  lemma {:induction false} AddSplitsElsewhere(index: Index, x: Name, k: nat)
    requires 1 <= k < |x|
    ensures x in AddSplits(index, x, k) <==> x in index
    decreases k
  {
    if IsOverrideComp(x[k]) && k > 1 && x[..k - 1] != [""] {
      AddSplitsElsewhere(AddPair(index, x[..k], Pair(x, x[k..])), x, k - 1);
    }
  }

  lemma UpdateIndexElsewhere(index: Index, x: Name)
    requires x != []
    ensures x in UpdateIndex(index, x) <==> x in index
  {
    if |x| > 1 {
      AddSplitsElsewhere(index, x, |x| - 1);
    } else {
      assert IsOverrideComp(x[0]) ==> |[x[0][..|x[0]| - 1]][0]| < |x[0]|;
    }
  }

  /** After a plain assignment the variable reads as the value, whatever it was before. */
  lemma AssignThenRead(st: Store, x: Name, value: Text)
    requires Sound(st) && CanSet(x) && Careful(x, value) && ParseKeyword(x).None?
    ensures var st' := SetVar(st, x, value, false);
            && Sound(st') && x !in st'.index
            && Get(st', x).content == Some(value) && Get(st', x).append == [] && Get(st', x).prepend == []
            && Raw(st', x, true) == Some(value)
  {
    SetVarKeeps(st, x, value, false);
    var st' := ClearVariants(st, x);
    if |x| > 1 {
      UpdateIndexElsewhere(st'.index, x);
    }
  }
}
