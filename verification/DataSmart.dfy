/**
  `DataSmart`: dictionaries that are copied on write, an override index whose lists are shared
  between copies, a list of overrides that is worked out on demand, and a cache of expanded
  values that every mutator clears.  All of it behaves like the flat store.
 */
module Datastore {
  import opened Wrappers
  import opened Names
  import opened OverrideChoice
  import opened FlatStore
  import opened Dictionaries
  import Expansion
  import Updates = StoreUpdates

  // ----- the cache -----

  datatype Key = Key(name: Name, flag: string)

  const OVERRIDES_KEY := Key(OVERRIDES, "_content")

  /** The part of a `VariableParse` that is used again. */
  datatype Parse = Parse(unexpanded: Option<Text>, value: Option<Text>)

  /** Full expansion; the literal OVERRIDES is all that is ever read from a cyclic store. */
  ghost function Expanded(st: Store, v: Option<Text>): Option<Text> {
    if Readable(st) then ExpandValue(st, v) else v
  }

  ghost predicate CanRead(st: Store, k: Key) {
    Sound(st) && (Acyclic(st) || k == OVERRIDES_KEY)
  }

  ghost predicate ParseOk(st: Store, k: Key, p: Parse)
    requires CanRead(st, k)
  {
    p.unexpanded == RawFlag(st, k.name, k.flag, true, false) && p.value == Expanded(st, p.unexpanded)
  }

  /** Every cached value is what an uncached evaluation of the flat store gives. */
  ghost predicate CacheFits(st: Store, cache: map<Key, Parse>) {
    forall k {:trigger CachedOk(st, cache, k)} :: CachedOk(st, cache, k)
  }

  ghost predicate CachedOk(st: Store, cache: map<Key, Parse>, k: Key) {
    k in cache ==> CanRead(st, k) && ParseOk(st, k, cache[k])
  }

  ghost predicate OverridesFit(st: Store, overrides: Option<seq<Comp>>, overridesset: set<Comp>) {
    overrides.Some? ==> overrides.value == Overrides(st) && overridesset == set c <- overrides.value
  }

  const OPERATIONS := {":append", ":prepend", ":remove"}

  // ----- facts about reading that the methods use -----

  lemma {:induction false} WithOpsRefs(v: Text, u: Option<Text>, e: Entry, ovs: seq<Comp>)
    ensures WithOps(Some(v), e, ovs).Some? && Refs(v) <= Refs(WithOps(Some(v), e, ovs).value)
    ensures u.None? && WithOps(u, e, ovs).Some? ==> Refs(WithOps(u, e, ovs).value) <= Refs(WithOps(Some(v), e, ovs).value)
  {
    AppendRefs(v, e.append, ovs);
    var a := WithAppends(Some(v), e.append, ovs).value;
    PrependRefs(Some(a), a, e.prepend, ovs);
    if u.None? {
      PrependRefs(WithAppends(u, e.append, ovs), a, e.prepend, ovs);
    }
  }

  lemma {:induction false} AppendRefs(v: Text, ops: seq<Op>, ovs: seq<Comp>)
    ensures var r, n := WithAppends(Some(v), ops, ovs), WithAppends(None, ops, ovs);
            r.Some? && Refs(v) <= Refs(r.value) && (n.Some? ==> Refs(n.value) <= Refs(r.value))
  {
    if ops != [] {
      var init, op := ops[..|ops| - 1], ops[|ops| - 1];
      AppendRefs(v, init, ovs);
      Expansion.RefsConcat(WithAppends(Some(v), init, ovs).value, op.text);
      if WithAppends(None, init, ovs).Some? {
        Expansion.RefsConcat(WithAppends(None, init, ovs).value, op.text);
      }
    }
  }

  lemma {:induction false} PrependRefs(u: Option<Text>, v: Text, ops: seq<Op>, ovs: seq<Comp>)
    requires u.Some? ==> Refs(u.value) <= Refs(v)
    ensures var r, n := WithPrepends(Some(v), ops, ovs), WithPrepends(u, ops, ovs);
            r.Some? && Refs(v) <= Refs(r.value) && (n.Some? ==> Refs(n.value) <= Refs(r.value))
  {
    if ops != [] {
      var init, op := ops[..|ops| - 1], ops[|ops| - 1];
      PrependRefs(u, v, init, ovs);
      Expansion.RefsConcat(op.text, WithPrepends(Some(v), init, ovs).value);
      if WithPrepends(u, init, ovs).Some? {
        Expansion.RefsConcat(op.text, WithPrepends(u, init, ovs).value);
      }
    }
  }

  ghost function TopOf(st: Store, v: Option<Text>): nat {
    if Readable(st) && v.Some? then Top(st, v.value) else 0
  }

  /** A variant's own references are among those of the variable that takes its value. */
  lemma VariantTop(st: Store, x: Name, weak: bool)
    requires Readable(st)
    ensures TopOf(st, Raw(st, x, weak)) <= Rank(st)(x)
    ensures VariantOf(st, x).Some? ==>
              TopOf(st, Raw(st, VariantOf(st, x).value, true)) <= TopOf(st, Raw(st, x, weak))
  {
    var e, ovs := Get(st, x), Overrides(st);
    var variant := VariantOf(st, x);
    var chosen := if variant.Some? then Raw(st, variant.value, true) else None;
    var strong, full := FlagValue(e, "_content", weak), FlagValue(e, "_content", true);
    if chosen.Some? {
      WithOpsRefs(chosen.value, None, e, ovs);
      TopSub(st, chosen.value, Raw(st, x, weak).value);
    } else if full.Some? {
      WithOpsRefs(full.value, strong, e, ovs);
    }
    TopOfRaw(st, x);
    if Raw(st, x, weak).Some? {
      TopSub(st, Raw(st, x, weak).value, Raw(st, x, true).value);
    }
  }

  lemma {:induction false} UnconditionalAppends(v: Option<Text>, ops: seq<Op>, ovs: seq<Comp>)
    requires forall op <- ops :: op.over == [] && Literal(op.text)
    ensures WithAppends(v, ops, ovs) == WithAppends(v, ops, [])
    ensures var r := WithAppends(v, ops, ovs); (v.Some? ==> Literal(v.value)) && r.Some? ==> Literal(r.value)
  {
    if ops != [] {
      assert ops[|ops| - 1] in ops;
      UnconditionalAppends(v, ops[..|ops| - 1], ovs);
    }
  }

  lemma {:induction false} UnconditionalPrepends(v: Option<Text>, ops: seq<Op>, ovs: seq<Comp>)
    requires forall op <- ops :: op.over == [] && Literal(op.text)
    ensures WithPrepends(v, ops, ovs) == WithPrepends(v, ops, [])
    ensures var r := WithPrepends(v, ops, ovs); (v.Some? ==> Literal(v.value)) && r.Some? ==> Literal(r.value)
  {
    if ops != [] {
      assert ops[|ops| - 1] in ops;
      UnconditionalPrepends(v, ops[..|ops| - 1], ovs);
    }
  }

  lemma LiteralIsExpanded(st: Store, t: Text)
    requires Literal(t)
    ensures Expanded(st, Some(t)) == Some(t)
  {
    if Readable(st) {
      Expansion.LiteralIsFixed(st, t);
    }
  }

  /** OVERRIDES reads the same whatever the overrides are taken to be meanwhile. */
  lemma OverridesAreStable(st: Store, ovs: seq<Comp>)
    requires Sound(st)
    ensures var e := Get(st, OVERRIDES);
            WithOps(FlagValue(e, "_content", true), e, ovs) == Raw(st, OVERRIDES, true) == OverridesText(st)
    ensures OverridesText(st).Some? ==> Literal(OverridesText(st).value)
  {
    var e := Get(st, OVERRIDES);
    var v := FlagValue(e, "_content", true);
    assert forall op <- e.append :: op in e.append + e.prepend;
    assert forall op <- e.prepend :: op in e.append + e.prepend;
    UnconditionalAppends(v, e.append, ovs);
    UnconditionalAppends(v, e.append, Overrides(st));
    UnconditionalAppends(v, e.append, []);
    var a := WithAppends(v, e.append, []);
    UnconditionalPrepends(a, e.prepend, ovs);
    UnconditionalPrepends(a, e.prepend, Overrides(st));
    UnconditionalPrepends(a, e.prepend, []);
  }

  lemma OverridesRead(st: Store)
    requires Sound(st)
    ensures Expanded(st, RawFlag(st, OVERRIDES, "_content", true, false)) == OverridesText(st)
    ensures TopOf(st, RawFlag(st, OVERRIDES, "_content", true, false)) == 0
    ensures CanRead(st, OVERRIDES_KEY)
  {
    OverridesAreStable(st, []);
    var v := OverridesText(st);
    if v.Some? {
      LiteralIsExpanded(st, v.value);
      if Readable(st) {
        TopWithin(st, v.value, 0);
      }
    }
  }

  lemma CacheMore(st: Store, cache: map<Key, Parse>, k: Key, p: Parse)
    requires CacheFits(st, cache) && CanRead(st, k) && ParseOk(st, k, p)
    ensures CacheFits(st, cache[k := p])
  {
    var more := cache[k := p];
    forall k' | k' in more
      ensures CachedOk(st, more, k')
    {
      assert CachedOk(st, cache, k');
    }
  }

  /** The operations on OVERRIDES do not depend on the overrides. */
  lemma OverridesTakeAny(st: Store, v: Option<Text>)
    requires Sound(st)
    ensures forall ovs :: WithOps(v, Get(st, OVERRIDES), ovs) == WithOps(v, Get(st, OVERRIDES), Overrides(st))
  {
    var e := Get(st, OVERRIDES);
    assert forall op <- e.append :: op in e.append + e.prepend;
    assert forall op <- e.prepend :: op in e.append + e.prepend;
    forall ovs
      ensures WithOps(v, e, ovs) == WithOps(v, e, [])
    {
      UnconditionalAppends(v, e.append, ovs);
      UnconditionalPrepends(WithAppends(v, e.append, []), e.prepend, ovs);
    }
  }

  /** What is read for a key can be expanded without meeting the variable itself. */
  lemma ReadTop(st: Store, k: Key, weak: bool)
    requires CanRead(st, k)
    ensures var raw := RawFlag(st, k.name, k.flag, weak, false);
            && (k.flag == "_content" && Acyclic(st) ==> TopOf(st, raw) <= Rank(st)(k.name))
            && (k == OVERRIDES_KEY && raw.Some? ==> Literal(raw.value))
  {
    if Acyclic(st) && k.flag == "_content" {
      VariantTop(st, k.name, weak);
    }
    if k == OVERRIDES_KEY {
      var e := Get(st, OVERRIDES);
      assert forall op <- e.append :: op in e.append + e.prepend;
      assert forall op <- e.prepend :: op in e.append + e.prepend;
      UnconditionalAppends(FlagValue(e, "_content", weak), e.append, Overrides(st));
      UnconditionalPrepends(WithAppends(FlagValue(e, "_content", weak), e.append, Overrides(st)), e.prepend, Overrides(st));
    }
  }

  /** A variant can be read when the variable can, and lies deeper. */
  lemma VariantReads(st: Store, x: Name)
    requires CanRead(st, Key(x, "_content"))
    ensures var r := VariantOf(st, x);
            r.Some? ==>
              && x != OVERRIDES && CanRead(st, Key(r.value, "_content"))
              && Depth(st.index, r.value) < Depth(st.index, x)
              && RawFlag(st, r.value, "_content", true, false) == Raw(st, r.value, true)
  {}

  lemma RawParts(st: Store, x: Name, weak: bool)
    requires CanRead(st, Key(x, "_content"))
    ensures var r := VariantOf(st, x);
            var chosen := if r.Some? then Raw(st, r.value, true) else None;
            && Raw(st, x, weak) ==
                 WithOps(if chosen.Some? then chosen else FlagValue(Get(st, x), "_content", weak), Get(st, x), Overrides(st))
            && TopOf(st, chosen) <= TopOf(st, Raw(st, x, weak))
            && (Get(st, x) == NOTHING ==> Raw(st, x, weak) == chosen)
  {
    if Acyclic(st) {
      VariantTop(st, x, weak);
    }
  }

  lemma ReadIsValue(st: Store, x: Name)
    requires Readable(st)
    ensures Expanded(st, RawFlag(st, x, "_content", true, false)) == Value(st, x)
    ensures TopOf(st, RawFlag(st, x, "_content", true, false)) <= Rank(st)(x)
  {
    VariantTop(st, x, true);
  }

  lemma EmptyExpands(st: Store)
    requires Readable(st)
    ensures Expand(st, []) == []
  {}

  /** A cached OVERRIDES stays right as long as that variable is left alone. */
  lemma CacheCarries(st: Store, st': Store, cache: map<Key, Parse>)
    requires CacheFits(st, cache) && cache.Keys <= {OVERRIDES_KEY}
    requires Sound(st) && Sound(st') && Get(st, OVERRIDES) == Get(st', OVERRIDES)
    ensures CacheFits(st', cache)
  {
    OverridesRead(st);
    OverridesRead(st');
    assert CachedOk(st, cache, OVERRIDES_KEY);
  }

  lemma EmptyFits(st: Store)
    ensures CacheFits(st, map[])
  {}

  // ----- the datastore -----

  class DataSmart {
    const dict: Level
    const overridedata: OverrideData
    var overrides: Option<seq<Comp>>
    var overridesset: set<Comp>
    var inoverride: bool
    var expandCache: map<Key, Parse>

    /** The flat store that this store stands for. */
    ghost function Model(): Store
      reads dict`view, overridedata`view
    {
      Store(dict.view, overridedata.view)
    }

    ghost predicate Valid()
      reads dict, dict.data, dict.own, dict.low, dict.lowFlags, dict.lists, overridedata, overridedata.used
    {
      dict.Valid() && overridedata.Valid()
    }

    ghost predicate CacheOk()
      reads `expandCache, dict`view, overridedata`view
    {
      CacheFits(Model(), expandCache)
    }

    ghost predicate OverridesOk()
      reads `overrides, `overridesset, dict`view, overridedata`view
    {
      OverridesFit(Model(), overrides, overridesset)
    }

    /** What holds between any two operations. */
    ghost predicate Ready()
      reads this, dict, dict.data, dict.own, dict.low, dict.lowFlags, dict.lists, overridedata, overridedata.used
    {
      Valid() && Sound(Model()) && CacheOk() && OverridesOk() && !inoverride
    }

    /** Only objects of this store and fresh ones have been added to what it uses. */
    twostate predicate Grown()
      reads dict, overridedata
    {
      dict.Grown() && overridedata.Grown()
    }

    constructor ()
      ensures Ready() && Model() == Store(map[], map[])
      ensures fresh(dict) && fresh(overridedata)
      ensures dict.own == {} && dict.low == {} && dict.lowFlags == {} && dict.lists == {} && overridedata.used == {}
    {
      dict := new Level();
      overridedata := new OverrideData();
      overrides, overridesset, inoverride, expandCache := None, {}, false, map[];
    }

    /** The object that `createCopy` returns. */
    constructor Copy(d: DataSmart)
      requires d.Ready()
      ensures Ready() && Model() == d.Model()
      ensures fresh(dict) && fresh(overridedata)
      ensures dict.data == d.dict && dict.own == {} && dict.low == d.dict.low + {d.dict}
      ensures dict.lowFlags == d.dict.lowFlags + d.dict.own
      ensures dict.lists == d.dict.lists && overridedata.used == d.overridedata.used
    {
      dict := new Level.Above(d.dict);
      overridedata := new OverrideData.Copy(d.overridedata);
      overrides, overridesset, inoverride, expandCache := None, {}, false, map[];
    }

    // ----- reading -----

    /** What holds while the store `st` is being read; reading changes neither of them. */
    ghost predicate Reading(st: Store)
      reads this, dict, dict.data, dict.own, dict.low, dict.lowFlags, dict.lists, overridedata, overridedata.used
    {
      Valid() && Model() == st && CacheFits(st, expandCache)
    }

    /** What reading leaves as it was. */
    twostate predicate OnlyRead()
      reads this
    {
      && inoverride == old(inoverride)
      && (old(overrides).Some? ==> overrides == old(overrides) && overridesset == old(overridesset))
    }

    /** `(self.getVar("OVERRIDES") or "").split(":")`; its text is literal. */
    method SplitOverrides(ghost st: Store) returns (ovs: seq<Comp>)
      requires Reading(st) && Sound(st) && overrides.Some?
      modifies this
      ensures Reading(st) && OnlyRead() && ovs == Overrides(st)
      ensures expandCache.Keys <= old(expandCache).Keys + {OVERRIDES_KEY}
      decreases 0, 0, 4 * Depth(st.index, OVERRIDES) + 7
    {
      OverridesRead(st);
      var text, _ := GetVarFlag(OVERRIDES, "_content", true, false, false, false, st);
      ovs := SplitValue(text);
    }

    /** `need_overrides`. */
    method NeedOverrides(ghost st: Store)
      requires Reading(st) && Sound(st) && OverridesFit(st, overrides, overridesset) && !inoverride
      modifies this
      ensures Reading(st) && OnlyRead() && OverridesFit(st, overrides, overridesset) && overrides.Some?
      ensures if old(overrides).Some? then expandCache == old(expandCache) else expandCache.Keys <= {OVERRIDES_KEY}
      decreases if overrides.None? then 1 else 0, 0, 0
    {
      hide Valid, CacheFits, Sound, Overrides;
      if overrides.Some? {
        return;
      }
      var stable, count := false, 0;
      while !stable && count < 5
        invariant Reading(st) && !inoverride
        invariant count == 0 ==> overrides.None?
        invariant count > 0 ==> stable
        invariant stable ==> overrides.Some? && OverridesFit(st, overrides, overridesset)
        invariant stable ==> expandCache.Keys <= {OVERRIDES_KEY}
        decreases 5 - count
      {
        inoverride, overrides, overridesset := true, Some([]), {};
        var first := SplitOverrides(st);
        overrides, overridesset := Some(first), set c <- first;
        inoverride, expandCache := false, map[];
        EmptyFits(st);
        assert Valid() && Model() == st;
        var second := SplitOverrides(st);
        stable := second == first;
        if !stable {
          overrides, overridesset := Some(second), set c <- second;
        }
        count := count + 1;
      }
      // the for-else branch, bb.fatal, is never reached
      assert stable;
    }

    /** The dictionary found for `x`, and what its fields hold. */
    method FindVar(x: Name, ghost st: Store) returns (f: Flags?)
      requires Reading(st)
      ensures f == null ==> Get(st, x) == NOTHING
      ensures f != null ==>
                && Get(st, x) == Entry(f.content, OpsOf(f.append), OpsOf(f.prepend), f.flags)
                && (f.append != null ==> f.append.items != []) && (f.prepend != null ==> f.prepend.items != [])
    {
      f := dict.Find(x);
    }

    method FindVariants(x: Name, ghost st: Store) returns (l: PairList?)
      requires Reading(st)
      ensures l == null <==> x !in st.index
      ensures l != null ==> l.items == st.index[x]
    {
      l := overridedata.Get(x);
    }

    /** Which override variant to read instead of `x`. */
    method ChosenVariant(x: Name, ghost st: Store) returns (variant: Option<Name>)
      requires Reading(st) && Sound(st)
      requires x == OVERRIDES || (!inoverride && OverridesFit(st, overrides, overridesset))
      modifies this
      ensures Reading(st) && OnlyRead() && variant == VariantOf(st, x)
      ensures old(OverridesFit(st, overrides, overridesset)) ==> OverridesFit(st, overrides, overridesset)
      ensures old(overrides).Some? ==> expandCache == old(expandCache)
      decreases if overrides.None? then 1 else 0, 0, 1
    {
      hide Valid, CacheFits, Overrides, Winner;
      var l := FindVariants(x, st);
      if l == null {
        return None;
      }
      NeedOverrides(st);
      assert Proper(l.items);
      variant := ChooseVariant(l.items, overrides.value, overridesset);
    }

    /** The loop over the deferred appends, for the overrides at that time. */
    method ApplyAppends(v: Option<Text>, l: OpList, ghost st: Store) returns (value: Option<Text>)
      requires Reading(st) && Sound(st)
      requires overrides.Some? || (!inoverride && OverridesFit(st, overrides, overridesset))
      modifies this
      ensures Reading(st) && OnlyRead() && overrides.Some?
      ensures old(OverridesFit(st, overrides, overridesset)) ==> OverridesFit(st, overrides, overridesset)
      ensures value == WithAppends(v, l.items, overrides.value)
      ensures old(overrides).Some? ==> expandCache == old(expandCache)
      decreases if overrides.None? then 1 else 0, 0, 1
    {
      hide Valid, CacheFits, Overrides;
      if overrides.None? {
        NeedOverrides(st);
      }
      value := v;
      for i := 0 to |l.items|
        invariant value == WithAppends(v, l.items[..i], overrides.value)
      {
        var op := l.items[i];
        assert l.items[..i + 1][..i] == l.items[..i];
        if forall c <- op.over :: c in overrides.value {
          assert [] + op.text == op.text;
          value := Some((if value.None? then [] else value.value) + op.text);
        }
      }
      assert l.items[..|l.items|] == l.items;
    }

    method ApplyPrepends(v: Option<Text>, l: OpList, ghost st: Store) returns (value: Option<Text>)
      requires Reading(st) && Sound(st)
      requires overrides.Some? || (!inoverride && OverridesFit(st, overrides, overridesset))
      modifies this
      ensures Reading(st) && OnlyRead() && overrides.Some?
      ensures old(OverridesFit(st, overrides, overridesset)) ==> OverridesFit(st, overrides, overridesset)
      ensures value == WithPrepends(v, l.items, overrides.value)
      ensures old(overrides).Some? ==> expandCache == old(expandCache)
      decreases if overrides.None? then 1 else 0, 0, 1
    {
      hide Valid, CacheFits, Overrides;
      if overrides.None? {
        NeedOverrides(st);
      }
      value := v;
      for i := 0 to |l.items|
        invariant value == WithPrepends(v, l.items[..i], overrides.value)
      {
        var op := l.items[i];
        assert l.items[..i + 1][..i] == l.items[..i];
        if forall c <- op.over :: c in overrides.value {
          assert op.text + [] == op.text;
          value := Some(op.text + if value.None? then [] else value.value);
        }
      }
      assert l.items[..|l.items|] == l.items;
    }

    /** The deferred operations of the dictionary found for `x`. */
    method ApplyOps(x: Name, v: Option<Text>, f: Flags, ghost st: Store) returns (value: Option<Text>)
      requires Reading(st) && Sound(st)
      requires Get(st, x) == Entry(f.content, OpsOf(f.append), OpsOf(f.prepend), f.flags)
      requires (x == OVERRIDES && overrides.Some?) || (!inoverride && OverridesFit(st, overrides, overridesset))
      modifies this
      ensures Reading(st) && OnlyRead()
      ensures old(OverridesFit(st, overrides, overridesset)) ==> OverridesFit(st, overrides, overridesset)
      ensures value == WithOps(v, Get(st, x), Overrides(st))
      ensures old(overrides).Some? ==> expandCache == old(expandCache)
      decreases if overrides.None? then 1 else 0, 0, 2
    {
      hide Valid, CacheFits, Overrides, Sound;
      value := v;
      OverridesTakeAny(st, v);
      if f.append != null {
        value := ApplyAppends(value, f.append, st);
      }
      if f.prepend != null {
        value := ApplyPrepends(value, f.prepend, st);
      }
      ghost var ovs := if overrides.Some? then overrides.value else Overrides(st);
      assert value == WithOps(v, Get(st, x), ovs);
    }

    /** The value of the chosen variant, if there is one and it has a value. */
    method ReadVariant(x: Name, ghost st: Store) returns (value: Option<Text>)
      requires Reading(st) && CanRead(st, Key(x, "_content"))
      requires (x == OVERRIDES && overrides.Some?) || (!inoverride && OverridesFit(st, overrides, overridesset))
      modifies this
      ensures Reading(st) && OnlyRead()
      ensures old(OverridesFit(st, overrides, overridesset)) ==> OverridesFit(st, overrides, overridesset)
      ensures var r := VariantOf(st, x); value == if r.Some? then Raw(st, r.value, true) else None
      ensures x == OVERRIDES && old(overrides).Some? ==> expandCache == old(expandCache)
      decreases if overrides.None? then 1 else 0,
                if VariantOf(st, x).Some? then TopOf(st, Raw(st, VariantOf(st, x).value, true)) else 0,
                4 * Depth(st.index, x) + 3
    {
      hide Valid, CacheFits, WellIndexed, PlainOverrides, Overrides, Raw, Depth, Acyclic, TopOf;
      VariantReads(st, x);
      var variant := ChosenVariant(x, st);
      value := None;
      if variant.Some? {
        var parser;
        value, parser := GetVarFlag(variant.value, "_content", false, false, false, true, st);
      }
    }

    /** The value of `x` before expansion. */
    method ReadFull(x: Name, noweakdefault: bool, ghost st: Store) returns (value: Option<Text>)
      requires Reading(st) && CanRead(st, Key(x, "_content"))
      requires (x == OVERRIDES && overrides.Some?) || (!inoverride && OverridesFit(st, overrides, overridesset))
      modifies this
      ensures Reading(st) && OnlyRead()
      ensures old(OverridesFit(st, overrides, overridesset)) ==> OverridesFit(st, overrides, overridesset)
      ensures value == Raw(st, x, !noweakdefault)
      ensures x == OVERRIDES && old(overrides).Some? ==> expandCache == old(expandCache)
      decreases if overrides.None? then 1 else 0, TopOf(st, Raw(st, x, !noweakdefault)), 4 * Depth(st.index, x) + 4
    {
      hide Valid, CacheFits, WellIndexed, PlainOverrides, Overrides, Raw, WithOps, FlagValue, Acyclic, Depth, TopOf;
      RawParts(st, x, !noweakdefault);
      var local := FindVar(x, st);
      value := ReadVariant(x, st);
      if local != null {
        if value.None? {
          value := StoredValue(local, "_content", !noweakdefault);
        }
        value := ApplyOps(x, value, local, st);
      }
    }

    /** What `getVarFlag` finds before expansion. */
    method ReadRaw(x: Name, flag: string, noweakdefault: bool, parsing: bool, ghost st: Store) returns (value: Option<Text>)
      requires Reading(st) && flag != "" && CanRead(st, Key(x, flag))
      requires (Key(x, flag) == OVERRIDES_KEY && overrides.Some?) ||
               (!inoverride && OverridesFit(st, overrides, overridesset))
      modifies this
      ensures Reading(st) && OnlyRead()
      ensures old(OverridesFit(st, overrides, overridesset)) ==> OverridesFit(st, overrides, overridesset)
      ensures value == RawFlag(st, x, flag, !noweakdefault, parsing)
      ensures Key(x, flag) == OVERRIDES_KEY && old(overrides).Some? ==> expandCache == old(expandCache)
      decreases if overrides.None? then 1 else 0, TopOf(st, RawFlag(st, x, flag, !noweakdefault, parsing)),
                4 * Depth(st.index, x) + 5
    {
      hide Valid, CacheFits, WellIndexed, PlainOverrides, Overrides, Raw, Acyclic, Depth, TopOf;
      if flag == "_content" && !parsing {
        value := ReadFull(x, noweakdefault, st);
      } else {
        var local := FindVar(x, st);
        value := None;
        if local != null {
          value := StoredValue(local, flag, !noweakdefault);
        }
      }
    }

    static method StoredValue(f: Flags, flag: string, weak: bool) returns (value: Option<Text>)
      ensures value == FlagValue(Entry(f.content, OpsOf(f.append), OpsOf(f.prepend), f.flags), flag, weak)
    {
      var weakly := "_defaultval_flag_" + flag;
      if flag == "_content" && f.content.Some? {
        value := f.content;
      } else if flag != "_content" && flag in f.flags {
        value := Some(f.flags[flag]);
      } else if flag == "_content" && "_defaultval" in f.flags && weak {
        value := Some(f.flags["_defaultval"]);
      } else if weakly in f.flags && weak {
        value := Some(f.flags[weakly]);
      } else {
        value := None;
      }
    }

    /** `getVarFlag`; with `retparser` it also returns the parse result. */
    method GetVarFlag(x: Name, flag: string, expand: bool, noweakdefault: bool, parsing: bool, retparser: bool,
                      ghost st: Store)
      returns (value: Option<Text>, parser: Option<Parse>)
      requires Reading(st) && flag !in OPERATIONS && CanRead(st, Key(x, flag))
      requires (Key(x, flag) == OVERRIDES_KEY && overrides.Some?) ||
               (!inoverride && OverridesFit(st, overrides, overridesset))
      requires parsing ==> !expand && !retparser
      requires retparser ==> !expand && flag != ""
      modifies this
      ensures Reading(st) && OnlyRead()
      ensures old(OverridesFit(st, overrides, overridesset)) ==> OverridesFit(st, overrides, overridesset)
      ensures var raw := RawFlag(st, x, flag, !noweakdefault, parsing);
              && value == (if expand then Expanded(st, raw) else raw)
              && (retparser ==> parser == Some(Parse(raw, Expanded(st, raw))))
      ensures Key(x, flag) == OVERRIDES_KEY && old(overrides).Some? ==>
                expandCache.Keys <= old(expandCache).Keys + {OVERRIDES_KEY}
      decreases if overrides.None? then 1 else 0, TopOf(st, RawFlag(st, x, flag, !noweakdefault, parsing)),
                4 * Depth(st.index, x) + 6
    {
      hide Valid, WellIndexed, PlainOverrides, Overrides, Expand, Depth, Raw, Rank;
      value, parser := None, None;
      if flag == "" {
        return;
      }
      var key := Key(x, flag);
      if (expand || retparser) && key in expandCache && !noweakdefault {
        assert CachedOk(st, expandCache, key);
        parser := Some(expandCache[key]);
        value := if expand then parser.value.value else parser.value.unexpanded;
        return;
      }
      var raw := ReadRaw(x, flag, noweakdefault, parsing, st);
      value := raw;
      if expand || retparser {
        ReadTop(st, key, !noweakdefault);
        var full := ExpandWithRefs(raw, Some(key), st);
        parser := Some(Parse(raw, full));
        if expand {
          value := full;
        }
        if !noweakdefault {
          CacheMore(st, expandCache, key, parser.value);
          expandCache := expandCache[key := parser.value];
        }
      }
    }

    /** `expandWithRefs(...).value`. */
    method ExpandWithRefs(t: Option<Text>, varname: Option<Key>, ghost st: Store) returns (value: Option<Text>)
      requires Reading(st) && Sound(st)
      requires (Acyclic(st) && !inoverride && OverridesFit(st, overrides, overridesset)) ||
               (t.Some? ==> Literal(t.value))
      requires varname.Some? && varname.value.flag == "_content" && Acyclic(st) ==>
                 TopOf(st, t) <= Rank(st)(varname.value.name)
      modifies this
      ensures Reading(st) && OnlyRead()
      ensures old(OverridesFit(st, overrides, overridesset)) ==> OverridesFit(st, overrides, overridesset)
      ensures value == Expanded(st, t)
      ensures t.None? || Literal(t.value) ==> expandCache == old(expandCache)
      decreases if overrides.None? then 1 else 0, TopOf(st, t), 1
    {
      if t.None? {
        return None;
      }
      hide Valid, CacheFits, WellIndexed, PlainOverrides, Acyclic, Overrides, Expand;
      var s := t.value;
      if Literal(s) {
        LiteralIsExpanded(st, s);
      } else {
        Expansion.ExpandSettles(st, s);
        Expansion.ExpandTwice(st, s);
      }
      while exists tok <- s :: tok.Ref?
        invariant Reading(st) && OnlyRead()
        invariant old(OverridesFit(st, overrides, overridesset)) ==> OverridesFit(st, overrides, overridesset)
        invariant Literal(t.value) ==> expandCache == old(expandCache)
        invariant if Literal(t.value) then s == t.value else s == t.value || s == Expand(st, t.value)
        decreases !Literal(s) && s != Expand(st, t.value)
      {
        var olds := s;
        s := ExpandPass(olds, varname, st);
        if s == olds {
          break;
        }
      }
      return Some(s);
    }

    /** `__expand_var_regexp__.sub(varparse.var_sub, s)`. */
    method ExpandPass(olds: Text, varname: Option<Key>, ghost st: Store) returns (s: Text)
      requires Reading(st) && Readable(st) && !inoverride && OverridesFit(st, overrides, overridesset)
      requires varname.Some? && varname.value.flag == "_content" ==> Top(st, olds) <= Rank(st)(varname.value.name)
      modifies this
      ensures Reading(st) && OnlyRead() && OverridesFit(st, overrides, overridesset)
      ensures s == Expand(st, olds)
      decreases if overrides.None? then 1 else 0, Top(st, olds), 0
    {
      hide Valid, CacheFits, WellIndexed, PlainOverrides, Acyclic, Overrides, Expand, Value, RawFlag;
      s := [];
      EmptyExpands(st);
      for i := 0 to |olds|
        invariant Reading(st) && OnlyRead() && OverridesFit(st, overrides, overridesset)
        invariant s == Expand(st, olds[..i])
      {
        Expansion.ExpandNext(st, olds, i);
        match olds[i] {
          case Lit(_) => s := s + [olds[i]];
          case Ref(k) =>
            assert k in Refs(olds);
            assert varname != Some(Key(k, "_content"));  // "references itself" is not raised
            ReadIsValue(st, k);
            var v, _ := GetVarFlag(k, "_content", true, false, false, false, st);
            s := s + if v.Some? then v.value else [olds[i]];
        }
      }
      assert olds[..|olds|] == olds;
    }

    // ----- writing -----

    /**
      `_setvar_update_overridevars` for a value without references: `overridevars` stays
      {OVERRIDES, FILE}, and the overrides are worked out again when they are next needed.
     */
    method SetvarUpdateOverridevars(value: Text)
      requires Literal(value)
      modifies `overrides, `expandCache
      ensures overrides == None && expandCache == map[]
    {
      overrides := None;
      expandCache := map[];
    }

    /** What a mutator leaves behind besides the new contents. */
    twostate predicate Written()
      reads this, dict, overridedata
    {
      && Grown()
      && expandCache == map[]
      && inoverride == old(inoverride)
      && (overrides == None || (overrides == old(overrides) && overridesset == old(overridesset)))
    }

    /** `delVar`. */
    method RemoveVar(x: Name)
      requires Valid()
      modifies this, dict, overridedata
      ensures Valid() && Written() && Model() == Updates.DelVar(old(Model()), x)
      ensures overrides == old(overrides) && overridesset == old(overridesset)
    {
      hide Level.Valid, OverrideData.Valid;
      expandCache := map[];
      dict.Clear(x);
      overridedata.DropName(x);
    }

    /** Writes a flag, and lists the variable as a variant if `indexed`. */
    method PutFlag(x: Name, flag: string, value: Text, indexed: bool)
      requires Valid() && x != []
      modifies dict, dict.own, overridedata
      ensures Valid() && Grown()
      ensures dict.view == PutIn(old(dict.view), x, Updates.WithFlag(EntryIn(old(dict.view), x), flag, value))
      ensures overridedata.view ==
                if indexed then Updates.UpdateIndex(old(overridedata.view), x) else old(overridedata.view)
    {
      hide Level.Valid, OverrideData.Valid;
      dict.WriteFlag(x, flag, value);
      if indexed {
        overridedata.UpdateOverrides(x);
      }
    }

    /** `setVarFlag`, without the record that `export` and `unexport` flags leave elsewhere. */
    method WriteVarFlag(x: Name, flag: string, value: Text)
      requires Valid() && Updates.CanSetFlag(x, flag, value)
      modifies this, dict, dict.own, overridedata
      ensures Valid() && Written() && Model() == Updates.SetFlag(old(Model()), x, flag, value)
      ensures overrides == if flag == "_defaultval" && (x == OVERRIDES || x == FILE) then None else old(overrides)
    {
      hide Level.Valid, OverrideData.Valid;
      PutFlag(x, flag, value, flag == "_defaultval" && |x| > 1);
      expandCache := map[];
      if flag == "_defaultval" && (x == OVERRIDES || x == FILE) {
        overrides := None;
      }
    }

    /** `delVarFlag`. */
    method RemoveVarFlag(x: Name, flag: string)
      requires Valid()
      modifies this, dict, dict.own
      ensures Valid() && Written() && Model() == Updates.DelFlag(old(Model()), x, flag)
      ensures overrides == old(overrides)
    {
      hide Level.Valid, OverrideData.Valid;
      expandCache := map[];
      dict.EraseFlag(x, flag);
    }

    /** The branch of `setVar` for `x:append`, `x:prepend` and their conditional forms. */
    method DeferOperation(kw: Keyword, value: Text)
      requires Valid() && kw.base != [] && !kw.kind.Remove?
      modifies this, dict, dict.own, overridedata
      ensures Valid() && Written() && Model() == Updates.Defer(old(Model()), kw, value)
      ensures overrides == old(overrides)
    {
      hide Level.Valid, OverrideData.Valid;
      expandCache := map[];
      dict.AddOp(kw.base, kw.kind, Op(value, kw.over));
      overridedata.UpdateOverrides(kw.base);
    }

    /** The active variants of `x`, if it has an index list at all. */
    method ActiveVariants(x: Name, ghost st: Store) returns (active: Option<seq<Name>>)
      requires Reading(st) && Sound(st) && !inoverride && expandCache == map[]
      requires x in st.index ==> OverridesFit(st, overrides, overridesset)
      modifies this
      ensures Reading(st) && OnlyRead()
      ensures old(OverridesFit(st, overrides, overridesset)) ==> OverridesFit(st, overrides, overridesset)
      ensures expandCache.Keys <= {OVERRIDES_KEY}
      ensures active == if x in st.index then Some(Updates.ActiveFulls(st.index[x], Overrides(st))) else None
    {
      hide Valid, CacheFits, Overrides, Sound;
      var l := FindVariants(x, st);
      if l == null {
        return None;
      }
      NeedOverrides(st);
      var fulls := [];
      for i := 0 to |l.items|
        invariant fulls == Updates.ActiveFulls(l.items[..i], overrides.value)
      {
        assert l.items[..i + 1][..i] == l.items[..i];
        var p := l.items[i];
        if forall c <- p.over :: c in overridesset {
          fulls := fulls + [p.full];
        }
      }
      assert l.items[..|l.items|] == l.items;
      active := Some(fulls);
    }

    method DelVars(xs: seq<Name>)
      requires Valid()
      modifies this, dict, overridedata
      ensures Valid() && Grown() && Model() == Updates.DelAll(old(Model()), xs)
      ensures inoverride == old(inoverride) && overrides == old(overrides) && overridesset == old(overridesset)
      ensures expandCache == old(expandCache) || expandCache == map[]
    {
      hide Level.Valid, OverrideData.Valid;
      for i := 0 to |xs|
        invariant Valid() && Grown() && Updates.DelAll(Model(), xs[i..]) == Updates.DelAll(old(Model()), xs)
        invariant inoverride == old(inoverride) && overrides == old(overrides) && overridesset == old(overridesset)
        invariant expandCache == old(expandCache) || expandCache == map[]
      {
        assert xs[i..][1..] == xs[i + 1..];
        RemoveVar(xs[i]);
      }
    }

    /** The part of a plain assignment that deals with the override variants. */
    method ClearVariants(x: Name, ghost st: Store)
      requires Reading(st) && Sound(st) && !inoverride && expandCache == map[]
      requires x in st.index ==> OverridesFit(st, overrides, overridesset)
      modifies this, dict, overridedata
      ensures Writing(Updates.ClearVariants(st, x)) && Grown()
      ensures old(OverridesFit(st, overrides, overridesset)) ==>
                OverridesFit(Updates.ClearVariants(st, x), overrides, overridesset)
    {
      hide Level.Valid, OverrideData.Valid, CacheFits, Overrides, Sound;
      Updates.ClearVariantsKeeps(st, x);
      var active := ActiveVariants(x, st);
      if active.Some? {
        DelVars(active.value);
        overridedata.Drop(x);
        EmptyFits(st);
        CacheCarries(st, Model(), expandCache);
      }
    }

    /** What holds inside `setVar` once it has emptied the cache. */
    ghost predicate Writing(st: Store)
      reads this, dict, dict.data, dict.own, dict.low, dict.lowFlags, dict.lists, overridedata, overridedata.used
    {
      && Valid() && Model() == st && Sound(st) && !inoverride
      && CacheFits(st, expandCache) && expandCache.Keys <= {OVERRIDES_KEY}
    }

    /** The part of a plain assignment that drops operations and variants. */
    method ClearBefore(x: Name, ghost st: Store)
      requires Writing(st) && expandCache == map[] && (x != OVERRIDES ==> OverridesFit(st, overrides, overridesset))
      modifies this, dict, dict.own, overridedata
      ensures Writing(Updates.Cleared(st, x)) && Grown()
      ensures x != OVERRIDES ==> OverridesFit(Updates.Cleared(st, x), overrides, overridesset)
    {
      hide Level.Valid, OverrideData.Valid, CacheFits, Overrides, Sound;
      Updates.ClearedKeeps(st, x);
      dict.EraseOps(x);
      ghost var mid := Put(st, x, Get(st, x).(append := [], prepend := []));
      EmptyFits(mid);
      ClearVariants(x, mid);
    }

    method PutContent(x: Name, value: Text, ghost st: Store)
      requires Writing(st) && (x != OVERRIDES ==> OverridesFit(st, overrides, overridesset))
      requires x != [] && (x[0] == "OVERRIDES" ==> x == OVERRIDES) && (x == OVERRIDES || x == FILE ==> Literal(value))
      modifies this, dict, dict.own, overridedata
      ensures Ready() && Grown() && Model() == Updates.WithContent(st, x, value)
    {
      hide Level.Valid, OverrideData.Valid, CacheFits, Overrides, Sound;
      Updates.WithContentKeeps(st, x, value);
      PutFlag(x, "_content", value, |x| > 1);
      if x == OVERRIDES || x == FILE {
        SetvarUpdateOverridevars(value);
        EmptyFits(Model());
      } else {
        CacheCarries(st, Model(), expandCache);
      }
    }

    /** The branch of `setVar` that assigns; operations and variants go unless this is parsing. */
    method Assign(x: Name, value: Text, parsing: bool)
      requires Ready() && x != [] && (x[0] == "OVERRIDES" ==> x == OVERRIDES)
      requires x == OVERRIDES || x == FILE ==> Literal(value)
      modifies this, dict, dict.own, overridedata
      ensures Ready() && Grown() && Model() == Updates.Assign(old(Model()), x, value, parsing)
    {
      hide Level.Valid, OverrideData.Valid, CacheFits, Overrides, Sound, OverridesFit;
      hide Updates.Assign, Updates.Cleared, Updates.WithContent;
      ghost var st := Model();
      Updates.AssignInSteps(st, x, value);
      expandCache := map[];
      EmptyFits(st);
      if parsing {
        PutContent(x, value, st);
      } else {
        ClearBefore(x, st);
        PutContent(x, value, Updates.Cleared(st, x));
      }
    }

    /** The branch of `setVar` for operations. */
    method Defer(kw: Keyword, value: Text)
      requires Ready() && kw.base != [] && !kw.kind.Remove?
      requires kw.base[0] == "OVERRIDES" ==> kw.base == OVERRIDES && kw.over == []
      requires kw.base == OVERRIDES || kw.base == FILE ==> Literal(value)
      modifies this, dict, dict.own, overridedata
      ensures Ready() && Grown() && Model() == Updates.Defer(old(Model()), kw, value)
    {
      hide Level.Valid, OverrideData.Valid, CacheFits, Overrides, Sound;
      Updates.DeferKeeps(Model(), kw, value);
      DeferOperation(kw, value);
      EmptyFits(Model());
      if kw.base == OVERRIDES || kw.base == FILE {
        SetvarUpdateOverridevars(value);
      }
    }

    /** `setVar`; names in the old override syntax are refused. */
    method SetVar(x: Name, value: Text, parsing: bool) returns (ok: bool)
      requires Ready() && x != [] && (!OldSyntax(x) ==> Updates.CanSet(x) && Updates.Careful(x, value))
      modifies this, dict, dict.own, overridedata
      ensures Ready() && Grown() && ok == !OldSyntax(x)
      ensures Model() == if ok then Updates.SetVar(old(Model()), x, value, parsing) else old(Model())
    {
      hide Level.Valid, OverrideData.Valid, CacheFits, Overrides, Sound, OldSyntax;
      ok := !OldSyntax(x);
      if !ok {
        return;
      }
      var kw := ParseKeyword(x);
      Updates.KeywordBase(x, 1);
      if kw.Some? {
        Defer(kw.value, value);
      } else {
        Assign(x, value, parsing);
      }
    }

    /**
      `delVar`. It does not reset the overrides, so those that OVERRIDES had may outlive it;
      [""] is what splitting no value gives.
     */
    method DelVar(x: Name)
      requires Ready()
      modifies this, dict, overridedata
      ensures Grown() && Model() == Updates.DelVar(old(Model()), x)
      ensures Ready() <==> x != OVERRIDES || old(overrides).None? || old(overrides).value == [""]
    {
      hide Level.Valid, OverrideData.Valid, CacheFits, Overrides, Sound;
      Updates.DelVarKeeps(Model(), x);
      RemoveVar(x);
      EmptyFits(Model());
    }

    /** A `_defaultval` resets the overrides; the other ways to give OVERRIDES a value by a flag do not. */
    method SetVarFlag(x: Name, flag: string, value: Text)
      requires Ready() && Updates.CanSetFlag(x, flag, value)
      modifies this, dict, dict.own, overridedata
      ensures Grown() && Model() == Updates.SetFlag(old(Model()), x, flag, value)
      ensures Updates.CarefulFlag(x, flag, value) ==> Ready()
      ensures Ready() <==>
                && PlainOverrides(Get(Model(), OVERRIDES))
                && (x != OVERRIDES || flag == "_defaultval" || old(overrides).None? ||
                    old(overrides).value == Overrides(Model()))
    {
      hide Level.Valid, OverrideData.Valid, CacheFits, Overrides, Sound, PlainOverrides;
      Updates.SetFlagKeeps(Model(), x, flag, value);
      if Updates.CarefulFlag(x, flag, value) {
        Updates.CarefulFlagKeeps(Model(), x, flag, value);
      }
      WriteVarFlag(x, flag, value);
      EmptyFits(Model());
      assert Sound(Model()) ==> PlainOverrides(Get(Model(), OVERRIDES));
    }

    /** Like `delVar`, it does not reset the overrides. */
    method DelVarFlag(x: Name, flag: string)
      requires Ready()
      modifies this, dict, dict.own
      ensures Grown() && Model() == Updates.DelFlag(old(Model()), x, flag)
      ensures x != OVERRIDES ==> Ready()
      ensures Ready() <==>
                PlainOverrides(Get(Model(), OVERRIDES)) && (old(overrides).None? || old(overrides).value == Overrides(Model()))
    {
      hide Level.Valid, OverrideData.Valid, CacheFits, Overrides, Sound;
      Updates.DelFlagKeeps(Model(), x, flag);
      RemoveVarFlag(x, flag);
      EmptyFits(Model());
    }

    /** `getVarFlag` as callers use it: the value of the flat store, and nothing changes. */
    method ReadVarFlag(x: Name, flag: string, expand: bool, noweakdefault: bool, parsing: bool) returns (value: Option<Text>)
      requires Ready() && Acyclic(Model()) && flag !in OPERATIONS && (parsing ==> !expand)
      modifies this
      ensures Ready() && Model() == old(Model())
      ensures var raw := RawFlag(Model(), x, flag, !noweakdefault, parsing);
              value == if expand then ExpandValue(Model(), raw) else raw
    {
      hide Level.Valid, OverrideData.Valid, CacheFits, Overrides;
      var parser;
      value, parser := GetVarFlag(x, flag, expand, noweakdefault, parsing, false, Model());
    }

    // ----- enumerating keys -----

    /** `__iter__`: the variables that have something, and those with an active variant. */
    method Keys() returns (keys: seq<Name>)
      requires Ready()
      modifies this
      ensures Ready() && Model() == old(Model())
      ensures forall i, j :: 0 <= i < j < |keys| ==> keys[i] != keys[j]
      ensures forall k :: k in keys <==> k in Model().vars || HasActiveVariant(Model(), k)
    {
      hide Level.Valid, OverrideData.Valid, CacheFits, Overrides, Sound;
      ghost var st := Model();
      NeedOverrides(st);
      var bases := overridedata.ActiveBases(overridesset, overrides.value);
      assert forall v :: v in bases <==> HasActiveVariant(st, v);
      var own := dict.KeyList({}, bases);
      assert forall k :: k in own <==> k in st.vars && k !in bases;
      var first := Enumerate(own);
      var second := Enumerate(bases);
      assert forall k <- second :: k !in first;
      ConcatDistinct(first, second);
      keys := first + second;
    }
  }

  lemma ConcatDistinct(a: seq<Name>, b: seq<Name>)
    requires forall i, j :: 0 <= i < j < |a| ==> a[i] != a[j]
    requires forall i, j :: 0 <= i < j < |b| ==> b[i] != b[j]
    requires forall k <- b :: k !in a
    ensures forall i, j :: 0 <= i < j < |a + b| ==> (a + b)[i] != (a + b)[j]
  {
    forall i, j | 0 <= i < j < |a + b|
      ensures (a + b)[i] != (a + b)[j]
    {
      if i < |a| <= j {
        assert b[j - |a|] in b && a[i] in a;
      }
    }
  }

  ghost predicate HasActiveVariant(st: Store, v: Name) {
    v in st.index && exists p <- st.index[v] :: IsActive(p.over, Overrides(st))
  }

  lemma ActiveVariantIff(st: Store, v: Name)
    ensures HasActiveVariant(st, v) <==>
            (v in st.index && exists p <- st.index[v] :: forall c <- p.over :: c in Overrides(st))
  {}

  method Enumerate(s: set<Name>) returns (q: seq<Name>)
    ensures forall i, j :: 0 <= i < j < |q| ==> q[i] != q[j]
    ensures forall k :: k in q <==> k in s
  {
    q := [];
    var todo := s;
    while todo != {}
      invariant todo <= s
      invariant forall i, j :: 0 <= i < j < |q| ==> q[i] != q[j]
      invariant forall k :: k in q <==> k in s - todo
      decreases todo
    {
      var k :| k in todo;
      assert k !in q;
      q := q + [k];
      todo := todo - {k};
    }
  }
}
