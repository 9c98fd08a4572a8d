/**
  What deferred operations do to a value: the appends and prepends whose conditions hold, in order,
  around the value of the chosen variant or the variable's own.
 */
module OperationLaws {
  import opened Wrappers
  import opened Names
  import opened OverrideChoice
  import opened FlatStore
  import opened StoreUpdates
  import Laws = StoreLaws

  // ----- the operations of one variable -----

  predicate Holds(over: Name, ovs: seq<Comp>) {
    forall c <- over :: c in ovs
  }

  /** The texts of the operations whose conditions hold. */
  function Chosen(ops: seq<Op>, ovs: seq<Comp>): seq<Text> {
    if ops == [] then []
    else
      var last := ops[|ops| - 1];
      Chosen(ops[..|ops| - 1], ovs) + if Holds(last.over, ovs) then [last.text] else []
  }

  function InOrder(ts: seq<Text>): Text {
    if ts == [] then [] else InOrder(ts[..|ts| - 1]) + ts[|ts| - 1]
  }

  function LastFirst(ts: seq<Text>): Text {
    if ts == [] then [] else ts[|ts| - 1] + LastFirst(ts[..|ts| - 1])
  }

  function OrEmpty(v: Option<Text>): Text {
    if v.Some? then v.value else []
  }

  /** A value with texts around it; without any text a missing value stays missing. */
  function Around(v: Option<Text>, appends: seq<Text>, prepends: seq<Text>): Option<Text> {
    if v.None? && appends == [] && prepends == [] then None
    else Some(LastFirst(prepends) + OrEmpty(v) + InOrder(appends))
  }

  lemma LastOf(ts: seq<Text>, t: Text)
    ensures InOrder(ts + [t]) == InOrder(ts) + t && LastFirst(ts + [t]) == t + LastFirst(ts)
  {
    assert (ts + [t])[..|ts|] == ts;
  }

  lemma {:induction false} AppendsAre(v: Option<Text>, ops: seq<Op>, ovs: seq<Comp>)
    ensures WithAppends(v, ops, ovs) == Around(v, Chosen(ops, ovs), [])
  {
    if ops == [] {
      NoTexts();
      assert v.Some? ==> [] + v.value + [] == v.value;
    } else {
      var init, op := ops[..|ops| - 1], ops[|ops| - 1];
      NoTexts();
      AppendsAre(v, init, ovs);
      LastOf(Chosen(init, ovs), op.text);
      assert IsActive(op.over, ovs) <==> Holds(op.over, ovs);
      assert Chosen(init, ovs) + [] == Chosen(init, ovs);
      var before := InOrder(Chosen(init, ovs));
      assert [] + OrEmpty(v) + (before + op.text) == [] + OrEmpty(v) + before + op.text;
      assert Chosen(init, ovs) == [] ==> before == [] && [] + [] + ([] + op.text) == op.text;
    }
  }

  lemma {:induction false} PrependsAre(v: Option<Text>, ops: seq<Op>, ovs: seq<Comp>)
    ensures WithPrepends(v, ops, ovs) == Around(v, [], Chosen(ops, ovs))
  {
    if ops == [] {
      NoTexts();
      assert v.Some? ==> [] + v.value + [] == v.value;
    } else {
      var init, op := ops[..|ops| - 1], ops[|ops| - 1];
      NoTexts();
      PrependsAre(v, init, ovs);
      LastOf(Chosen(init, ovs), op.text);
      assert IsActive(op.over, ovs) <==> Holds(op.over, ovs);
      assert Chosen(init, ovs) + [] == Chosen(init, ovs);
      var before := LastFirst(Chosen(init, ovs));
      assert (op.text + before) + OrEmpty(v) + [] == op.text + (before + OrEmpty(v) + []);
      assert Chosen(init, ovs) == [] ==> before == [] && (op.text + []) + [] + [] == op.text;
    }
  }

  lemma OpsAre(v: Option<Text>, e: Entry, ovs: seq<Comp>)
    ensures WithOps(v, e, ovs) == Around(v, Chosen(e.append, ovs), Chosen(e.prepend, ovs))
  {
    AppendsAre(v, e.append, ovs);
    PrependsAre(WithAppends(v, e.append, ovs), e.prepend, ovs);
    hide WithAppends, WithPrepends, Chosen, InOrder, LastFirst;
    NoTexts();
    var a, p := Chosen(e.append, ovs), Chosen(e.prepend, ovs);
    assert LastFirst(p) + ([] + OrEmpty(v) + InOrder(a)) + [] == LastFirst(p) + OrEmpty(v) + InOrder(a);
    assert LastFirst(p) + [] + [] == LastFirst(p) + [] + InOrder([]);
  }

  lemma NoTexts()
    ensures InOrder([]) == [] && LastFirst([]) == []
  {}

  /** What the operations are put around: the chosen variant's value, else the stored one, else a weak default. */
  ghost predicate IsBase(st: Store, x: Name, weak: bool, v: Option<Text>)
    requires WellIndexed(st.index)
  {
    var r, e := VariantOf(st, x), Get(st, x);
    if r.Some? && Raw(st, r.value, true).Some? then v == Raw(st, r.value, true)
    else if e.content.Some? then v == e.content
    else if weak && "_defaultval" in e.flags then v == Some(e.flags["_defaultval"])
    else if weak && "_defaultval_flag__content" in e.flags then v == Some(e.flags["_defaultval_flag__content"])
    else v.None?
  }

  /** A variable reads as its base, with the operations whose conditions hold around it. */
  lemma ReadsAround(st: Store, x: Name, weak: bool, v: Option<Text>)
    requires WellIndexed(st.index) && IsBase(st, x, weak, v)
    ensures Raw(st, x, weak) == Around(v, Chosen(Get(st, x).append, Overrides(st)), Chosen(Get(st, x).prepend, Overrides(st)))
  {
    BaseIsRead(st, x, weak, v);
    hide IsBase, Raw, WithOps, Chosen, Around, Overrides;
    OpsAre(v, Get(st, x), Overrides(st));
  }

  lemma BaseIsRead(st: Store, x: Name, weak: bool, v: Option<Text>)
    requires WellIndexed(st.index) && IsBase(st, x, weak, v)
    ensures Raw(st, x, weak) == WithOps(v, Get(st, x), Overrides(st))
  {
    assert "_defaultval_flag_" + "_content" == "_defaultval_flag__content";
    hide WithOps, Overrides, VariantOf, Get, WellIndexed;
  }

  lemma {:induction false} ChosenConcat(a: seq<Op>, b: seq<Op>, ovs: seq<Comp>)
    ensures Chosen(a + b, ovs) == Chosen(a, ovs) + Chosen(b, ovs)
  {
    if b == [] {
      assert a + b == a;
    } else {
      assert (a + b)[..|a + b| - 1] == a + b[..|b| - 1];
      ChosenConcat(a, b[..|b| - 1], ovs);
    }
  }

  lemma {:induction false} Unconditional(ops: seq<Op>, ovs: seq<Comp>, other: seq<Comp>)
    requires forall op <- ops :: op.over == []
    ensures Chosen(ops, ovs) == Chosen(ops, other)
  {
    if ops != [] {
      assert ops[|ops| - 1] in ops && forall op <- ops[..|ops| - 1] :: op in ops;
      Unconditional(ops[..|ops| - 1], ovs, other);
    }
  }

  // ----- appendVar, prependVar and their conditional forms -----

  datatype Extension = Appended(text: Text, over: Name) | Prepended(text: Text, over: Name)

  /** The name that `setVar` is given. */
  function NameOf(x: Name, e: Extension): Name {
    x + [if e.Appended? then "append" else "prepend"] + e.over
  }

  /** An empty condition counts as none. */
  function Condition(e: Extension): Name {
    if e.over == [""] then [] else e.over
  }

  ghost predicate MayExtend(x: Name, e: Extension)
    requires x != []
  {
    && NoUpper(e.over) && !OldSyntax(NameOf(x, e))
    && (x[0] == "OVERRIDES" ==> x == OVERRIDES && Condition(e) == [] && Literal(e.text))
  }

  lemma NameParses(x: Name, e: Extension)
    requires NoOperation(x) && NoUpper(e.over)
    ensures ParseKeyword(NameOf(x, e)) == Some(Keyword(x, if e.Appended? then Append else Prepend, Condition(e)))
  {
    KeywordFromSuffix(x, if e.Appended? then "append" else "prepend", e.over, 1);
  }

  function Extend(st: Store, x: Name, e: Extension): Store
    requires CanSet(NameOf(x, e))
  {
    SetVar(st, NameOf(x, e), e.text, true)
  }

  ghost function ExtendAll(st: Store, x: Name, es: seq<Extension>): Store
    requires forall e <- es :: CanSet(NameOf(x, e))
  {
    if es == [] then st
    else
      assert es[|es| - 1] in es && forall e <- es[..|es| - 1] :: e in es;
      Extend(ExtendAll(st, x, es[..|es| - 1]), x, es[|es| - 1])
  }

  /** The appended texts whose conditions hold, in order. */
  function Appends(es: seq<Extension>, ovs: seq<Comp>): seq<Text> {
    if es == [] then []
    else
      var e := es[|es| - 1];
      Appends(es[..|es| - 1], ovs) + if e.Appended? && (forall c <- Condition(e) :: c in ovs) then [e.text] else []
  }

  function Prepends(es: seq<Extension>, ovs: seq<Comp>): seq<Text> {
    if es == [] then []
    else
      var e := es[|es| - 1];
      Prepends(es[..|es| - 1], ovs) + if e.Prepended? && (forall c <- Condition(e) :: c in ovs) then [e.text] else []
  }

  /** What one extension does to the store. */
  lemma ExtendIs(st: Store, x: Name, e: Extension)
    requires Sound(st) && NoOperation(x) && MayExtend(x, e)
    ensures CanSet(NameOf(x, e))
    ensures var st', was := Extend(st, x, e), Get(st, x);
            && Sound(st') && (x != OVERRIDES ==> Overrides(st') == Overrides(st))
            && Get(st', x) == (if e.Appended? then was.(append := was.append + [Op(e.text, Condition(e))])
                               else was.(prepend := was.prepend + [Op(e.text, Condition(e))]))
            && (forall y :: y != x ==> Get(st', y) == Get(st, y))
            && st'.index == UpdateIndex(st.index, x)
  {
    hide Sound, Overrides, UpdateIndex, Defer, Condition;
    var kw := Keyword(x, if e.Appended? then Append else Prepend, Condition(e));
    ExtendIsDefer(st, x, e);
    DeferKeeps(st, kw, e.text);
    DeferEntries(st, kw, e.text);
  }

  lemma ExtendIsDefer(st: Store, x: Name, e: Extension)
    requires NoOperation(x) && NoUpper(e.over) && !OldSyntax(NameOf(x, e))
    ensures CanSet(NameOf(x, e))
    ensures Extend(st, x, e) == Defer(st, Keyword(x, if e.Appended? then Append else Prepend, Condition(e)), e.text)
  {
    hide Defer, Condition, OldSyntax;
    NameParses(x, e);
  }

  /** Only the variable itself changes, by one more operation. */
  lemma DeferEntries(st: Store, kw: Keyword, value: Text)
    requires kw.base != [] && !kw.kind.Remove?
    ensures var st', was := Defer(st, kw, value), Get(st, kw.base);
            && Get(st', kw.base) == (if kw.kind.Append? then was.(append := was.append + [Op(value, kw.over)])
                                     else was.(prepend := was.prepend + [Op(value, kw.over)]))
            && (forall y :: y != kw.base ==> Get(st', y) == Get(st, y))
            && st'.index == UpdateIndex(st.index, kw.base)
  {
    hide UpdateIndex;
  }

  /** The insertion loop only writes lists of shorter names. */
  lemma {:induction false} AddSplitsShorter(index: Index, x: Name, k: nat, y: Name)
    requires 1 <= k < |x| && TextLength(y) >= TextLength(x)
    ensures (y in AddSplits(index, x, k) <==> y in index) && (y in index ==> AddSplits(index, x, k)[y] == index[y])
    decreases k
  {
    TextLengthConcat(x[..k], x[k..]);
    assert x[..k] + x[k..] == x;
    assert TextLength(x[k..]) > 0;
    if IsOverrideComp(x[k]) && k > 1 && x[..k - 1] != [""] {
      AddSplitsShorter(AddPair(index, x[..k], Pair(x, x[k..])), x, k - 1, y);
    }
  }

  lemma UpdateIndexShorter(index: Index, x: Name, y: Name)
    requires x != [] && TextLength(y) >= TextLength(x)
    ensures (y in UpdateIndex(index, x) <==> y in index) && (y in index ==> UpdateIndex(index, x)[y] == index[y])
  {
    if |x| > 1 {
      AddSplitsShorter(index, x, |x| - 1, y);
    } else if IsOverrideComp(x[0]) {
      var short: Name := [x[0][..|x[0]| - 1]];
      assert short[1..] == [] && x[1..] == [];
      assert TextLength(short) < TextLength(x);
    }
  }

  /** Stores that agree on everything longer than `x`. */
  ghost predicate AgreeBeyond(st: Store, st': Store, x: Name) {
    && WellIndexed(st.index) && WellIndexed(st'.index) && Overrides(st) == Overrides(st')
    && forall y :: TextLength(y) > TextLength(x) ==>
         Get(st, y) == Get(st', y) && (y in st.index <==> y in st'.index) && (y in st.index ==> st.index[y] == st'.index[y])
  }

  lemma VariantIsLonger(st: Store, y: Name)
    requires WellIndexed(st.index)
    ensures var r := VariantOf(st, y); r.Some? ==> TextLength(r.value) > TextLength(y) && Depth(st.index, r.value) < Depth(st.index, y)
  {
    if y in st.index {
      WinnerIsActive(st.index[y], Overrides(st));
    }
  }

  lemma {:induction false} SameBeyond(st: Store, st': Store, x: Name, y: Name, weak: bool)
    requires AgreeBeyond(st, st', x) && TextLength(y) > TextLength(x)
    ensures Raw(st, y, weak) == Raw(st', y, weak)
    decreases Depth(st.index, y)
  {
    hide Overrides, Winner, WithOps, FlagValue, Depth, TextLength;
    VariantIsLonger(st, y);
    var r := VariantOf(st, y);
    assert r == VariantOf(st', y);
    if r.Some? {
      SameBeyond(st, st', x, r.value, true);
    }
  }

  lemma ExtendAgrees(st: Store, x: Name, e: Extension)
    requires Sound(st) && NoOperation(x) && MayExtend(x, e) && x != OVERRIDES
    ensures CanSet(NameOf(x, e)) && AgreeBeyond(st, Extend(st, x, e), x)
    ensures x in st.index <==> x in Extend(st, x, e).index
    ensures x in st.index ==> Extend(st, x, e).index[x] == st.index[x]
  {
    hide Overrides, UpdateIndex, TextLength, Extend, MayExtend, NameOf, PlainOverrides;
    ExtendIs(st, x, e);
    forall y | TextLength(y) >= TextLength(x)
      ensures (y in UpdateIndex(st.index, x) <==> y in st.index) && (y in st.index ==> UpdateIndex(st.index, x)[y] == st.index[y])
    {
      UpdateIndexShorter(st.index, x, y);
    }
  }

  lemma SameVariant(st: Store, x: Name, e: Extension)
    requires Sound(st) && NoOperation(x) && MayExtend(x, e)
    ensures CanSet(NameOf(x, e)) && Sound(Extend(st, x, e))
    ensures var r := VariantOf(st, x);
            r == VariantOf(Extend(st, x, e), x) && (r.Some? ==> Raw(Extend(st, x, e), r.value, true) == Raw(st, r.value, true))
  {
    ExtendIs(st, x, e);
    var st' := Extend(st, x, e);
    hide Overrides, Extend, Raw, Winner, MayExtend;
    if x != OVERRIDES {
      ExtendAgrees(st, x, e);
      VariantIsLonger(st, x);
      var r := VariantOf(st, x);
      if r.Some? {
        SameBeyond(st, st', x, r.value, true);
      }
    }
  }

  lemma SameBaseIn(st: Store, st': Store, x: Name, weak: bool, v: Option<Text>)
    requires WellIndexed(st.index) && WellIndexed(st'.index) && IsBase(st, x, weak, v)
    requires Get(st', x).content == Get(st, x).content && Get(st', x).flags == Get(st, x).flags
    requires var r := VariantOf(st, x);
             r == VariantOf(st', x) && (r.Some? ==> Raw(st', r.value, true) == Raw(st, r.value, true))
    ensures IsBase(st', x, weak, v)
  {
    hide VariantOf, Raw, Get, WellIndexed;
  }

  /** An operation does not change what it is put around. */
  lemma SameBase(st: Store, x: Name, e: Extension, weak: bool, v: Option<Text>)
    requires Sound(st) && NoOperation(x) && MayExtend(x, e) && IsBase(st, x, weak, v)
    ensures CanSet(NameOf(x, e)) && Sound(Extend(st, x, e)) && IsBase(Extend(st, x, e), x, weak, v)
  {
    hide Overrides, Extend, Raw, VariantOf, MayExtend, UpdateIndex, NameOf, PlainOverrides, WellIndexed, Get, IsBase;
    ExtendIs(st, x, e);
    SameVariant(st, x, e);
    SameBaseIn(st, Extend(st, x, e), x, weak, v);
  }

  lemma BaseExists(st: Store, x: Name, weak: bool) returns (v: Option<Text>)
    requires WellIndexed(st.index)
    ensures IsBase(st, x, weak, v)
  {
    hide Raw, Winner, Overrides;
    var r, e := VariantOf(st, x), Get(st, x);
    v := if r.Some? && Raw(st, r.value, true).Some? then Raw(st, r.value, true)
         else if e.content.Some? then e.content
         else if weak && "_defaultval" in e.flags then Some(e.flags["_defaultval"])
         else if weak && "_defaultval_flag__content" in e.flags then Some(e.flags["_defaultval_flag__content"])
         else None;
  }

  /** The operations of `es`, as they are stored. */
  ghost predicate HasOps(st: Store, st': Store, x: Name, es: seq<Extension>) {
    && (forall ovs :: Chosen(Get(st', x).append, ovs) == Chosen(Get(st, x).append, ovs) + Appends(es, ovs))
    && (forall ovs :: Chosen(Get(st', x).prepend, ovs) == Chosen(Get(st, x).prepend, ovs) + Prepends(es, ovs))
  }

  lemma ChosenMore(ops: seq<Op>, text: Text, over: Name, ovs: seq<Comp>)
    ensures Chosen(ops + [Op(text, over)], ovs) == Chosen(ops, ovs) + if (forall c <- over :: c in ovs) then [text] else []
  {
    assert (ops + [Op(text, over)])[..|ops|] == ops;
  }

  lemma AppendsMore(init: seq<Extension>, e: Extension, ovs: seq<Comp>)
    ensures Appends(init + [e], ovs) ==
            Appends(init, ovs) + if e.Appended? && (forall c <- Condition(e) :: c in ovs) then [e.text] else []
    ensures Prepends(init + [e], ovs) ==
            Prepends(init, ovs) + if e.Prepended? && (forall c <- Condition(e) :: c in ovs) then [e.text] else []
  {
    assert (init + [e])[..|init|] == init;
  }

  lemma ExtendAddsOp(st: Store, st1: Store, x: Name, init: seq<Extension>, e: Extension)
    requires Sound(st1) && NoOperation(x) && MayExtend(x, e) && HasOps(st, st1, x, init)
    ensures CanSet(NameOf(x, e)) && HasOps(st, Extend(st1, x, e), x, init + [e])
  {
    ExtendIs(st1, x, e);
    hide Extend, Overrides, Sound, Chosen, MayExtend, Appends, Prepends, NameOf, Condition, UpdateIndex;
    AddsOp(Get(st, x), Get(st1, x), Get(Extend(st1, x, e), x), init, e);
  }

  lemma AddsOp(first: Entry, was: Entry, now: Entry, init: seq<Extension>, e: Extension)
    requires forall ovs :: Chosen(was.append, ovs) == Chosen(first.append, ovs) + Appends(init, ovs)
    requires forall ovs :: Chosen(was.prepend, ovs) == Chosen(first.prepend, ovs) + Prepends(init, ovs)
    requires now == if e.Appended? then was.(append := was.append + [Op(e.text, Condition(e))])
                    else was.(prepend := was.prepend + [Op(e.text, Condition(e))])
    ensures forall ovs :: Chosen(now.append, ovs) == Chosen(first.append, ovs) + Appends(init + [e], ovs)
    ensures forall ovs :: Chosen(now.prepend, ovs) == Chosen(first.prepend, ovs) + Prepends(init + [e], ovs)
  {
    hide Chosen, Appends, Prepends, Condition;
    forall ovs
      ensures Chosen(now.append, ovs) == Chosen(first.append, ovs) + Appends(init + [e], ovs)
      ensures Chosen(now.prepend, ovs) == Chosen(first.prepend, ovs) + Prepends(init + [e], ovs)
    {
      AppendsMore(init, e, ovs);
      if e.Appended? {
        ChosenMore(was.append, e.text, Condition(e), ovs);
        assert Prepends(init, ovs) + [] == Prepends(init, ovs);
      } else {
        ChosenMore(was.prepend, e.text, Condition(e), ovs);
        assert Appends(init, ovs) + [] == Appends(init, ovs);
      }
    }
  }

  lemma {:induction false} ExtendAllIs(st: Store, x: Name, es: seq<Extension>, weak: bool, v: Option<Text>)
    requires Sound(st) && NoOperation(x) && IsBase(st, x, weak, v) && forall e <- es :: MayExtend(x, e)
    ensures forall e <- es :: CanSet(NameOf(x, e))
    ensures var st' := ExtendAll(st, x, es);
            && Sound(st') && IsBase(st', x, weak, v) && HasOps(st, st', x, es)
            && (x != OVERRIDES ==> Overrides(st') == Overrides(st))
  {
    hide Overrides, Sound, Extend, IsBase, HasOps, MayExtend;
    forall e | e in es
      ensures CanSet(NameOf(x, e))
    {
      ExtendIs(st, x, e);
    }
    if es == [] {
      NoExtensions(st, x);
    } else {
      var init, e := es[..|es| - 1], es[|es| - 1];
      assert e in es && init + [e] == es && forall d <- init :: d in es;
      ExtendAllIs(st, x, init, weak, v);
      var st1 := ExtendAll(st, x, init);
      ExtendIs(st1, x, e);
      SameBase(st1, x, e, weak, v);
      ExtendAddsOp(st, st1, x, init, e);
    }
  }

  lemma NoExtensions(st: Store, x: Name)
    ensures HasOps(st, st, x, [])
  {}

  lemma {:induction false} InOrderConcat(a: seq<Text>, b: seq<Text>)
    ensures InOrder(a + b) == InOrder(a) + InOrder(b) && LastFirst(a + b) == LastFirst(b) + LastFirst(a)
  {
    if b == [] {
      assert a + b == a;
    } else {
      var init, t := b[..|b| - 1], b[|b| - 1];
      assert a + b == (a + init) + [t] && b == init + [t];
      LastOf(a + init, t);
      LastOf(init, t);
      InOrderConcat(a, init);
    }
  }

  lemma AroundTwice(v: Option<Text>, a: seq<Text>, p: seq<Text>, more: seq<Text>, before: seq<Text>)
    ensures Around(v, a + more, p + before) == Around(Around(v, a, p), more, before)
  {
    NoTexts();
    InOrderConcat(a, more);
    InOrderConcat(p, before);
    hide InOrder, LastFirst;
    if v.None? && a == [] && p == [] {
      assert a + more == more && p + before == before;
    } else {
      var w := LastFirst(p) + OrEmpty(v) + InOrder(a);
      assert Around(v, a, p) == Some(w);
      assert LastFirst(before) + w + InOrder(more) ==
             (LastFirst(before) + LastFirst(p)) + OrEmpty(v) + (InOrder(a) + InOrder(more));
    }
  }

  /** In OVERRIDES itself no operation has a condition. */
  lemma NoConditions(st: Store, ovs: seq<Comp>, other: seq<Comp>)
    requires Sound(st)
    ensures Chosen(Get(st, OVERRIDES).append, ovs) == Chosen(Get(st, OVERRIDES).append, other)
    ensures Chosen(Get(st, OVERRIDES).prepend, ovs) == Chosen(Get(st, OVERRIDES).prepend, other)
  {
    var e := Get(st, OVERRIDES);
    assert forall op <- e.append :: op in e.append + e.prepend;
    assert forall op <- e.prepend :: op in e.append + e.prepend;
    Unconditional(e.append, ovs, other);
    Unconditional(e.prepend, ovs, other);
  }

  /**
    From any state, with or without a value, with variants or without: after any interleaving of
    `x:append`, `x:prepend` and their conditional forms the variable reads as it would have, with the
    prepends whose conditions hold before it, last first, and the appends whose conditions hold after it.
   */
  lemma ExtendedReads(st: Store, x: Name, es: seq<Extension>, weak: bool)
    requires Sound(st) && NoOperation(x) && forall e <- es :: MayExtend(x, e)
    ensures forall e <- es :: CanSet(NameOf(x, e))
    ensures var st' := ExtendAll(st, x, es);
            && Sound(st')
            && Raw(st', x, weak) == Around(Raw(st, x, weak), Appends(es, Overrides(st')), Prepends(es, Overrides(st')))
  {
    var v := BaseExists(st, x, weak);
    ExtendAllIs(st, x, es, weak, v);
    var st' := ExtendAll(st, x, es);
    ReadsAround(st, x, weak, v);
    ReadsAround(st', x, weak, v);
    var ovs, e := Overrides(st'), Get(st, x);
    if x == OVERRIDES {
      NoConditions(st, Overrides(st), ovs);
    }
    AroundTwice(v, Chosen(e.append, ovs), Chosen(e.prepend, ovs), Appends(es, ovs), Prepends(es, ovs));
    hide Overrides, Raw, Chosen, Around, Appends, Prepends, IsBase, MayExtend, WellIndexed, ExtendAll;
  }

  /** An assignment followed by any such operations. */
  lemma AssignThenExtend(st: Store, x: Name, value: Text, es: seq<Extension>)
    requires Sound(st) && NoOperation(x) && CanSet(x) && Careful(x, value) && ParseKeyword(x).None?
    requires forall e <- es :: MayExtend(x, e)
    ensures forall e <- es :: CanSet(NameOf(x, e))
    ensures var st' := ExtendAll(SetVar(st, x, value, false), x, es);
            var ovs := Overrides(st');
            Sound(st') && Raw(st', x, true) == Some(LastFirst(Prepends(es, ovs)) + value + InOrder(Appends(es, ovs)))
  {
    Laws.AssignThenRead(st, x, value);
    ExtendedReads(SetVar(st, x, value, false), x, es, true);
    hide SetVar, Overrides, Raw, Sound, ExtendAll;
  }
}
