/**
  The datastore without its machinery: one flat map of variables, one index of override
  variants, and an evaluator that keeps nothing between reads.  The class in `DataSmart.dfy`
  is proved to behave like this.
 */
module FlatStore {
  import opened Wrappers
  import ColonText
  import opened Names
  import opened OverrideChoice

  /** A value is text with `${NAME}` references in it. */
  datatype Token = Lit(c: char) | Ref(name: Name)

  type Text = seq<Token>

  predicate Literal(t: Text) {
    forall tok <- t :: tok.Lit?
  }

  function Refs(t: Text): set<Name> {
    set tok <- t | tok.Ref? :: tok.name
  }

  /** A deferred `:append` or `:prepend`; `over == []` when it is unconditional. */
  datatype Op = Op(text: Text, over: Name)

  /** The flag dictionary of one variable. */
  datatype Entry = Entry(content: Option<Text>, append: seq<Op>, prepend: seq<Op>, flags: map<string, Text>)

  const NOTHING := Entry(None, [], [], map[])

  type Index = map<Name, seq<Pair>>

  /** Variables whose flag dictionary is empty count as absent. */
  datatype Store = Store(vars: map<Name, Entry>, index: Index)

  function EntryIn(vars: map<Name, Entry>, x: Name): Entry {
    if x in vars then vars[x] else NOTHING
  }

  function PutIn(vars: map<Name, Entry>, x: Name, e: Entry): map<Name, Entry> {
    if e == NOTHING then vars - {x} else vars[x := e]
  }

  lemma PutInLooks(vars: map<Name, Entry>, x: Name, e: Entry, y: Name)
    ensures EntryIn(PutIn(vars, x, e), y) == if y == x then e else EntryIn(vars, y)
  {}

  lemma PutInSame(vars: map<Name, Entry>, x: Name)
    requires forall y <- vars :: vars[y] != NOTHING
    ensures PutIn(vars, x, EntryIn(vars, x)) == vars
  {}

  function Get(st: Store, x: Name): Entry {
    EntryIn(st.vars, x)
  }

  function Put(st: Store, x: Name, e: Entry): Store {
    st.(vars := PutIn(st.vars, x, e))
  }

  // ----- the value of one entry -----

  /** The stored value of a flag, or its weak default when `weak` allows that. */
  function FlagValue(e: Entry, flag: string, weak: bool): Option<Text> {
    if flag == "_content" && e.content.Some? then e.content
    else if flag != "_content" && flag in e.flags then Some(e.flags[flag])
    else if flag == "_content" && "_defaultval" in e.flags && weak then Some(e.flags["_defaultval"])
    else if "_defaultval_flag_" + flag in e.flags && weak then Some(e.flags["_defaultval_flag_" + flag])
    else None
  }

  function WithAppends(v: Option<Text>, ops: seq<Op>, ovs: seq<Comp>): Option<Text> {
    if ops == [] then v
    else
      var init := WithAppends(v, ops[..|ops| - 1], ovs);
      var op := ops[|ops| - 1];
      if !IsActive(op.over, ovs) then init
      else if init.None? then Some(op.text)
      else Some(init.value + op.text)
  }

  function WithPrepends(v: Option<Text>, ops: seq<Op>, ovs: seq<Comp>): Option<Text> {
    if ops == [] then v
    else
      var init := WithPrepends(v, ops[..|ops| - 1], ovs);
      var op := ops[|ops| - 1];
      if !IsActive(op.over, ovs) then init
      else if init.None? then Some(op.text)
      else Some(op.text + init.value)
  }

  function WithOps(v: Option<Text>, e: Entry, ovs: seq<Comp>): Option<Text> {
    WithPrepends(WithAppends(v, e.append, ovs), e.prepend, ovs)
  }

  // ----- OVERRIDES -----

  function Letters(t: Text): string {
    if t == [] then ""
    else (if t[0].Lit? then [t[0].c] else "") + Letters(t[1..])
  }

  function SplitValue(v: Option<Text>): seq<Comp> {
    ColonText.Split(if v.Some? then Letters(v.value) else "")
  }

  /** OVERRIDES is given by literal text and unconditional operations. */
  predicate PlainOverrides(e: Entry) {
    && (forall op <- e.append + e.prepend :: op.over == [] && Literal(op.text))
    && var v := FlagValue(e, "_content", true); v.Some? ==> Literal(v.value)
  }

  function OverridesText(st: Store): Option<Text> {
    var e := Get(st, OVERRIDES);
    WithOps(FlagValue(e, "_content", true), e, [])
  }

  /** The list of overrides that the store's own OVERRIDES variable asks for. */
  function Overrides(st: Store): seq<Comp> {
    SplitValue(OverridesText(st))
  }

  // ----- well-formed stores -----

  /** A variant's name is longer than the variable it belongs to; OVERRIDES takes no part. */
  ghost predicate WellIndexed(index: Index) {
    && OVERRIDES !in index
    && (forall v <- index :: Proper(index[v]))
    && (forall v <- index :: forall p <- index[v] ::
          TextLength(p.full) > TextLength(v) && p.full != OVERRIDES)
  }

  ghost predicate Sound(st: Store) {
    && WellIndexed(st.index)
    && PlainOverrides(Get(st, OVERRIDES))
    && (forall x <- st.vars :: st.vars[x] != NOTHING)
  }

  // ----- reading without expansion -----

  ghost function LongestIn(pairs: seq<Pair>): (n: nat)
    ensures forall p <- pairs :: TextLength(p.full) <= n
  {
    if pairs == [] then 0
    else
      var n := LongestIn(pairs[1..]);
      assert forall p <- pairs :: p == pairs[0] || p in pairs[1..];
      if TextLength(pairs[0].full) > n then TextLength(pairs[0].full) else n
  }

  ghost function Longest(index: Index): (n: nat)
    ensures forall v <- index :: forall p <- index[v] :: TextLength(p.full) <= n
  {
    if index == map[] then 0
    else
      var v :| v in index;
      var m, n := LongestIn(index[v]), Longest(index - {v});
      assert forall w <- index :: w == v || (w in index - {v} && (index - {v})[w] == index[w]);
      if m > n then m else n
  }

  /** How many variants of variants there can be below `x`. */
  ghost function Depth(index: Index, x: Name): nat {
    if TextLength(x) <= Longest(index) then Longest(index) + 1 - TextLength(x) else 0
  }

  function VariantOf(st: Store, x: Name): (r: Option<Name>)
    requires WellIndexed(st.index)
    ensures r.Some? ==> x in st.index && Depth(st.index, r.value) < Depth(st.index, x)
    ensures r.Some? ==> r.value != OVERRIDES
  {
    if x in st.index then
      WinnerIsActive(st.index[x], Overrides(st));
      Winner(st.index[x], Overrides(st))
    else None
  }

  /** The value before expansion: the chosen variant or the own value, then the operations. */
  ghost function Raw(st: Store, x: Name, weak: bool): Option<Text>
    requires WellIndexed(st.index)
    decreases Depth(st.index, x)
  {
    var variant := VariantOf(st, x);
    var chosen := if variant.Some? then Raw(st, variant.value, true) else None;
    var e := Get(st, x);
    WithOps(if chosen.Some? then chosen else FlagValue(e, "_content", weak), e, Overrides(st))
  }

  /** The same for any flag; `parsing` looks at the stored value only. */
  ghost function RawFlag(st: Store, x: Name, flag: string, weak: bool, parsing: bool): Option<Text>
    requires WellIndexed(st.index)
  {
    if flag == "" then None
    else if flag == "_content" && !parsing then Raw(st, x, weak)
    else FlagValue(Get(st, x), flag, weak)
  }

  // ----- expansion -----

  ghost function RawRefs(st: Store, x: Name): set<Name>
    requires WellIndexed(st.index)
  {
    var v := Raw(st, x, true);
    if v.Some? then Refs(v.value) else {}
  }

  ghost predicate Ranked(st: Store, rank: Name -> nat)
    requires WellIndexed(st.index)
  {
    forall x, k {:trigger k in RawRefs(st, x)} :: k in RawRefs(st, x) ==> rank(k) < rank(x)
  }

  /** No variable's value refers back to it. */
  ghost predicate Acyclic(st: Store)
    requires WellIndexed(st.index)
  {
    exists rank: Name -> nat :: Ranked(st, rank)
  }

  ghost predicate Readable(st: Store) {
    Sound(st) && Acyclic(st)
  }

  ghost function Rank(st: Store): (rank: Name -> nat)
    requires Readable(st)
    ensures Ranked(st, rank)
  {
    var rank: Name -> nat :| Ranked(st, rank);
    rank
  }

  /** One more than the highest rank that a text refers to. */
  ghost function Top(st: Store, t: Text): (n: nat)
    requires Readable(st)
    ensures forall k <- Refs(t) :: Rank(st)(k) < n
  {
    if t == [] then 0
    else
      var n := Top(st, t[1..]);
      assert forall k <- Refs(t) :: k in Refs(t[1..]) || t[0] == Ref(k) by {
        forall k | k in Refs(t) ensures k in Refs(t[1..]) || t[0] == Ref(k) {
          assert Ref(k) in t;
        }
      }
      if t[0].Ref? && Rank(st)(t[0].name) >= n then Rank(st)(t[0].name) + 1 else n
  }

  lemma {:induction false} TopWithin(st: Store, t: Text, n: nat)
    requires Readable(st)
    requires forall k <- Refs(t) :: Rank(st)(k) < n
    ensures Top(st, t) <= n
  {
    if t != [] {
      assert forall k <- Refs(t[1..]) :: k in Refs(t);
      if t[0].Ref? {
        assert t[0].name in Refs(t);
      }
      TopWithin(st, t[1..], n);
    }
  }

  lemma TopSub(st: Store, t: Text, u: Text)
    requires Readable(st) && Refs(t) <= Refs(u)
    ensures Top(st, t) <= Top(st, u)
  {
    TopWithin(st, t, Top(st, u));
  }

  lemma TopOfRaw(st: Store, x: Name)
    requires Readable(st)
    ensures var v := Raw(st, x, true); v.Some? ==> Top(st, v.value) <= Rank(st)(x)
  {
    var v := Raw(st, x, true);
    if v.Some? {
      assert forall k <- Refs(v.value) :: k in RawRefs(st, x);
      TopWithin(st, v.value, Rank(st)(x));
    }
  }

  /** Every reference is replaced by the variable's full value, if it has one. */
  ghost function Expand(st: Store, t: Text): Text
    requires Readable(st)
    decreases Top(st, t), 1, |t|
  {
    if t == [] then []
    else
      TopSub(st, t[1..], t);
      assert t[0].Ref? ==> t[0].name in Refs(t);
      (match t[0]
       case Lit(_) => [t[0]]
       case Ref(k) => var v := Value(st, k); if v.Some? then v.value else [t[0]])
      + Expand(st, t[1..])
  }

  /** What `getVar(x)` means. */
  ghost function Value(st: Store, x: Name): Option<Text>
    requires Readable(st)
    decreases Rank(st)(x), 2, 0
  {
    TopOfRaw(st, x);
    var v := Raw(st, x, true);
    if v.Some? then Some(Expand(st, v.value)) else None
  }

  ghost function ExpandValue(st: Store, v: Option<Text>): Option<Text>
    requires Readable(st)
  {
    if v.Some? then Some(Expand(st, v.value)) else None
  }
}
