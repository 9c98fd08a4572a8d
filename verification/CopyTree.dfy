/**
  Runs of operations on a store, its copies, and copies of those to any depth.

  The heap objects of a copy overlap with those of its origin: dictionaries below the top, flag
  dictionaries not yet written, operation lists and index lists are the same objects.  Every run
  is nevertheless the same as one on flat stores that share nothing.
 */
module CopyTree {
  import opened Wrappers
  import opened Names
  import opened FlatStore
  import opened Datastore
  import Updates = StoreUpdates
  import Laws = StoreLaws

  datatype Command =
    | SetVar(x: Name, value: Text, parsing: bool)
    | DelVar(x: Name)
    | SetVarFlag(x: Name, flag: string, value: Text)
    | DelVarFlag(x: Name, flag: string)
    | GetVarFlag(x: Name, flag: string, expand: bool, noweakdefault: bool, parsing: bool)

  /** What the flat store becomes. */
  function Apply(st: Store, c: Command): Store
    requires c.SetVar? ==> c.x != [] && (!OldSyntax(c.x) ==> Updates.CanSet(c.x))
    requires c.SetVarFlag? ==> c.x != []
  {
    match c
    case SetVar(x, value, parsing) => if OldSyntax(x) then st else Updates.SetVar(st, x, value, parsing)
    case DelVar(x) => Updates.DelVar(st, x)
    case SetVarFlag(x, flag, value) => Updates.SetFlag(st, x, flag, value)
    case DelVarFlag(x, flag) => Updates.DelFlag(st, x, flag)
    case GetVarFlag(_, _, _, _, _) => st
  }

  /** The side conditions; reading with expansion needs acyclic references. */
  ghost predicate Allowed(st: Store, c: Command) {
    match c
    case SetVar(x, value, _) => x != [] && (!OldSyntax(x) ==> Updates.CanSet(x) && Updates.Careful(x, value))
    case DelVar(x) => x != OVERRIDES
    case SetVarFlag(x, flag, value) => Updates.CarefulFlag(x, flag, value)
    case DelVarFlag(x, flag) => x != OVERRIDES
    case GetVarFlag(_, flag, expand, _, parsing) =>
      Readable(st) && flag !in OPERATIONS && (parsing ==> !expand)
  }

  /** What the command returns: only reading returns something. */
  ghost function Answer(st: Store, c: Command): Option<Text>
    requires Allowed(st, c)
  {
    match c
    case GetVarFlag(x, flag, expand, noweakdefault, parsing) =>
      var raw := RawFlag(st, x, flag, !noweakdefault, parsing);
      if expand then ExpandValue(st, raw) else raw
    case _ => None
  }

  method Write(d: DataSmart, c: Command)
    requires d.Ready() && Allowed(d.Model(), c) && !c.GetVarFlag?
    modifies d, d.dict, d.dict.own, d.overridedata
    ensures d.Ready() && d.Grown() && d.Model() == Apply(old(d.Model()), c)
  {
    hide DataSmart.Ready;
    match c
    case SetVar(x, value, parsing) => var _ := d.SetVar(x, value, parsing);
    case DelVar(x) => d.DelVar(x);
    case SetVarFlag(x, flag, value) => d.SetVarFlag(x, flag, value);
    case DelVarFlag(x, flag) => d.DelVarFlag(x, flag);
  }

  method Consult(d: DataSmart, c: Command) returns (answer: Option<Text>)
    requires d.Ready() && Allowed(d.Model(), c) && c.GetVarFlag?
    modifies d
    ensures d.Ready() && d.Model() == old(d.Model()) && answer == Answer(d.Model(), c)
  {
    answer := d.ReadVarFlag(c.x, c.flag, c.expand, c.noweakdefault, c.parsing);
  }

  // ----- the reference: stores that share nothing -----

  datatype Event = Copy(i: nat) | Do(i: nat, c: Command)

  /** `frozen` are the stores that have been copied. */
  datatype Forest = Forest(stores: seq<Store>, frozen: set<nat>)

  /** A store that has been copied is only read from then on. */
  ghost predicate Legal(f: Forest, e: Event) {
    && e.i < |f.stores|
    && (e.Do? ==> Allowed(f.stores[e.i], e.c) && (e.i in f.frozen ==> e.c.GetVarFlag?))
  }

  ghost function Next(f: Forest, e: Event): Forest
    requires Legal(f, e)
  {
    match e
    case Copy(i) => Forest(f.stores + [f.stores[i]], f.frozen + {i})
    case Do(i, c) => Forest(f.stores[i := Apply(f.stores[i], c)], f.frozen)
  }

  ghost function Result(f: Forest, e: Event): Option<Text>
    requires Legal(f, e)
  {
    if e.Do? then Answer(f.stores[e.i], e.c) else None
  }

  ghost predicate LegalRun(f: Forest, es: seq<Event>)
    decreases |es|
  {
    es != [] ==> Legal(f, es[0]) && LegalRun(Next(f, es[0]), es[1..])
  }

  ghost function Final(f: Forest, es: seq<Event>): Forest
    requires LegalRun(f, es)
    decreases |es|
  {
    if es == [] then f else Final(Next(f, es[0]), es[1..])
  }

  ghost function Results(f: Forest, es: seq<Event>): seq<Option<Text>>
    requires LegalRun(f, es)
    decreases |es|
  {
    if es == [] then [] else [Result(f, es[0])] + Results(Next(f, es[0]), es[1..])
  }

  // ----- the objects -----

  /** Nothing that `a` may write is read by `b`. */
  ghost predicate Apart(a: DataSmart, b: DataSmart)
    reads a.dict, b.dict
  {
    && a.dict !in b.dict.low && a.dict != b.dict.data
    && (forall f <- a.dict.own :: f !in b.dict.own && f !in b.dict.lowFlags)
  }

  /** The stores implement the forest; the ones that may be written are apart from all others. */
  ghost predicate Implements(ds: seq<DataSmart>, f: Forest)
    reads *
  {
    && |ds| == |f.stores|
    && (forall i :: 0 <= i < |ds| ==> ds[i].Ready() && ds[i].Model() == f.stores[i])
    && (forall i, j :: 0 <= i < |ds| && 0 <= j < |ds| && i != j ==>
          && ds[i] != ds[j] && ds[i].dict != ds[j].dict && ds[i].overridedata != ds[j].overridedata
          && (i !in f.frozen ==> Apart(ds[i], ds[j])))
  }

  ghost function WritableBy(d: DataSmart): set<object>
    reads d.dict
  {
    {d as object, d.dict as object, d.overridedata as object} + d.dict.own
  }

  /** All objects that some store may write. */
  ghost function Writable(ds: seq<DataSmart>): set<object>
    reads set d <- ds :: d.dict
  {
    set d <- ds, o <- WritableBy(d) :: o
  }

  method DoCopy(ds: seq<DataSmart>, ghost f: Forest, i: nat) returns (c: DataSmart)
    requires Implements(ds, f) && i < |ds|
    ensures Implements(ds + [c], Next(f, Copy(i)))
    ensures fresh(WritableBy(c))
  {
    hide DataSmart.Ready;
    c := new DataSmart.Copy(ds[i]);
  }

  method DoWrite(ds: seq<DataSmart>, ghost f: Forest, i: nat, c: Command)
    requires Implements(ds, f) && Legal(f, Do(i, c)) && !c.GetVarFlag?
    modifies WritableBy(ds[i])
    ensures Implements(ds, Next(f, Do(i, c)))
    ensures forall d <- ds :: fresh(WritableBy(d) - old(WritableBy(d)))
  {
    hide DataSmart.Ready, Allowed;
    Write(ds[i], c);
    forall j | 0 <= j < |ds| && j != i
      ensures ds[j].Ready() && ds[j].Model() == f.stores[j]
      ensures i !in f.frozen ==> Apart(ds[i], ds[j])
      ensures j !in f.frozen ==> Apart(ds[j], ds[i])
    {
      assert old(Apart(ds[i], ds[j]));
    }
  }

  method DoRead(ds: seq<DataSmart>, ghost f: Forest, i: nat, c: Command) returns (answer: Option<Text>)
    requires Implements(ds, f) && Legal(f, Do(i, c)) && c.GetVarFlag?
    modifies ds[i]
    ensures forall d <- ds :: WritableBy(d) == old(WritableBy(d))
    ensures Implements(ds, Next(f, Do(i, c))) && answer == Answer(f.stores[i], c)
  {
    hide DataSmart.Ready, Allowed, Answer;
    answer := Consult(ds[i], c);
  }

  method DoEvent(ds: seq<DataSmart>, ghost f: Forest, e: Event) returns (ds': seq<DataSmart>, answer: Option<Text>)
    requires Implements(ds, f) && Legal(f, e)
    modifies Writable(ds)
    ensures Implements(ds', Next(f, e)) && answer == Result(f, e)
    ensures |ds| <= |ds'| <= |ds| + 1 && forall k :: 0 <= k < |ds| ==> ds'[k] == ds[k]
    ensures fresh(Writable(ds') - old(Writable(ds)))
  {
    hide DataSmart.Ready, Allowed, Implements;
    SameCount(ds, f);
    ds', answer := ds, None;
    assert WritableBy(ds[e.i]) <= Writable(ds);
    match e {
      case Copy(i) =>
        var c := DoCopy(ds, f, i);
        ds' := ds + [c];
      case Do(i, c) =>
        if c.GetVarFlag? {
          answer := DoRead(ds, f, i, c);
        } else {
          DoWrite(ds, f, i, c);
        }
    }
  }

  /** Any run over any tree of copies does what it would do to stores that share nothing. */
  method Run(ds: seq<DataSmart>, ghost f: Forest, es: seq<Event>)
    returns (ds': seq<DataSmart>, answers: seq<Option<Text>>)
    requires Implements(ds, f) && LegalRun(f, es)
    modifies Writable(ds)
    ensures Implements(ds', Final(f, es)) && answers == Results(f, es)
    ensures |ds| <= |ds'| && forall k :: 0 <= k < |ds| ==> ds'[k] == ds[k]
    ensures forall i <- f.frozen :: i < |ds| ==> ds[i].Ready() && ds[i].Model() == old(ds[i].Model())
    decreases |es|
  {
    if es == [] {
      return ds, [];
    }
    OriginalsAreKept(ds, f, es);
    hide DataSmart.Ready, Allowed, Answer, Implements, Result, Next;
    assert Legal(f, es[0]) && es[0].i < |ds| by { SameCount(ds, f); }
    var ds1, answer := DoEvent(ds, f, es[0]);
    var rest;
    ds', rest := Run(ds1, Next(f, es[0]), es[1..]);
    answers := [answer] + rest;
    Standing(ds', Final(f, es));
  }

  /** In the forest, the stores that have been copied stay what the objects stand for now. */
  lemma OriginalsAreKept(ds: seq<DataSmart>, f: Forest, es: seq<Event>)
    requires Implements(ds, f) && LegalRun(f, es)
    ensures forall i <- f.frozen :: i < |ds| ==> i < |Final(f, es).stores| && Final(f, es).stores[i] == ds[i].Model()
  {
    hide DataSmart.Ready, Next, Legal;
    forall i | i in f.frozen && i < |ds|
      ensures i < |Final(f, es).stores| && Final(f, es).stores[i] == ds[i].Model()
    {
      OriginalIsKept(f, es, i);
    }
  }

  lemma Standing(ds: seq<DataSmart>, f: Forest)
    requires Implements(ds, f)
    ensures |ds| == |f.stores| && forall i :: 0 <= i < |ds| ==> ds[i].Ready() && ds[i].Model() == f.stores[i]
  {}

  const START := Forest([Store(map[], map[])], {})

  /** The same for a tree that grows from one new store. */
  method RunFromNew(es: seq<Event>) returns (ds: seq<DataSmart>, answers: seq<Option<Text>>)
    requires LegalRun(START, es)
    ensures Implements(ds, Final(START, es)) && answers == Results(START, es)
  {
    var d := new DataSmart();
    ds, answers := Run([d], START, es);
  }

  lemma SameCount(ds: seq<DataSmart>, f: Forest)
    requires Implements(ds, f)
    ensures |ds| == |f.stores|
  {}

  /** A store that has been copied never changes again, whatever is done to its copies. */
  lemma {:induction false} OriginalIsKept(f: Forest, es: seq<Event>, i: nat)
    requires LegalRun(f, es) && i in f.frozen && i < |f.stores|
    ensures i < |Final(f, es).stores| && Final(f, es).stores[i] == f.stores[i]
    decreases |es|
  {
    if es != [] {
      OriginalIsKept(Next(f, es[0]), es[1..], i);
    }
  }

  /** No operation is set on a bare lower-case name. */
  ghost predicate Qualified(c: Command) {
    c.SetVar? && c.x != [] && ParseKeyword(c.x).Some? ==> !Laws.Unqualified(Updates.Target(c.x))
  }

  lemma ApplyKeepsIndex(st: Store, c: Command)
    requires Allowed(st, c) && Qualified(c) && Laws.IndexOk(st.index)
    ensures Laws.IndexOk(Apply(st, c).index)
  {
    match c
    case SetVar(x, value, parsing) =>
      if !OldSyntax(x) {
        Laws.SetVarIndexOk(st, x, value, parsing);
      }
    case DelVar(x) => Laws.DropFromIndexExact(st.index, x);
    case SetVarFlag(x, flag, value) => Laws.UpdateIndexOk(st.index, x);
    case _ =>
  }

  /** Through any run, in every copy, each pair listed for `v` has the form `v:o`, and none is listed twice. */
  lemma {:induction false} IndexesStayOk(f: Forest, es: seq<Event>)
    requires LegalRun(f, es) && forall e <- es :: e.Do? ==> Qualified(e.c)
    requires forall i :: 0 <= i < |f.stores| ==> Laws.IndexOk(f.stores[i].index)
    ensures forall i :: 0 <= i < |Final(f, es).stores| ==> Laws.IndexOk(Final(f, es).stores[i].index)
    decreases |es|
  {
    if es != [] {
      var e := es[0];
      assert e in es;
      hide Allowed, Apply, Qualified, Laws.IndexOk;
      if e.Do? {
        ApplyKeepsIndex(f.stores[e.i], e.c);
      }
      IndexesStayOk(Next(f, e), es[1..]);
    }
  }
}
