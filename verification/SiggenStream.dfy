/**
  The stream codec of `SiggenRecipeInfo`: values are numbered when first sent and referred to by
  number afterwards; the receiver keeps one table per sending process and interns every value.
 */
module SiggenStream {
  import opened Wrappers

  /** The values: strings, and frozen sets of variable names. */
  datatype Value = Text(s: string) | Names(vars: set<string>)

  /** An object in the receiving process; `id` is its identity. */
  datatype Obj = Obj(id: nat, value: Value)

  /** One dictionary entry; Python's None is a value as well. */
  datatype Entry = Entry(dep: string, fs: Option<Value>)

  /** The saved form: `fs` only at the first occurrence, `num` unless the value is None. */
  datatype Item = Item(dep: string, fs: Option<Value>, num: Option<nat>)

  datatype Restored = Restored(dep: string, obj: Option<Obj>)

  // ----- one value -----

  datatype Saver = Saver(nums: map<Value, nat>, count: nat)

  const FRESH := Saver(map[], 1)

  function SaveEntry(sv: Saver, e: Entry): (Saver, Item) {
    if e.fs.None? then (sv, Item(e.dep, None, None))
    else if e.fs.value in sv.nums then (sv, Item(e.dep, None, Some(sv.nums[e.fs.value])))
    else (Saver(sv.nums[e.fs.value := sv.count], sv.count + 1), Item(e.dep, e.fs, Some(sv.count)))
  }

  type Table = map<nat, Obj>

  /** The receiver's state for one sender, with the intern store; `nextId` is the next new object's. */
  datatype Restorer = Restorer(table: Table, store: map<Value, Obj>, nextId: nat)

  /** None stands for the KeyError of a number that is not in the table. */
  function RestoreItem(r: Restorer, i: Item): Option<(Restorer, Restored)> {
    match (i.fs, i.num)
    case (None, None) => Some((r, Restored(i.dep, None)))
    case (None, Some(n)) => if n in r.table then Some((r, Restored(i.dep, Some(r.table[n])))) else None
    case (Some(v), num) =>
      var unpickled := Obj(r.nextId, v);
      var obj := if v in r.store then r.store[v] else unpickled;
      var table := if num.Some? then r.table[num.value := obj] else r.table;
      Some((Restorer(table, r.store[v := obj], r.nextId + 1), Restored(i.dep, Some(obj))))
  }

  // ----- dictionaries -----

  function SaveAll(sv: Saver, es: seq<Entry>): (Saver, seq<Item>) {
    if es == [] then (sv, [])
    else
      var (sv1, items) := SaveAll(sv, es[..|es| - 1]);
      var (sv2, item) := SaveEntry(sv1, es[|es| - 1]);
      (sv2, items + [item])
  }

  function RestoreAll(r: Restorer, items: seq<Item>): Option<(Restorer, seq<Restored>)> {
    if items == [] then Some((r, []))
    else
      match RestoreAll(r, items[..|items| - 1])
      case None => None
      case Some((r1, out)) =>
        match RestoreItem(r1, items[|items| - 1])
        case None => None
        case Some((r2, one)) => Some((r2, out + [one]))
  }

  /** A field is absent or a dictionary; both None and an empty dictionary are sent as they are. */
  datatype Field = Absent | Dict(entries: seq<Entry>)

  datatype Saved = AsIs(absent: bool) | List(items: seq<Item>)

  datatype Loaded = NoField | Loaded(entries: seq<Restored>)

  function SaveField(sv: Saver, f: Field): (Saver, Saved) {
    match f
    case Absent => (sv, AsIs(true))
    case Dict(es) =>
      if es == [] then (sv, AsIs(false))
      else var (sv', items) := SaveAll(sv, es); (sv', List(items))
  }

  function RestoreField(r: Restorer, s: Saved): Option<(Restorer, Loaded)> {
    match s
    case AsIs(absent) => Some((r, if absent then NoField else Loaded([])))
    case List(items) =>
      match RestoreAll(r, items)
      case None => None
      case Some((r', out)) => Some((r', Loaded(out)))
  }

  // ----- records -----

  /** `siggen_gendeps`, `siggen_taskdeps` and `siggen_varvals`, in the order they are saved. */
  datatype Record<T> = Record(gendeps: T, taskdeps: T, varvals: T)

  function SaveRecord(sv: Saver, rec: Record<Field>): (Saver, Record<Saved>) {
    var (sv1, a) := SaveField(sv, rec.gendeps);
    var (sv2, b) := SaveField(sv1, rec.taskdeps);
    var (sv3, c) := SaveField(sv2, rec.varvals);
    (sv3, Record(a, b, c))
  }

  function RestoreRecord(r: Restorer, m: Record<Saved>): Option<(Restorer, Record<Loaded>)> {
    match RestoreField(r, m.gendeps)
    case None => None
    case Some((r1, a)) =>
      match RestoreField(r1, m.taskdeps)
      case None => None
      case Some((r2, b)) =>
        match RestoreField(r2, m.varvals)
        case None => None
        case Some((r3, c)) => Some((r3, Record(a, b, c)))
  }

  // ----- round trip for one sender -----

  ghost predicate Interned(store: map<Value, Obj>) {
    forall v <- store :: store[v].value == v
  }

  /** The receiver's table is the inverse of the sender's map, and all its objects are interned. */
  ghost predicate InStep(sv: Saver, r: Restorer) {
    && Interned(r.store)
    && (forall v <- sv.nums :: sv.nums[v] < sv.count)
    && (forall v <- sv.nums :: sv.nums[v] in r.table && v in r.store && r.table[sv.nums[v]] == r.store[v])
  }

  /** Interned objects stay where they are. */
  ghost predicate Grows(before: map<Value, Obj>, after: map<Value, Obj>) {
    forall v <- before :: v in after && after[v] == before[v]
  }

  /** The restored entry has the original's value, and that is the interned object. */
  ghost predicate SameEntry(e: Entry, x: Restored, store: map<Value, Obj>) {
    && x.dep == e.dep
    && (e.fs.None? <==> x.obj.None?)
    && (e.fs.Some? ==> x.obj.value.value == e.fs.value && e.fs.value in store && store[e.fs.value] == x.obj.value)
  }

  ghost predicate SameEntries(es: seq<Entry>, xs: seq<Restored>, store: map<Value, Obj>) {
    |xs| == |es| && forall i :: 0 <= i < |es| ==> SameEntry(es[i], xs[i], store)
  }

  ghost predicate SameField(f: Field, x: Loaded, store: map<Value, Obj>) {
    match f
    case Absent => x.NoField?
    case Dict(es) => x.Loaded? && SameEntries(es, x.entries, store)
  }

  ghost predicate SameRecord(rec: Record<Field>, x: Record<Loaded>, store: map<Value, Obj>) {
    && SameField(rec.gendeps, x.gendeps, store)
    && SameField(rec.taskdeps, x.taskdeps, store)
    && SameField(rec.varvals, x.varvals, store)
  }

  lemma EntryRoundTrip(sv: Saver, r: Restorer, e: Entry)
    requires InStep(sv, r)
    ensures var (sv', item) := SaveEntry(sv, e);
            RestoreItem(r, item).Some? &&
            var (r', x) := RestoreItem(r, item).value;
            InStep(sv', r') && Grows(r.store, r'.store) && SameEntry(e, x, r'.store)
  {}

  lemma SameEntriesMore(es: seq<Entry>, xs: seq<Restored>, before: map<Value, Obj>, e: Entry, x: Restored,
                        after: map<Value, Obj>)
    requires SameEntries(es, xs, before) && Grows(before, after) && SameEntry(e, x, after)
    ensures SameEntries(es + [e], xs + [x], after)
  {
    forall i | 0 <= i < |es|
      ensures SameEntry(es[i], xs[i], after)
    {
      assert SameEntry(es[i], xs[i], before);
    }
  }

  lemma {:induction false} EntriesRoundTrip(sv: Saver, r: Restorer, es: seq<Entry>)
    requires InStep(sv, r)
    ensures var (sv', items) := SaveAll(sv, es);
            RestoreAll(r, items).Some? &&
            var (r', xs) := RestoreAll(r, items).value;
            InStep(sv', r') && Grows(r.store, r'.store) && SameEntries(es, xs, r'.store)
  {
    hide InStep, SaveEntry, RestoreItem, SameEntry, SameEntries, RestoreAll;
    if es == [] {
      NothingToRestore(r);
    } else {
      var init, last := es[..|es| - 1], es[|es| - 1];
      EntriesRoundTrip(sv, r, init);
      var (sv1, items1) := SaveAll(sv, init);
      var (r1, xs1) := RestoreAll(r, items1).value;
      EntryRoundTrip(sv1, r1, last);
      var (sv2, item) := SaveEntry(sv1, last);
      var (r2, x) := RestoreItem(r1, item).value;
      RestoreAllMore(r, items1, item);
      SameEntriesMore(init, xs1, r1.store, last, x, r2.store);
      assert init + [last] == es;
    }
  }

  lemma RestoreAllMore(r: Restorer, items: seq<Item>, item: Item)
    requires RestoreAll(r, items).Some?
    ensures var (r1, xs) := RestoreAll(r, items).value;
            RestoreAll(r, items + [item]) ==
            match RestoreItem(r1, item) {
              case None => None
              case Some((r2, x)) => Some((r2, xs + [x]))
            }
  {
    hide RestoreItem;
    assert (items + [item])[..|items|] == items;
  }

  lemma NothingToRestore(r: Restorer)
    ensures RestoreAll(r, []) == Some((r, [])) && SameEntries([], [], r.store)
  {}

  lemma FieldRoundTrip(sv: Saver, r: Restorer, f: Field)
    requires InStep(sv, r)
    ensures var (sv', s) := SaveField(sv, f);
            RestoreField(r, s).Some? &&
            var (r', x) := RestoreField(r, s).value;
            InStep(sv', r') && Grows(r.store, r'.store) && SameField(f, x, r'.store)
  {
    if f.Dict? {
      EntriesRoundTrip(sv, r, f.entries);
    }
  }

  lemma SameFieldGrows(f: Field, x: Loaded, before: map<Value, Obj>, after: map<Value, Obj>)
    requires SameField(f, x, before) && Grows(before, after)
    ensures SameField(f, x, after)
  {
    if f.Dict? {
      forall i | 0 <= i < |f.entries|
        ensures SameEntry(f.entries[i], x.entries[i], after)
      {
        assert SameEntry(f.entries[i], x.entries[i], before);
      }
    }
  }

  lemma SameRecordGrows(rec: Record<Field>, x: Record<Loaded>, before: map<Value, Obj>, after: map<Value, Obj>)
    requires SameRecord(rec, x, before) && Grows(before, after)
    ensures SameRecord(rec, x, after)
  {
    SameFieldGrows(rec.gendeps, x.gendeps, before, after);
    SameFieldGrows(rec.taskdeps, x.taskdeps, before, after);
    SameFieldGrows(rec.varvals, x.varvals, before, after);
  }

  lemma RecordRoundTrip(sv: Saver, r: Restorer, rec: Record<Field>)
    requires InStep(sv, r)
    ensures var (sv', m) := SaveRecord(sv, rec);
            RestoreRecord(r, m).Some? &&
            var (r', x) := RestoreRecord(r, m).value;
            InStep(sv', r') && Grows(r.store, r'.store) && SameRecord(rec, x, r'.store)
  {
    FieldRoundTrip(sv, r, rec.gendeps);
    var (sv1, s1) := SaveField(sv, rec.gendeps);
    var (r1, x1) := RestoreField(r, s1).value;
    FieldRoundTrip(sv1, r1, rec.taskdeps);
    var (sv2, s2) := SaveField(sv1, rec.taskdeps);
    var (r2, x2) := RestoreField(r1, s2).value;
    FieldRoundTrip(sv2, r2, rec.varvals);
    var (sv3, s3) := SaveField(sv2, rec.varvals);
    var (r3, x3) := RestoreField(r2, s3).value;
    SameFieldGrows(rec.gendeps, x1, r1.store, r3.store);
    SameFieldGrows(rec.taskdeps, x2, r2.store, r3.store);
  }

  // ----- when restoring fails -----

  /** Every back-reference is to a number that is known, or was given earlier in the list. */
  predicate Covered(known: set<nat>, items: seq<Item>) {
    if items == [] then true
    else
      var last := items[|items| - 1];
      && Covered(known, items[..|items| - 1])
      && (last.fs.None? && last.num.Some? ==> last.num.value in known + Given(items[..|items| - 1]))
  }

  /** The numbers that a list of items gives values to. */
  function Given(items: seq<Item>): set<nat> {
    if items == [] then {}
    else
      var last := items[|items| - 1];
      Given(items[..|items| - 1]) + if last.fs.Some? && last.num.Some? then {last.num.value} else {}
  }

  /** A list can be restored exactly when no back-reference comes from before a reset. */
  lemma {:induction false} RestoresIffCovered(r: Restorer, items: seq<Item>)
    ensures RestoreAll(r, items).Some? <==> Covered(r.table.Keys, items)
    ensures RestoreAll(r, items).Some? ==> RestoreAll(r, items).value.0.table.Keys == r.table.Keys + Given(items)
  {
    if items != [] {
      RestoresIffCovered(r, items[..|items| - 1]);
    }
  }

  // ----- any number of senders -----

  type Pid = nat

  /** Records are sent, wait in their sender's channel, and are received in the order sent. */
  datatype Event = Send(pid: Pid, rec: Record<Field>) | Recv(pid: Pid)

  /**
    `saver` lives in the sending process, `table` in the receiving one under the sender's pid;
    `sent` and `got` record what went in and what came out.
   */
  datatype Sender = Sender(saver: Saver, channel: seq<Record<Saved>>, table: Table,
                           sent: seq<Record<Field>>, got: seq<Record<Loaded>>)

  datatype System = System(senders: map<Pid, Sender>, store: map<Value, Obj>, nextId: nat)

  function SenderOf(sys: System, pid: Pid): Sender {
    if pid in sys.senders then sys.senders[pid] else Sender(FRESH, [], map[], [], [])
  }

  /** None stands for a KeyError in the receiver. */
  function Step(sys: System, e: Event): Option<System> {
    var p := SenderOf(sys, e.pid);
    match e
    case Send(pid, rec) =>
      var (saver, m) := SaveRecord(p.saver, rec);
      Some(sys.(senders := sys.senders[pid := p.(saver := saver, channel := p.channel + [m], sent := p.sent + [rec])]))
    case Recv(pid) =>
      if p.channel == [] then Some(sys)
      else
        match RestoreRecord(Restorer(p.table, sys.store, sys.nextId), p.channel[0])
        case None => None
        case Some((r, x)) =>
          var p' := p.(channel := p.channel[1..], table := r.table, got := p.got + [x]);
          Some(System(sys.senders[pid := p'], r.store, r.nextId))
  }

  function Run(sys: System, es: seq<Event>): Option<System>
    decreases |es|
  {
    if es == [] then Some(sys)
    else
      match Step(sys, es[0])
      case None => None
      case Some(sys') => Run(sys', es[1..])
  }

  function SaverAfter(recs: seq<Record<Field>>): Saver {
    if recs == [] then FRESH else SaveRecord(SaverAfter(recs[..|recs| - 1]), recs[|recs| - 1]).0
  }

  lemma SaverNext(recs: seq<Record<Field>>, k: nat)
    requires k < |recs|
    ensures SaverAfter(recs[..k + 1]) == SaveRecord(SaverAfter(recs[..k]), recs[k]).0
  {
    hide SaveRecord;
    assert recs[..k + 1][..k] == recs[..k];
  }

  ghost predicate GoodSender(p: Sender, store: map<Value, Obj>, nextId: nat) {
    && |p.got| <= |p.sent| && |p.channel| == |p.sent| - |p.got|
    && p.saver == SaverAfter(p.sent)
    && (forall i :: 0 <= i < |p.channel| ==>
          p.channel[i] == SaveRecord(SaverAfter(p.sent[..|p.got| + i]), p.sent[|p.got| + i]).1)
    && InStep(SaverAfter(p.sent[..|p.got|]), Restorer(p.table, store, nextId))
    && (forall i :: 0 <= i < |p.got| ==> SameRecord(p.sent[i], p.got[i], store))
  }

  ghost predicate Good(sys: System) {
    Interned(sys.store) && forall pid: Pid :: GoodSender(SenderOf(sys, pid), sys.store, sys.nextId)
  }

  lemma SendKeeps(p: Sender, store: map<Value, Obj>, nextId: nat, rec: Record<Field>)
    requires GoodSender(p, store, nextId)
    ensures var (saver, m) := SaveRecord(p.saver, rec);
            GoodSender(p.(saver := saver, channel := p.channel + [m], sent := p.sent + [rec]), store, nextId)
  {
    hide InStep, SaveRecord, SameRecord, SaverAfter;
    var (saver, m) := SaveRecord(p.saver, rec);
    SaverNext(p.sent + [rec], |p.sent|);
    var p' := p.(saver := saver, channel := p.channel + [m], sent := p.sent + [rec]);
    assert p'.sent[..|p.sent|] == p.sent == p.sent[..|p.sent|] && p'.sent[..|p.sent| + 1] == p'.sent;
    assert p'.sent[..|p.got|] == p.sent[..|p.got|];
    forall i | 0 <= i < |p'.channel|
      ensures p'.channel[i] == SaveRecord(SaverAfter(p'.sent[..|p.got| + i]), p'.sent[|p.got| + i]).1
    {
      assert p'.sent[..|p.got| + i] == p.sent[..|p.got| + i];
    }
  }

  /** The first record in the channel is restored, and both ends go on in step. */
  lemma RestoreNext(p: Sender, store: map<Value, Obj>, nextId: nat)
    requires GoodSender(p, store, nextId) && p.channel != []
    ensures var r0 := Restorer(p.table, store, nextId);
            RestoreRecord(r0, p.channel[0]).Some? &&
            var (r, x) := RestoreRecord(r0, p.channel[0]).value;
            && InStep(SaverAfter(p.sent[..|p.got| + 1]), r) && SameRecord(p.sent[|p.got|], x, r.store)
            && Grows(store, r.store) && Interned(r.store)
  {
    var k := |p.got|;
    assert p.sent[..k + 0] == p.sent[..k];
    hide SaveRecord, RestoreRecord, SaverAfter;
    RecordRoundTrip(SaverAfter(p.sent[..k]), Restorer(p.table, store, nextId), p.sent[k]);
    SaverNext(p.sent, k);
  }

  lemma RecvKeeps(p: Sender, store: map<Value, Obj>, nextId: nat)
    requires GoodSender(p, store, nextId) && p.channel != []
    ensures var r0 := Restorer(p.table, store, nextId);
            RestoreRecord(r0, p.channel[0]).Some? &&
            var (r, x) := RestoreRecord(r0, p.channel[0]).value;
            && GoodSender(p.(channel := p.channel[1..], table := r.table, got := p.got + [x]), r.store, r.nextId)
            && Grows(store, r.store) && Interned(r.store)
  {
    hide InStep, SaveRecord, SaverAfter, SameRecord, RestoreRecord, Grows, Interned;
    RestoreNext(p, store, nextId);
    var k := |p.got|;
    var (r, x) := RestoreRecord(Restorer(p.table, store, nextId), p.channel[0]).value;
    var p' := p.(channel := p.channel[1..], table := r.table, got := p.got + [x]);
    forall i | 0 <= i < |p'.channel|
      ensures p'.channel[i] == SaveRecord(SaverAfter(p'.sent[..k + 1 + i]), p'.sent[k + 1 + i]).1
    {
      assert p'.channel[i] == p.channel[i + 1];
    }
    forall i | 0 <= i < |p'.got|
      ensures SameRecord(p'.sent[i], p'.got[i], r.store)
    {
      if i < k {
        SameRecordGrows(p.sent[i], p.got[i], store, r.store);
      }
    }
    assert Restorer(p'.table, r.store, r.nextId) == r;
  }

  lemma OthersKeep(p: Sender, store: map<Value, Obj>, nextId: nat, store': map<Value, Obj>, nextId': nat)
    requires GoodSender(p, store, nextId) && Grows(store, store') && Interned(store')
    ensures GoodSender(p, store', nextId')
  {
    forall i | 0 <= i < |p.got|
      ensures SameRecord(p.sent[i], p.got[i], store')
    {
      SameRecordGrows(p.sent[i], p.got[i], store, store');
    }
  }

  lemma StepKeeps(sys: System, e: Event)
    requires Good(sys)
    ensures Step(sys, e).Some? && Good(Step(sys, e).value) && Grows(sys.store, Step(sys, e).value.store)
  {
    hide InStep, SaveRecord, SameRecord, RestoreRecord, GoodSender;
    var p := SenderOf(sys, e.pid);
    assert GoodSender(p, sys.store, sys.nextId);
    match e
    case Send(pid, rec) =>
      SendKeeps(p, sys.store, sys.nextId, rec);
      var sys' := Step(sys, e).value;
      forall q: Pid ensures GoodSender(SenderOf(sys', q), sys'.store, sys'.nextId) {
        assert GoodSender(SenderOf(sys, q), sys.store, sys.nextId);
      }
    case Recv(pid) =>
      if p.channel != [] {
        RecvKeeps(p, sys.store, sys.nextId);
        var sys' := Step(sys, e).value;
        forall q: Pid ensures GoodSender(SenderOf(sys', q), sys'.store, sys'.nextId) {
          if q != pid {
            OthersKeep(SenderOf(sys, q), sys.store, sys.nextId, sys'.store, sys'.nextId);
          }
        }
      }
  }

  lemma {:induction false} RunKeeps(sys: System, es: seq<Event>)
    requires Good(sys)
    ensures Run(sys, es).Some? && Good(Run(sys, es).value)
    decreases |es|
  {
    if es != [] {
      StepKeeps(sys, es[0]);
      RunKeeps(Step(sys, es[0]).value, es[1..]);
    }
  }

  /**
    After a reset, for any number of senders and any interleaving: restoring never fails, the
    i-th record received from a process equals the i-th it sent, and every restored value is
    the one interned object for that value.
   */
  lemma StreamRoundTrip(store: map<Value, Obj>, nextId: nat, es: seq<Event>, pid: Pid, i: nat)
    requires Interned(store)
    ensures Run(System(map[], store, nextId), es).Some?
    ensures var sys := Run(System(map[], store, nextId), es).value;
            var p := SenderOf(sys, pid);
            && |p.got| <= |p.sent| && |p.channel| == |p.sent| - |p.got|
            && (i < |p.got| ==> SameRecord(p.sent[i], p.got[i], sys.store))
  {
    var start := System(map[], store, nextId);
    assert Good(start);
    RunKeeps(start, es);
    assert GoodSender(SenderOf(Run(start, es).value, pid), Run(start, es).value.store, Run(start, es).value.nextId);
  }

  function EntriesOf(x: Loaded): seq<Restored> {
    if x.NoField? then [] else x.entries
  }

  /** The object occurs among the restored values of the record. */
  ghost predicate Holds(x: Record<Loaded>, o: Obj) {
    exists e <- EntriesOf(x.gendeps) + EntriesOf(x.taskdeps) + EntriesOf(x.varvals) :: e.obj == Some(o)
  }

  lemma FieldIsInterned(f: Field, x: Loaded, store: map<Value, Obj>, e: Restored)
    requires SameField(f, x, store) && e in EntriesOf(x) && e.obj.Some?
    ensures e.obj.value.value in store && store[e.obj.value.value] == e.obj.value
  {
    var k :| 0 <= k < |EntriesOf(x)| && EntriesOf(x)[k] == e;
    assert SameEntry(f.entries[k], x.entries[k], store);
  }

  /** Two restored objects with the same value are one object, whoever sent them and when. */
  lemma EqualValuesAreOneObject(store: map<Value, Obj>, nextId: nat, es: seq<Event>,
                                pid: Pid, i: nat, o: Obj, pid': Pid, i': nat, o': Obj)
    requires Interned(store) && o.value == o'.value
    requires Run(System(map[], store, nextId), es).Some?
    requires var sys := Run(System(map[], store, nextId), es).value;
             && i < |SenderOf(sys, pid).got| && Holds(SenderOf(sys, pid).got[i], o)
             && i' < |SenderOf(sys, pid').got| && Holds(SenderOf(sys, pid').got[i'], o')
    ensures o == o'
  {
    var sys := Run(System(map[], store, nextId), es).value;
    forall q, j, u | (q, j, u) in [(pid, i, o), (pid', i', o')]
      ensures u.value in sys.store && sys.store[u.value] == u
    {
      StreamRoundTrip(store, nextId, es, q, j);
      var rec, x := SenderOf(sys, q).sent[j], SenderOf(sys, q).got[j];
      var e :| e in EntriesOf(x.gendeps) + EntriesOf(x.taskdeps) + EntriesOf(x.varvals) && e.obj == Some(u);
      if e in EntriesOf(x.gendeps) {
        FieldIsInterned(rec.gendeps, x.gendeps, sys.store, e);
      } else if e in EntriesOf(x.taskdeps) {
        FieldIsInterned(rec.taskdeps, x.taskdeps, sys.store, e);
      } else {
        FieldIsInterned(rec.varvals, x.varvals, sys.store, e);
      }
    }
    assert (pid, i, o) in [(pid, i, o), (pid', i', o')] && (pid', i', o') in [(pid, i, o), (pid', i', o')];
  }

  // ----- every value is sent once -----

  /** The entry's value has not occurred before. */
  ghost predicate IsFirst(es: seq<Entry>, i: nat)
    requires i < |es|
  {
    es[i].fs.Some? && forall j :: 0 <= j < i ==> es[j].fs != es[i].fs
  }

  /** What has been sent: a value in full where it occurs first, a number of its own wherever it occurs. */
  ghost predicate SentOnce(es: seq<Entry>, items: seq<Item>) {
    && |items| == |es|
    && (forall i :: 0 <= i < |es| ==> items[i].dep == es[i].dep && (items[i].num.Some? <==> es[i].fs.Some?))
    && (forall i :: 0 <= i < |es| ==> items[i].fs == if IsFirst(es, i) then es[i].fs else None)
    && (forall i, j :: 0 <= i < |es| && 0 <= j < |es| && es[i].fs.Some? && es[j].fs.Some? ==>
          (items[i].num == items[j].num <==> es[i].fs == es[j].fs))
  }

  /** Every value that has occurred is known by the number that it was sent with. */
  ghost predicate KnowsAll(sv: Saver, es: seq<Entry>, items: seq<Item>)
    requires |items| == |es|
  {
    forall i :: 0 <= i < |es| && es[i].fs.Some? ==>
      es[i].fs.value in sv.nums && items[i].num == Some(sv.nums[es[i].fs.value])
  }

  ghost predicate KnowsOnly(sv: Saver, es: seq<Entry>) {
    forall v <- sv.nums :: exists i :: 0 <= i < |es| && es[i].fs == Some(v)
  }

  ghost predicate Numbered(sv: Saver) {
    && (forall v <- sv.nums :: sv.nums[v] < sv.count)
    && (forall v, w :: v in sv.nums && w in sv.nums && sv.nums[v] == sv.nums[w] ==> v == w)
  }

  /** The saver knows the values that have occurred, by numbers of their own. */
  ghost predicate Knows(sv: Saver, es: seq<Entry>, items: seq<Item>)
    requires |items| == |es|
  {
    KnowsAll(sv, es, items) && KnowsOnly(sv, es) && Numbered(sv)
  }

  lemma FirstStaysFirst(es: seq<Entry>, e: Entry, i: nat)
    requires i < |es|
    ensures IsFirst(es + [e], i) <==> IsFirst(es, i)
  {
    assert forall j :: 0 <= j <= i ==> (es + [e])[j] == es[j];
  }

  lemma LastIsFirst(sv: Saver, es: seq<Entry>, items: seq<Item>, e: Entry)
    requires |items| == |es| && Knows(sv, es, items)
    ensures IsFirst(es + [e], |es|) <==> e.fs.Some? && e.fs.value !in sv.nums
  {
    hide Numbered;
    var es' := es + [e];
    if e.fs.Some? && e.fs.value in sv.nums {
      var i :| 0 <= i < |es| && es[i].fs == Some(e.fs.value);
      assert es'[i] == es[i];
    }
    assert forall j :: 0 <= j < |es| ==> es'[j] == es[j];
  }

  lemma NumbersStayApart(sv: Saver, es: seq<Entry>, items: seq<Item>, e: Entry, i: nat)
    requires SentOnce(es, items) && Knows(sv, es, items) && i < |es| && es[i].fs.Some? && e.fs.Some?
    ensures items[i].num == SaveEntry(sv, e).1.num <==> es[i].fs == e.fs
  {
    hide SentOnce, KnowsOnly;
    assert es[i].fs.value in sv.nums;
  }

  lemma SentOneMore(sv: Saver, es: seq<Entry>, items: seq<Item>, e: Entry)
    requires SentOnce(es, items) && Knows(sv, es, items)
    ensures var (sv', item) := SaveEntry(sv, e);
            SentOnce(es + [e], items + [item]) && Knows(sv', es + [e], items + [item])
  {
    var (sv', item) := SaveEntry(sv, e);
    var es', items' := es + [e], items + [item];
    KnowsMore(sv, es, items, e);
    LastIsFirst(sv, es, items, e);
    assert item.dep == e.dep && (item.num.Some? <==> e.fs.Some?);
    assert item.fs == if e.fs.Some? && e.fs.value !in sv.nums then e.fs else None;
    forall i | 0 <= i < |es|
      ensures IsFirst(es', i) <==> IsFirst(es, i)
      ensures es[i].fs.Some? && e.fs.Some? ==> (items[i].num == item.num <==> es[i].fs == e.fs)
    {
      FirstStaysFirst(es, e, i);
      if es[i].fs.Some? && e.fs.Some? {
        NumbersStayApart(sv, es, items, e, i);
      }
    }
    hide SaveEntry, Knows, IsFirst;
  }

  lemma KnowsAllMore(sv: Saver, es: seq<Entry>, items: seq<Item>, e: Entry)
    requires |items| == |es| && KnowsAll(sv, es, items)
    ensures KnowsAll(SaveEntry(sv, e).0, es + [e], items + [SaveEntry(sv, e).1])
  {}

  lemma KnowsOnlyMore(sv: Saver, es: seq<Entry>, e: Entry)
    requires KnowsOnly(sv, es)
    ensures KnowsOnly(SaveEntry(sv, e).0, es + [e])
  {
    var sv', es' := SaveEntry(sv, e).0, es + [e];
    forall v | v in sv'.nums
      ensures exists i :: 0 <= i < |es'| && es'[i].fs == Some(v)
    {
      if v in sv.nums {
        var i :| 0 <= i < |es| && es[i].fs == Some(v);
        assert es'[i] == es[i];
      } else {
        assert es'[|es|].fs == Some(v);
      }
    }
  }

  lemma KnowsMore(sv: Saver, es: seq<Entry>, items: seq<Item>, e: Entry)
    requires |items| == |es| && Knows(sv, es, items)
    ensures var (sv', item) := SaveEntry(sv, e);
            Knows(sv', es + [e], items + [item])
  {
    assert Numbered(SaveEntry(sv, e).0);
    KnowsAllMore(sv, es, items, e);
    KnowsOnlyMore(sv, es, e);
    hide SaveEntry, KnowsAll, KnowsOnly, Numbered;
  }

  /** After a reset every value is sent in full once, where it occurs first, and by its number after that. */
  lemma {:induction false} EveryValueIsSentOnce(es: seq<Entry>)
    ensures var (sv, items) := SaveAll(FRESH, es);
            SentOnce(es, items) && Knows(sv, es, items)
  {
    if es != [] {
      var init, last := es[..|es| - 1], es[|es| - 1];
      EveryValueIsSentOnce(init);
      var (sv, items) := SaveAll(FRESH, init);
      SentOneMore(sv, init, items, last);
      assert init + [last] == es;
    }
  }

  lemma {:induction false} SaveAllConcat(sv: Saver, a: seq<Entry>, b: seq<Entry>)
    ensures var (sv1, items1) := SaveAll(sv, a);
            var (sv2, items2) := SaveAll(sv1, b);
            SaveAll(sv, a + b) == (sv2, items1 + items2)
  {
    hide SaveEntry;
    if b == [] {
      assert a + b == a;
      assert SaveAll(sv, a).1 + [] == SaveAll(sv, a).1;
    } else {
      var init, last := b[..|b| - 1], b[|b| - 1];
      assert (a + b)[..|a + b| - 1] == a + init && (a + b)[|a + b| - 1] == last;
      SaveAllConcat(sv, a, init);
      var (sv1, items1) := SaveAll(sv, a);
      var (sv2, items2) := SaveAll(sv1, init);
      var (_, item) := SaveEntry(sv2, last);
      assert items1 + items2 + [item] == items1 + (items2 + [item]);
    }
  }

  function FieldEntries(f: Field): seq<Entry> {
    if f.Dict? then f.entries else []
  }

  function SavedItems(s: Saved): seq<Item> {
    if s.List? then s.items else []
  }

  function RecordEntries(rec: Record<Field>): seq<Entry> {
    FieldEntries(rec.gendeps) + FieldEntries(rec.taskdeps) + FieldEntries(rec.varvals)
  }

  function RecordItems(m: Record<Saved>): seq<Item> {
    SavedItems(m.gendeps) + SavedItems(m.taskdeps) + SavedItems(m.varvals)
  }

  lemma FieldIsSavedInOrder(sv: Saver, f: Field)
    ensures SaveAll(sv, FieldEntries(f)) == (SaveField(sv, f).0, SavedItems(SaveField(sv, f).1))
  {}

  lemma RecordIsSavedInOrder(sv: Saver, rec: Record<Field>)
    ensures SaveAll(sv, RecordEntries(rec)) == (SaveRecord(sv, rec).0, RecordItems(SaveRecord(sv, rec).1))
  {
    hide SaveAll, SaveField;
    var (sv1, a) := SaveField(sv, rec.gendeps);
    var (sv2, b) := SaveField(sv1, rec.taskdeps);
    FieldIsSavedInOrder(sv, rec.gendeps);
    FieldIsSavedInOrder(sv1, rec.taskdeps);
    FieldIsSavedInOrder(sv2, rec.varvals);
    SaveAllConcat(sv, FieldEntries(rec.gendeps), FieldEntries(rec.taskdeps));
    SaveAllConcat(sv, FieldEntries(rec.gendeps) + FieldEntries(rec.taskdeps), FieldEntries(rec.varvals));
  }

  /** All entries of the records, and all items that one sender makes of them. */
  function StreamEntries(recs: seq<Record<Field>>): seq<Entry> {
    if recs == [] then [] else StreamEntries(recs[..|recs| - 1]) + RecordEntries(recs[|recs| - 1])
  }

  function StreamItems(recs: seq<Record<Field>>): seq<Item> {
    if recs == [] then []
    else
      var init := recs[..|recs| - 1];
      StreamItems(init) + RecordItems(SaveRecord(SaverAfter(init), recs[|recs| - 1]).1)
  }

  /** Over all the records that a process sends after a reset, no value is sent in full twice. */
  lemma {:induction false} StreamSendsOnce(recs: seq<Record<Field>>)
    ensures SentOnce(StreamEntries(recs), StreamItems(recs))
  {
    StreamIsSavedInOrder(recs);
    EveryValueIsSentOnce(StreamEntries(recs));
  }

  lemma {:induction false} StreamIsSavedInOrder(recs: seq<Record<Field>>)
    ensures SaveAll(FRESH, StreamEntries(recs)) == (SaverAfter(recs), StreamItems(recs))
  {
    hide SaveRecord, RecordEntries, RecordItems;
    if recs != [] {
      var init, last := recs[..|recs| - 1], recs[|recs| - 1];
      StreamIsSavedInOrder(init);
      RecordIsSavedInOrder(SaverAfter(init), last);
      SaveAllConcat(FRESH, StreamEntries(init), RecordEntries(last));
    }
  }

  // ----- the class-level state -----

  /** `SiggenRecipeInfo`'s class attributes in one process. */
  class SiggenRecipeInfo {
    var store: map<Value, Obj>
    var saveMap: map<Value, nat>
    var saveCount: nat
    var restoreMap: map<Pid, Table>
    var nextId: nat  // the identity of the next unpickled object

    ghost function SaverState(): Saver
      reads this
    {
      Saver(saveMap, saveCount)
    }

    ghost function RestorerState(pid: Pid): Restorer
      reads this
    {
      Restorer(if pid in restoreMap then restoreMap[pid] else map[], store, nextId)
    }

    constructor ()
      ensures SaverState() == FRESH && restoreMap == map[] && store == map[]
    {
      store, saveMap, saveCount, restoreMap, nextId := map[], map[], 1, map[], 0;
    }

    /** The intern store survives a reset. */
    method Reset()
      modifies this
      ensures SaverState() == FRESH && restoreMap == map[]
      ensures store == old(store) && nextId == old(nextId)
    {
      saveMap, saveCount, restoreMap := map[], 1, map[];
    }

    method Save(deps: Field) returns (ret: Saved)
      modifies `saveMap, `saveCount
      ensures (SaverState(), ret) == SaveField(old(SaverState()), deps)
    {
      if deps.Absent? || deps.entries == [] {
        return AsIs(deps.Absent?);
      }
      var items := [];
      for i := 0 to |deps.entries|
        invariant (SaverState(), items) == SaveAll(old(SaverState()), deps.entries[..i])
      {
        assert deps.entries[..i + 1][..i] == deps.entries[..i];
        var e := deps.entries[i];
        if e.fs.None? {
          items := items + [Item(e.dep, None, None)];
        } else if e.fs.value in saveMap {
          items := items + [Item(e.dep, None, Some(saveMap[e.fs.value]))];
        } else {
          saveMap := saveMap[e.fs.value := saveCount];
          items := items + [Item(e.dep, e.fs, Some(saveCount))];
          saveCount := saveCount + 1;
        }
      }
      assert deps.entries[..|deps.entries|] == deps.entries;
      ret := List(items);
    }

    /** None stands for the KeyError. */
    method Restore(deps: Saved, pid: Pid) returns (ret: Option<Loaded>)
      modifies `store, `restoreMap, `nextId
      ensures ret.Some? <==> RestoreField(old(RestorerState(pid)), deps).Some?
      ensures ret.Some? ==> (RestorerState(pid), ret.value) == RestoreField(old(RestorerState(pid)), deps).value
      ensures forall q :: q != pid ==> RestorerState(q).table == old(RestorerState(q).table)
    {
      if deps.AsIs? {
        return Some(if deps.absent then NoField else Loaded([]));
      }
      if pid !in restoreMap {
        restoreMap := restoreMap[pid := map[]];
      }
      var out := [];
      for i := 0 to |deps.items|
        invariant pid in restoreMap
        invariant RestoreAll(old(RestorerState(pid)), deps.items[..i]) == Some((RestorerState(pid), out))
        invariant forall q :: q != pid ==> RestorerState(q).table == old(RestorerState(q).table)
      {
        assert deps.items[..i + 1][..i] == deps.items[..i];
        var item := deps.items[i];
        var obj := None;
        if item.fs.None? && item.num.Some? {
          if item.num.value !in restoreMap[pid] {
            RestoreStops(old(RestorerState(pid)), deps.items, i + 1);
            return None;
          }
          obj := Some(restoreMap[pid][item.num.value]);
        } else if item.fs.Some? {
          var unpickled := Obj(nextId, item.fs.value);
          nextId := nextId + 1;
          var fs := if item.fs.value in store then store[item.fs.value] else unpickled;
          store := store[item.fs.value := fs];
          if item.num.Some? {
            var table: Table := restoreMap[pid][item.num.value := fs];
            restoreMap := restoreMap[pid := table];
          }
          obj := Some(fs);
        }
        out := out + [Restored(item.dep, obj)];
      }
      assert deps.items[..|deps.items|] == deps.items;
      ret := Some(Loaded(out));
    }

    /** `__getstate__`: the three fields in a fixed order. */
    method GetState(rec: Record<Field>) returns (m: Record<Saved>)
      modifies `saveMap, `saveCount
      ensures (SaverState(), m) == SaveRecord(old(SaverState()), rec)
    {
      var a := Save(rec.gendeps);
      var b := Save(rec.taskdeps);
      var c := Save(rec.varvals);
      m := Record(a, b, c);
    }

    /** `__setstate__`, in the same order. */
    method SetState(m: Record<Saved>, pid: Pid) returns (ret: Option<Record<Loaded>>)
      modifies `store, `restoreMap, `nextId
      ensures ret.Some? <==> RestoreRecord(old(RestorerState(pid)), m).Some?
      ensures ret.Some? ==> (RestorerState(pid), ret.value) == RestoreRecord(old(RestorerState(pid)), m).value
    {
      var a := Restore(m.gendeps, pid);
      if a.None? {
        return None;
      }
      var b := Restore(m.taskdeps, pid);
      if b.None? {
        return None;
      }
      var c := Restore(m.varvals, pid);
      if c.None? {
        return None;
      }
      ret := Some(Record(a.value, b.value, c.value));
    }
  }

  lemma {:induction false} RestoreStops(r: Restorer, items: seq<Item>, n: nat)
    requires n <= |items| && RestoreAll(r, items[..n]).None?
    ensures RestoreAll(r, items).None?
    decreases |items|
  {
    if n < |items| {
      assert items[..|items| - 1][..n] == items[..n];
      RestoreStops(r, items[..|items| - 1], n);
    } else {
      assert items[..n] == items;
    }
  }
}
