/**
  The dictionaries behind a datastore: a chain of levels, each mapping variables to flag
  dictionaries, which in turn hold lists of deferred operations.

  A copy of a store starts with an empty level whose `_data` link points to the level that was
  copied.  Flag dictionaries are copied before they are first written, lists before they are
  extended; until then they are shared, and everything here is therefore a heap object.
 */
module Dictionaries {
  import opened Wrappers
  import opened Names
  import opened OverrideChoice
  import opened FlatStore
  import Updates = StoreUpdates

  /** A list of deferred operations; only changed before it is stored. */
  class OpList {
    var items: seq<Op>

    constructor (items: seq<Op>)
      ensures this.items == items
    {
      this.items := items;
    }

    method Append(op: Op)
      modifies this
      ensures items == old(items) + [op]
    {
      items := items + [op];
    }
  }

  ghost function OpsOf(l: OpList?): seq<Op>
    reads l
  {
    if l == null then [] else l.items
  }

  /** The flag dictionary of one variable. */
  class Flags {
    var content: Option<Text>
    var append: OpList?
    var prepend: OpList?
    var flags: map<string, Text>
    ghost const name: Name  // the variable
    ghost var entry: Entry  // the value this dictionary stands for

    ghost predicate Valid(lists: set<OpList>)
      reads this, lists
    {
      && (append != null ==> append in lists && append.items != [])
      && (prepend != null ==> prepend in lists && prepend.items != [])
      && entry == Entry(content, OpsOf(append), OpsOf(prepend), flags)
    }

    constructor (ghost x: Name, ghost lists: set<OpList>)
      ensures Valid(lists) && name == x && entry == NOTHING
    {
      name, entry := x, NOTHING;
      content, append, prepend, flags := None, null, null, map[];
    }

    /** `copy.copy`: the lists are shared with the original. */
    constructor Copy(ghost x: Name, f: Flags, ghost lists: set<OpList>)
      requires f.Valid(lists)
      ensures Valid(lists) && name == x && entry == f.entry
    {
      name, entry := x, f.entry;
      content, append, prepend, flags := f.content, f.append, f.prepend, f.flags;
    }

    method IsEmpty(ghost lists: set<OpList>) returns (empty: bool)
      requires Valid(lists)
      ensures empty <==> entry == NOTHING
    {
      return content.None? && append == null && prepend == null && flags == map[];
    }

    method SetFlag(flag: string, value: Text, ghost lists: set<OpList>)
      requires Valid(lists)
      modifies this
      ensures Valid(lists) && entry == Updates.WithFlag(old(entry), flag, value)
    {
      if flag == "_content" {
        content := Some(value);
      } else {
        flags := flags[flag := value];
      }
      entry := Updates.WithFlag(entry, flag, value);
    }

    /** Stores the list itself, not a copy of it. */
    method SetOps(kind: Kind, l: OpList, ghost lists: set<OpList>)
      requires Valid(lists) && l in lists && l.items != [] && !kind.Remove?
      modifies this
      ensures Valid(lists)
      ensures entry == if kind.Append? then old(entry).(append := l.items) else old(entry).(prepend := l.items)
    {
      if kind.Append? {
        append := l;
        entry := entry.(append := l.items);
      } else {
        prepend := l;
        entry := entry.(prepend := l.items);
      }
    }

    method ClearOps(ghost lists: set<OpList>)
      requires Valid(lists)
      modifies this
      ensures Valid(lists) && entry == old(entry).(append := [], prepend := [])
    {
      append, prepend := null, null;
      entry := entry.(append := [], prepend := []);
    }

    method DelFlag(flag: string, ghost lists: set<OpList>)
      requires Valid(lists)
      modifies this
      ensures Valid(lists) && entry == Updates.WithoutFlag(old(entry), flag)
    {
      ghost var e' := Updates.WithoutFlag(entry, flag);
      var present := match flag
        case "_content" => content.Some?
        case ":append" => append != null
        case ":prepend" => prepend != null
        case _ => flag in flags;
      if present {
        match flag {
          case "_content" => content := None;
          case ":append" => append := null;
          case ":prepend" => prepend := null;
          case _ => flags := flags - {flag};
        }
        flags := flags - {"_defaultval_flag_" + flag};
      }
      entry := e';
    }
  }

  /** `self.dict`; `data` is its `_data` link. */
  class Level {
    var vars: map<Name, Flags>
    const data: Level?
    ghost var view: map<Name, Entry>  // what this level and those below bind; empty entries count as absent
    ghost var own: set<Flags>         // this level's flag dictionaries
    ghost var low: set<Level>         // the levels below
    ghost var lowFlags: set<Flags>    // their flag dictionaries
    ghost var lists: set<OpList>

    ghost predicate Linked()
      reads this, data
    {
      && this !in low
      && (forall f <- own :: f !in lowFlags)
      && (data != null ==>
            && data in low && data !in data.low && data.low <= low
            && (data.data != null ==> data.data in data.low)
            && data.own <= lowFlags && data.lowFlags <= lowFlags && data.lists <= lists)
    }

    ghost function Below(x: Name): Entry
      reads this, data
    {
      if data == null then NOTHING else EntryIn(data.view, x)
    }

    ghost predicate Valid()
      reads this, data, own, low, lowFlags, lists
      decreases low
    {
      && Linked()
      && (data != null ==> data.Valid())
      && (forall x <- vars :: vars[x] in own && vars[x].name == x && vars[x].Valid(lists))
      && (forall x <- view :: view[x] != NOTHING)
      && (forall x :: EntryIn(view, x) == if x in vars then vars[x].entry else Below(x))
    }

    constructor ()
      ensures Valid() && data == null && view == map[] && vars == map[]
      ensures own == {} && low == {} && lowFlags == {} && lists == {}
    {
      data, vars, view, own, low, lowFlags, lists := null, map[], map[], {}, {}, {}, {};
    }

    /** The new top of a chain: nothing is copied. */
    constructor Above(d: Level)
      requires d.Valid()
      ensures Valid() && data == d && view == d.view && vars == map[]
      ensures own == {} && low == d.low + {d} && lowFlags == d.lowFlags + d.own && lists == d.lists
    {
      data, vars, view := d, map[], d.view;
      own, low, lowFlags, lists := {}, d.low + {d}, d.lowFlags + d.own, d.lists;
    }

    /** Only objects of this level and fresh ones have been added to what it uses. */
    twostate predicate Grown()
      reads this
    {
      && low == old(low) && lowFlags == old(lowFlags)
      && old(own) <= own && fresh(own - old(own))
      && old(lists) <= lists && fresh(lists - old(lists))
    }

    /** `_findVar`: the nearest binding, which may be an empty dictionary. */
    method Find(x: Name) returns (f: Flags?)
      requires Valid()
      ensures EntryIn(view, x) == if f == null then NOTHING else f.entry
      ensures f != null ==> f.Valid(lists)
      ensures x in vars ==> f == vars[x]
    {
      f := null;
      var dest: Level? := this;
      while dest != null
        invariant f == null
        invariant dest != null ==> dest.Valid() && dest.lists <= lists && EntryIn(view, x) == EntryIn(dest.view, x)
        invariant dest == null ==> EntryIn(view, x) == NOTHING
        invariant x in vars ==> dest == this
        decreases if dest == null then {} else dest.low + {dest}
      {
        if x in dest.vars {
          f := dest.vars[x];
          return;
        }
        dest := dest.data;
      }
    }

    /** `self.dict[x] = f` for a dictionary that is not in use yet. */
    method Bind(x: Name, f: Flags)
      requires Valid() && f !in lowFlags && f !in own && f.name == x && f.Valid(lists)
      modifies this
      ensures Valid() && vars == old(vars)[x := f] && own == old(own) + {f}
      ensures low == old(low) && lowFlags == old(lowFlags) && lists == old(lists)
      ensures view == PutIn(old(view), x, f.entry)
    {
      vars := vars[x := f];
      own := own + {f};
      Touched(x, f.entry);
    }

    method FindNonEmpty(x: Name) returns (f: Flags?)
      requires Valid()
      ensures f != null ==> f.Valid(lists)
      ensures EntryIn(view, x) == if f == null then NOTHING else f.entry
    {
      f := Find(x);
      if f != null {
        var empty := f.IsEmpty(lists);
        if empty {
          f := null;
        }
      }
    }

    /** `copy.copy` of the dictionary found for `x`, or a new one if that is empty. */
    method CopyOf(x: Name) returns (f: Flags, copied: bool)
      requires Valid()
      ensures Valid() && fresh(f) && f.name == x && f.Valid(lists) && f.entry == EntryIn(view, x)
    {
      var local := FindNonEmpty(x);
      if local != null {
        f := new Flags.Copy(x, local, lists);
        copied := true;
      } else {
        f := new Flags(x, lists);
        copied := false;
      }
    }

    /** `_makeShadowCopy`; `copied` tells whether there was something to copy. */
    method MakeShadowCopy(x: Name) returns (copied: bool)
      requires Valid() && x !in vars
      modifies this
      ensures Valid() && Grown() && lists == old(lists)
      ensures x in vars && view == old(view)
    {
      var f;
      f, copied := CopyOf(x);
      PutInSame(view, x);
      Bind(x, f);
    }

    method SetFlag(x: Name, flag: string, value: Text)
      requires Valid() && x in vars
      modifies `view, vars[x]
      ensures Valid()
      ensures view == PutIn(old(view), x, Updates.WithFlag(EntryIn(old(view), x), flag, value))
    {
      ghost var e := Updates.WithFlag(EntryIn(view, x), flag, value);
      vars[x].SetFlag(flag, value, lists);
      Touched(x, e);
    }

    method DelFlag(x: Name, flag: string)
      requires Valid() && x in vars
      modifies `view, vars[x]
      ensures Valid()
      ensures view == PutIn(old(view), x, Updates.WithoutFlag(EntryIn(old(view), x), flag))
    {
      ghost var e := Updates.WithoutFlag(EntryIn(view, x), flag);
      vars[x].DelFlag(flag, lists);
      Touched(x, e);
    }

    method ClearOps(x: Name)
      requires Valid() && x in vars
      modifies `view, vars[x]
      ensures Valid()
      ensures view == PutIn(old(view), x, EntryIn(old(view), x).(append := [], prepend := []))
    {
      ghost var e := EntryIn(view, x).(append := [], prepend := []);
      vars[x].ClearOps(lists);
      Touched(x, e);
    }

    /** A copy of the list stored for `x`, or a new one. */
    method GetOps(x: Name, kind: Kind) returns (l: OpList)
      requires Valid() && !kind.Remove?
      ensures fresh(l)
      ensures l.items == if kind.Append? then EntryIn(view, x).append else EntryIn(view, x).prepend
    {
      var f := Find(x);
      var stored: OpList? := null;
      if f != null {
        stored := if kind.Append? then f.append else f.prepend;
      }
      if stored == null {
        l := new OpList([]);
      } else {
        l := new OpList(stored.items);
      }
    }

    ghost method UseList(l: OpList)
      requires Valid()
      modifies `lists
      ensures Valid() && lists == old(lists) + {l}
    {
      lists := lists + {l};
    }

    /** Stores the list `l` as it is. */
    method SetOps(x: Name, kind: Kind, l: OpList)
      requires Valid() && x in vars && l in lists && l.items != [] && !kind.Remove?
      modifies `view, vars[x]
      ensures Valid()
      ensures var e := EntryIn(old(view), x);
              view == PutIn(old(view), x, if kind.Append? then e.(append := l.items) else e.(prepend := l.items))
    {
      ghost var e := EntryIn(view, x);
      vars[x].SetOps(kind, l, lists);
      Touched(x, if kind.Append? then e.(append := l.items) else e.(prepend := l.items));
    }

    // What a datastore does in one go: copy the dictionary if it is not its own, then write.

    method WriteFlag(x: Name, flag: string, value: Text)
      requires Valid()
      modifies this, own
      ensures Valid() && Grown() && lists == old(lists)
      ensures view == PutIn(old(view), x, Updates.WithFlag(EntryIn(old(view), x), flag, value))
    {
      if x !in vars {
        var _ := MakeShadowCopy(x);
      }
      SetFlag(x, flag, value);
    }

    method WriteOps(x: Name, kind: Kind, l: OpList)
      requires Valid() && l.items != [] && !kind.Remove?
      modifies this, own
      ensures Valid() && low == old(low) && lowFlags == old(lowFlags)
      ensures old(own) <= own && fresh(own - old(own)) && lists == old(lists) + {l}
      ensures var e := EntryIn(old(view), x);
              view == PutIn(old(view), x, if kind.Append? then e.(append := l.items) else e.(prepend := l.items))
    {
      if x !in vars {
        var _ := MakeShadowCopy(x);
      }
      UseList(l);
      SetOps(x, kind, l);
    }

    method EraseOps(x: Name)
      requires Valid()
      modifies this, own
      ensures Valid() && Grown() && lists == old(lists)
      ensures view == PutIn(old(view), x, EntryIn(old(view), x).(append := [], prepend := []))
    {
      if x !in vars {
        var _ := MakeShadowCopy(x);
      }
      ClearOps(x);
    }

    /** `l = getVarFlag(x, kind) or []; l.append(op)`, then the list is stored. */
    method AddOp(x: Name, kind: Kind, op: Op)
      requires Valid() && !kind.Remove?
      modifies this, own
      ensures Valid() && Grown()
      ensures view == PutIn(old(view), x, Updates.AddOp(EntryIn(old(view), x), kind, op))
    {
      var l := GetOps(x, kind);
      l.Append(op);
      WriteOps(x, kind, l);
    }

    method EraseFlag(x: Name, flag: string)
      requires Valid()
      modifies this, own
      ensures Valid() && Grown() && lists == old(lists)
      ensures view == PutIn(old(view), x, Updates.WithoutFlag(EntryIn(old(view), x), flag))
    {
      var local := FindNonEmpty(x);
      PutInSame(view, x);
      if local == null {
        return;
      }
      if x !in vars {
        var _ := MakeShadowCopy(x);
      }
      DelFlag(x, flag);
    }

    /** `self.dict[x] = {}`: a tombstone over whatever is bound below. */
    method Clear(x: Name)
      requires Valid()
      modifies this
      ensures Valid() && Grown() && lists == old(lists)
      ensures view == PutIn(old(view), x, NOTHING)
    {
      var f := new Flags(x, lists);
      Bind(x, f);
    }

    /** This level's part of `keylist`: the keys it adds, and the ones it shows to be deleted. */
    method LocalKeys(deleted: set<Name>, skipped: set<Name>) returns (keys: set<Name>, gone: set<Name>)
      requires Valid()
      ensures keys == set k <- vars | k !in deleted && k !in skipped && vars[k].entry != NOTHING
      ensures gone == deleted + set k <- vars | k !in deleted && k !in skipped && vars[k].entry == NOTHING
    {
      keys, gone := {}, deleted;
      var todo := vars.Keys;
      while todo != {}
        invariant todo <= vars.Keys
        invariant keys == set k <- vars.Keys - todo | k !in deleted && k !in skipped && vars[k].entry != NOTHING
        invariant gone == deleted + set k <- vars.Keys - todo | k !in deleted && k !in skipped && vars[k].entry == NOTHING
        decreases todo
      {
        var key :| key in todo;
        if key !in gone && key !in skipped {
          var empty := vars[key].IsEmpty(lists);
          if empty {
            gone := gone + {key};
          } else {
            keys := keys + {key};
          }
        }
        todo := todo - {key};
      }
    }

    /**
      `keylist` in `__iter__`: the keys that this level and those below contribute, given the
      keys found deleted so far.
     */
    method KeyList(deleted: set<Name>, skipped: set<Name>) returns (keys: set<Name>)
      requires Valid()
      ensures keys == view.Keys - deleted - skipped
      decreases low
    {
      var gone;
      keys, gone := LocalKeys(deleted, skipped);
      if data != null {
        var rest := data.KeyList(gone, skipped);
        keys := keys + rest;
      }
      forall k
        ensures k in keys <==> k in view && k !in deleted && k !in skipped
      {
        assert EntryIn(view, k) == if k in vars then vars[k].entry else Below(k);
      }
    }

    /** Brings `view` up to date after the dictionary of `x` has been written. */
    ghost method Touched(x: Name, e: Entry)
      requires Linked() && x in vars && (data != null ==> data.Valid())
      requires forall y <- vars :: vars[y] in own && vars[y].name == y && vars[y].Valid(lists)
      requires forall y <- view :: view[y] != NOTHING
      requires forall y :: y != x ==> EntryIn(view, y) == if y in vars then vars[y].entry else Below(y)
      requires vars[x].entry == e
      modifies `view
      ensures Valid() && view == PutIn(old(view), x, e)
    {
      ghost var was := view;
      view := PutIn(view, x, e);
      forall y
        ensures EntryIn(view, y) == if y in vars then vars[y].entry else Below(y)
      {
        PutInLooks(was, x, e, y);
      }
    }
  }

  // ----- the override index -----

  /** One list of the override index; only changed before it is stored. */
  class PairList {
    var items: seq<Pair>

    constructor (items: seq<Pair>)
      ensures this.items == items
    {
      this.items := items;
    }

    method Append(p: Pair)
      modifies this
      ensures items == old(items) + [p]
    {
      items := items + [p];
    }

    method Remove(p: Pair)
      modifies this
      ensures items == Updates.RemoveFirst(old(items), p)
    {
      items := Updates.RemoveFirst(items, p);
    }
  }

  /** `self.overridedata`: a copy of it shares the lists, so they are recreated to be changed. */
  class OverrideData {
    var index: map<Name, PairList>
    ghost var used: set<PairList>  // lists that are read and never written
    ghost var view: Index

    ghost predicate Valid()
      reads this, used
    {
      && view.Keys == index.Keys
      && forall v <- index :: index[v] in used && index[v].items == view[v]
    }

    twostate predicate Grown()
      reads this
    {
      old(used) <= used && fresh(used - old(used))
    }

    constructor ()
      ensures Valid() && used == {} && view == map[]
    {
      index, used, view := map[], {}, map[];
    }

    constructor Copy(o: OverrideData)
      requires o.Valid()
      ensures Valid() && used == o.used && view == o.view
    {
      index, used, view := o.index, o.used, o.view;
    }

    /** Recreates the list of `v` with `p` at its end, unless it is there. */
    method Add(v: Name, p: Pair)
      requires Valid()
      modifies this
      ensures Valid() && Grown() && view == Updates.AddPair(old(view), v, p)
    {
      var items := if v in index then index[v].items else [];
      if p !in items {
        var l := new PairList(items);
        l.Append(p);
        index := index[v := l];
        used := used + {l};
        view := view[v := l.items];
      }
    }

    method Remove(v: Name, p: Pair)
      requires Valid()
      modifies this
      ensures Valid() && Grown()
      ensures view == if v in old(view) then old(view)[v := Updates.RemoveFirst(old(view)[v], p)] else old(view)
    {
      if v in index {
        var l := new PairList(index[v].items);
        l.Remove(p);
        index := index[v := l];
        used := used + {l};
        view := view[v := l.items];
      }
    }

    method Drop(v: Name)
      requires Valid()
      modifies this
      ensures Valid() && Grown() && view == old(view) - {v}
    {
      index := index - {v};
      view := view - {v};
    }

    /** The loop of `_setvar_update_overrides`, at every reachable split of the name. */
    method UpdateOverrides(x: Name)
      requires Valid() && x != []
      modifies this
      ensures Valid() && Grown() && view == Updates.UpdateIndex(old(view), x)
    {
      if |x| == 1 {
        if IsOverrideComp(x[0]) {
          Add([x[0][..|x[0]| - 1]], Pair(x, x));
        }
        return;
      }
      var k := |x| - 1;
      while IsOverrideComp(x[k])
        invariant 1 <= k < |x|
        invariant Valid() && Grown()
        invariant Updates.AddSplits(view, x, k) == Updates.UpdateIndex(old(view), x)
        decreases k
      {
        Add(x[..k], Pair(x, x[k..]));
        if k == 1 || x[..k - 1] == [""] {
          return;
        }
        k := k - 1;
      }
    }

    /** The index part of `delVar`, over the same splits. */
    method DropName(x: Name)
      requires Valid()
      modifies this
      ensures Valid() && Grown() && view == Updates.DropFromIndex(old(view), x)
    {
      Drop(x);
      if |x| > 1 {
        var k := |x| - 1;
        while IsOverrideComp(x[k])
          invariant 1 <= k < |x|
          invariant Valid() && Grown()
          invariant Updates.RemoveSplits(view, x, k) == Updates.DropFromIndex(old(view), x)
          decreases k
        {
          Remove(x[..k], Pair(x, x[k..]));
          if k == 1 || x[..k - 1] == [""] {
            return;
          }
          k := k - 1;
        }
      }
    }

    /** The variables with an active variant. */
    method ActiveBases(ovset: set<Comp>, ghost ovs: seq<Comp>) returns (bases: set<Name>)
      requires Valid() && ovset == set c <- ovs
      ensures bases == set v <- view | exists p <- view[v] :: IsActive(p.over, ovs)
    {
      bases := {};
      var todo := index.Keys;
      while todo != {}
        invariant todo <= index.Keys
        invariant bases == set v <- view.Keys - todo | exists p <- view[v] :: IsActive(p.over, ovs)
        decreases todo
      {
        var v :| v in todo;
        assert index[v].items == view[v];
        if exists p <- index[v].items :: forall c <- p.over :: c in ovset {
          assert exists p <- view[v] :: IsActive(p.over, ovs);
          bases := bases + {v};
        } else {
          assert !exists p <- view[v] :: IsActive(p.over, ovs);
        }
        todo := todo - {v};
      }
    }

    method Get(v: Name) returns (l: PairList?)
      requires Valid()
      ensures l == null <==> v !in view
      ensures l != null ==> l.items == view[v]
    {
      l := if v in index then index[v] else null;
    }
  }
}
