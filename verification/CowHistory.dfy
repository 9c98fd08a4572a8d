/**
  Copy-on-write dictionaries (COWDictMeta) and the variable histories kept in them. A copy is a
  new level whose lookups fall back to the level it was copied from. A list is copied into a
  level when it is first read there, so that the reader may change it in place.
 */
module CowHistory {
  import opened Wrappers

  /** The details of one assignment. */
  type Entry = map<string, string>

  /** A Python list. */
  class PyList {
    var items: seq<Entry>

    constructor (items: seq<Entry>)
      ensures this.items == items
    {
      this.items := items;
    }
  }

  /** A value stored under its plain key: an immutable one, or the mark of a deleted key. */
  datatype Plain = Deleted | Immutable(value: string)

  /** What a read gives; Absent is a KeyError. */
  datatype Item = Absent | Fixed(value: string) | Mutable(list: PyList)

  /** The same with the contents of the list. */
  datatype Seen = Nothing | Text(value: string) | Entries(entries: seq<Entry>)

  /** Every level's ancestors are there too, and no list is in two places. */
  ghost predicate World(world: set<CowLevel>)
    reads world`mutable
  {
    (forall l <- world :: l.Linked() && l.chain <= world) && Unshared(world)
  }

  ghost predicate Unshared(world: set<CowLevel>)
    reads world`mutable
  {
    forall l, m, k, k' | l in world && m in world && k in l.mutable && k' in m.mutable && l.mutable[k] == m.mutable[k'] ::
      l == m && k == k'
  }

  class CowLevel {
    const parent: CowLevel?
    ghost const chain: set<CowLevel>
    ghost const depth: nat
    var plain: map<string, Plain>
    var mutable: map<string, PyList>

    /** The level and those that it was copied from. */
    ghost predicate Linked()
      decreases depth
    {
      if parent == null then chain == {this}
      else depth > parent.depth && parent.Linked() && this !in parent.chain && chain == parent.chain + {this}
    }

    /** COWDictBase.copy() */
    constructor Base()
      ensures Linked() && chain == {this} && plain == map[] && mutable == map[]
    {
      parent, chain, depth, plain, mutable := null, {this}, 0, map[], map[];
    }

    constructor Cow(of: CowLevel)
      requires of.Linked()
      ensures Linked() && chain == of.chain + {this} && parent == of && plain == map[] && mutable == map[]
    {
      parent, chain, depth, plain, mutable := of, of.chain + {this}, of.depth + 1, map[], map[];
    }

    /** getattr(cls, key + MUTABLE): the nearest level that has a list. */
    function Owner(key: string): (o: CowLevel?)
      requires Linked()
      reads chain`mutable
      ensures o != null ==> o in chain && key in o.mutable
      decreases depth
    {
      if key in mutable then this else if parent == null then null else parent.Owner(key)
    }

    /** getattr(cls, key): the nearest plain value, which hides every list. */
    function PlainValue(key: string): Option<Plain>
      requires Linked()
      reads chain`plain
      decreases depth
    {
      if key in plain then Some(plain[key]) else if parent == null then None else parent.PlainValue(key)
    }

    /** The contents of the nearest list. */
    ghost function Nearest(key: string): Option<seq<Entry>>
      requires Linked()
      reads chain`mutable, set l | l in chain && key in l.mutable :: l.mutable[key]
    {
      var o := Owner(key);
      if o == null then None else Some(o.mutable[key].items)
    }

    /** What a reader of this level finds. */
    ghost function Look(key: string): Seen
      requires Linked()
      reads chain, set l | l in chain && key in l.mutable :: l.mutable[key]
    {
      match PlainValue(key)
      case Some(Deleted) => Nothing
      case Some(Immutable(v)) => Text(v)
      case None => if Nearest(key).None? then Nothing else Entries(Nearest(key).value)
    }

    /** Every other level with a list is further up than the owner. */
    lemma OwnerIsNearest(key: string)
      requires Linked()
      ensures forall m <- chain :: key in m.mutable ==>
                var o := Owner(key); o != null && o.Linked() && o.chain <= chain && m in o.chain
      decreases depth
    {
      if key !in mutable && parent != null {
        parent.OwnerIsNearest(key);
      }
    }

    /** This level has got more lists: who had none in between now finds those. */
    twostate lemma OwnersAfter(l: CowLevel)
      requires Linked() && l.Linked()
      requires forall m <- l.chain :: m != this ==> m.mutable == old(m.mutable)
      requires old(mutable.Keys) <= mutable.Keys
      ensures forall k :: l.Owner(k) == old(l.Owner(k)) ||
                (l.Owner(k) == this && k !in old(mutable) && old(l.Owner(k)) == old(Owner(k)))
      decreases l.depth
    {
      if l.parent != null {
        OwnersAfter(l.parent);
      }
    }

    /** __setitem__ with a list that is in no level yet; it can be read exactly where no plain value hides it. */
    method SetList(key: string, value: PyList, ghost world: set<CowLevel>)
      requires World(world) && this in world
      requires forall l <- world, k <- l.mutable :: l.mutable[k] != value
      modifies this`mutable
      ensures World(world) && mutable == old(mutable)[key := value]
      ensures forall l <- world, k ::
                l.Nearest(k) == if k == key && l.Owner(k) == this then Some(value.items) else old(l.Nearest(k))
      ensures key !in old(mutable) ==> forall l <- world :: l.Owner(key) == this ==> old(l.Nearest(key)) == old(Nearest(key))
      ensures Look(key) == Entries(value.items) <==> PlainValue(key).None?
      ensures forall l <- world :: l.Owner(key) == this ==>
                (l.Look(key) == Entries(value.items) <==> l.PlainValue(key).None?)
    {
      mutable := mutable[key := value];
      forall l | l in world
        ensures forall k ::
                  || l.Owner(k) == old(l.Owner(k))
                  || (l.Owner(k) == this && k == key && old(l.Owner(k)) == old(Owner(k)))
      {
        OwnersAfter(l);
      }
    }

    twostate lemma PlainAfter(l: CowLevel)
      requires Linked() && l.Linked()
      requires forall m <- l.chain :: m != this ==> m.plain == old(m.plain)
      ensures forall k :: (k in plain <==> k in old(plain)) && (k in plain ==> plain[k] == old(plain[k])) ==>
                l.PlainValue(k) == old(l.PlainValue(k))
      decreases l.depth
    {
      if l.parent != null {
        PlainAfter(l.parent);
      }
    }

    lemma PlainInherited(l: CowLevel, key: string)
      requires Linked() && l.Linked() && this in l.chain && PlainValue(key).Some?
      ensures l.PlainValue(key).Some?
      decreases l.depth
    {
      if l != this {
        PlainInherited(l.parent, key);
      }
    }

    /** __setitem__ with an immutable value, and __delitem__. */
    method SetPlain(key: string, value: Plain, ghost world: set<CowLevel>)
      requires World(world) && this in world
      modifies this`plain
      ensures World(world) && PlainValue(key) == Some(value)
      ensures Look(key) == if value == Deleted then Nothing else Text(value.value)
      ensures forall l <- world, k :: k != key || this !in l.chain ==> l.Look(k) == old(l.Look(k))
    {
      plain := plain[key := value];
      forall l, k | l in world && (k != key || this !in l.chain)
        ensures l.Look(k) == old(l.Look(k))
      {
        PlainAfter(l);
      }
    }

    /** The list to be read, copied into this level unless the reader promises not to change it. */
    method GetMutable(key: string, readonly: bool, ghost world: set<CowLevel>) returns (value: PyList?)
      requires World(world) && this in world
      modifies this`mutable
      ensures World(world)
      ensures forall l <- world, k :: l.Nearest(k) == old(l.Nearest(k))
      ensures value == null <==> Nearest(key).None?
      ensures value != null ==> Nearest(key) == Some(value.items)
      ensures value != null && !readonly ==> key in mutable && mutable[key] == value
      ensures value != null && !readonly && key !in old(mutable) ==> fresh(value)
      ensures readonly || key in old(mutable) ==> mutable == old(mutable)
      ensures forall k <- mutable :: fresh(mutable[k]) || (k in old(mutable) && mutable[k] == old(mutable[k]))
    {
      hide Unshared;
      if key in mutable {
        return mutable[key];
      }
      var o := Owner(key);
      if o == null {
        return null;
      }
      value := o.mutable[key];
      if readonly {
        return;
      }
      value := new PyList(value.items);
      SetList(key, value, world);
    }

    /** cls[key] */
    method GetItem(key: string, readonly: bool, ghost world: set<CowLevel>) returns (item: Item)
      requires World(world) && this in world
      modifies this`mutable
      ensures World(world)
      ensures forall l <- world, k :: l.Nearest(k) == old(l.Nearest(k)) && l.Look(k) == old(l.Look(k))
      ensures Shows(item, Look(key))
      ensures item.Mutable? && !readonly ==> key in mutable && mutable[key] == item.list
      ensures item.Mutable? && !readonly && key !in old(mutable) ==> fresh(item.list)
      ensures readonly || key in old(mutable) ==> mutable == old(mutable)
      ensures forall k <- mutable :: fresh(mutable[k]) || (k in old(mutable) && mutable[k] == old(mutable[k]))
    {
      var v := PlainValue(key);
      if v.Some? {
        return if v.value == Deleted then Absent else Fixed(v.value.value);
      }
      var list := GetMutable(key, readonly, world);
      return if list == null then Absent else Mutable(list);
    }

    /** key in cls */
    method HasKey(key: string, ghost world: set<CowLevel>) returns (b: bool)
      requires World(world) && this in world
      modifies this`mutable
      ensures mutable == old(mutable) && (b <==> Look(key) != Nothing)
    {
      var item := GetItem(key, true, world);
      return item != Absent;
    }

    /** The list to be appended to, as in "if key not in cls: cls[key] = []" and cls[key]. */
    method GetList(key: string, ghost world: set<CowLevel>) returns (item: Item)
      requires World(world) && this in world
      modifies this`mutable
      ensures World(world)
      ensures item == match old(PlainValue(key)) {
          case Some(Deleted) => Absent
          case Some(Immutable(v)) => Fixed(v)
          case None => item
        }
      ensures item.Mutable? <==> old(PlainValue(key)).None?
      ensures item.Mutable? ==> key in mutable && mutable[key] == item.list
      ensures item.Mutable? ==> item.list.items == (if old(Nearest(key)).None? then [] else old(Nearest(key)).value)
      ensures item.Mutable? ==> fresh(item.list) || (key in old(mutable) && item.list == old(mutable[key]))
      ensures forall l <- world, k :: l.Nearest(k) == old(l.Nearest(k)) || (k == key && l.Owner(k) == this)
      ensures forall k <- mutable :: fresh(mutable[k]) || (k in old(mutable) && mutable[k] == old(mutable[k]))
    {
      hide Unshared;
      var known := HasKey(key, world);
      if !known {
        var list := new PyList([]);
        SetList(key, list, world);
      }
      item := GetItem(key, false, world);
    }

    /** cls[key].append(e), with the list that a read has just given. */
    method Append(key: string, list: PyList, e: Entry, ghost world: set<CowLevel>)
      requires World(world) && this in world && key in mutable && mutable[key] == list
      modifies list
      ensures forall l <- world, k ::
                l.Nearest(k) == if k == key && l.Owner(k) == this then Some(old(list.items) + [e]) else old(l.Nearest(k))
    {
      list.items := list.items + [e];
    }
  }

  ghost predicate Shows(item: Item, s: Seen)
    reads if item.Mutable? then {item.list} else {}
  {
    match item
    case Absent => s == Nothing
    case Fixed(v) => s == Text(v)
    case Mutable(l) => s == Entries(l.items)
  }

  // ----- variable histories -----

  datatype Outcome = Recorded | Unrecorded | ValueError | KeyError

  predicate Ignored(e: Entry) {
    "ignore" in e && e["ignore"] != ""
  }

  function WithOp(e: Entry): Entry {
    if "op" in e && e["op"] != "" then e else e["op" := "set"]
  }

  function Added(before: Option<seq<Entry>>, e: Entry): seq<Entry> {
    var entries := if before.None? then [] else before.value;
    if "nodups" in e && e in entries then entries else entries + [e]
  }

  /** An entry is recorded as it is, with "set" for its operation if it names none. */
  lemma EntryIsKept(e: Entry)
    ensures "op" in WithOp(e) && WithOp(e)["op"] == if "op" in e && e["op"] != "" then e["op"] else "set"
    ensures forall k :: k != "op" ==> (k in WithOp(e) <==> k in e) && (k in e ==> WithOp(e)[k] == e[k])
    ensures Ignored(e) <==> "ignore" in e && |e["ignore"]| > 0
  {}

  /** It comes last, and earlier ones stay; one that need not be repeated is left out if it is there. */
  lemma EntryComesLast(before: seq<Entry>, e: Entry)
    ensures Added(None, e) == Added(Some([]), e)
    ensures before <= Added(Some(before), e)
    ensures Added(Some(before), e) == before <==> "nodups" in e && e in before
    ensures Added(Some(before), e) != before ==>
              |Added(Some(before), e)| == |before| + 1 && Added(Some(before), e)[|before|] == e
  {
    assert |before + [e]| != |before|;
  }

  class VariableHistory {
    const tracking: bool
    const variables: CowLevel

    constructor (tracking: bool, variables: CowLevel)
      ensures this.tracking == tracking && this.variables == variables
    {
      this.tracking, this.variables := tracking, variables;
    }

    method Copy() returns (copy: VariableHistory)
      requires variables.Linked()
      ensures fresh(copy) && fresh(copy.variables) && copy.variables.Linked()
      ensures copy.variables.chain == variables.chain + {copy.variables} && copy.tracking == tracking
      ensures copy.variables.plain == map[] && copy.variables.mutable == map[]
      ensures forall k :: copy.variables.Look(k) == variables.Look(k)
    {
      var level := new CowLevel.Cow(variables);
      copy := new VariableHistory(tracking, level);
      assert forall k :: level.Owner(k) == variables.Owner(k);
    }

    /** variables[key].append(e), unless the key was deleted or holds a string, or e need not be repeated. */
    method AddEntry(key: string, e: Entry, ghost world: set<CowLevel>) returns (o: Outcome)
      requires World(world) && variables in world
      modifies variables`mutable, set k | k in variables.mutable :: variables.mutable[k]
      ensures World(world)
      ensures o == match old(variables.PlainValue(key)) {
          case Some(Deleted) => KeyError
          case Some(Immutable(_)) => Unrecorded
          case None => Recorded
        }
      ensures o == Recorded ==> variables.Nearest(key) == Some(Added(old(variables.Nearest(key)), e))
      ensures forall l <- world, k :: l.Nearest(k) == old(l.Nearest(k)) || (k == key && l.Owner(k) == variables)
      ensures forall l <- world, k :: l.PlainValue(k) == old(l.PlainValue(k))
      ensures forall k <- variables.mutable ::
                || fresh(variables.mutable[k])
                || (k in old(variables.mutable) && variables.mutable[k] == old(variables.mutable[k]))
    {
      var item := variables.GetList(key, world);
      if item.Absent? {
        return KeyError;
      }
      if item.Fixed? {
        return Unrecorded;
      }
      assert variables.Owner(key) == variables;
      if !("nodups" in e && e in item.list.items) {
        variables.Append(key, item.list, e, world);
      }
      return Recorded;
    }

    /** The entry is added to the list that this history sees; other levels see it through this one only. */
    method Record(loginfo: Entry, ghost world: set<CowLevel>) returns (o: Outcome)
      requires World(world) && variables in world
      modifies variables`mutable, set k | k in variables.mutable :: variables.mutable[k]
      ensures World(world)
      ensures o == ValueError <==> tracking && !Ignored(loginfo) && ("variable" !in loginfo || "file" !in loginfo)
      ensures o == KeyError <==> tracking && !Ignored(loginfo) && "variable" in loginfo && "file" in loginfo &&
                                 old(variables.PlainValue(loginfo["variable"])) == Some(Deleted)
      ensures o == Recorded <==> tracking && !Ignored(loginfo) && "variable" in loginfo && "file" in loginfo &&
                                 old(variables.PlainValue(loginfo["variable"])) == None
      ensures o == Recorded ==>
          variables.Look(loginfo["variable"]) == Entries(Added(old(variables.Nearest(loginfo["variable"])), WithOp(loginfo)))
      ensures forall l <- world, k ::
                l.Look(k) == old(l.Look(k)) || (o == Recorded && k == loginfo["variable"] && l.Owner(k) == variables)
      ensures forall k <- variables.mutable ::
                || fresh(variables.mutable[k])
                || (k in old(variables.mutable) && variables.mutable[k] == old(variables.mutable[k]))
    {
      if !tracking || Ignored(loginfo) {
        return Unrecorded;
      }
      var e := WithOp(loginfo);
      if "variable" !in e || "file" !in e {
        return ValueError;
      }
      o := AddEntry(e["variable"], e, world);
      forall l | l in world && variables in l.chain
        ensures variables.PlainValue(e["variable"]).Some? ==> l.PlainValue(e["variable"]).Some?
      {
        if variables.PlainValue(e["variable"]).Some? {
          variables.PlainInherited(l, e["variable"]);
        }
      }
    }
  }

  /** A list set under a deleted key stays hidden. */
  method SetAfterDelete(level: CowLevel, key: string, value: PyList, ghost world: set<CowLevel>)
    requires World(world) && level in world
    requires forall l <- world, k <- l.mutable :: l.mutable[k] != value
    modifies level
    ensures level.Nearest(key) == Some(value.items) && level.Look(key) == Nothing
  {
    level.SetPlain(key, Deleted, world);
    level.SetList(key, value, world);
  }

  datatype Event = Copy(of: nat) | Record(at: nat, loginfo: Entry) | Read(at: nat, key: string)

  lemma WorldGrows(world: set<CowLevel>, l: CowLevel)
    requires World(world) && l.Linked() && l.chain <= world + {l} && l.mutable == map[]
    ensures World(world + {l})
  {}

  /** All lists of the level are new. */
  twostate predicate AllFresh(new l: CowLevel)
    reads l
  {
    fresh(l) && forall k <- l.mutable :: fresh(l.mutable[k])
  }

  /**
    A history is copied, and then the copy and copies of it are read, added to and copied again;
    an event for a copy that has not been made yet is skipped. Nothing that existed before is changed.
   */
  method Run(original: VariableHistory, events: seq<Event>, ghost world: set<CowLevel>)
    returns (copies: seq<VariableHistory>, ghost after: set<CowLevel>)
    requires World(world) && original.variables in world
    ensures World(after) && world <= after && forall c <- copies :: fresh(c.variables) && c.variables in after
    ensures forall l <- world, k :: l.Look(k) == old(l.Look(k)) && l.Nearest(k) == old(l.Nearest(k))
  {
    hide Unshared, CowLevel.Look, CowLevel.Nearest, CowLevel.PlainValue, CowLevel.Owner;
    var first := original.Copy();
    WorldGrows(world, first.variables);
    copies, after := [first], world + {first.variables};
    for i := 0 to |events|
      invariant World(after) && world <= after
      invariant forall j :: 0 <= j < |copies| ==> copies[j].variables in after && AllFresh(copies[j].variables)
    {
      match events[i]
      case Copy(of) =>
        if of < |copies| {
          var copy := copies[of].Copy();
          WorldGrows(after, copy.variables);
          copies, after := copies + [copy], after + {copy.variables};
        }
      case Record(at, loginfo) =>
        if at < |copies| {
          var o := copies[at].Record(loginfo, after);
        }
      case Read(at, key) =>
        if at < |copies| {
          var item := copies[at].variables.GetItem(key, false, after);
        }
    }
  }
}
