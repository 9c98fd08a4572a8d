/** Layer priorities: `handleCollections` and its recursive `calc_layer_priority`. */
module LayerPriority {
  import opened Wrappers
  import opened Graphs

  type Layer = Node

  /** The value of BBFILE_PATTERN. */
  datatype Pattern = Blank | Regex(valid: bool)

  /**
    What the layers' configuration files say. A missing entry is an unset variable. `misfits` are
    the dependencies whose version constraint does not hold; a recommendation with such a
    constraint is not listed.
   */
  datatype Settings = Settings(
    priority: map<Layer, int>,
    depends: map<Layer, seq<Layer>>,
    recommends: map<Layer, seq<Layer>>,
    misfits: set<(Layer, Layer)>,
    pattern: map<Layer, Pattern>)

  /** What is known once every layer has been looked at. */
  datatype Config = Config(
    stated: map<Layer, Option<int>>,
    depends: map<Layer, seq<Layer>>,
    least: int)

  datatype Error = MissingKey | CollectionError

  // ----- the lowest stated priority -----

  function LeastStep(m: int, p: Option<int>): int {
    if p.Some? && (m == 0 || p.value < m) then p.value else m
  }

  function Least(ps: seq<Option<int>>): int {
    if ps == [] then 0 else LeastStep(Least(ps[..|ps| - 1]), ps[|ps| - 1])
  }

  /** A zero restarts the search, so with a zero and a positive but no negative the order matters. */
  ghost predicate OrderMatters(ps: seq<Option<int>>) {
    && Some(0) in ps
    && (exists v :: v > 0 && Some(v) in ps)
    && forall v :: Some(v) in ps ==> v >= 0
  }

  ghost predicate IsMinimum(ps: seq<Option<int>>, m: int) {
    && (forall v :: Some(v) in ps ==> m <= v)
    && (if exists v :: Some(v) in ps then Some(m) in ps else m == 0)
  }

  lemma {:induction false} LeastSign(ps: seq<Option<int>>)
    ensures Least(ps) == 0 || Some(Least(ps)) in ps
    ensures Least(ps) < 0 <==> exists v :: v < 0 && Some(v) in ps
    ensures Least(ps) < 0 ==> forall v :: Some(v) in ps ==> Least(ps) <= v
    ensures Some(0) !in ps ==> IsMinimum(ps, Least(ps)) && (Least(ps) == 0 <==> forall v :: Some(v) !in ps)
  {
    if ps != [] {
      var init, last := ps[..|ps| - 1], ps[|ps| - 1];
      LeastSign(init);
      assert ps == init + [last];
      assert last.Some? ==> Some(last.value) in ps;
    }
  }

  /** Outside the bad case it is the minimum. */
  lemma LeastIsMinimum(ps: seq<Option<int>>)
    requires !OrderMatters(ps)
    ensures IsMinimum(ps, Least(ps))
  {
    LeastSign(ps);
    if Some(0) in ps && Least(ps) >= 0 {
      assert forall v :: Some(v) in ps ==> v >= 0;
      assert forall v :: Some(v) in ps ==> v == 0;
    }
  }

  lemma MoveLast<T>(ps: seq<T>, p: T) returns (qs: seq<T>)
    requires p in ps
    ensures multiset(qs) == multiset(ps) && qs != [] && qs[|qs| - 1] == p
    ensures ps[|ps| - 1] != p ==> |qs| > 1 && qs[|qs| - 2] == ps[|ps| - 1]
  {
    var k :| 0 <= k < |ps| && ps[k] == p;
    qs := ps[..k] + ps[k + 1..] + [p];
    assert ps == ps[..k] + [p] + ps[k + 1..];
  }

  lemma SameMembers(ps: seq<Option<int>>, qs: seq<Option<int>>)
    requires multiset(ps) == multiset(qs)
    ensures forall p :: p in ps <==> p in qs
  {
    forall p
      ensures p in ps <==> p in qs
    {
      assert p in ps <==> p in multiset(ps);
      assert p in qs <==> p in multiset(qs);
    }
  }

  lemma {:induction false} OrdersDiffer(ps: seq<Option<int>>) returns (zeroLast: seq<Option<int>>, otherLast: seq<Option<int>>)
    requires OrderMatters(ps)
    ensures multiset(zeroLast) == multiset(ps) && multiset(otherLast) == multiset(ps)
    ensures Least(zeroLast) == 0 && Least(otherLast) > 0
  {
    var v :| v > 0 && Some(v) in ps;
    zeroLast := MoveLast(ps, Some(0));
    otherLast := MoveLast(ps, Some(v));
    SameMembers(ps, zeroLast);
    SameMembers(ps, otherLast);
    LeastSign(zeroLast);
    LeastSign(otherLast[..|otherLast| - 1]);
    assert forall p :: p in otherLast[..|otherLast| - 1] ==> p in otherLast;
  }

  lemma OrderAlike(ps: seq<Option<int>>, qs: seq<Option<int>>)
    requires (forall p :: p in ps <==> p in qs) && !OrderMatters(ps)
    ensures Least(qs) == Least(ps)
  {
    LeastIsMinimum(ps);
    LeastIsMinimum(qs);
  }

  /** Exactly when `min_prio` depends on the order in which the layers are listed. */
  lemma LeastIgnoresOrder(ps: seq<Option<int>>)
    ensures (forall qs :: multiset(qs) == multiset(ps) ==> Least(qs) == Least(ps)) <==> !OrderMatters(ps)
  {
    hide OrderMatters, Least;
    if OrderMatters(ps) {
      var zeroLast, otherLast := OrdersDiffer(ps);
      assert Least(zeroLast) != Least(ps) || Least(otherLast) != Least(ps);
    } else {
      forall qs | multiset(qs) == multiset(ps)
        ensures Least(qs) == Least(ps)
      {
        SameMembers(ps, qs);
        OrderAlike(ps, qs);
      }
    }
  }

  // ----- what the priorities are to be -----

  predicate Unset(k: Config, c: Layer) {
    c in k.stated && (k.stated[c].None? || k.stated[c].value == 0)
  }

  ghost predicate WellFormed(k: Config) {
    k.stated.Keys == k.depends.Keys
  }

  /** The layers whose priorities a layer's own priority is computed from. */
  ghost function Needs(k: Config): Edges {
    (a, b) => Unset(k, a) && a in k.depends && b in k.depends[a]
  }

  /** The dependencies are acyclic. */
  ghost predicate Ranked(k: Config, rank: Layer -> nat) {
    RankedBy(Needs(k), rank)
  }

  /** That is just what it means for no layer to need itself. */
  lemma RankedIffNoCycle(k: Config)
    requires WellFormed(k)
    ensures (exists rank :: Ranked(k, rank)) <==> Acyclic(Needs(k))
  {
    RankedIffAcyclic(Needs(k), set c <- k.depends, d <- k.depends[c] :: d);
    assert forall rank :: Ranked(k, rank) <==> RankedBy(Needs(k), rank);
  }

  /** No layer that is needed is missing. */
  ghost predicate Covered(k: Config, c: Layer) {
    forall b :: Reaches(Needs(k), c, b) ==> b in k.stated
  }

  /** Priorities that keep what is stated and put every other layer just above what it needs. */
  ghost predicate IsFinal(k: Config, f: Layer -> int, c: Layer) {
    if Unset(k, c) && c in k.depends then
      && f(c) > k.least
      && (forall d <- k.depends[c] :: f(d) < f(c))
      && (f(c) == k.least + 1 || exists d <- k.depends[c] :: f(c) == f(d) + 1)
    else
      c in k.stated && k.stated[c].Some? ==> f(c) == k.stated[c].value
  }

  ghost function Final(k: Config, rank: Layer -> nat, c: Layer): int
    requires WellFormed(k) && Ranked(k, rank)
    decreases rank(c), 1, 0
  {
    if Unset(k, c) then assert forall d <- k.depends[c] :: Needs(k)(c, d); 1 + Highest(k, rank, c, k.depends[c])
    else if c in k.stated then k.stated[c].value
    else k.least
  }

  ghost function Highest(k: Config, rank: Layer -> nat, c: Layer, deps: seq<Layer>): int
    requires WellFormed(k) && Ranked(k, rank) && forall d <- deps :: rank(d) < rank(c)
    decreases rank(c), 0, |deps|
  {
    if deps == [] then k.least
    else
      var high := Highest(k, rank, c, deps[..|deps| - 1]);
      var depprio := Final(k, rank, deps[|deps| - 1]);
      if depprio > high then depprio else high
  }

  ghost function Finals(k: Config, rank: Layer -> nat): Layer -> int
    requires WellFormed(k) && Ranked(k, rank)
  {
    c => if WellFormed(k) && Ranked(k, rank) then Final(k, rank, c) else 0
  }

  lemma {:induction false} HighestIsMaximum(k: Config, rank: Layer -> nat, c: Layer, deps: seq<Layer>)
    requires WellFormed(k) && Ranked(k, rank) && forall d <- deps :: rank(d) < rank(c)
    ensures forall d <- deps :: Finals(k, rank)(d) <= Highest(k, rank, c, deps)
    ensures k.least <= Highest(k, rank, c, deps)
    ensures Highest(k, rank, c, deps) == k.least || exists d <- deps :: Finals(k, rank)(d) == Highest(k, rank, c, deps)
  {
    if deps != [] {
      var init, last := deps[..|deps| - 1], deps[|deps| - 1];
      assert deps == init + [last];
      HighestIsMaximum(k, rank, c, init);
      assert Finals(k, rank)(last) == Final(k, rank, last);
      assert last in deps;
    }
  }

  lemma FinalIsFinal(k: Config, rank: Layer -> nat, c: Layer)
    requires WellFormed(k) && Ranked(k, rank)
    ensures IsFinal(k, Finals(k, rank), c)
  {
    if Unset(k, c) {
      assert forall d <- k.depends[c] :: Needs(k)(c, d);
      HighestIsMaximum(k, rank, c, k.depends[c]);
    }
  }

  /** These demands leave one value for every layer, whatever the ranking. */
  lemma {:induction false} FinalIsUnique(k: Config, rank: Layer -> nat, f: Layer -> int, c: Layer)
    requires WellFormed(k) && Ranked(k, rank) && Covered(k, c)
    requires forall d :: IsFinal(k, f, d)
    ensures f(c) == Finals(k, rank)(c)
    decreases rank(c)
  {
    CoveredStep(k, c);
    assert IsFinal(k, f, c);
    if Unset(k, c) {
      forall d | d in k.depends[c]
        ensures f(d) == Finals(k, rank)(d)
      {
        assert Needs(k)(c, d);
        FinalIsUnique(k, rank, f, d);
      }
      assert forall d <- k.depends[c] :: Needs(k)(c, d);
      HighestIsMaximum(k, rank, c, k.depends[c]);
    }
  }

  lemma CoveredStep(k: Config, c: Layer)
    requires WellFormed(k)
    ensures Covered(k, c) <==> c in k.stated && (Unset(k, c) ==> forall d <- k.depends[c] :: Covered(k, d))
  {
    ReachesSelf(Needs(k), c);
    if Covered(k, c) && Unset(k, c) {
      forall d, b | d in k.depends[c] && Reaches(Needs(k), d, b)
        ensures b in k.stated
      {
        assert Needs(k)(c, d);
        ReachesFirst(Needs(k), c, d, b);
      }
    }
    if c in k.stated && (Unset(k, c) ==> forall d <- k.depends[c] :: Covered(k, d)) {
      forall b | Reaches(Needs(k), c, b)
        ensures b in k.stated
      {
        ReachesCases(Needs(k), c, b);
      }
    }
  }

  // ----- the code -----

  /** The variables that `calc_layer_priority` shares between its calls. */
  class Priorities {
    const k: Config
    var collection_priorities: map<Layer, Option<int>>

    constructor (k: Config)
      ensures this.k == k && collection_priorities == k.stated
    {
      this.k, collection_priorities := k, k.stated;
    }

    /** Some layers without a priority have got theirs. */
    ghost predicate Valid(rank: Layer -> nat)
      reads this
    {
      && WellFormed(k) && Ranked(k, rank)
      && collection_priorities.Keys == k.stated.Keys
      && forall c <- k.stated :: collection_priorities[c] == k.stated[c] || Computed(rank, c)
    }

    ghost predicate Computed(rank: Layer -> nat, c: Layer)
      requires WellFormed(k) && Ranked(k, rank)
      reads this
    {
      Unset(k, c) && Covered(k, c) && HasFinal(rank, c)
    }

    ghost predicate HasFinal(rank: Layer -> nat, c: Layer)
      requires WellFormed(k) && Ranked(k, rank)
      reads this
    {
      c in collection_priorities && collection_priorities[c] == Some(Finals(k, rank)(c))
    }

    predicate Done(c: Layer)
      reads this
    {
      c in collection_priorities && collection_priorities[c].Some? && collection_priorities[c].value != 0
    }

    /** False is a KeyError: a layer that is not enabled was needed. */
    method CalcLayerPriority(c: Layer, ghost rank: Layer -> nat) returns (ok: bool)
      requires Valid(rank)
      modifies this
      ensures Valid(rank) && (ok <==> Covered(k, c))
      ensures ok ==> HasFinal(rank, c)
      ensures forall d :: old(HasFinal(rank, d)) ==> HasFinal(rank, d)
      decreases rank(c)
    {
      hide Covered, Ranked, Final, Highest;
      CoveredStep(k, c);
      if c !in collection_priorities {
        return false;
      }
      StatedIsFinal(k, rank, c);
      if !Done(c) {
        var max_depprio := k.least;
        var deps := k.depends[c];
        NeedsRanked(k, rank, c);
        FinalFromHighest(k, rank, c);
        for i := 0 to |deps|
          invariant Valid(rank) && max_depprio == Highest(k, rank, c, deps[..i])
          invariant forall j :: 0 <= j < i ==> Covered(k, deps[j])
          invariant forall d :: old(HasFinal(rank, d)) ==> HasFinal(rank, d)
        {
          ok := CalcLayerPriority(deps[i], rank);
          if !ok {
            return;
          }
          var depprio := collection_priorities[deps[i]].value;
          HighestNext(k, rank, c, deps, i);
          if depprio > max_depprio {
            max_depprio := depprio;
          }
        }
        assert deps[..|deps|] == deps;
        max_depprio := max_depprio + 1;
        collection_priorities := collection_priorities[c := Some(max_depprio)];
      }
      return true;
    }
  }

  lemma StatedIsFinal(k: Config, rank: Layer -> nat, c: Layer)
    requires WellFormed(k) && Ranked(k, rank) && c in k.stated
    ensures !Unset(k, c) ==> k.stated[c] == Some(Finals(k, rank)(c))
  {}

  lemma FinalFromHighest(k: Config, rank: Layer -> nat, c: Layer)
    requires WellFormed(k) && Ranked(k, rank) && Unset(k, c)
    requires forall d <- k.depends[c] :: rank(d) < rank(c)
    ensures Highest(k, rank, c, []) == k.least
    ensures Finals(k, rank)(c) == 1 + Highest(k, rank, c, k.depends[c])
  {}

  lemma HighestNext(k: Config, rank: Layer -> nat, c: Layer, deps: seq<Layer>, i: nat)
    requires WellFormed(k) && Ranked(k, rank) && i < |deps| && forall d <- deps :: rank(d) < rank(c)
    ensures Highest(k, rank, c, deps[..i + 1]) ==
            var high, depprio := Highest(k, rank, c, deps[..i]), Finals(k, rank)(deps[i]);
            if depprio > high then depprio else high
  {
    assert deps[..i + 1][..i] == deps[..i];
  }

  lemma NeedsRanked(k: Config, rank: Layer -> nat, c: Layer)
    requires WellFormed(k) && Ranked(k, rank) && Unset(k, c)
    ensures forall d <- k.depends[c] :: rank(d) < rank(c)
  {
    assert forall d <- k.depends[c] :: Needs(k)(c, d);
  }

  // ----- reading the configuration -----

  function Stated(s: Settings, c: Layer): Option<int> {
    if c in s.priority then Some(s.priority[c]) else None
  }

  function AllStated(list: seq<Layer>, s: Settings): (ps: seq<Option<int>>)
    ensures |ps| == |list| && forall i :: 0 <= i < |list| ==> ps[i] == Stated(s, list[i])
  {
    if list == [] then [] else AllStated(list[..|list| - 1], s) + [Stated(s, list[|list| - 1])]
  }

  function LayerList(m: map<Layer, seq<Layer>>, c: Layer): seq<Layer> {
    if c in m then m[c] else []
  }

  function Enabled(list: seq<Layer>, layers: seq<Layer>): seq<Layer> {
    if layers == [] then []
    else
      var last := layers[|layers| - 1];
      Enabled(list, layers[..|layers| - 1]) + (if last in list then [last] else [])
  }

  /** A dependency always counts, a recommendation only when it is enabled. */
  function Depends(list: seq<Layer>, s: Settings, c: Layer): seq<Layer> {
    LayerList(s.depends, c) + Enabled(list, LayerList(s.recommends, c))
  }

  ghost function ConfigOf(list: seq<Layer>, s: Settings): Config {
    Config(map c | c in list :: Stated(s, c), map c | c in list :: Depends(list, s, c), Least(AllStated(list, s)))
  }

  /** A dependency of `c` that is not enabled. */
  ghost predicate Lacks(list: seq<Layer>, s: Settings, c: Layer) {
    exists d <- LayerList(s.depends, c) :: d !in list
  }

  /** A dependency of `c` that is not enabled, or not in a version that will do. */
  ghost predicate Faulty(list: seq<Layer>, s: Settings, c: Layer) {
    exists d <- LayerList(s.depends, c) :: d !in list || (c, d) in s.misfits
  }

  method CheckDepends(list: seq<Layer>, s: Settings, c: Layer) returns (deps: seq<Layer>, errors: bool)
    ensures deps == Depends(list, s, c) && (errors <==> Faulty(list, s, c))
  {
    deps, errors := LayerList(s.depends, c), false;
    for i := 0 to |deps|
      invariant errors <==> exists j :: 0 <= j < i && (deps[j] !in list || (c, deps[j]) in s.misfits)
    {
      if deps[i] !in list || (c, deps[i]) in s.misfits {
        errors := true;
      }
    }
    var recs := LayerList(s.recommends, c);
    for i := 0 to |recs|
      invariant deps == LayerList(s.depends, c) + Enabled(list, recs[..i])
    {
      assert recs[..i + 1][..i] == recs[..i];
      if recs[i] in list {
        deps := deps + [recs[i]];
      }
    }
    assert recs[..|recs|] == recs;
  }

  lemma NoneStated(s: Settings)
    ensures Least(AllStated([], s)) == 0
  {}

  lemma StatedNext(list: seq<Layer>, s: Settings, i: nat)
    requires i < |list|
    ensures Least(AllStated(list[..i + 1], s)) == LeastStep(Least(AllStated(list[..i], s)), Stated(s, list[i]))
  {
    assert list[..i + 1][..i] == list[..i];
    assert AllStated(list[..i + 1], s)[..i] == AllStated(list[..i], s);
  }

  ghost predicate AnyFaulty(list: seq<Layer>, s: Settings) {
    exists c <- list :: Faulty(list, s, c)
  }

  method ReadSettings(list: seq<Layer>, s: Settings) returns (k: Config, errors: bool)
    ensures k == ConfigOf(list, s)
    ensures errors <==> AnyFaulty(list, s)
  {
    hide Stated, AllStated, Least, Depends, Faulty;
    var priorities: map<Layer, Option<int>>, depends: map<Layer, seq<Layer>>, min_prio := map[], map[], 0;
    errors := false;
    NoneStated(s);
    assert list[..0] == [];
    for i := 0 to |list|
      invariant forall c :: c in priorities <==> c in list[..i]
      invariant forall c <- priorities :: priorities[c] == Stated(s, c)
      invariant forall c :: c in depends <==> c in list[..i]
      invariant forall c <- depends :: depends[c] == Depends(list, s, c)
      invariant min_prio == Least(AllStated(list[..i], s))
      invariant errors <==> exists j :: 0 <= j < i && Faulty(list, s, list[j])
    {
      var c := list[i];
      var prio := Stated(s, c);
      StatedNext(list, s, i);
      assert list[..i + 1] == list[..i] + [c];
      if prio.Some? && (min_prio == 0 || prio.value < min_prio) {
        min_prio := prio.value;
      }
      priorities := priorities[c := prio];
      var deps, faulty := CheckDepends(list, s, c);
      errors := errors || faulty;
      depends := depends[c := deps];
    }
    assert list[..|list|] == list;
    k := Config(priorities, depends, min_prio);
    assert k == ConfigOf(list, s);
  }

  lemma EnabledInList(list: seq<Layer>, layers: seq<Layer>)
    ensures forall d <- Enabled(list, layers) :: d in list
  {}

  /** A key is missing when a layer without a priority lacks a dependency. */
  lemma {:induction false} CoveredUnless(list: seq<Layer>, s: Settings, rank: Layer -> nat, c: Layer)
    requires Ranked(ConfigOf(list, s), rank) && c in list
    requires forall b <- list :: Unset(ConfigOf(list, s), b) ==> !Lacks(list, s, b)
    ensures Covered(ConfigOf(list, s), c)
    decreases rank(c)
  {
    var k := ConfigOf(list, s);
    CoveredStep(k, c);
    if Unset(k, c) {
      NeedsRanked(k, rank, c);
      EnabledInList(list, LayerList(s.recommends, c));
      forall d | d in k.depends[c]
        ensures Covered(k, d)
      {
        CoveredUnless(list, s, rank, d);
      }
    }
  }

  lemma NotCoveredIf(list: seq<Layer>, s: Settings, c: Layer)
    requires c in list && Unset(ConfigOf(list, s), c) && Lacks(list, s, c)
    ensures !Covered(ConfigOf(list, s), c)
  {
    var k := ConfigOf(list, s);
    CoveredStep(k, c);
    var d :| d in LayerList(s.depends, c) && d !in list;
    CoveredStep(k, d);
    assert d in k.depends[c];
  }

  /** Every layer with its final priority. */
  ghost predicate AreFinal(k: Config, rank: Layer -> nat, list: seq<Layer>, found: seq<(Layer, int)>) {
    && WellFormed(k) && Ranked(k, rank) && |found| == |list|
    && forall i :: 0 <= i < |list| ==> found[i] == (list[i], Finals(k, rank)(list[i]))
  }

  /** Some layer without a priority of its own lacks a dependency. */
  ghost predicate KeyMissing(list: seq<Layer>, s: Settings) {
    exists c <- list :: Unset(ConfigOf(list, s), c) && Lacks(list, s, c)
  }

  lemma KeyMissingIff(list: seq<Layer>, s: Settings, rank: Layer -> nat)
    requires Ranked(ConfigOf(list, s), rank)
    ensures KeyMissing(list, s) <==> exists c <- list :: !Covered(ConfigOf(list, s), c)
  {
    if c :| c in list && Unset(ConfigOf(list, s), c) && Lacks(list, s, c) {
      NotCoveredIf(list, s, c);
    }
    if c :| c in list && !Covered(ConfigOf(list, s), c) {
      if !KeyMissing(list, s) {
        CoveredUnless(list, s, rank, c);
      }
    }
  }

  predicate HasBlank(s: Settings, c: Layer) {
    c in s.pattern && s.pattern[c].Blank?
  }

  /** The pattern is undefined, or no regular expression. */
  predicate HasBroken(s: Settings, c: Layer) {
    c in s.pattern ==> s.pattern[c] == Regex(false)
  }

  /**
    When errors are reported in the end: an empty pattern wipes out those seen before, so either a
    broken pattern comes after the last empty one, or there is none and a dependency was at fault.
   */
  ghost predicate Complains(list: seq<Layer>, s: Settings, faulty: bool) {
    || (exists i :: 0 <= i < |list| && HasBroken(s, list[i]) && forall j :: i < j < |list| ==> !HasBlank(s, list[j]))
    || (faulty && forall i :: 0 <= i < |list| ==> !HasBlank(s, list[i]))
  }

  lemma ComplainsNext(list: seq<Layer>, s: Settings, faulty: bool, c: Layer)
    ensures Complains([], s, faulty) == faulty
    ensures Complains(list + [c], s, faulty) <==>
            if HasBroken(s, c) then true else if HasBlank(s, c) then false else Complains(list, s, faulty)
  {
    var more := list + [c];
    assert more[|list|] == c && forall i :: 0 <= i < |list| ==> more[i] == list[i];
  }

  /** The layers whose patterns can be used. */
  function Usable(list: seq<Layer>, s: Settings): seq<Layer> {
    if list == [] then []
    else
      var last := list[|list| - 1];
      Usable(list[..|list| - 1], s) + (if HasBroken(s, last) then [] else [last])
  }

  /** The loop over the layers that ends in `bbfile_config_priorities`. */
  method CalcAll(k: Config, list: seq<Layer>, s: Settings, faulty: bool, ghost rank: Layer -> nat)
    returns (ok: bool, errors: bool, found: seq<(Layer, int)>)
    requires WellFormed(k) && Ranked(k, rank) && forall c <- list :: c in k.stated
    ensures ok <==> forall c <- list :: Covered(k, c)
    ensures ok ==> AreFinal(k, rank, Usable(list, s), found) && (errors <==> Complains(list, s, faulty))
  {
    hide Ranked, Covered, Unset, Complains, AreFinal, Usable, Finals, HasBroken, HasBlank, WellFormed;
    var priorities := new Priorities(k);
    errors, found := faulty, [];
    NoneUsable(k, rank, s, faulty);
    assert list[..0] == [];
    for i := 0 to |list|
      invariant priorities.k == k && fresh(priorities) && priorities.Valid(rank)
      invariant AreFinal(k, rank, Usable(list[..i], s), found)
      invariant errors <==> Complains(list[..i], s, faulty)
      invariant forall j :: 0 <= j < i ==> Covered(k, list[j])
    {
      var c := list[i];
      assert list[..i + 1] == list[..i] + [c];
      ok := priorities.CalcLayerPriority(c, rank);
      if !ok {
        return;
      }
      ComplainsNext(list[..i], s, faulty, c);
      UsableNext(k, rank, list[..i], s, found, c);
      if HasBroken(s, c) {
        errors := true;
      } else {
        if HasBlank(s, c) {
          errors := false;
        }
        found := found + [(c, priorities.collection_priorities[c].value)];
      }
    }
    assert list[..|list|] == list;
    ok := true;
  }

  lemma NoneUsable(k: Config, rank: Layer -> nat, s: Settings, faulty: bool)
    requires WellFormed(k) && Ranked(k, rank)
    ensures AreFinal(k, rank, Usable([], s), []) && Complains([], s, faulty) == faulty
  {}

  lemma UsableNext(k: Config, rank: Layer -> nat, list: seq<Layer>, s: Settings, found: seq<(Layer, int)>, c: Layer)
    requires AreFinal(k, rank, Usable(list, s), found)
    ensures if HasBroken(s, c) then AreFinal(k, rank, Usable(list + [c], s), found)
            else AreFinal(k, rank, Usable(list + [c], s), found + [(c, Finals(k, rank)(c))])
  {
    assert (list + [c])[..|list|] == list;
  }

  /** The priorities of all layers with a pattern, in the order in which they are listed. */
  method HandleCollections(list: seq<Layer>, s: Settings, ghost rank: Layer -> nat)
    returns (res: Result<seq<(Layer, int)>, Error>)
    requires Ranked(ConfigOf(list, s), rank)
    ensures res == Failure(MissingKey) <==> KeyMissing(list, s)
    ensures res == Failure(CollectionError) <==> !KeyMissing(list, s) && Complains(list, s, AnyFaulty(list, s))
    ensures res.Success? ==> AreFinal(ConfigOf(list, s), rank, Usable(list, s), res.value)
  {
    hide Ranked, Covered, Unset, Lacks, AnyFaulty, Complains, Finals;
    var k, faulty := ReadSettings(list, s);
    KeyMissingIff(list, s, rank);
    var ok, errors, found := CalcAll(k, list, s, faulty, rank);
    return if !ok then Failure(MissingKey) else if errors then Failure(CollectionError) else Success(found);
  }

  /** A dependency that is not enabled goes unreported when the layer's own pattern is empty. */
  lemma BlankPatternHidesErrors(s: Settings)
    requires s == Settings(map["a" := 5], map["a" := ["missing"]], map[], {}, map["a" := Blank])
    ensures AnyFaulty(["a"], s) && !KeyMissing(["a"], s) && !Complains(["a"], s, true)
  {
    assert "missing" in LayerList(s.depends, "a");
    assert Faulty(["a"], s, "a") && "a" in ["a"];
    assert HasBlank(s, ["a"][0]);
  }

  // ----- the same in terms of the settings -----

  lemma {:induction false} EnabledAre(list: seq<Layer>, layers: seq<Layer>, d: Layer)
    ensures d in Enabled(list, layers) <==> d in layers && d in list
  {
    if layers != [] {
      var init, last := layers[..|layers| - 1], layers[|layers| - 1];
      EnabledAre(list, init, d);
      assert layers == init + [last];
    }
  }

  /** What a layer waits for: its dependencies, and those of its recommendations that are enabled. */
  ghost predicate WaitsFor(list: seq<Layer>, s: Settings, c: Layer, d: Layer) {
    || (c in s.depends && d in s.depends[c])
    || (c in s.recommends && d in s.recommends[c] && d in list)
  }

  lemma DependsAre(list: seq<Layer>, s: Settings, c: Layer, d: Layer)
    ensures d in Depends(list, s, c) <==> WaitsFor(list, s, c, d)
  {
    EnabledAre(list, LayerList(s.recommends, c), d);
  }

  /**
    A stated priority other than 0 is a layer's final priority. Without one it is just above `min_prio` and
    the final priorities of all that the layer waits for.
   */
  lemma FinalBySettings(list: seq<Layer>, s: Settings, rank: Layer -> nat, c: Layer)
    requires Ranked(ConfigOf(list, s), rank) && c in list
    ensures var k := ConfigOf(list, s);
            var f := Finals(k, rank);
            if c in s.priority && s.priority[c] != 0 then f(c) == s.priority[c]
            else
              && f(c) > k.least && (forall d :: WaitsFor(list, s, c, d) ==> f(d) < f(c))
              && (f(c) == k.least + 1 || exists d :: WaitsFor(list, s, c, d) && f(c) == f(d) + 1)
  {
    var k := ConfigOf(list, s);
    var f := Finals(k, rank);
    FinalIsFinal(k, rank, c);
    forall d
      ensures d in Depends(list, s, c) <==> WaitsFor(list, s, c, d)
    {
      DependsAre(list, s, c, d);
    }
    assert k.stated[c] == (if c in s.priority then Some(s.priority[c]) else None) && k.depends[c] == Depends(list, s, c);
    hide Finals, Least, AllStated, Depends, WaitsFor, Ranked;
  }

  /** A pattern that is missing or no regular expression is an error, and an empty one ends all errors. */
  lemma PatternCases(s: Settings, c: Layer, faulty: bool)
    ensures c !in s.pattern ==> Complains([c], s, faulty) && Usable([c], s) == []
    ensures c in s.pattern && s.pattern[c] == Regex(false) ==> Complains([c], s, faulty) && Usable([c], s) == []
    ensures c in s.pattern && s.pattern[c] == Blank ==> !Complains([c], s, faulty) && Usable([c], s) == [c]
    ensures c in s.pattern && s.pattern[c] == Regex(true) ==> (Complains([c], s, faulty) <==> faulty) && Usable([c], s) == [c]
  {
    ComplainsNext([], s, faulty, c);
    assert [] + [c] == [c] && [c][..0] == [];
    assert Usable([], s) == [];
  }

  lemma {:induction false} UsableConcat(a: seq<Layer>, b: seq<Layer>, s: Settings)
    ensures Usable(a + b, s) == Usable(a, s) + Usable(b, s)
  {
    if b == [] {
      assert a + b == a;
    } else {
      assert (a + b)[..|a + b| - 1] == a + b[..|b| - 1];
      UsableConcat(a, b[..|b| - 1], s);
    }
  }

  lemma {:induction false} EnabledAlike(list: seq<Layer>, other: seq<Layer>, layers: seq<Layer>)
    requires forall c :: c in list <==> c in other
    ensures Enabled(list, layers) == Enabled(other, layers)
  {
    if layers != [] {
      EnabledAlike(list, other, layers[..|layers| - 1]);
    }
  }

  lemma StatedIn(list: seq<Layer>, other: seq<Layer>, s: Settings, p: Option<int>)
    requires (forall c <- list :: c in other) && p in AllStated(list, s)
    ensures p in AllStated(other, s)
  {
    var i :| 0 <= i < |list| && AllStated(list, s)[i] == p;
    assert list[i] in other;
    var j :| 0 <= j < |other| && other[j] == list[i];
    assert AllStated(other, s)[j] == p;
  }

  lemma SameStated(list: seq<Layer>, other: seq<Layer>, s: Settings)
    requires forall c :: c in list <==> c in other
    ensures forall p :: p in AllStated(list, s) <==> p in AllStated(other, s)
  {
    forall p
      ensures p in AllStated(list, s) <==> p in AllStated(other, s)
    {
      if p in AllStated(list, s) {
        StatedIn(list, other, s, p);
      }
      if p in AllStated(other, s) {
        StatedIn(other, list, s, p);
      }
    }
  }

  /** The order in which the layers are listed only plays a part in `min_prio`. */
  lemma OnlyLeastDiffers(list: seq<Layer>, other: seq<Layer>, s: Settings)
    requires forall c :: c in list <==> c in other
    ensures ConfigOf(other, s) == ConfigOf(list, s).(least := Least(AllStated(other, s)))
  {
    hide AllStated, Least, Enabled;
    forall d
      ensures Depends(list, s, d) == Depends(other, s, d)
    {
      EnabledAlike(list, other, LayerList(s.recommends, d));
    }
    assert ConfigOf(list, s).stated == ConfigOf(other, s).stated;
    assert ConfigOf(list, s).depends == ConfigOf(other, s).depends;
  }

  /** What is known of the layers does not depend on how they are listed. */
  lemma ConfigIgnoresOrder(list: seq<Layer>, other: seq<Layer>, s: Settings)
    requires (forall c :: c in list <==> c in other) && !OrderMatters(AllStated(list, s))
    ensures ConfigOf(list, s) == ConfigOf(other, s)
  {
    OnlyLeastDiffers(list, other, s);
    SameStated(list, other, s);
    OrderAlike(AllStated(list, s), AllStated(other, s));
  }

  lemma FinalsIgnoreRank(k: Config, rank: Layer -> nat, rank': Layer -> nat, c: Layer)
    requires WellFormed(k) && Ranked(k, rank) && Ranked(k, rank') && Covered(k, c)
    ensures Finals(k, rank)(c) == Finals(k, rank')(c)
  {
    hide Covered, IsFinal, Finals, Ranked;
    forall d
      ensures IsFinal(k, Finals(k, rank'), d)
    {
      FinalIsFinal(k, rank', d);
    }
    FinalIsUnique(k, rank, Finals(k, rank'), c);
  }

  // ----- exactly when the order changes a priority -----

  /** No stated priority is greater. */
  ghost predicate AtTop(k: Config, d: Layer) {
    && d in k.stated && k.stated[d].Some?
    && forall e <- k.stated :: k.stated[e].Some? ==> k.stated[e].value <= k.stated[d].value
  }

  /** A layer without a priority for which `min_prio` may decide: its dependencies are all stated below the top. */
  ghost predicate Loose(k: Config, c: Layer) {
    && Unset(k, c) && c in k.depends
    && forall d <- k.depends[c] :: !Unset(k, d) && !AtTop(k, d)
  }

  /** Apart from the priorities that come out, `min_prio` plays no part. */
  lemma WithLeast(k: Config, least: int, rank: Layer -> nat)
    ensures var k' := k.(least := least);
            && (Ranked(k', rank) <==> Ranked(k, rank))
            && (forall c :: Covered(k', c) <==> Covered(k, c))
            && (forall c :: Loose(k', c) <==> Loose(k, c))
            && (forall c :: AtTop(k', c) <==> AtTop(k, c))
  {
    var k' := k.(least := least);
    assert forall a, b :: Needs(k)(a, b) <==> Needs(k')(a, b);
    forall c
      ensures Covered(k', c) <==> Covered(k, c)
    {
      SameReaches(Needs(k), Needs(k'), c);
    }
  }

  /** No layer is loose, and both values of `min_prio` are at most the greatest stated priority. */
  ghost predicate Firm(k: Config, least: int, rank: Layer -> nat, top: Layer) {
    && WellFormed(k) && Ranked(k, rank) && Ranked(k.(least := least), rank)
    && AtTop(k, top) && k.stated[top].value > 0
    && k.least <= k.stated[top].value && least <= k.stated[top].value
    && forall b <- k.stated :: !Loose(k, b)
  }

  /** Then every unset layer comes out above the top, and for both values alike. */
  lemma {:induction false} FirmAboveTop(k: Config, least: int, rank: Layer -> nat, c: Layer, top: Layer)
    ensures Firm(k, least, rank, top) && Covered(k, c) ==>
              && Finals(k, rank)(c) == Finals(k.(least := least), rank)(c)
              && (Unset(k, c) ==> Finals(k, rank)(c) > k.stated[top].value)
    decreases rank(c)
  {
    if !Firm(k, least, rank, top) || !Covered(k, c) {
      return;
    }
    var k' := k.(least := least);
    CoveredStep(k, c);
    StatedIsFinal(k, rank, c);
    StatedIsFinal(k', rank, c);
    if Unset(k, c) {
      NeedsRanked(k, rank, c);
      FinalFromHighest(k, rank, c);
      FinalFromHighest(k', rank, c);
      forall d | d in k.depends[c]
        ensures Finals(k, rank)(d) == Finals(k', rank)(d)
        ensures Unset(k, d) ==> Finals(k, rank)(d) > k.stated[top].value
      {
        CoveredStep(k, d);
        FirmAboveTop(k, least, rank, d, top);
      }
      var high :| high in k.depends[c] && (Unset(k, high) || AtTop(k, high));
      CoveredStep(k, high);
      StatedIsFinal(k, rank, high);
      hide Final, Highest, Covered, Ranked, Finals;
      HighestIsMaximum(k, rank, c, k.depends[c]);
      HighestIsMaximum(k', rank, c, k.depends[c]);
    }
  }

  /** A loose layer takes its priority from a `min_prio` at the top, and comes out lower for one of 0. */
  lemma LooseDiffers(k: Config, rank: Layer -> nat, c: Layer, top: Layer)
    requires WellFormed(k) && Ranked(k, rank) && Covered(k, c) && Loose(k, c)
    requires AtTop(k, top) && k.stated[top].value > 0
    ensures k.least == 0 ==> Finals(k, rank)(c) <= k.stated[top].value
    ensures k.least == k.stated[top].value ==> Finals(k, rank)(c) > k.stated[top].value
  {
    CoveredStep(k, c);
    NeedsRanked(k, rank, c);
    FinalFromHighest(k, rank, c);
    HighestIsMaximum(k, rank, c, k.depends[c]);
    forall d | d in k.depends[c]
      ensures Finals(k, rank)(d) < k.stated[top].value
    {
      CoveredStep(k, d);
      StatedIsFinal(k, rank, d);
    }
  }

  ghost predicate AnyLoose(list: seq<Layer>, s: Settings) {
    exists c <- list :: Loose(ConfigOf(list, s), c)
  }

  /** Another order of the same layers. */
  ghost predicate Reordered(list: seq<Layer>, other: seq<Layer>) {
    multiset(other) == multiset(list)
  }

  /** Some layer gets another priority when the layers are listed like this. */
  ghost predicate Differs(list: seq<Layer>, other: seq<Layer>, s: Settings, rank: Layer -> nat) {
    && Reordered(list, other)
    && Ranked(ConfigOf(list, s), rank) && Ranked(ConfigOf(other, s), rank)
    && exists c <- list :: Finals(ConfigOf(other, s), rank)(c) != Finals(ConfigOf(list, s), rank)(c)
  }

  lemma SameLayers(list: seq<Layer>, other: seq<Layer>)
    requires Reordered(list, other)
    ensures forall c :: c in list <==> c in other
  {
    forall c
      ensures c in list <==> c in other
    {
      assert c in list <==> c in multiset(list);
      assert c in other <==> c in multiset(other);
    }
  }

  lemma {:induction false} FindTop(list: seq<Layer>, s: Settings) returns (top: Layer)
    requires exists c <- list :: Stated(s, c).Some?
    ensures top in list && Stated(s, top).Some?
    ensures forall c <- list :: Stated(s, c).Some? ==> Stated(s, c).value <= Stated(s, top).value
  {
    var init, last := list[..|list| - 1], list[|list| - 1];
    assert list == init + [last];
    if exists c <- init :: Stated(s, c).Some? {
      top := FindTop(init, s);
      if Stated(s, last).Some? && Stated(s, last).value > Stated(s, top).value {
        top := last;
      }
    } else {
      top := last;
    }
  }

  lemma LeastAtEnd(list: seq<Layer>, s: Settings)
    requires list != []
    ensures var init := list[..|list| - 1];
            Least(AllStated(list, s)) == LeastStep(Least(AllStated(init, s)), Stated(s, list[|list| - 1]))
  {
    StatedNext(list, s, |list| - 1);
    assert list[..|list| - 1 + 1] == list;
  }

  lemma LeastNotNegative(list: seq<Layer>, s: Settings)
    requires forall c <- list :: Stated(s, c).Some? ==> Stated(s, c).value >= 0
    ensures Least(AllStated(list, s)) >= 0
    ensures Least(AllStated(list, s)) == 0 || exists c <- list :: Stated(s, c) == Some(Least(AllStated(list, s)))
  {
    var ps := AllStated(list, s);
    forall p | p in ps
      ensures exists c <- list :: Stated(s, c) == p
    {
      var i :| 0 <= i < |ps| && ps[i] == p;
      assert list[i] in list;
    }
    LeastSign(ps);
  }

  lemma ZeroLast(list: seq<Layer>, s: Settings)
    requires list != [] && Stated(s, list[|list| - 1]) == Some(0)
    requires forall c <- list :: Stated(s, c).Some? ==> Stated(s, c).value >= 0
    ensures Least(AllStated(list, s)) == 0
  {
    LeastAtEnd(list, s);
    LeastNotNegative(list[..|list| - 1], s);
  }

  /** With a zero last `min_prio` is 0, and with a zero and then the greatest priority it is that one. */
  lemma BothLeasts(list: seq<Layer>, s: Settings, zero: Layer, top: Layer) returns (zeroLast: seq<Layer>, topLast: seq<Layer>)
    requires zero in list && Stated(s, zero) == Some(0)
    requires top in list && Stated(s, top).Some? && Stated(s, top).value > 0
    requires forall c <- list :: Stated(s, c).Some? ==> Stated(s, c).value >= 0
    ensures Reordered(list, zeroLast) && Least(AllStated(zeroLast, s)) == 0
    ensures Reordered(list, topLast) && Least(AllStated(topLast, s)) == Stated(s, top).value
  {
    zeroLast := MoveLast(list, zero);
    SameLayers(list, zeroLast);
    ZeroLast(zeroLast, s);
    topLast := MoveLast(zeroLast, top);
    SameLayers(list, topLast);
    var init := topLast[..|topLast| - 1];
    assert forall c <- init :: c in topLast;
    ZeroLast(init, s);
    LeastAtEnd(topLast, s);
  }

  lemma StatedFacts(list: seq<Layer>, s: Settings)
    ensures forall p :: p in AllStated(list, s) <==> exists c <- list :: Stated(s, c) == p
  {
    forall p
      ensures p in AllStated(list, s) <==> exists c <- list :: Stated(s, c) == p
    {
      if p in AllStated(list, s) {
        var i :| 0 <= i < |list| && AllStated(list, s)[i] == p;
        assert list[i] in list;
      }
      if c :| c in list && Stated(s, c) == p {
        var i :| 0 <= i < |list| && list[i] == c;
        assert AllStated(list, s)[i] == p;
      }
    }
  }

  /** A zero, a positive and no negative priority are stated; `top` is the greatest. */
  lemma WhenOrderMatters(list: seq<Layer>, s: Settings) returns (zero: Layer, top: Layer)
    requires OrderMatters(AllStated(list, s))
    ensures zero in list && Stated(s, zero) == Some(0)
    ensures top in list && Stated(s, top).Some? && Stated(s, top).value > 0 && AtTop(ConfigOf(list, s), top)
    ensures forall c <- list :: Stated(s, c).Some? ==> 0 <= Stated(s, c).value <= Stated(s, top).value
  {
    StatedFacts(list, s);
    var v :| v > 0 && Some(v) in AllStated(list, s);
    zero :| zero in list && Stated(s, zero) == Some(0);
    var positive :| positive in list && Stated(s, positive) == Some(v);
    top := FindTop(list, s);
    forall c | c in list && Stated(s, c).Some?
      ensures Stated(s, c).value >= 0
    {
      assert Some(Stated(s, c).value) in AllStated(list, s);
    }
  }

  lemma LooseMakesDiffer(list: seq<Layer>, s: Settings, rank: Layer -> nat, c: Layer) returns (other: seq<Layer>)
    requires OrderMatters(AllStated(list, s)) && Ranked(ConfigOf(list, s), rank)
    requires c in list && Covered(ConfigOf(list, s), c) && Loose(ConfigOf(list, s), c)
    ensures Differs(list, other, s, rank)
  {
    var k := ConfigOf(list, s);
    var zero, top := WhenOrderMatters(list, s);
    var zeroLast, topLast := BothLeasts(list, s, zero, top);
    LeastChanges(list, zeroLast, s, rank);
    LeastChanges(list, topLast, s, rank);
    LooseDiffers(ConfigOf(zeroLast, s), rank, c, top);
    LooseDiffers(ConfigOf(topLast, s), rank, c, top);
    other := if Finals(ConfigOf(zeroLast, s), rank)(c) != Finals(k, rank)(c) then zeroLast else topLast;
  }

  /** Everything but `min_prio` carries over to another order. */
  lemma LeastChanges(list: seq<Layer>, other: seq<Layer>, s: Settings, rank: Layer -> nat)
    requires Reordered(list, other)
    ensures ConfigOf(other, s) == ConfigOf(list, s).(least := Least(AllStated(other, s)))
    ensures Ranked(ConfigOf(other, s), rank) <==> Ranked(ConfigOf(list, s), rank)
    ensures forall c :: Covered(ConfigOf(list, s), c) <==> Covered(ConfigOf(other, s), c)
    ensures forall c :: Loose(ConfigOf(list, s), c) <==> Loose(ConfigOf(other, s), c)
    ensures forall d :: AtTop(ConfigOf(list, s), d) <==> AtTop(ConfigOf(other, s), d)
  {
    hide *;
    SameLayers(list, other);
    OnlyLeastDiffers(list, other, s);
    WithLeast(ConfigOf(list, s), Least(AllStated(other, s)), rank);
  }

  /** Exactly when some layer's priority depends on the order in which the layers are listed. */
  lemma PrioritiesDependOnOrder(list: seq<Layer>, s: Settings, rank: Layer -> nat)
    requires Ranked(ConfigOf(list, s), rank) && !KeyMissing(list, s)
    ensures (exists other :: Differs(list, other, s, rank)) <==>
            OrderMatters(AllStated(list, s)) && AnyLoose(list, s)
  {
    KeyMissingIff(list, s, rank);
    if OrderMatters(AllStated(list, s)) {
      if c :| c in list && Loose(ConfigOf(list, s), c) {
        var other := LooseMakesDiffer(list, s, rank, c);
      } else {
        forall other | Reordered(list, other)
          ensures !Differs(list, other, s, rank)
        {
          FirmIgnoresOrder(list, other, s, rank);
        }
      }
    } else {
      forall other | Reordered(list, other)
        ensures !Differs(list, other, s, rank)
      {
        SameLayers(list, other);
        ConfigIgnoresOrder(list, other, s);
      }
    }
  }

  lemma ConfigFacts(list: seq<Layer>, s: Settings)
    ensures var k := ConfigOf(list, s);
            && WellFormed(k) && k.least == Least(AllStated(list, s))
            && (forall c :: c in k.stated <==> c in list)
            && (forall c <- list :: k.stated[c] == Stated(s, c))
  {
    hide Least, AllStated, Stated, Depends;
  }

  lemma FirmWhenNoneLoose(list: seq<Layer>, other: seq<Layer>, s: Settings, rank: Layer -> nat) returns (top: Layer)
    requires Ranked(ConfigOf(list, s), rank) && Reordered(list, other)
    requires OrderMatters(AllStated(list, s)) && !AnyLoose(list, s)
    ensures Firm(ConfigOf(list, s), Least(AllStated(other, s)), rank, top)
  {
    hide ConfigOf, Ranked, Loose, AtTop, OrderMatters, Least, AllStated, Unset, Stated, WellFormed, Reordered;
    ConfigFacts(list, s);
    var zero;
    zero, top := WhenOrderMatters(list, s);
    SameLayers(list, other);
    LeastWithin(list, s, top);
    LeastWithin(other, s, top);
    LeastChanges(list, other, s, rank);
  }

  lemma FirmIgnoresOrder(list: seq<Layer>, other: seq<Layer>, s: Settings, rank: Layer -> nat)
    requires Ranked(ConfigOf(list, s), rank) && !KeyMissing(list, s) && Reordered(list, other)
    ensures OrderMatters(AllStated(list, s)) && !AnyLoose(list, s) ==> !Differs(list, other, s, rank)
  {
    hide ConfigOf, Ranked, Covered, Loose, Finals, OrderMatters, AnyLoose, Least, AllStated, Unset, KeyMissing, Firm;
    if OrderMatters(AllStated(list, s)) && !AnyLoose(list, s) {
      ConfigFacts(list, s);
      ConfigFacts(other, s);
      KeyMissingIff(list, s, rank);
      LeastChanges(list, other, s, rank);
      var top := FirmWhenNoneLoose(list, other, s, rank);
      forall c | c in list
        ensures Finals(ConfigOf(list, s), rank)(c) == Finals(ConfigOf(other, s), rank)(c)
      {
        FirmAboveTop(ConfigOf(list, s), Least(AllStated(other, s)), rank, c, top);
      }
    }
  }

  lemma LeastWithin(list: seq<Layer>, s: Settings, top: Layer)
    requires Stated(s, top).Some? && Stated(s, top).value > 0
    requires forall c <- list :: Stated(s, c).Some? ==> 0 <= Stated(s, c).value <= Stated(s, top).value
    ensures Least(AllStated(list, s)) <= Stated(s, top).value
  {
    LeastNotNegative(list, s);
  }

  lemma StatedTwo(a: Layer, b: Layer, s: Settings)
    ensures Least(AllStated([a, b], s)) == LeastStep(LeastStep(0, Stated(s, a)), Stated(s, b))
  {
    hide AllStated, Least, Stated, LeastStep;
    NoneStated(s);
    StatedNext([a, b], s, 0);
    StatedNext([a, b], s, 1);
    assert [a, b][..0] == [] && [a, b][..1] == [a] && [a, b][..2] == [a, b];
  }

  lemma NoDependencies(k: Config, rank: Layer -> nat, c: Layer)
    requires WellFormed(k) && Ranked(k, rank) && Unset(k, c) && k.depends[c] == []
    ensures Finals(k, rank)(c) == k.least + 1
  {
    HighestIsMaximum(k, rank, c, []);
  }

  const ZERO_AND_FIVE := Settings(map["a" := 0, "b" := 5], map[], map[], {}, map[])

  /** With a stated zero the order can change the result. */
  lemma ZeroMakesOrderMatter(rank: Layer -> nat)
    ensures var k := ConfigOf(["a", "b"], ZERO_AND_FIVE); Ranked(k, rank) && Finals(k, rank)("a") == 6
    ensures var k := ConfigOf(["b", "a"], ZERO_AND_FIVE); Ranked(k, rank) && Finals(k, rank)("a") == 1
  {
    StatedTwo("a", "b", ZERO_AND_FIVE);
    StatedTwo("b", "a", ZERO_AND_FIVE);
    NothingNeeded(["a", "b"], ZERO_AND_FIVE, rank);
    NothingNeeded(["b", "a"], ZERO_AND_FIVE, rank);
    hide AllStated, Least, Ranked, Final;
    NoDependencies(ConfigOf(["a", "b"], ZERO_AND_FIVE), rank, "a");
    NoDependencies(ConfigOf(["b", "a"], ZERO_AND_FIVE), rank, "a");
  }

  lemma NothingNeeded(list: seq<Layer>, s: Settings, rank: Layer -> nat)
    requires s.depends == s.recommends == map[]
    ensures Ranked(ConfigOf(list, s), rank)
  {}
}
