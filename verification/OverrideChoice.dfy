/**
  The choice among the override variants of a variable: the worklist in `getVarFlag`.
 */
module OverrideChoice {
  import opened Wrappers
  import opened Names

  /** One element `[full, over]` of an override index list: `full` is the variant's name. */
  datatype Pair = Pair(full: Name, over: Name)

  // ----- insertion-ordered dictionaries -----

  /** A Python dictionary from suffixes to variant names, with its iteration order. */
  datatype Dict = Dict(keys: seq<Name>, vals: map<Name, Name>) {
    ghost predicate Valid() {
      && (forall k :: k in keys <==> k in vals)
      && (forall i, j :: 0 <= i < j < |keys| ==> keys[i] != keys[j])
    }

    function Set(k: Name, v: Name): Dict {
      Dict(if k in vals then keys else keys + [k], vals[k := v])
    }

    function Delete(k: Name): Dict {
      Dict(Without(keys, k), vals - {k})
    }
  }

  const EMPTY := Dict([], map[])

  function Without(ks: seq<Name>, k: Name): (r: seq<Name>)
    ensures forall x :: x in r <==> x in ks && x != k
  {
    if ks == [] then []
    else
      assert forall x <- ks :: x == ks[0] || x in ks[1..];
      (if ks[0] == k then [] else [ks[0]]) + Without(ks[1..], k)
  }

  lemma {:induction false} WithoutDistinct(ks: seq<Name>, k: Name)
    requires forall i, j :: 0 <= i < j < |ks| ==> ks[i] != ks[j]
    ensures var r := Without(ks, k); forall i, j :: 0 <= i < j < |r| ==> r[i] != r[j]
    ensures Components(Without(ks, k)) == Components(ks) - (if k in ks then |k| else 0)
  {
    if ks != [] {
      WithoutDistinct(ks[1..], k);
      var rest := Without(ks[1..], k);
      if ks[0] == k {
        assert Without(ks, k) == rest;
        assert k !in ks[1..];
      } else {
        assert Without(ks, k) == [ks[0]] + rest;
        assert ks[0] !in ks[1..] && ks[0] !in rest;
        assert k in ks <==> k in ks[1..];
      }
    }
  }

  /** The number of components of all keys together: what the worklist makes smaller. */
  function Components(ks: seq<Name>): nat {
    if ks == [] then 0 else |ks[0]| + Components(ks[1..])
  }

  lemma {:induction false} ComponentsAppend(ks: seq<Name>, k: Name)
    ensures Components(ks + [k]) == Components(ks) + |k|
  {
    if ks == [] {
      assert ks + [k] == [k];
    } else {
      assert (ks + [k])[1..] == ks[1..] + [k];
      ComponentsAppend(ks[1..], k);
    }
  }

  lemma SetValid(d: Dict, k: Name, v: Name)
    requires d.Valid()
    ensures d.Set(k, v).Valid()
    ensures Components(d.Set(k, v).keys) <= Components(d.keys) + |k|
  {
    ComponentsAppend(d.keys, k);
  }

  lemma DeleteValid(d: Dict, k: Name)
    requires d.Valid()
    ensures d.Delete(k).Valid()
    ensures k in d.vals ==> Components(d.Delete(k).keys) == Components(d.keys) - |k|
    ensures k !in d.vals ==> Components(d.Delete(k).keys) == Components(d.keys)
  {
    WithoutDistinct(d.keys, k);
  }

  // ----- active variants -----

  /** `o in overridesset`, or all components of a compound suffix are. */
  predicate IsActive(over: Name, ovs: seq<Comp>) {
    forall c <- over :: c in ovs
  }

  /** The dictionary `active`, built from an index list in order. */
  function Active(pairs: seq<Pair>, ovs: seq<Comp>): (d: Dict)
    ensures d.Valid()
    ensures forall k :: k in d.vals ==> IsActive(k, ovs) && Pair(d.vals[k], k) in pairs
    ensures forall p <- pairs :: IsActive(p.over, ovs) ==> p.over in d.vals
  {
    if pairs == [] then EMPTY
    else
      var last := pairs[|pairs| - 1];
      var before := Active(pairs[..|pairs| - 1], ovs);
      SetValid(before, last.over, last.full);
      if IsActive(last.over, ovs) then before.Set(last.over, last.full) else before
  }

  // ----- the rewriting loop -----

  /** `a.replace(":" + o, "")`, which also cuts `o` off the front of a longer component. */
  function Strip(a: Name, o: Comp): (r: Name)
    requires a != []
    ensures 1 <= |r| <= |a|
    ensures |a| > 1 && a[|a| - 1] == o ==> |r| < |a|
  {
    if |a| == 1 then a
    else
      var before := Strip(a[..|a| - 1], o);
      var c := a[|a| - 1];
      if o <= c
      then before[|before| - 1 := before[|before| - 1] + c[|o|..]]
      else before + [c]
  }

  /** `a.endswith(":" + o)`. */
  predicate EndsWith(a: Name, o: Comp) {
    |a| > 1 && a[|a| - 1] == o
  }

  /** The local variables of the loop. */
  datatype Choice = Choice(active: Dict, winner: Option<Name>, mod: bool) {
    ghost predicate Valid() {
      active.Valid() && [] !in active.vals
    }
  }

  /** One execution of the innermost body, for suffix `a` and override `o`. */
  function Visit(s: Choice, o: Comp, a: Name): (r: Choice)
    requires s.Valid() && a in s.active.vals
    ensures r.Valid()
    ensures Components(r.active.keys) <= Components(s.active.keys)
    ensures r.mod && !s.mod ==> Components(r.active.keys) < Components(s.active.keys)
    ensures forall k :: k in s.active.vals && k != a ==> k in r.active.vals
  {
    DeleteValid(s.active, a);
    var rest := s.active.Delete(a);
    if EndsWith(a, o) then
      SetValid(rest, Strip(a, o), s.active.vals[a]);
      Choice(rest.Set(Strip(a, o), s.active.vals[a]), s.winner, true)
    else if a == [o] then
      Choice(rest, Some(s.active.vals[a]), s.mod)
    else s
  }

  /** Keys still to be visited: none of them has disappeared from `active`. */
  ghost predicate Ahead(s: Choice, ks: seq<Name>) {
    && s.Valid()
    && (forall k <- ks :: k in s.active.vals)
    && (forall i, j :: 0 <= i < j < |ks| ==> ks[i] != ks[j])
  }

  lemma VisitAhead(s: Choice, o: Comp, ks: seq<Name>)
    requires Ahead(s, ks) && ks != []
    ensures s.Valid() && ks[0] in s.active.vals && Ahead(Visit(s, o, ks[0]), ks[1..])
  {}

  lemma SnapshotAhead(s: Choice)
    requires s.Valid()
    ensures Ahead(s, s.active.keys)
  {}

  /** `for a in active.copy()` over the snapshot `ks`. */
  function VisitAll(s: Choice, o: Comp, ks: seq<Name>): (r: Choice)
    requires Ahead(s, ks)
    ensures r.Valid()
    ensures Components(r.active.keys) <= Components(s.active.keys)
    ensures r.mod && !s.mod ==> Components(r.active.keys) < Components(s.active.keys)
    decreases |ks|
  {
    if ks == [] then s
    else
      VisitAhead(s, o, ks);
      VisitAll(Visit(s, o, ks[0]), o, ks[1..])
  }

  /** `for o in self.overrides`. */
  function Pass(s: Choice, ovs: seq<Comp>): (r: Choice)
    requires s.Valid()
    ensures r.Valid()
    ensures Components(r.active.keys) <= Components(s.active.keys)
    ensures r.mod && !s.mod ==> Components(r.active.keys) < Components(s.active.keys)
    decreases |ovs|
  {
    if ovs == [] then s else Pass(VisitAll(s, ovs[0], s.active.keys), ovs[1..])
  }

  /** `while mod`: every repetition has fewer components left. */
  function Repeat(active: Dict, winner: Option<Name>, ovs: seq<Comp>): Option<Name>
    requires active.Valid() && [] !in active.vals
    decreases Components(active.keys)
  {
    var s := Pass(Choice(active, winner, false), ovs);
    if s.mod then Repeat(s.active, s.winner, ovs) else s.winner
  }

  /** Index lists never hold the empty suffix. */
  predicate Proper(pairs: seq<Pair>) {
    forall p <- pairs :: p.over != []
  }

  /** The variant whose value is read instead of the variable's own, if any. */
  function Winner(pairs: seq<Pair>, ovs: seq<Comp>): Option<Name>
    requires Proper(pairs)
  {
    Repeat(Active(pairs, ovs), None, ovs)
  }

  // ----- the loops themselves -----

  method CollectActive(pairs: seq<Pair>, ovs: seq<Comp>, ovset: set<Comp>) returns (active: Dict)
    requires ovset == set c <- ovs
    ensures active == Active(pairs, ovs)
  {
    active := EMPTY;
    for i := 0 to |pairs|
      invariant active == Active(pairs[..i], ovs)
    {
      assert pairs[..i + 1][..i] == pairs[..i];
      if forall c <- pairs[i].over :: c in ovset {
        active := active.Set(pairs[i].over, pairs[i].full);
      }
    }
    assert pairs[..|pairs|] == pairs;
  }

  /** The innermost body. */
  method VisitOne(s: Choice, o: Comp, a: Name) returns (r: Choice)
    requires s.Valid() && a in s.active.vals
    ensures r == Visit(s, o, a)
  {
    var active, winner, mod := s.active, s.winner, s.mod;
    if EndsWith(a, o) {
      var t := active.vals[a];
      active := active.Delete(a);
      active := active.Set(Strip(a, o), t);
      mod := true;
    } else if a == [o] {
      winner := Some(active.vals[a]);
      active := active.Delete(a);
    }
    r := Choice(active, winner, mod);
  }

  /** `for a in active.copy()`. */
  method VisitSnapshot(s: Choice, o: Comp) returns (r: Choice)
    requires s.Valid()
    ensures r == VisitAll(s, o, s.active.keys)
  {
    hide Ahead, Visit;
    SnapshotAhead(s);
    var snapshot := s.active.keys;
    r := s;
    for j := 0 to |snapshot|
      invariant Ahead(r, snapshot[j..])
      invariant VisitAll(r, o, snapshot[j..]) == VisitAll(s, o, snapshot)
    {
      assert snapshot[j..][0] == snapshot[j] && snapshot[j..][1..] == snapshot[j + 1..];
      VisitAhead(r, o, snapshot[j..]);
      r := VisitOne(r, o, snapshot[j]);
    }
  }

  method ChooseVariant(pairs: seq<Pair>, ovs: seq<Comp>, ovset: set<Comp>) returns (winner: Option<Name>)
    requires Proper(pairs)
    requires ovset == set c <- ovs
    ensures winner == Winner(pairs, ovs)
  {
    var active := CollectActive(pairs, ovs, ovset);
    winner := None;
    var mod := true;
    while mod
      invariant active.Valid() && [] !in active.vals
      invariant if mod then Repeat(active, winner, ovs) == Winner(pairs, ovs) else winner == Winner(pairs, ovs)
      decreases Components(active.keys), mod
    {
      var s := Choice(active, winner, false);
      for i := 0 to |ovs|
        invariant s.Valid() && Pass(s, ovs[i..]) == Pass(Choice(active, winner, false), ovs)
      {
        s := VisitSnapshot(s, ovs[i]);
        assert ovs[i..][1..] == ovs[i + 1..];
      }
      active, winner, mod := s.active, s.winner, s.mod;
    }
  }

  // ----- when a variant is found -----

  /**
    Cutting off the last component again and again, wherever its text occurs, leaves one component,
    and every component met on the way is an override. This depends on the one suffix only.
   */
  predicate Dissolves(k: Name, ovs: seq<Comp>)
    decreases |k|
  {
    && k != []
    && k[|k| - 1] in ovs
    && (|k| == 1 || Dissolves(Strip(k, k[|k| - 1]), ovs))
  }

  /** What every step of the loop keeps. */
  ghost predicate Kept(s: Choice, ovs: seq<Comp>, fulls: set<Name>) {
    && s.Valid()
    && (forall k <- s.active.vals :: Dissolves(k, ovs) ==> s.active.vals[k] in fulls)
    && (s.winner.Some? ==> s.winner.value in fulls)
  }

  /** There is a winner, or there will be one. */
  ghost predicate Hopeful(s: Choice, ovs: seq<Comp>) {
    s.winner.Some? || exists k <- s.active.vals :: Dissolves(k, ovs)
  }

  lemma VisitKeeps(s: Choice, o: Comp, a: Name, ovs: seq<Comp>, fulls: set<Name>)
    requires Kept(s, ovs, fulls) && a in s.active.vals && o in ovs
    ensures Kept(Visit(s, o, a), ovs, fulls)
    ensures Hopeful(Visit(s, o, a), ovs) <==> Hopeful(s, ovs)
  {
    var r := Visit(s, o, a);
    if EndsWith(a, o) {
      assert Strip(a, o) in r.active.vals;
      assert Dissolves(a, ovs) <==> Dissolves(Strip(a, o), ovs);
    } else if a == [o] {
      assert Dissolves(a, ovs);
    }
  }

  lemma {:induction false} VisitAllKeeps(s: Choice, o: Comp, ks: seq<Name>, ovs: seq<Comp>, fulls: set<Name>)
    requires Kept(s, ovs, fulls) && o in ovs
    requires Ahead(s, ks)
    ensures Kept(VisitAll(s, o, ks), ovs, fulls)
    ensures Hopeful(VisitAll(s, o, ks), ovs) <==> Hopeful(s, ovs)
    decreases |ks|
  {
    if ks != [] {
      VisitKeeps(s, o, ks[0], ovs, fulls);
      VisitAllKeeps(Visit(s, o, ks[0]), o, ks[1..], ovs, fulls);
    }
  }

  lemma {:induction false} PassKeeps(s: Choice, rest: seq<Comp>, ovs: seq<Comp>, fulls: set<Name>)
    requires Kept(s, ovs, fulls) && forall o <- rest :: o in ovs
    ensures Kept(Pass(s, rest), ovs, fulls)
    ensures Hopeful(Pass(s, rest), ovs) <==> Hopeful(s, ovs)
    decreases |rest|
  {
    if rest != [] {
      VisitAllKeeps(s, rest[0], s.active.keys, ovs, fulls);
      PassKeeps(VisitAll(s, rest[0], s.active.keys), rest[1..], ovs, fulls);
    }
  }

  /** A snapshot during which nothing was rewritten leaves no key that override `o` matches. */
  lemma {:induction false} QuietVisits(s: Choice, o: Comp, ks: seq<Name>)
    requires Ahead(s, ks)
    ensures s.mod ==> VisitAll(s, o, ks).mod
    ensures var r := VisitAll(s, o, ks);
            !r.mod ==> forall k <- r.active.vals :: k in s.active.vals && (k in ks ==> !EndsWith(k, o) && k != [o])
    decreases |ks|
  {
    if ks != [] {
      var next := Visit(s, o, ks[0]);
      QuietVisits(next, o, ks[1..]);
    }
  }

  lemma {:induction false} QuietPass(s: Choice, ovs: seq<Comp>)
    requires s.Valid()
    ensures s.mod ==> Pass(s, ovs).mod
    ensures var r := Pass(s, ovs);
            !r.mod ==> forall k <- r.active.vals :: k in s.active.vals && forall o <- ovs :: !EndsWith(k, o) && k != [o]
    decreases |ovs|
  {
    if ovs != [] {
      QuietVisits(s, ovs[0], s.active.keys);
      QuietPass(VisitAll(s, ovs[0], s.active.keys), ovs[1..]);
    }
  }

  lemma {:induction false} RepeatOutcome(active: Dict, winner: Option<Name>, ovs: seq<Comp>, fulls: set<Name>)
    requires Kept(Choice(active, winner, false), ovs, fulls)
    ensures var w := Repeat(active, winner, ovs);
            (w.Some? ==> w.value in fulls) && (w.Some? <==> Hopeful(Choice(active, winner, false), ovs))
    decreases Components(active.keys)
  {
    var s := Choice(active, winner, false);
    var r := Pass(s, ovs);
    PassKeeps(s, ovs, ovs, fulls);
    if r.mod {
      RepeatOutcome(r.active, r.winner, ovs, fulls);
      assert Hopeful(Choice(r.active, r.winner, false), ovs) <==> Hopeful(r, ovs);
    } else {
      QuietPass(s, ovs);
      forall k | k in r.active.vals
        ensures !Dissolves(k, ovs)
      {
        var o := k[|k| - 1];
        assert EndsWith(k, o) || k == [o];
      }
    }
  }

  /** Exactly when a variant is chosen: for all index lists, and for OVERRIDES in any order. */
  lemma WinnerIffDissolves(pairs: seq<Pair>, ovs: seq<Comp>)
    requires Proper(pairs)
    ensures Winner(pairs, ovs).Some? <==> exists p <- pairs :: IsActive(p.over, ovs) && Dissolves(p.over, ovs)
    ensures var w := Winner(pairs, ovs);
            w.Some? ==> exists p <- pairs :: p.full == w.value && IsActive(p.over, ovs) && Dissolves(p.over, ovs)
  {
    var d := Active(pairs, ovs);
    var fulls := set k <- d.vals | Dissolves(k, ovs) :: d.vals[k];
    RepeatOutcome(d, None, ovs, fulls);
    var w := Winner(pairs, ovs);
    if w.Some? {
      var k :| k in d.vals && Dissolves(k, ovs) && d.vals[k] == w.value;
      assert Pair(d.vals[k], k) in pairs;
    }
    if p :| p in pairs && IsActive(p.over, ovs) && Dissolves(p.over, ovs) {
      assert p.over in d.vals;
    }
  }

  /** No component is a proper prefix of an earlier one, other than the first. */
  predicate Tidy(k: Name) {
    forall i, j :: 1 <= i < j < |k| && k[j] <= k[i] ==> k[j] == k[i]
  }

  /** `r` is `a` with some components taken out. */
  ghost predicate Thinned(r: Name, a: Name, at: seq<nat>) {
    && |at| == |r|
    && (forall i :: 0 <= i < |r| ==> at[i] < |a| && r[i] == a[at[i]])
    && (forall i, j :: 0 <= i < j < |r| ==> at[i] < at[j])
  }

  /** When `o` is a prefix of no other component but the first, only whole components go. */
  lemma {:induction false} StripThins(a: Name, o: Comp) returns (at: seq<nat>)
    requires a != [] && forall i :: 1 <= i < |a| && o <= a[i] ==> o == a[i]
    ensures Thinned(Strip(a, o), a, at) && at[0] == 0
  {
    if |a| == 1 {
      at := [0];
    } else {
      var init, c := a[..|a| - 1], a[|a| - 1];
      at := StripThins(init, o);
      var before := Strip(init, o);
      if o <= c {
        assert c[|o|..] == "";
        assert before[|before| - 1] + c[|o|..] == before[|before| - 1];
        assert Strip(a, o) == before;
      } else {
        at := at + [|a| - 1];
      }
    }
  }

  lemma {:induction false} TidyDissolves(k: Name, ovs: seq<Comp>)
    requires k != [] && Tidy(k) && IsActive(k, ovs)
    ensures Dissolves(k, ovs)
    decreases |k|
  {
    if |k| > 1 {
      var o := k[|k| - 1];
      var r := Strip(k, o);
      var at := StripThins(k, o);
      assert forall i :: 0 < i < |r| ==> at[0] < at[i];
      assert IsActive(r, ovs) && Tidy(r);
      TidyDissolves(r, ovs);
    }
  }

  /** Whatever the suffixes look like, the winner is one of the active variants. */
  lemma WinnerIsActive(pairs: seq<Pair>, ovs: seq<Comp>)
    requires Proper(pairs)
    ensures var w := Winner(pairs, ovs);
            w.Some? ==> exists p <- pairs :: p.full == w.value && IsActive(p.over, ovs)
  {
    WinnerIffDissolves(pairs, ovs);
  }

  /** One tidy variant that is active is enough, whatever the others look like. */
  lemma TidyVariantSuffices(pairs: seq<Pair>, ovs: seq<Comp>, p: Pair)
    requires Proper(pairs) && p in pairs && IsActive(p.over, ovs) && Tidy(p.over)
    ensures Winner(pairs, ovs).Some?
  {
    TidyDissolves(p.over, ovs);
    WinnerIffDissolves(pairs, ovs);
  }

  /** A variant is chosen exactly when one is active, provided that some active one is tidy if there are any. */
  lemma WinnerIffActive(pairs: seq<Pair>, ovs: seq<Comp>)
    requires Proper(pairs)
    requires (exists p <- pairs :: IsActive(p.over, ovs)) ==>
               exists p <- pairs :: IsActive(p.over, ovs) && Tidy(p.over)
    ensures Winner(pairs, ovs).Some? <==> exists p <- pairs :: IsActive(p.over, ovs)
  {
    WinnerIsActive(pairs, ovs);
    if p :| p in pairs && IsActive(p.over, ovs) && Tidy(p.over) {
      TidyVariantSuffices(pairs, ovs, p);
    }
  }

  lemma StripExample()
    ensures Strip(["x", "ab", "a"], "a") == ["xb"]
  {
    var over: Name := ["x", "ab", "a"];
    assert over[..2] == ["x", "ab"] && over[..2][..1] == ["x"];
    assert "ab"[1..] == "b" && "a"[1..] == "";
    assert "x" + "b" == "xb" && "xb" + "" == "xb";
    assert Strip(["x"], "a") == ["x"];
    assert Strip(["x", "ab"], "a") == ["xb"];
  }

  lemma {:induction false} PassIgnores(d: Dict, k: Name, v: Name, mod: bool, ovs: seq<Comp>)
    requires d == Dict([k], map[k := v]) && |k| == 1 && k[0] !in ovs
    ensures Pass(Choice(d, None, mod), ovs) == Choice(d, None, mod)
  {
    if ovs != [] {
      var s := Choice(d, None, mod);
      assert k != [ovs[0]] && Visit(s, ovs[0], k) == s;
      assert [k][1..] == [];
      assert VisitAll(s, ovs[0], [k]) == s;
      PassIgnores(d, k, v, mod, ovs[1..]);
    }
  }

  /** Without prefix-freedom an active variant can be overlooked: `:a` is cut out of `:ab` as well. */
  lemma PrefixHidesVariant()
    ensures var p, ovs := Pair(["A", "x", "ab", "a"], ["x", "ab", "a"]), ["a", "x", "ab"];
            IsActive(p.over, ovs) && Winner([p], ovs) == None
  {
    var over: Name := ["x", "ab", "a"];
    var p := Pair(["A", "x", "ab", "a"], over);
    var ovs: seq<Comp> := ["a", "x", "ab"];
    var odd: Name := ["xb"];
    var start, left := Dict([over], map[over := p.full]), Dict([odd], map[odd := p.full]);
    assert [p][..0] == [];
    assert Active([p], ovs) == start;
    StripExample();
    var s := Choice(start, None, false);
    assert Without([over], over) == [] by { assert [over][1..] == []; }
    assert Visit(s, "a", over) == Choice(left, None, true);
    assert [over][1..] == [];
    assert VisitAll(s, "a", [over]) == Choice(left, None, true);
    PassIgnores(left, odd, p.full, true, ovs[1..]);
    PassIgnores(left, odd, p.full, false, ovs);
    assert Pass(s, ovs) == Choice(left, None, true);
    assert Repeat(left, None, ovs) == None;
  }

  // ----- which variant is found, for single-component suffixes -----

  /** The first position of `c` in OVERRIDES. */
  function First(ovs: seq<Comp>, c: Comp): (i: nat)
    requires c in ovs
    ensures i < |ovs| && ovs[i] == c && c !in ovs[..i]
  {
    if ovs[0] == c then 0
    else
      var i := 1 + First(ovs[1..], c);
      assert ovs[..i] == [ovs[0]] + ovs[1..][..i - 1];
      i
  }

  ghost predicate Singles(d: Dict) {
    forall k <- d.vals :: |k| == 1
  }

  /** One snapshot over single components removes `[o]` and reports it. */
  lemma {:induction false} SingleVisits(s: Choice, o: Comp, ks: seq<Name>)
    requires Ahead(s, ks) && Singles(s.active)
    ensures var r := VisitAll(s, o, ks);
            && r.mod == s.mod
            && Singles(r.active)
            && r.active.vals == (if [o] in ks then s.active.vals - {[o]} else s.active.vals)
            && r.winner == (if [o] in ks then Some(s.active.vals[[o]]) else s.winner)
    decreases |ks|
  {
    if ks != [] {
      VisitAhead(s, o, ks);
      var k, next := ks[0], Visit(s, o, ks[0]);
      assert |k| == 1 && !EndsWith(k, o);
      assert next == if k == [o] then Choice(s.active.Delete(k), Some(s.active.vals[k]), s.mod) else s;
      SingleVisits(next, o, ks[1..]);
      assert ks == [k] + ks[1..];
    }
  }

  /** The key that a pass over `ovs` reports last. */
  function Latest(keys: set<Name>, ovs: seq<Comp>): Option<Name> {
    if ovs == [] then None
    else
      var later := Latest(keys - {[ovs[0]]}, ovs[1..]);
      if later.Some? then later else if [ovs[0]] in keys then Some([ovs[0]]) else None
  }

  lemma {:induction false} LatestIsLast(keys: set<Name>, ovs: seq<Comp>)
    ensures var w := Latest(keys, ovs);
            && (w.Some? ==> w.value in keys && |w.value| == 1 && w.value[0] in ovs)
            && (forall c <- ovs :: [c] in keys ==> w.Some? && First(ovs, c) <= First(ovs, w.value[0]))
  {
    if ovs != [] {
      LatestIsLast(keys - {[ovs[0]]}, ovs[1..]);
      var later := Latest(keys - {[ovs[0]]}, ovs[1..]);
      if later.Some? {
        assert later.value == [later.value[0]];
      }
      forall c | c in ovs && c != ovs[0]
        ensures c in ovs[1..] && First(ovs, c) == 1 + First(ovs[1..], c)
      {}
    }
  }

  lemma {:induction false} SinglePass(s: Choice, ovs: seq<Comp>)
    requires s.Valid() && Singles(s.active)
    ensures var r, w := Pass(s, ovs), Latest(s.active.vals.Keys, ovs);
            && r.mod == s.mod
            && (w.Some? ==> w.value in s.active.vals)
            && r.winner == (if w.Some? then Some(s.active.vals[w.value]) else s.winner)
    decreases |ovs|
  {
    if ovs != [] {
      var o := ovs[0];
      var next := VisitAll(s, o, s.active.keys);
      SingleVisits(s, o, s.active.keys);
      SinglePass(next, ovs[1..]);
      assert next.active.vals.Keys == s.active.vals.Keys - {[o]};
    }
  }

  /** With single-component suffixes only, the override that comes latest in OVERRIDES wins. */
  lemma WinnerIsLatest(pairs: seq<Pair>, ovs: seq<Comp>, p: Pair)
    requires forall q <- pairs :: |q.over| == 1
    requires p in pairs && IsActive(p.over, ovs)
    ensures exists q <- pairs :: IsActive(q.over, ovs) && Winner(pairs, ovs) == Some(q.full) &&
              First(ovs, p.over[0]) <= First(ovs, q.over[0])
  {
    var d := Active(pairs, ovs);
    forall k | k in d.vals
      ensures |k| == 1
    {
      assert Pair(d.vals[k], k) in pairs;
    }
    SinglePass(Choice(d, None, false), ovs);
    LatestIsLast(d.vals.Keys, ovs);
    assert p.over == [p.over[0]] && p.over in d.vals;
    var w := Latest(d.vals.Keys, ovs).value;
    assert Pair(d.vals[w], w) in pairs;
  }
}
