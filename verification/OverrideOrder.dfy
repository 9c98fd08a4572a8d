/**
  Which of several active variants is read. The loop runs over OVERRIDES again and again and cuts the
  last component off a suffix when it comes to that override; so each suffix has the times at which its
  components are cut. The variant whose times are greatest, compared from the first component on, wins.
 */
module OverrideOrder {
  import opened Wrappers
  import opened Names
  import opened OverrideChoice

  // ----- the schedule -----

  /** The override at time `t`, OVERRIDES being repeated for ever. */
  function At(ovs: seq<Comp>, t: nat): Comp
    requires ovs != []
  {
    if t < |ovs| then ovs[t] else At(ovs, t - |ovs|)
  }

  /** `u` is the next time at `t` or later at which `c` has its turn. */
  ghost predicate IsNext(ovs: seq<Comp>, c: Comp, t: nat, u: nat)
    requires ovs != []
  {
    t <= u && At(ovs, u) == c && forall v: nat :: t <= v < u ==> At(ovs, v) != c
  }

  lemma {:induction false} AtAgain(ovs: seq<Comp>, i: nat, t: nat) returns (u: nat)
    requires i < |ovs|
    ensures t <= u && At(ovs, u) == ovs[i]
    decreases t
  {
    if t <= i {
      return i;
    }
    u := AtAgain(ovs, i, if t < |ovs| then 0 else t - |ovs|);
    u := u + |ovs|;
  }

  lemma {:induction false} FirstBetween(ovs: seq<Comp>, c: Comp, t: nat, u: nat) returns (v: nat)
    requires ovs != [] && t <= u && At(ovs, u) == c
    ensures IsNext(ovs, c, t, v) && v <= u
    decreases u - t
  {
    if At(ovs, t) == c {
      return t;
    }
    v := FirstBetween(ovs, c, t + 1, u);
  }

  lemma NextExists(ovs: seq<Comp>, c: Comp, t: nat)
    requires c in ovs
    ensures exists u: nat :: IsNext(ovs, c, t, u)
  {
    var i :| 0 <= i < |ovs| && ovs[i] == c;
    var u := AtAgain(ovs, i, t);
    var v := FirstBetween(ovs, c, t, u);
  }

  ghost function Next(ovs: seq<Comp>, c: Comp, t: nat): (u: nat)
    requires c in ovs
    ensures IsNext(ovs, c, t, u)
  {
    NextExists(ovs, c, t);
    var u: nat :| IsNext(ovs, c, t, u);
    u
  }

  lemma NextIs(ovs: seq<Comp>, c: Comp, t: nat, u: nat)
    requires c in ovs && IsNext(ovs, c, t, u)
    ensures Next(ovs, c, t) == u
  {}

  // ----- the times at which a suffix is cut -----

  /** The times for each component, from time `t` on; the last component is cut first. */
  ghost function Times(ovs: seq<Comp>, k: Name, t: nat): seq<nat>
    decreases |k|
  {
    if k == [] || k[|k| - 1] !in ovs then []
    else
      var u := Next(ovs, k[|k| - 1], t);
      Times(ovs, k[..|k| - 1], u + 1) + [u]
  }

  lemma {:induction false} TimesFall(ovs: seq<Comp>, k: Name, t: nat)
    requires IsActive(k, ovs)
    ensures var ts := Times(ovs, k, t);
            && |ts| == |k|
            && (forall i :: 0 <= i < |k| ==> ts[i] >= t && ovs != [] && At(ovs, ts[i]) == k[i])
            && (forall i, j :: 0 <= i < j < |k| ==> ts[j] < ts[i])
    decreases |k|
  {
    if k != [] {
      var init, c := k[..|k| - 1], k[|k| - 1];
      assert c in k && forall d <- init :: d in k;
      var u := Next(ovs, c, t);
      TimesFall(ovs, init, u + 1);
      assert Times(ovs, k, t) == Times(ovs, init, u + 1) + [u];
      assert At(ovs, u) == c && u >= t && ovs != [];
      hide Times, Next, IsNext, At;
      var ts, before := Times(ovs, k, t), Times(ovs, init, u + 1);
      forall i | 0 <= i < |k|
        ensures ts[i] >= t && At(ovs, ts[i]) == k[i]
      {
        assert i < |init| ==> ts[i] == before[i] && k[i] == init[i];
      }
    }
  }

  /** Compared from the first component on; a proper prefix comes before what extends it. */
  ghost predicate Before(a: seq<nat>, b: seq<nat>) {
    exists k: nat {:trigger DifferAt(a, b, k)} :: DifferAt(a, b, k)
  }

  ghost predicate DifferAt(a: seq<nat>, b: seq<nat>, k: nat) {
    && k <= |a| && k < |b| && a[..k] == b[..k]
    && (k < |a| ==> a[k] < b[k])
  }

  lemma BeforeTotal(a: seq<nat>, b: seq<nat>)
    ensures a == b || Before(a, b) || Before(b, a)
  {
    BeforeTotalFrom(a, b, 0);
  }

  lemma {:induction false} BeforeTotalFrom(a: seq<nat>, b: seq<nat>, k: nat)
    requires k <= |a| && k <= |b| && a[..k] == b[..k]
    ensures a == b || Before(a, b) || Before(b, a)
    decreases |a| - k
  {
    if k == |a| == |b| {
      assert a[..k] == a && b[..k] == b;
    } else if k == |a| || (k < |b| && a[k] < b[k]) {
      assert DifferAt(a, b, k);
    } else if k == |b| || b[k] < a[k] {
      assert DifferAt(b, a, k);
    } else {
      assert a[..k + 1] == a[..k] + [a[k]] && b[..k + 1] == b[..k] + [b[k]];
      BeforeTotalFrom(a, b, k + 1);
    }
  }

  /** Nothing of the suffix is due at `t`. */
  lemma NotDue(ovs: seq<Comp>, k: Name, t: nat)
    requires k != [] && k[|k| - 1] in ovs && k[|k| - 1] != At(ovs, t)
    ensures Times(ovs, k, t) == Times(ovs, k, t + 1)
  {
    var c := k[|k| - 1];
    var u := Next(ovs, c, t);
    assert IsNext(ovs, c, t + 1, u);
    NextIs(ovs, c, t + 1, u);
  }

  /** A suffix whose last component is due loses that one. */
  lemma Due(ovs: seq<Comp>, k: Name, t: nat)
    requires k != [] && k[|k| - 1] in ovs && k[|k| - 1] == At(ovs, t)
    ensures Times(ovs, k, t) == Times(ovs, k[..|k| - 1], t + 1) + [t]
  {
    assert IsNext(ovs, k[|k| - 1], t, t);
    NextIs(ovs, k[|k| - 1], t, t);
  }

  lemma BeforePrefix(a: seq<nat>, t: nat, b: seq<nat>)
    requires Before(a + [t], b)
    ensures Before(a, b)
  {
    var k: nat :| DifferAt(a + [t], b, k);
    if k <= |a| {
      assert (a + [t])[..k] == a[..k];
      assert DifferAt(a, b, k);
    } else {
      assert b[..|a|] == (a + [t])[..k][..|a|] == a;
      assert a[..|a|] == a;
      assert DifferAt(a, b, |a|);
    }
  }

  lemma BeforeCut(a: seq<nat>, b: seq<nat>, t: nat)
    requires Before(a, b + [t]) && a != b && forall i :: 0 <= i < |a| ==> a[i] >= t
    ensures Before(a, b)
  {
    var k: nat :| DifferAt(a, b + [t], k);
    var common := a[..k];
    assert (b + [t])[..|b|] == b && a[..|a|] == a;
    assert k != |b|;
    assert (b + [t])[..k] == b[..k] == common;
    assert DifferAt(a, b, k);
  }

  lemma NotBeforePrefix(a: seq<nat>, b: seq<nat>)
    requires b <= a
    ensures !Before(a, b)
  {
    forall k: nat
      ensures !DifferAt(a, b, k)
    {
      assert k < |b| ==> a[k] == b[k];
    }
  }

  // ----- what the loop keeps -----

  /** Cutting out a component never touches another one: none is a prefix of an earlier one but the first. */
  predicate Plain(k: Name) {
    && (forall i, j :: 1 <= i < j < |k| ==> !(k[j] <= k[i]))
    && (|k| > 1 ==> k[0] != k[1])
  }

  ghost predicate Good(k: Name, ovs: seq<Comp>) {
    k != [] && Plain(k) && IsActive(k, ovs)
  }

  lemma {:induction false} NothingToStrip(a: Name, o: Comp)
    requires a != [] && forall i :: 1 <= i < |a| ==> !(o <= a[i])
    ensures Strip(a, o) == a
  {
    if |a| > 1 {
      NothingToStrip(a[..|a| - 1], o);
    }
  }

  lemma StripIsCut(a: Name, o: Comp, ovs: seq<Comp>)
    requires Good(a, ovs) && EndsWith(a, o)
    ensures Strip(a, o) == a[..|a| - 1] && Good(a[..|a| - 1], ovs) && a[|a| - 2] != o
  {
    var init := a[..|a| - 1];
    assert forall c <- init :: c in a;
    NothingToStrip(init, o);
    assert o[|o|..] == "";
    assert init[|init| - 1] + "" == init[|init| - 1];
    assert init[|init| - 1 := init[|init| - 1]] == init;
  }

  type Alive = map<Name, Name>

  ghost predicate AllGood(m: Alive, ovs: seq<Comp>) {
    forall k <- m :: Good(k, ovs)
  }

  /** No two suffixes stand for `f`. */
  ghost predicate Once(m: Alive, f: Name) {
    forall k, k' :: k in m && k' in m && m[k] == f == m[k'] ==> k == k'
  }

  /** As long as variant `f` is alive or reported, another one is alive that is cut later. */
  ghost predicate Losing(s: Choice, f: Name, t: nat, ovs: seq<Comp>) {
    && s.Valid() && AllGood(s.active.vals, ovs) && Once(s.active.vals, f)
    && (forall k <- s.active.vals :: s.active.vals[k] == f ==> Overtaken(s.active.vals, k, t, ovs))
    && (s.winner == Some(f) ==> s.active.vals != map[] && f !in s.active.vals.Values)
  }

  ghost predicate Overtaken(m: Alive, k: Name, t: nat, ovs: seq<Comp>) {
    exists k' <- m :: Before(Times(ovs, k, t), Times(ovs, k', t))
  }

  lemma SameTimes(ovs: seq<Comp>, a: Name, b: Name, t: nat)
    requires IsActive(a, ovs) && IsActive(b, ovs) && Times(ovs, a, t) == Times(ovs, b, t)
    ensures a == b
  {
    TimesFall(ovs, a, t);
    TimesFall(ovs, b, t);
    hide Times;
    assert |a| == |b| && forall i :: 0 <= i < |a| ==> a[i] == At(ovs, Times(ovs, a, t)[i]) == b[i];
  }

  lemma StillOvertaken(m: Alive, r: Alive, o: Comp, a: Name, k: Name, t: nat, ovs: seq<Comp>)
    requires Good(a, ovs) && EndsWith(a, o) && Good(k, ovs) && ovs != [] && At(ovs, t) == o && k != a[..|a| - 1]
    requires a in m && r.Keys == m.Keys - {a} + {a[..|a| - 1]}
    requires Overtaken(m, k, t, ovs)
    ensures Overtaken(r, k, t, ovs)
  {
    var b := a[..|a| - 1];
    StripIsCut(a, o, ovs);
    Due(ovs, a, t);
    NotDue(ovs, b, t);
    TimesFall(ovs, k, t);
    hide Times, Before, Good, IsActive;
    var k' :| k' in m && Before(Times(ovs, k, t), Times(ovs, k', t));
    if k' == a {
      if Times(ovs, k, t) == Times(ovs, b, t) {
        CallSameTimes(ovs, k, b, t);
      }
      BeforeCut(Times(ovs, k, t), Times(ovs, b, t), t);
      assert b in r;
    } else {
      assert k' in r;
    }
  }

  lemma CallSameTimes(ovs: seq<Comp>, a: Name, b: Name, t: nat)
    requires Good(a, ovs) && Good(b, ovs) && Times(ovs, a, t) == Times(ovs, b, t)
    ensures a == b
  {
    SameTimes(ovs, a, b, t);
  }

  lemma CutOvertaken(m: Alive, r: Alive, o: Comp, a: Name, t: nat, ovs: seq<Comp>)
    requires Good(a, ovs) && EndsWith(a, o) && ovs != [] && At(ovs, t) == o
    requires a in m && r.Keys == m.Keys - {a} + {a[..|a| - 1]}
    requires Overtaken(m, a, t, ovs)
    ensures Overtaken(r, a[..|a| - 1], t, ovs)
  {
    var b := a[..|a| - 1];
    StripIsCut(a, o, ovs);
    Due(ovs, a, t);
    NotDue(ovs, b, t);
    hide Times, Before;
    var k' :| k' in m && Before(Times(ovs, a, t), Times(ovs, k', t));
    BeforePrefix(Times(ovs, b, t), t, Times(ovs, k', t));
    NotBeforePrefix(Times(ovs, a, t), Times(ovs, a, t));
    assert k' in r;
  }

  lemma CutMap(m: Alive, a: Name, b: Name, f: Name, ovs: seq<Comp>)
    requires AllGood(m, ovs) && Good(b, ovs) && Once(m, f) && a in m
    ensures var m' := (m - {a})[b := m[a]];
            AllGood(m', ovs) && Once(m', f) && (f !in m.Values ==> f !in m'.Values)
  {
    hide Good;
  }

  lemma VisitCuts(s: Choice, o: Comp, a: Name, f: Name, t: nat, ovs: seq<Comp>)
    requires Losing(s, f, t, ovs) && a in s.active.vals && EndsWith(a, o) && ovs != [] && At(ovs, t) == o
    ensures Losing(Visit(s, o, a), f, t, ovs)
  {
    hide Times, Before, Good, Overtaken, At, IsActive, Plain, Strip;
    var m, b := s.active.vals, a[..|a| - 1];
    StripIsCut(a, o, ovs);
    var m' := (m - {a})[b := m[a]];
    assert Visit(s, o, a).active.vals == m' && Good(a, ovs);
    CutMap(m, a, b, f, ovs);
    hide Once;
    forall k | k in m' && m'[k] == f
      ensures Overtaken(m', k, t, ovs)
    {
      if k == b {
        CutOvertaken(m, m', o, a, t, ovs);
      } else {
        StillOvertaken(m, m', o, a, k, t, ovs);
      }
    }
  }

  lemma ReportOvertaken(m: Alive, o: Comp, k: Name, t: nat, ovs: seq<Comp>)
    requires [o] in m && Good(k, ovs) && Overtaken(m, k, t, ovs) && o in ovs && At(ovs, t) == o
    ensures Overtaken(m - {[o]}, k, t, ovs)
  {
    Due(ovs, [o], t);
    assert Times(ovs, [o], t) == [t];
    TimesFall(ovs, k, t);
    hide Times;
    var k' :| k' in m && Before(Times(ovs, k, t), Times(ovs, k', t));
    assert !Before(Times(ovs, k, t), [t]);
    assert k' in m - {[o]};
  }

  lemma VisitReports(s: Choice, o: Comp, a: Name, f: Name, t: nat, ovs: seq<Comp>)
    requires Losing(s, f, t, ovs) && a in s.active.vals && a == [o] && ovs != [] && At(ovs, t) == o
    ensures Losing(Visit(s, o, a), f, t, ovs)
  {
    var m := s.active.vals;
    assert o in ovs by { assert Good(a, ovs) && o in a; }
    hide Times, Before, Good, Overtaken, At, IsActive, Plain, Strip;
    assert Visit(s, o, a).active.vals == m - {a} && !EndsWith(a, o);
    forall k | k in m && m[k] == f
      ensures Overtaken(m - {a}, k, t, ovs)
    {
      ReportOvertaken(m, o, k, t, ovs);
    }
    if m[a] == f {
      SomeoneLater(m - {a}, a, t, ovs);
    }
  }

  lemma SomeoneLater(m: Alive, k: Name, t: nat, ovs: seq<Comp>)
    requires Overtaken(m, k, t, ovs)
    ensures m != map[]
  {}

  lemma VisitLoses(s: Choice, o: Comp, a: Name, f: Name, t: nat, ovs: seq<Comp>)
    requires Losing(s, f, t, ovs) && a in s.active.vals && ovs != [] && At(ovs, t) == o
    ensures Losing(Visit(s, o, a), f, t, ovs)
  {
    if EndsWith(a, o) {
      VisitCuts(s, o, a, f, t, ovs);
    } else if a == [o] {
      VisitReports(s, o, a, f, t, ovs);
    }
  }

  /** No suffix, but for those in `ks`, is due for override `o`. */
  ghost predicate NoneDue(m: Alive, o: Comp, ks: seq<Name>) {
    forall k <- m :: k != [] && (k[|k| - 1] == o ==> k in ks)
  }

  lemma VisitClears(s: Choice, o: Comp, ks: seq<Name>, ovs: seq<Comp>)
    requires Ahead(s, ks) && ks != [] && AllGood(s.active.vals, ovs) && NoneDue(s.active.vals, o, ks)
    ensures NoneDue(Visit(s, o, ks[0]).active.vals, o, ks[1..])
  {
    var a := ks[0];
    if EndsWith(a, o) {
      StripIsCut(a, o, ovs);
    }
    forall k | k in Visit(s, o, a).active.vals && k != [] && k[|k| - 1] == o
      ensures k in ks[1..]
    {
      assert k in ks;
      var i :| 0 <= i < |ks| && ks[i] == k;
      assert i > 0;
      assert ks[1..][i - 1] == k;
    }
  }

  lemma {:induction false} VisitAllLoses(s: Choice, o: Comp, ks: seq<Name>, f: Name, t: nat, ovs: seq<Comp>)
    requires Losing(s, f, t, ovs) && Ahead(s, ks) && ovs != [] && At(ovs, t) == o
    requires NoneDue(s.active.vals, o, ks)
    ensures Losing(VisitAll(s, o, ks), f, t, ovs) && NoneDue(VisitAll(s, o, ks).active.vals, o, [])
    decreases |ks|
  {
    if ks != [] {
      VisitLoses(s, o, ks[0], f, t, ovs);
      VisitClears(s, o, ks, ovs);
      hide Losing, NoneDue, Visit;
      VisitAhead(s, o, ks);
      VisitAllLoses(Visit(s, o, ks[0]), o, ks[1..], f, t, ovs);
    }
  }

  lemma TimeGoesOn(s: Choice, f: Name, t: nat, ovs: seq<Comp>)
    requires Losing(s, f, t, ovs) && ovs != [] && NoneDue(s.active.vals, At(ovs, t), [])
    ensures Losing(s, f, t + 1, ovs)
  {
    forall k | k in s.active.vals
      ensures Times(ovs, k, t) == Times(ovs, k, t + 1)
    {
      assert Good(k, ovs) && k[|k| - 1] in k;
      NotDue(ovs, k, t);
    }
    hide Times, Before, Good;
    forall k | k in s.active.vals && s.active.vals[k] == f
      ensures Overtaken(s.active.vals, k, t + 1, ovs)
    {
      var k' :| k' in s.active.vals && Before(Times(ovs, k, t), Times(ovs, k', t));
    }
  }

  /** From time `t` on the overrides come in this order. */
  ghost predicate OnSchedule(ovs: seq<Comp>, rest: seq<Comp>, t: nat) {
    ovs != [] && forall i :: 0 <= i < |rest| ==> At(ovs, t + i) == rest[i]
  }

  lemma SnapshotLoses(s: Choice, o: Comp, f: Name, t: nat, ovs: seq<Comp>)
    requires Losing(s, f, t, ovs) && ovs != [] && At(ovs, t) == o
    ensures s.Valid() && Ahead(s, s.active.keys) && Losing(VisitAll(s, o, s.active.keys), f, t + 1, ovs)
  {
    hide VisitAll, Times, Overtaken, Plain, At;
    SnapshotAhead(s);
    VisitAllLoses(s, o, s.active.keys, f, t, ovs);
    TimeGoesOn(VisitAll(s, o, s.active.keys), f, t, ovs);
  }

  lemma RestOnSchedule(ovs: seq<Comp>, rest: seq<Comp>, t: nat)
    requires OnSchedule(ovs, rest, t) && rest != []
    ensures At(ovs, t) == rest[0] && OnSchedule(ovs, rest[1..], t + 1)
  {
    hide At;
    assert At(ovs, t + 0) == rest[0];
    forall i | 0 <= i < |rest[1..]|
      ensures At(ovs, t + 1 + i) == rest[1..][i]
    {
      assert At(ovs, t + (i + 1)) == rest[i + 1];
    }
  }

  lemma {:induction false} PassLoses(s: Choice, rest: seq<Comp>, f: Name, t: nat, ovs: seq<Comp>)
    requires s.Valid() && Losing(s, f, t, ovs) && OnSchedule(ovs, rest, t)
    ensures Losing(Pass(s, rest), f, t + |rest|, ovs)
    decreases |rest|
  {
    hide Losing, VisitAll, At, Components;
    if rest != [] {
      RestOnSchedule(ovs, rest, t);
      SnapshotLoses(s, rest[0], f, t, ovs);
      PassLoses(VisitAll(s, rest[0], s.active.keys), rest[1..], f, t + 1, ovs);
    }
  }

  lemma NextRound(ovs: seq<Comp>, t: nat)
    requires OnSchedule(ovs, ovs, t)
    ensures OnSchedule(ovs, ovs, t + |ovs|)
  {
    forall i | 0 <= i < |ovs|
      ensures At(ovs, t + |ovs| + i) == ovs[i]
    {
      assert At(ovs, t + |ovs| + i) == At(ovs, t + i);
    }
  }

  lemma QuietLoses(s: Choice, r: Choice, f: Name, t: nat, ovs: seq<Comp>)
    requires Losing(r, f, t, ovs)
    requires forall k <- r.active.vals :: forall o <- ovs :: !EndsWith(k, o) && k != [o]
    ensures r.winner != Some(f)
  {
    hide Times, Overtaken, Plain;
    if k :| k in r.active.vals {
      LastMatches(k, ovs);
      assert false;
    }
  }

  lemma LastMatches(k: Name, ovs: seq<Comp>)
    requires Good(k, ovs)
    ensures exists o <- ovs :: EndsWith(k, o) || k == [o]
  {
    assert k[|k| - 1] in k;
    assert EndsWith(k, k[|k| - 1]) || k == [k[|k| - 1]];
  }

  lemma {:induction false} RepeatLoses(active: Dict, winner: Option<Name>, f: Name, t: nat, ovs: seq<Comp>)
    requires Choice(active, winner, false).Valid()
    requires Losing(Choice(active, winner, false), f, t, ovs) && OnSchedule(ovs, ovs, t)
    ensures Repeat(active, winner, ovs) != Some(f)
    decreases Components(active.keys)
  {
    var s := Choice(active, winner, false);
    hide Pass, OnSchedule, Components, Losing;
    var r := Pass(s, ovs);
    PassLoses(s, ovs, f, t, ovs);
    if r.mod {
      NextRound(ovs, t);
      LosingIgnoresMod(r, f, t + |ovs|, ovs);
      RepeatLoses(r.active, r.winner, f, t + |ovs|, ovs);
    } else {
      QuietPass(s, ovs);
      QuietLoses(s, r, f, t + |ovs|, ovs);
    }
  }

  lemma LosingIgnoresMod(r: Choice, f: Name, t: nat, ovs: seq<Comp>)
    requires Losing(r, f, t, ovs)
    ensures Losing(Choice(r.active, r.winner, false), f, t, ovs)
  {}

  // ----- the winner -----

  /** The active variants have different suffixes and names, and cutting their suffixes is plain. */
  ghost predicate Clear(pairs: seq<Pair>, ovs: seq<Comp>) {
    && Proper(pairs)
    && (forall p <- pairs :: IsActive(p.over, ovs) ==> Plain(p.over))
    && (forall p, q :: p in pairs && q in pairs && IsActive(p.over, ovs) && IsActive(q.over, ovs) ==>
          (p.over == q.over <==> p.full == q.full))
  }

  /** An active variant is not read when another one is cut later. */
  lemma LaterWins(pairs: seq<Pair>, ovs: seq<Comp>, p: Pair, q: Pair)
    requires Clear(pairs, ovs) && p in pairs && q in pairs && IsActive(p.over, ovs) && IsActive(q.over, ovs)
    requires Before(Times(ovs, p.over, 0), Times(ovs, q.over, 0))
    ensures Winner(pairs, ovs) != Some(p.full)
  {
    var d := Active(pairs, ovs);
    hide Times, Before, Plain, IsActive;
    assert p.over[0] in p.over by { assert p.over != []; }
    assert ovs != [] by { SomeOverride(p.over, ovs); }
    forall k | k in d.vals
      ensures Pair(d.vals[k], k) in pairs && Good(k, ovs)
    {}
    assert p.over in d.vals && d.vals[p.over] == p.full && q.over in d.vals;
    assert forall k <- d.vals :: d.vals[k] == p.full ==> k == p.over;
    assert Overtaken(d.vals, p.over, 0, ovs);
    assert OnSchedule(ovs, ovs, 0);
    RepeatLoses(d, None, p.full, 0, ovs);
  }

  lemma SomeOverride(k: Name, ovs: seq<Comp>)
    requires k != [] && IsActive(k, ovs)
    ensures ovs != []
  {
    assert k[0] in k;
  }

  /** Exactly which variant is read: the active one that is cut last. */
  lemma WinnerIsCutLast(pairs: seq<Pair>, ovs: seq<Comp>, p: Pair)
    requires Clear(pairs, ovs) && p in pairs && IsActive(p.over, ovs)
    ensures Winner(pairs, ovs) == Some(p.full) <==>
            forall q <- pairs :: IsActive(q.over, ovs) && q != p ==> Before(Times(ovs, q.over, 0), Times(ovs, p.over, 0))
  {
    hide Winner, Times, Before, Plain;
    forall q | q in pairs && IsActive(q.over, ovs) && q != p
      ensures Before(Times(ovs, q.over, 0), Times(ovs, p.over, 0)) || Winner(pairs, ovs) != Some(p.full)
      ensures Before(Times(ovs, q.over, 0), Times(ovs, p.over, 0)) ==> Winner(pairs, ovs) != Some(q.full)
    {
      BeforeTotal(Times(ovs, p.over, 0), Times(ovs, q.over, 0));
      if Times(ovs, p.over, 0) == Times(ovs, q.over, 0) {
        SameTimes(ovs, p.over, q.over, 0);
      } else if Before(Times(ovs, p.over, 0), Times(ovs, q.over, 0)) {
        LaterWins(pairs, ovs, p, q);
      }
      if Before(Times(ovs, q.over, 0), Times(ovs, p.over, 0)) {
        LaterWins(pairs, ovs, q, p);
      }
    }
    PlainIsTidy(p.over);
    TidyVariantSuffices(pairs, ovs, p);
    WinnerIsActive(pairs, ovs);
    var w :| w in pairs && Some(w.full) == Winner(pairs, ovs) && IsActive(w.over, ovs);
    if w.full == p.full {
      assert forall q <- pairs :: IsActive(q.over, ovs) && q != p ==>
          Before(Times(ovs, q.over, 0), Times(ovs, p.over, 0));
    }
  }

  lemma PlainIsTidy(k: Name)
    requires Plain(k)
    ensures Tidy(k)
  {}

  // ----- the more specific variant -----

  /** Starting later, every component is cut later, or at the same time. */
  lemma {:induction false} TimesGrow(ovs: seq<Comp>, k: Name, t: nat, u: nat)
    requires IsActive(k, ovs) && t <= u
    ensures |Times(ovs, k, t)| == |Times(ovs, k, u)| == |k|
    ensures forall i :: 0 <= i < |k| ==> Times(ovs, k, t)[i] <= Times(ovs, k, u)[i]
    decreases |k|
  {
    TimesFall(ovs, k, t);
    TimesFall(ovs, k, u);
    if k != [] {
      var init, c := k[..|k| - 1], k[|k| - 1];
      assert c in k && forall d <- init :: d in k;
      var a, b := Next(ovs, c, t), Next(ovs, c, u);
      assert a <= b;
      TimesGrow(ovs, init, a + 1, b + 1);
    }
  }

  lemma {:induction false} TimesExtend(ovs: seq<Comp>, k: Name, e: Name, t: nat) returns (u: nat)
    requires IsActive(k + e, ovs)
    ensures t <= u && |Times(ovs, k + e, t)| == |k| + |e| && Times(ovs, k + e, t)[..|k|] == Times(ovs, k, u)
    decreases |e|
  {
    assert forall c <- k :: c in k + e;
    if e == [] {
      assert k + e == k;
      TimesFall(ovs, k, t);
      assert Times(ovs, k, t)[..|k|] == Times(ovs, k, t);
      return t;
    }
    var init, c := e[..|e| - 1], e[|e| - 1];
    assert (k + e)[..|k + e| - 1] == k + init && (k + e)[|k + e| - 1] == c;
    assert c in k + e && forall d <- k + init :: d in k + e;
    var next := Next(ovs, c, t);
    u := TimesExtend(ovs, k, init, next + 1);
    assert Times(ovs, k + e, t) == Times(ovs, k + init, next + 1) + [next];
  }

  /** A variant that says more is read rather than one that says less. */
  lemma MoreSpecificWins(pairs: seq<Pair>, ovs: seq<Comp>, p: Pair, q: Pair)
    requires Clear(pairs, ovs) && p in pairs && q in pairs && IsActive(q.over, ovs) && p.over < q.over
    ensures Winner(pairs, ovs) != Some(p.full)
  {
    var e := q.over[|p.over|..];
    assert q.over == p.over + e;
    assert forall c <- p.over :: c in q.over;
    var u := TimesExtend(ovs, p.over, e, 0);
    TimesGrow(ovs, p.over, 0, u);
    PrefixBefore(Times(ovs, p.over, 0), Times(ovs, q.over, 0));
    hide Winner;
    LaterWins(pairs, ovs, p, q);
  }

  lemma PrefixBefore(a: seq<nat>, b: seq<nat>)
    requires |a| < |b| && forall i :: 0 <= i < |a| ==> a[i] <= b[i]
    ensures Before(a, b)
  {
    BeforeTotal(a, b);
    assert forall k: nat :: !DifferAt(b, a, k);
  }
}
