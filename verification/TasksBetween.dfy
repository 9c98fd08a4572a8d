/**
  `tasksbetween`: the tasks on the dependency chains from one task to another, collected by a
  depth-first walk that only looks at chains ending at the last task.
 */
module TasksBetween {
  import opened Graphs
  import opened Wrappers

  /** The recipe's tasks, and the tasks that each of them depends on. */
  datatype Recipe = Recipe(tasks: seq<Node>, deps: map<Node, set<Node>>)

  ghost predicate Valid(r: Recipe) {
    forall t <- r.tasks :: t in r.deps
  }

  /** `b` directly depends on `a`; a task's dependency on itself is skipped. */
  predicate Follows(r: Recipe, a: Node, b: Node) {
    b in r.tasks && b in r.deps && a in r.deps[b] && a != b
  }

  ghost function EdgesOf(r: Recipe): Edges {
    (a, b) => Follows(r, a, b)
  }

  /** The steps the walk takes: it does not go on after `end`. */
  ghost function EdgesTo(r: Recipe, end: Node): Edges {
    (a, b) => a != end && Follows(r, a, b)
  }

  ghost predicate IsWalk(r: Recipe, from: Node, end: Node, p: seq<Node>) {
    IsPath(EdgesTo(r, end), p) && p[0] == from
  }

  /** No walk from `from` comes back to itself or to `chain`. */
  ghost predicate Clean(r: Recipe, from: Node, end: Node, chain: seq<Node>) {
    forall p {:trigger IsWalk(r, from, end, p)} :: IsWalk(r, from, end, p) ==> Distinct(chain + p)
  }

  ghost predicate Arrives(r: Recipe, from: Node, end: Node, p: seq<Node>) {
    IsWalk(r, from, end, p) && p[|p| - 1] == end
  }

  /** What a call with this chain adds: the chain and every walk that arrives. */
  ghost predicate Adds(r: Recipe, from: Node, end: Node, chain: seq<Node>, t: Node) {
    exists p {:trigger Arrives(r, from, end, p)} :: Arrives(r, from, end, p) && t in chain + p
  }

  /** Some task other than `end`: without one the innermost loop body never runs. */
  ghost predicate HasOther(r: Recipe, end: Node) {
    exists t <- r.tasks :: t != end
  }

  lemma WalkStep(r: Recipe, a: Node, b: Node, end: Node, p: seq<Node>)
    requires a != end && Follows(r, a, b) && IsWalk(r, b, end, p)
    ensures IsWalk(r, a, end, [a] + p)
  {
    var q := [a] + p;
    forall i | 0 <= i < |q| - 1 ensures EdgesTo(r, end)(q[i], q[i + 1]) {
      if i > 0 {
        assert EdgesTo(r, end)(p[i - 1], p[i]);
      }
    }
  }

  lemma WalkTail(r: Recipe, a: Node, end: Node, p: seq<Node>)
    requires IsWalk(r, a, end, p) && |p| > 1
    ensures a != end && Follows(r, a, p[1]) && IsWalk(r, p[1], end, p[1..])
  {
    assert EdgesTo(r, end)(p[0], p[1]);
    PathSlice(EdgesTo(r, end), p, 1, |p| - 1);
    assert p[1..|p| - 1 + 1] == p[1..];
  }

  lemma {:induction false} DistinctFits(p: seq<Node>, s: set<Node>)
    requires Distinct(p) && forall x <- p :: x in s
    ensures |p| <= |s|
  {
    if p != [] {
      var last := p[|p| - 1];
      var init := p[..|p| - 1];
      assert last in p && forall x <- init :: x in p;
      DistinctFits(init, s - {last});
    }
  }

  ghost predicate CleanSoFar(r: Recipe, task: Node, end: Node, chain: seq<Node>, i: nat)
    requires i <= |r.tasks|
  {
    task != end ==> forall j :: 0 <= j < i && Follows(r, task, r.tasks[j]) ==> Clean(r, r.tasks[j], end, chain)
  }

  ghost predicate AddedSoFar(r: Recipe, task: Node, end: Node, chain: seq<Node>, i: nat, t: Node)
    requires i <= |r.tasks|
  {
    if task == end then t in chain && exists j :: 0 <= j < i && r.tasks[j] != end
    else HasOther(r, end) && exists j :: 0 <= j < i && Follows(r, task, r.tasks[j]) && Adds(r, r.tasks[j], end, chain, t)
  }

  lemma CleanStep(r: Recipe, task: Node, end: Node, before: seq<Node>)
    requires Distinct(before) && task !in before
    ensures Clean(r, task, end, before) <==> CleanSoFar(r, task, end, before + [task], |r.tasks|)
  {
    var chain := before + [task];
    if Clean(r, task, end, before) && task != end {
      forall j, p | 0 <= j < |r.tasks| && Follows(r, task, r.tasks[j]) && IsWalk(r, r.tasks[j], end, p)
        ensures Distinct(chain + p)
      {
        WalkStep(r, task, r.tasks[j], end, p);
        assert before + ([task] + p) == chain + p;
      }
    }
    if CleanSoFar(r, task, end, chain, |r.tasks|) {
      forall p | IsWalk(r, task, end, p)
        ensures Distinct(before + p)
      {
        if |p| > 1 {
          WalkTail(r, task, end, p);
          var j :| 0 <= j < |r.tasks| && r.tasks[j] == p[1];
          assert before + p == chain + p[1..];
        } else {
          assert p == [task];
        }
      }
    }
  }

  lemma AddsStep(r: Recipe, task: Node, end: Node, before: seq<Node>, t: Node)
    ensures AddedSoFar(r, task, end, before + [task], |r.tasks|, t) <==> HasOther(r, end) && Adds(r, task, end, before, t)
  {
    var chain := before + [task];
    if HasOther(r, end) && Adds(r, task, end, before, t) {
      var p :| Arrives(r, task, end, p) && t in before + p;
      if |p| > 1 {
        WalkTail(r, task, end, p);
        var j :| 0 <= j < |r.tasks| && r.tasks[j] == p[1];
        assert before + p == chain + p[1..];
        assert Arrives(r, p[1], end, p[1..]);
      } else {
        assert p == [task];
      }
    }
    if AddedSoFar(r, task, end, chain, |r.tasks|, t) {
      if task == end {
        var j :| 0 <= j < |r.tasks| && r.tasks[j] != end;
        assert HasOther(r, end) by { assert r.tasks[j] in r.tasks; }
        assert Arrives(r, task, end, [task]) && t in before + [task];
      } else {
        var j :| 0 <= j < |r.tasks| && Follows(r, task, r.tasks[j]) && Adds(r, r.tasks[j], end, chain, t);
        var p :| Arrives(r, r.tasks[j], end, p) && t in chain + p;
        WalkStep(r, task, r.tasks[j], end, p);
        assert before + ([task] + p) == chain + p;
        assert Arrives(r, task, end, [task] + p);
      }
    }
  }

  /** The chain leads from `start` along dependencies. */
  ghost predicate Chained(r: Recipe, start: Node, chain: seq<Node>) {
    (chain != [] ==> chain[0] == start) && forall i :: 0 <= i < |chain| - 1 ==> Follows(r, chain[i], chain[i + 1])
  }

  /** `start` comes first, and every other task comes after one that it depends on. */
  ghost predicate Ordered(r: Recipe, start: Node, q: seq<Node>) {
    && (q != [] ==> q[0] == start)
    && forall i :: 0 < i < |q| ==> exists j :: 0 <= j < i && Follows(r, q[j], q[i])
  }

  lemma OrderedMore(r: Recipe, start: Node, q: seq<Node>, t: Node, before: Node)
    requires Ordered(r, start, q) && t !in q
    requires t == start || (before in q && Follows(r, before, t))
    ensures Ordered(r, start, q + [t])
  {
    var q' := q + [t];
    forall i | 0 < i < |q'|
      ensures exists j :: 0 <= j < i && Follows(r, q'[j], q'[i])
    {
      if i < |q| {
        var j :| 0 <= j < i && Follows(r, q[j], q[i]);
        assert Follows(r, q'[j], q'[i]);
      } else {
        var j :| 0 <= j < |q| && q[j] == before;
        assert Follows(r, q'[j], q'[i]);
      }
    }
  }

  lemma ChainedMore(r: Recipe, start: Node, chain: seq<Node>, t: Node)
    requires Chained(r, start, chain) && chain != [] && Follows(r, chain[|chain| - 1], t)
    ensures Chained(r, start, chain + [t])
  {}

  /** The variables that `follow_chain` shares between its calls. */
  class Walker {
    const r: Recipe
    const end: Node
    ghost const start: Node
    var chain: seq<Node>
    var outtasks: seq<Node>

    constructor (r: Recipe, start: Node, end: Node)
      ensures this.r == r && this.start == start && this.end == end && chain == [] && outtasks == []
    {
      this.r, this.start, this.end, chain, outtasks := r, start, end, [], [];
    }

    method AddChain()
      requires Distinct(outtasks) && Chained(r, start, chain) && Ordered(r, start, outtasks)
      modifies `outtasks
      ensures Distinct(outtasks) && forall t :: t in outtasks <==> t in old(outtasks) || t in chain
      ensures Ordered(r, start, outtasks) && old(outtasks) <= outtasks
    {
      for i := 0 to |chain|
        invariant Distinct(outtasks) && Ordered(r, start, outtasks) && old(outtasks) <= outtasks
        invariant forall t :: t in outtasks <==> t in old(outtasks) || t in chain[..i]
      {
        if chain[i] !in outtasks {
          if i > 0 {
            assert chain[i - 1] in chain[..i] && Follows(r, chain[i - 1], chain[i]);
          }
          OrderedMore(r, start, outtasks, chain[i], if i > 0 then chain[i - 1] else start);
          outtasks := outtasks + [chain[i]];
        }
      }
      assert chain[..|chain|] == chain;
    }

    /** False stands for bb.fatal, the report of a circular dependency. */
    method FollowChain(task: Node, ghost universe: set<Node>) returns (ok: bool)
      requires Valid(r) && Distinct(chain) && Distinct(outtasks)
      requires Chained(r, start, chain + [task]) && Ordered(r, start, outtasks)
      requires task in universe && (forall t <- chain :: t in universe) && (forall t <- r.tasks :: t in universe)
      modifies this
      ensures ok <==> Clean(r, task, end, old(chain))
      ensures ok ==> chain == old(chain) && Distinct(outtasks) && Ordered(r, start, outtasks)
      ensures ok ==> forall t :: t in outtasks <==>
                t in old(outtasks) || (HasOther(r, end) && Adds(r, task, end, old(chain), t))
      decreases |universe| - |chain|
    {
      if task in chain {
        assert IsWalk(r, task, end, [task]);
        var k :| 0 <= k < |chain| && chain[k] == task;
        assert (chain + [task])[k] == (chain + [task])[|chain|];
        return false;
      }
      ghost var before, was := chain, outtasks;
      chain := chain + [task];
      DistinctFits(chain, universe);
      for i := 0 to |r.tasks|
        invariant chain == before + [task] && Distinct(outtasks) && Ordered(r, start, outtasks)
        invariant CleanSoFar(r, task, end, chain, i)
        invariant forall t :: t in outtasks <==> t in was || AddedSoFar(r, task, end, chain, i, t)
      {
        var othertask := r.tasks[i];
        if othertask != task {
          if task == end {
            AddChain();
          } else if task in r.deps[othertask] {
            ChainedMore(r, start, chain, othertask);
            ok := FollowChain(othertask, universe);
            if !ok {
              CleanStep(r, task, end, before);
              return;
            }
          }
        }
      }
      CleanStep(r, task, end, before);
      forall t
        ensures AddedSoFar(r, task, end, chain, |r.tasks|, t) <==> HasOther(r, end) && Adds(r, task, end, before, t)
      {
        AddsStep(r, task, end, before, t);
      }
      assert before + [task] == chain;
      chain := chain[..|chain| - 1];
      return true;
    }
  }

  /** Failure stands for the report of a circular dependency. */
  method TasksBetween(start: Node, end: Node, r: Recipe) returns (res: Result<seq<Node>, ()>)
    requires Valid(r)
    ensures res.Failure? <==> CycleFrom(EdgesTo(r, end), start)
    ensures res.Success? ==> Distinct(res.value) && Ordered(r, start, res.value)
    ensures res.Success? ==> forall t :: t in res.value <==>
              HasOther(r, end) && Reaches(EdgesTo(r, end), start, t) && Reaches(EdgesTo(r, end), t, end)
  {
    var w := new Walker(r, start, end);
    var ok := w.FollowChain(start, {start} + set t <- r.tasks);
    CleanIff(r, start, end);
    RepeatsIffCycle(EdgesTo(r, end), start);
    if !ok {
      return Failure(());
    }
    forall t
      ensures Adds(r, start, end, [], t) <==> Reaches(EdgesTo(r, end), start, t) && Reaches(EdgesTo(r, end), t, end)
    {
      PathThroughIff(EdgesTo(r, end), start, t, end);
      AddsIffThrough(r, start, end, t);
    }
    return Success(w.outtasks);
  }

  lemma CleanIff(r: Recipe, start: Node, end: Node)
    ensures Clean(r, start, end, []) <==> !RepeatingPath(EdgesTo(r, end), start)
  {
    assert forall p: seq<Node> :: Distinct([] + p) <==> Distinct(p) by {
      forall p: seq<Node>
        ensures Distinct([] + p) <==> Distinct(p)
      {
        assert [] + p == p;
      }
    }
    if RepeatingPath(EdgesTo(r, end), start) {
      var p :| IsPath(EdgesTo(r, end), p) && p[0] == start && !Distinct(p);
      assert IsWalk(r, start, end, p);
    }
  }

  lemma AddsIffThrough(r: Recipe, start: Node, end: Node, t: Node)
    ensures Adds(r, start, end, [], t) <==> PathThrough(EdgesTo(r, end), start, t, end)
  {
    if Adds(r, start, end, [], t) {
      var p :| Arrives(r, start, end, p) && t in [] + p;
      assert PathBetween(EdgesTo(r, end), p, start, end);
    }
    if PathThrough(EdgesTo(r, end), start, t, end) {
      var p :| PathBetween(EdgesTo(r, end), p, start, end) && t in p;
      assert Arrives(r, start, end, p) && t in [] + p;
    }
  }

  /** Every path to `end` has a part that stops at its first visit there. */
  lemma {:induction false} StopsAtEnd(r: Recipe, end: Node, p: seq<Node>)
    requires IsPath(EdgesOf(r), p) && p[|p| - 1] == end
    ensures Reaches(EdgesTo(r, end), p[0], end)
  {
    if p[0] == end {
      ReachesSelf(EdgesTo(r, end), end);
    } else {
      assert EdgesOf(r)(p[0], p[1]);
      PathSlice(EdgesOf(r), p, 1, |p| - 1);
      assert p[1..|p| - 1 + 1] == p[1..];
      StopsAtEnd(r, end, p[1..]);
      ReachesFirst(EdgesTo(r, end), p[0], p[1], end);
    }
  }

  lemma FewerEdges(r: Recipe, end: Node, a: Node, b: Node)
    requires Reaches(EdgesTo(r, end), a, b)
    ensures Reaches(EdgesOf(r), a, b)
  {
    var p :| PathBetween(EdgesTo(r, end), p, a, b);
    forall i | 0 <= i < |p| - 1 ensures EdgesOf(r)(p[i], p[i + 1]) {
      assert EdgesTo(r, end)(p[i], p[i + 1]);
    }
    assert PathBetween(EdgesOf(r), p, a, b);
  }

  /** Stopping at `end` loses nothing, unless `end` depends on itself through other tasks. */
  lemma SameBetween(r: Recipe, start: Node, end: Node, t: Node)
    requires !ReachesPlus(EdgesOf(r), end, end)
    ensures Reaches(EdgesOf(r), start, t) && Reaches(EdgesOf(r), t, end) <==>
            Reaches(EdgesTo(r, end), start, t) && Reaches(EdgesTo(r, end), t, end)
  {
    if Reaches(EdgesOf(r), start, t) && Reaches(EdgesOf(r), t, end) {
      var p :| PathBetween(EdgesOf(r), p, start, t);
      forall i | 0 <= i < |p| - 1 ensures EdgesTo(r, end)(p[i], p[i + 1]) {
        assert EdgesOf(r)(p[i], p[i + 1]);
        if p[i] == end {
          PathSlice(EdgesOf(r), p, i + 1, |p| - 1);
          ReachesTrans(EdgesOf(r), p[i + 1], t, end);
          assert false;
        }
      }
      assert PathBetween(EdgesTo(r, end), p, start, t);
      var q :| PathBetween(EdgesOf(r), q, t, end);
      StopsAtEnd(r, end, q);
    }
    if Reaches(EdgesTo(r, end), start, t) && Reaches(EdgesTo(r, end), t, end) {
      FewerEdges(r, end, start, t);
      FewerEdges(r, end, t, end);
    }
  }

  /** A reported cycle is a cycle among the tasks that depend on `start`. */
  lemma ReportedCycleIsReal(r: Recipe, start: Node, end: Node)
    requires CycleFrom(EdgesTo(r, end), start)
    ensures CycleFrom(EdgesOf(r), start)
  {
    var n :| Reaches(EdgesTo(r, end), start, n) && ReachesPlus(EdgesTo(r, end), n, n);
    FewerEdges(r, end, start, n);
    var c :| EdgesTo(r, end)(n, c) && Reaches(EdgesTo(r, end), c, n);
    FewerEdges(r, end, c, n);
    assert EdgesOf(r)(n, c);
  }

  /** On an acyclic task graph: exactly the tasks that `start` reaches and that reach `end`. */
  method TasksBetweenAcyclic(start: Node, end: Node, r: Recipe) returns (outtasks: seq<Node>)
    requires Valid(r) && !CycleFrom(EdgesOf(r), start)
    requires start in r.tasks && end in r.tasks && exists t <- r.tasks :: t != end
    ensures Distinct(outtasks) && Ordered(r, start, outtasks)
    ensures forall t :: t in outtasks <==> Reaches(EdgesOf(r), start, t) && Reaches(EdgesOf(r), t, end)
  {
    var res := TasksBetween(start, end, r);
    if CycleFrom(EdgesTo(r, end), start) {
      ReportedCycleIsReal(r, start, end);
    }
    outtasks := res.value;
    forall t
      ensures t in outtasks <==> Reaches(EdgesOf(r), start, t) && Reaches(EdgesOf(r), t, end)
    {
      if ReachesPlus(EdgesOf(r), end, end) {
        assert !Reaches(EdgesOf(r), start, end);
        if Reaches(EdgesOf(r), start, t) && Reaches(EdgesOf(r), t, end) {
          ReachesTrans(EdgesOf(r), start, t, end);
        }
        if t in outtasks {
          FewerEdges(r, end, start, t);
          FewerEdges(r, end, t, end);
          ReachesTrans(EdgesOf(r), start, t, end);
        }
      } else {
        SameBetween(r, start, end, t);
      }
    }
  }
}
