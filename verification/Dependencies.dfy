/**
  Task dependencies and the text their signatures are computed from: `generate_dependencies`
  and `generate_dependency_hash`.
 */
module Dependencies {
  import opened Wrappers
  import opened Graphs

  /** `build_dependencies`: the direct dependencies of a variable, and its value. */
  type Build = Node -> (set<Node>, Option<string>)

  ghost function DependsOn(build: Build): Edges {
    (a, b) => b in build(a).0
  }

  type Dependents = map<Node, set<Node>>

  ghost function EdgesOf(deps: Dependents): Edges {
    (a, b) => a in deps && b in deps[a]
  }

  ghost predicate FromSome(edge: Edges, tasks: seq<Node>, n: Node) {
    exists t <- tasks :: Reaches(edge, t, n)
  }

  /** The maps agree with the given function, and hold only what some task reaches. */
  ghost predicate Sound(build: Build, tasks: seq<Node>, deps: Dependents, values: map<Node, Option<string>>) {
    && deps.Keys == values.Keys
    && (forall n <- deps :: (deps[n], values[n]) == build(n))
    && (forall n <- deps :: FromSome(DependsOn(build), tasks, n))
  }

  /** All dependencies of the given nodes are keys. */
  ghost predicate Expanded(deps: Dependents, nodes: set<Node>) {
    forall n <- nodes :: n in deps && deps[n] <= deps.Keys
  }

  lemma AddNode(build: Build, tasks: seq<Node>, deps: Dependents, values: map<Node, Option<string>>, n: Node)
    requires Sound(build, tasks, deps, values) && FromSome(DependsOn(build), tasks, n)
    ensures Sound(build, tasks, deps[n := build(n).0], values[n := build(n).1])
  {}

  lemma DependencyFromSome(build: Build, tasks: seq<Node>, n: Node, d: Node)
    requires FromSome(DependsOn(build), tasks, n) && d in build(n).0
    ensures FromSome(DependsOn(build), tasks, d)
  {
    var t :| t in tasks && Reaches(DependsOn(build), t, n);
    ReachesStep(DependsOn(build), t, n, d);
  }

  /** `universe` is any finite set that the dependencies never leave. */
  method GenerateDependencies(tasklist: seq<Node>, build: Build, ghost universe: set<Node>)
    returns (deps: Dependents, values: map<Node, Option<string>>)
    requires Graphs.Closed(DependsOn(build), universe) && forall t <- tasklist :: t in universe
    ensures deps.Keys == values.Keys && forall n <- deps :: (deps[n], values[n]) == build(n)
    ensures forall n :: n in deps <==> FromSome(DependsOn(build), tasklist, n)
    ensures Expanded(deps, deps.Keys)
  {
    deps, values := map[], map[];
    for i := 0 to |tasklist|
      invariant Sound(build, tasklist, deps, values) && Expanded(deps, deps.Keys)
      invariant forall j :: 0 <= j < i ==> tasklist[j] in deps
    {
      var task := tasklist[i];
      ReachesSelf(DependsOn(build), task);
      AddNode(build, tasklist, deps, values, task);
      ghost var old_ := deps.Keys;
      deps, values := deps[task := build(task).0], values[task := build(task).1];
      deps, values := Explore(task, tasklist, build, deps, values, old_, universe);
    }
    forall n
      ensures n in deps <==> FromSome(DependsOn(build), tasklist, n)
    {
      if FromSome(DependsOn(build), tasklist, n) {
        var t :| t in tasklist && Reaches(DependsOn(build), t, n);
        assert Graphs.Closed(DependsOn(build), deps.Keys);
        ClosedHasReached(DependsOn(build), deps.Keys, t, n);
      }
    }
  }

  /** One round of the worklist: the dependencies of everything in `nextdeps`. */
  method Round(nextdeps: set<Node>, ghost tasklist: seq<Node>, build: Build,
               deps0: Dependents, values0: map<Node, Option<string>>, ghost universe: set<Node>)
    returns (deps: Dependents, values: map<Node, Option<string>>, newdeps: set<Node>)
    requires Sound(build, tasklist, deps0, values0) && Graphs.Closed(DependsOn(build), universe)
    requires nextdeps <= universe && forall n <- nextdeps :: FromSome(DependsOn(build), tasklist, n)
    ensures Sound(build, tasklist, deps, values) && deps.Keys == deps0.Keys + nextdeps
    ensures forall n <- deps0 :: deps[n] == deps0[n]
    ensures newdeps <= universe && forall n <- newdeps :: FromSome(DependsOn(build), tasklist, n)
    ensures forall n <- nextdeps :: deps[n] <= newdeps
  {
    hide FromSome;
    deps, values, newdeps := deps0, values0, {};
    var todo := nextdeps;
    while todo != {}
      invariant todo <= nextdeps
      invariant Sound(build, tasklist, deps, values) && deps.Keys == deps0.Keys + (nextdeps - todo)
      invariant newdeps <= universe && forall n <- newdeps :: FromSome(DependsOn(build), tasklist, n)
      invariant forall n <- nextdeps - todo :: deps[n] <= newdeps
      decreases todo
    {
      var dep :| dep in todo;
      if dep !in deps {
        AddNode(build, tasklist, deps, values, dep);
        deps, values := deps[dep := build(dep).0], values[dep := build(dep).1];
      }
      forall d | d in deps[dep]
        ensures d in universe && FromSome(DependsOn(build), tasklist, d)
      {
        DependencyFromSome(build, tasklist, dep, d);
      }
      newdeps := newdeps + deps[dep];
      todo := todo - {dep};
    }
  }

  /** The worklist for one task, whose own entry has just been made. */
  method Explore(task: Node, ghost tasklist: seq<Node>, build: Build, deps0: Dependents, values0: map<Node, Option<string>>,
                 ghost done: set<Node>, ghost universe: set<Node>)
    returns (deps: Dependents, values: map<Node, Option<string>>)
    requires Sound(build, tasklist, deps0, values0) && task in deps0 && task in tasklist && task in universe
    requires Graphs.Closed(DependsOn(build), universe)
    requires deps0.Keys == done + {task} && forall n <- done :: n in deps0 && deps0[n] <= deps0.Keys
    ensures Sound(build, tasklist, deps, values) && Expanded(deps, deps.Keys) && deps0.Keys <= deps.Keys
  {
    ReachesSelf(DependsOn(build), task);
    assert FromSome(DependsOn(build), tasklist, task);
    hide FromSome, DependsOn;
    deps, values := deps0, values0;
    var newdeps := deps[task];
    var seen := {};
    forall d | d in newdeps
      ensures d in universe && FromSome(DependsOn(build), tasklist, d)
    {
      DependencyFromSome(build, tasklist, task, d);
    }
    while newdeps != {}
      invariant Sound(build, tasklist, deps, values) && deps.Keys == deps0.Keys + seen
      invariant seen <= universe && newdeps <= universe && seen !! newdeps
      invariant forall n <- newdeps :: FromSome(DependsOn(build), tasklist, n)
      invariant forall n <- seen + {task} :: deps[n] <= seen + newdeps
      decreases universe - seen
    {
      var nextdeps := newdeps;
      seen := seen + nextdeps;
      deps, values, newdeps := Round(nextdeps, tasklist, build, deps, values, universe);
      newdeps := newdeps - seen;
    }
  }
}
