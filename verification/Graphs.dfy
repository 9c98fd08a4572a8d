/** Paths and reachability in a graph given by its edge relation. */
module Graphs {
  import opened Wrappers

  type Node = string

  type Edges = (Node, Node) -> bool

  /** A path of zero or more edges. */
  ghost predicate IsPath(edge: Edges, p: seq<Node>) {
    p != [] && forall i :: 0 <= i < |p| - 1 ==> edge(p[i], p[i + 1])
  }

  ghost predicate PathBetween(edge: Edges, p: seq<Node>, a: Node, b: Node) {
    IsPath(edge, p) && p[0] == a && p[|p| - 1] == b
  }

  ghost predicate Reaches(edge: Edges, a: Node, b: Node) {
    exists p :: PathBetween(edge, p, a, b)
  }

  /** In one step or more. */
  ghost predicate ReachesPlus(edge: Edges, a: Node, b: Node) {
    exists c :: edge(a, c) && Reaches(edge, c, b)
  }

  ghost predicate Closed(edge: Edges, s: set<Node>) {
    forall a, b :: a in s && edge(a, b) ==> b in s
  }

  lemma ReachesSelf(edge: Edges, a: Node)
    ensures Reaches(edge, a, a)
  {
    assert PathBetween(edge, [a], a, a);
  }

  lemma SameReaches(edge: Edges, edge': Edges, a: Node)
    requires forall x, y :: edge(x, y) <==> edge'(x, y)
    ensures forall b :: Reaches(edge, a, b) <==> Reaches(edge', a, b)
  {
    assert forall p :: IsPath(edge, p) <==> IsPath(edge', p);
    assert forall p, b :: PathBetween(edge, p, a, b) <==> PathBetween(edge', p, a, b);
  }

  lemma ReachesStep(edge: Edges, a: Node, b: Node, c: Node)
    requires Reaches(edge, a, b) && edge(b, c)
    ensures Reaches(edge, a, c)
  {
    var p :| PathBetween(edge, p, a, b);
    assert PathBetween(edge, p + [c], a, c);
  }

  lemma ReachesFirst(edge: Edges, a: Node, b: Node, c: Node)
    requires edge(a, b) && Reaches(edge, b, c)
    ensures Reaches(edge, a, c)
  {
    var p :| PathBetween(edge, p, b, c);
    var q := [a] + p;
    forall i | 0 <= i < |q| - 1 ensures edge(q[i], q[i + 1]) {
      if i > 0 {
        assert edge(p[i - 1], p[i]);
      }
    }
    assert PathBetween(edge, q, a, c);
  }

  lemma ReachesCases(edge: Edges, a: Node, c: Node)
    ensures Reaches(edge, a, c) <==> a == c || exists b :: edge(a, b) && Reaches(edge, b, c)
  {
    ReachesSelf(edge, a);
    if Reaches(edge, a, c) && a != c {
      var p :| PathBetween(edge, p, a, c);
      PathSlice(edge, p, 1, |p| - 1);
      assert edge(p[0], p[1]) && Reaches(edge, p[1], c);
    }
    if b :| edge(a, b) && Reaches(edge, b, c) {
      ReachesFirst(edge, a, b, c);
    }
  }

  lemma PathTrans(edge: Edges, p: seq<Node>, q: seq<Node>)
    requires IsPath(edge, p) && IsPath(edge, q) && p[|p| - 1] == q[0]
    ensures PathBetween(edge, p + q[1..], p[0], q[|q| - 1])
  {
    var r := p + q[1..];
    forall i | 0 <= i < |r| - 1 ensures edge(r[i], r[i + 1]) {
      if i < |p| - 1 {
        assert edge(p[i], p[i + 1]);
      } else {
        assert edge(q[i - |p| + 1], q[i - |p| + 2]);
      }
    }
  }

  lemma ReachesTrans(edge: Edges, a: Node, b: Node, c: Node)
    requires Reaches(edge, a, b) && Reaches(edge, b, c)
    ensures Reaches(edge, a, c)
  {
    var p :| PathBetween(edge, p, a, b);
    var q :| PathBetween(edge, q, b, c);
    PathTrans(edge, p, q);
  }

  lemma PathSlice(edge: Edges, p: seq<Node>, lo: nat, hi: nat)
    requires IsPath(edge, p) && lo <= hi < |p|
    ensures PathBetween(edge, p[lo..hi + 1], p[lo], p[hi])
  {
    var q := p[lo..hi + 1];
    forall i | 0 <= i < |q| - 1 ensures edge(q[i], q[i + 1]) {
      assert edge(p[lo + i], p[lo + i + 1]);
    }
  }

  /** Some path from `a` to `c` goes through `b`. */
  ghost predicate PathThrough(edge: Edges, a: Node, b: Node, c: Node) {
    exists p {:trigger PathBetween(edge, p, a, c)} :: PathBetween(edge, p, a, c) && b in p
  }

  lemma PathThroughIff(edge: Edges, a: Node, b: Node, c: Node)
    ensures PathThrough(edge, a, b, c) <==> Reaches(edge, a, b) && Reaches(edge, b, c)
  {
    if PathThrough(edge, a, b, c) {
      var p :| PathBetween(edge, p, a, c) && b in p;
      var k :| 0 <= k < |p| && p[k] == b;
      PathSlice(edge, p, 0, k);
      PathSlice(edge, p, k, |p| - 1);
    }
    if Reaches(edge, a, b) && Reaches(edge, b, c) {
      var p :| PathBetween(edge, p, a, b);
      var q :| PathBetween(edge, q, b, c);
      PathTrans(edge, p, q);
      assert (p + q[1..])[|p| - 1] == b;
    }
  }

  /** A cycle that can be reached from `a`. */
  ghost predicate CycleFrom(edge: Edges, a: Node) {
    exists n {:trigger Reaches(edge, a, n)} :: Reaches(edge, a, n) && ReachesPlus(edge, n, n)
  }

  ghost predicate RepeatingPath(edge: Edges, a: Node) {
    exists p {:trigger IsPath(edge, p)} :: IsPath(edge, p) && p[0] == a && !Distinct(p)
  }

  lemma RepeatsIffCycle(edge: Edges, a: Node)
    ensures RepeatingPath(edge, a) <==> CycleFrom(edge, a)
  {
    if RepeatingPath(edge, a) {
      var p :| IsPath(edge, p) && p[0] == a && !Distinct(p);
      var i, j :| 0 <= i < j < |p| && p[i] == p[j];
      PathSlice(edge, p, 0, i);
      PathSlice(edge, p, i + 1, j);
      assert edge(p[i], p[i + 1]) && Reaches(edge, p[i + 1], p[i]);
      assert Reaches(edge, a, p[i]) && ReachesPlus(edge, p[i], p[i]);
    }
    if CycleFrom(edge, a) {
      var n :| Reaches(edge, a, n) && ReachesPlus(edge, n, n);
      var c :| edge(n, c) && Reaches(edge, c, n);
      var p :| PathBetween(edge, p, a, n);
      var q :| PathBetween(edge, q, c, n);
      assert PathBetween(edge, [n, c], n, c);
      PathTrans(edge, p, [n, c]);
      PathTrans(edge, p + [n, c][1..], q);
      var r := p + [n, c][1..] + q[1..];
      assert IsPath(edge, r) && r[0] == a && r[|r| - 1] == n;
      assert r[|p| - 1] == p[|p| - 1] == n;
      assert !Distinct(r);
    }
  }

  /** A closed set has everything that its members reach. */
  lemma ClosedHasReached(edge: Edges, s: set<Node>, a: Node, b: Node)
    requires Closed(edge, s) && a in s && Reaches(edge, a, b)
    ensures b in s
  {
    var p :| PathBetween(edge, p, a, b);
    PathStaysInside(edge, s, p);
  }

  lemma {:induction false} PathStaysInside(edge: Edges, s: set<Node>, p: seq<Node>)
    requires Closed(edge, s) && IsPath(edge, p) && p[0] in s
    ensures p[|p| - 1] in s
    decreases |p|
  {
    if |p| > 1 {
      var q := p[1..];
      assert edge(p[0], p[1]);
      forall i | 0 <= i < |q| - 1 ensures edge(q[i], q[i + 1]) {
        assert edge(p[i + 1], p[i + 2]);
      }
      PathStaysInside(edge, s, q);
    }
  }

  // ----- acyclic graphs -----

  ghost predicate Acyclic(edge: Edges) {
    forall a :: !ReachesPlus(edge, a, a)
  }

  /** Every edge goes down in rank. */
  ghost predicate RankedBy(edge: Edges, rank: Node -> nat) {
    forall a, b :: edge(a, b) ==> rank(b) < rank(a)
  }

  lemma {:induction false} RankFalls(edge: Edges, rank: Node -> nat, p: seq<Node>)
    requires RankedBy(edge, rank) && IsPath(edge, p)
    ensures rank(p[|p| - 1]) <= rank(p[0])
    decreases |p|
  {
    if |p| > 1 {
      assert edge(p[0], p[1]);
      PathSlice(edge, p, 1, |p| - 1);
      assert p[1..|p| - 1 + 1] == p[1..];
      RankFalls(edge, rank, p[1..]);
    }
  }

  ghost function Beyond(edge: Edges, universe: set<Node>, a: Node): set<Node> {
    set n | n in universe && ReachesPlus(edge, a, n)
  }

  lemma BeyondShrinks(edge: Edges, universe: set<Node>, a: Node, b: Node)
    requires Acyclic(edge) && edge(a, b) && b in universe
    ensures |Beyond(edge, universe, b)| < |Beyond(edge, universe, a)|
  {
    ReachesSelf(edge, b);
    forall n | n in Beyond(edge, universe, b)
      ensures n in Beyond(edge, universe, a)
    {
      var c :| edge(b, c) && Reaches(edge, c, n);
      ReachesFirst(edge, b, c, n);
    }
    assert b in Beyond(edge, universe, a) && b !in Beyond(edge, universe, b);
    Smaller(Beyond(edge, universe, b), Beyond(edge, universe, a));
  }

  lemma Smaller(s: set<Node>, t: set<Node>)
    requires s < t
    ensures |s| < |t|
  {
    assert t == s + (t - s) && t - s != {};
  }

  /** A finite graph can be ranked exactly when it has no cycle. */
  lemma RankedIffAcyclic(edge: Edges, universe: set<Node>)
    requires forall a, b :: edge(a, b) ==> b in universe
    ensures (exists rank :: RankedBy(edge, rank)) <==> Acyclic(edge)
  {
    if rank :| RankedBy(edge, rank) {
      forall a | ReachesPlus(edge, a, a)
        ensures false
      {
        var c :| edge(a, c) && Reaches(edge, c, a);
        var p :| PathBetween(edge, p, c, a);
        RankFalls(edge, rank, p);
      }
    }
    if Acyclic(edge) {
      forall a, b | edge(a, b)
        ensures |Beyond(edge, universe, b)| < |Beyond(edge, universe, a)|
      {
        BeyondShrinks(edge, universe, a, b);
      }
      assert RankedBy(edge, a => |Beyond(edge, universe, a)|);
    }
  }
}
