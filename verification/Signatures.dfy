/** The text that a task's signature is computed from: `generate_dependency_hash`. */
module Signatures {
  import opened Wrappers
  import opened Graphs
  import opened Dependencies

  // ----- sorting names -----

  predicate Less(a: string, b: string) {
    b != "" && (a == "" || a[0] < b[0] || (a[0] == b[0] && Less(a[1..], b[1..])))
  }

  /** Where two names first differ, the smaller character decides; a name comes before what extends it. */
  lemma {:induction false} LessIff(a: string, b: string, k: nat)
    requires k <= |a| && k <= |b| && a[..k] == b[..k]
    requires k < |a| && k < |b| ==> a[k] != b[k]
    ensures Less(a, b) <==> k < |b| && (k == |a| || a[k] < b[k])
  {
    if k > 0 {
      assert a[0] == a[..k][0] == b[..k][0] == b[0];
      assert a[1..][..k - 1] == a[..k][1..] && b[1..][..k - 1] == b[..k][1..];
      LessIff(a[1..], b[1..], k - 1);
    } else if a != "" && b != "" {
      assert a[0] != b[0];
    }
  }

  lemma {:induction false} LessTotal(a: string, b: string)
    ensures a == b || Less(a, b) || Less(b, a)
  {
    if a != "" && b != "" && a[0] == b[0] {
      LessTotal(a[1..], b[1..]);
      assert a == [a[0]] + a[1..] && b == [b[0]] + b[1..];
    }
  }

  lemma {:induction false} LessTrans(a: string, b: string, c: string)
    requires Less(a, b) && Less(b, c)
    ensures Less(a, c)
  {
    if a != "" && a[0] == b[0] == c[0] {
      LessTrans(a[1..], b[1..], c[1..]);
    }
  }

  lemma {:induction false} LessIrreflexive(a: string)
    ensures !Less(a, a)
  {
    if a != "" {
      LessIrreflexive(a[1..]);
    }
  }

  ghost predicate Increasing(q: seq<string>) {
    forall i, j :: 0 <= i < j < |q| ==> Less(q[i], q[j])
  }

  /** What `sorted` returns for a set. */
  ghost predicate IsSorted(q: seq<string>, s: set<string>) {
    Increasing(q) && forall x :: x in q <==> x in s
  }

  /** Inserts `x` before the first greater element. */
  method Insert(q: seq<string>, x: string) returns (r: seq<string>)
    requires Increasing(q) && x !in q
    ensures Increasing(r) && forall y :: y in r <==> y in q || y == x
  {
    var i := 0;
    while i < |q| && Less(q[i], x)
      invariant 0 <= i <= |q| && forall k :: 0 <= k < i ==> Less(q[k], x)
    {
      i := i + 1;
    }
    forall k | i <= k < |q|
      ensures Less(x, q[k])
    {
      LessTotal(q[i], x);
      if k > i {
        LessTrans(x, q[i], q[k]);
      }
    }
    r := q[..i] + [x] + q[i..];
    assert q == q[..i] + q[i..];
  }

  method SortSet(s: set<string>) returns (q: seq<string>)
    ensures IsSorted(q, s)
  {
    q := [];
    var todo := s;
    while todo != {}
      invariant todo <= s && IsSorted(q, s - todo)
      decreases todo
    {
      var x :| x in todo;
      q := Insert(q, x);
      todo := todo - {x};
    }
  }

  /** There is only one way to sort a set. */
  lemma {:induction false} SortedUnique(q: seq<string>, r: seq<string>, s: set<string>)
    requires IsSorted(q, s) && IsSorted(r, s)
    ensures q == r
    decreases |q|
  {
    NonEmptyMember(q);
    NonEmptyMember(r);
    if q != [] {
      SameLeast(q, r, s);
      var s' := s - {q[0]};
      TailSorted(q, s);
      TailSorted(r, s);
      SortedUnique(q[1..], r[1..], s');
    }
  }

  lemma NonEmptyMember(q: seq<string>)
    ensures q != [] ==> q[0] in q
  {}

  lemma SameLeast(q: seq<string>, r: seq<string>, s: set<string>)
    requires IsSorted(q, s) && IsSorted(r, s) && q != [] && r != []
    ensures q[0] == r[0]
  {
    assert q[0] in r && r[0] in q;
    var i :| 0 <= i < |r| && r[i] == q[0];
    var j :| 0 <= j < |q| && q[j] == r[0];
    if i > 0 && j > 0 {
      LessTrans(q[0], q[j], r[i]);
      LessIrreflexive(q[0]);
    }
  }

  lemma TailSorted(q: seq<string>, s: set<string>)
    requires IsSorted(q, s) && q != []
    ensures IsSorted(q[1..], s - {q[0]})
  {
    forall x
      ensures x in q[1..] <==> x in s - {q[0]}
    {
      if x in q[1..] {
        var k :| 0 <= k < |q[1..]| && q[1..][k] == x;
        LessIrreflexive(x);
      }
    }
  }

  // ----- the hashed text -----

  type Values = map<Node, Option<string>>

  function TextOf(v: Option<string>): string {
    if v.Some? then v.value else ""
  }

  /** `"".join(data)`: the value of `task`, then each dependency's name and value. */
  function HashedText(values: Values, task: Node, sorted: seq<Node>): string
    requires task in values && forall d <- sorted :: d in values
  {
    if sorted == [] then TextOf(values[task])
    else
      var init, last := sorted[..|sorted| - 1], sorted[|sorted| - 1];
      assert forall d <- init :: d in sorted;
      assert last in sorted;
      HashedText(values, task, init) + last + TextOf(values[last])
  }

  /** The dependencies of `task` in one step or more. */
  ghost predicate IsReach(deps: Dependents, task: Node, s: set<Node>) {
    forall n :: n in s <==> ReachesPlus(EdgesOf(deps), task, n)
  }

  ghost predicate Complete(deps: Dependents, values: Values) {
    deps.Keys == values.Keys && Dependencies.Expanded(deps, deps.Keys)
  }

  /** The loop over one task's dependencies: everything reached in a step or more. */
  method CollectSeen(task: Node, deps: Dependents) returns (seen: set<Node>)
    requires task in deps && Dependencies.Expanded(deps, deps.Keys)
    ensures seen <= deps.Keys && IsReach(deps, task, seen)
  {
    ghost var edge := EdgesOf(deps);
    var newdeps := deps[task];
    seen := {};
    forall d | d in newdeps
      ensures ReachesPlus(edge, task, d)
    {
      ReachesSelf(edge, d);
      assert edge(task, d);
    }
    while newdeps != {}
      invariant seen <= deps.Keys && newdeps <= deps.Keys && seen !! newdeps
      invariant forall n <- seen + newdeps :: ReachesPlus(edge, task, n)
      invariant forall n <- seen + {task} :: deps[n] <= seen + newdeps
      decreases deps.Keys - seen
    {
      var nextdeps := newdeps;
      seen := seen + nextdeps;
      newdeps := NextRound(nextdeps, deps, task);
      newdeps := newdeps - seen;
    }
    forall n | ReachesPlus(edge, task, n)
      ensures n in seen
    {
      var c :| edge(task, c) && Reaches(edge, c, n);
      assert c in seen;
      assert Graphs.Closed(edge, seen);
      ClosedHasReached(edge, seen, c, n);
    }
  }

  method NextRound(nextdeps: set<Node>, deps: Dependents, ghost task: Node) returns (newdeps: set<Node>)
    requires Dependencies.Expanded(deps, deps.Keys) && nextdeps <= deps.Keys
    requires forall n <- nextdeps :: ReachesPlus(EdgesOf(deps), task, n)
    ensures newdeps <= deps.Keys && forall n <- newdeps :: ReachesPlus(EdgesOf(deps), task, n)
    ensures forall n <- nextdeps :: deps[n] <= newdeps
  {
    newdeps := {};
    var todo := nextdeps;
    while todo != {}
      invariant todo <= nextdeps
      invariant newdeps <= deps.Keys && forall n <- newdeps :: ReachesPlus(EdgesOf(deps), task, n)
      invariant forall n <- nextdeps - todo :: deps[n] <= newdeps
      decreases todo
    {
      var dep :| dep in todo;
      forall d | d in deps[dep]
        ensures ReachesPlus(EdgesOf(deps), task, d)
      {
        var c :| EdgesOf(deps)(task, c) && Reaches(EdgesOf(deps), c, dep);
        ReachesStep(EdgesOf(deps), c, dep, d);
      }
      newdeps := newdeps + deps[dep];
      todo := todo - {dep};
    }
  }

  method BuildText(values: Values, task: Node, sorted: seq<Node>) returns (text: string)
    requires task in values && forall d <- sorted :: d in values
    ensures text == HashedText(values, task, sorted)
  {
    text := TextOf(values[task]);
    for i := 0 to |sorted|
      invariant forall d <- sorted[..i] :: d in values
      invariant text == HashedText(values, task, sorted[..i])
    {
      assert sorted[..i + 1][..i] == sorted[..i];
      text := text + sorted[i] + TextOf(values[sorted[i]]);
    }
    assert sorted[..|sorted|] == sorted;
  }

  /** The entry that a hash is made from: the dependencies in order, and the text. */
  ghost predicate IsEntry(deps: Dependents, values: Values, task: Node, seen: set<Node>, text: string) {
    && IsReach(deps, task, seen)
    && exists q :: IsSorted(q, seen) && IsText(values, task, q, text)
  }

  ghost predicate IsText(values: Values, task: Node, sorted: seq<Node>, text: string) {
    task in values && (forall d <- sorted :: d in values) && text == HashedText(values, task, sorted)
  }

  method BuildEntry(task: Node, deps: Dependents, values: Values) returns (seen: set<Node>, text: string)
    requires Complete(deps, values) && task in deps
    ensures IsEntry(deps, values, task, seen, text)
  {
    seen := CollectSeen(task, deps);
    var alldeps := SortSet(seen);
    text := BuildText(values, task, alldeps);
    assert IsText(values, task, alldeps, text);
  }

  /** Both the dependencies and the text of a task are determined by the two maps. */
  lemma EntryUnique(deps: Dependents, values: Values, task: Node, s: set<Node>, text: string, s': set<Node>, text': string)
    requires IsEntry(deps, values, task, s, text) && IsEntry(deps, values, task, s', text')
    ensures s == s' && text == text'
  {
    var q :| IsSorted(q, s) && IsText(values, task, q, text);
    var q' :| IsSorted(q', s') && IsText(values, task, q', text');
    assert s == s';
    SortedUnique(q, q', s);
  }

  function HashKey(fn: string, task: Node): (key: string)
    ensures fn <= key && key[|fn|..] == ":" + task
  {
    fn + ":" + task
  }

  lemma KeysDiffer(fn: string, task: Node, other: Node)
    ensures HashKey(fn, task) == HashKey(fn, other) <==> task == other
  {
    assert HashKey(fn, task)[|fn| + 1..] == task && HashKey(fn, other)[|fn| + 1..] == other;
  }

  /** `sha` stands for the hexadecimal digest. */
  method GenerateDependencyHash(tasklist: seq<Node>, gendeps: Dependents, lookupcache: Values, fn: string,
                                sha: string -> string)
    returns (taskdeps: map<Node, set<Node>>, basehash: map<string, string>)
    requires Complete(gendeps, lookupcache) && forall t <- tasklist :: t in gendeps
    ensures taskdeps.Keys == set t <- tasklist
    ensures forall t <- tasklist :: HashKey(fn, t) in basehash &&
              exists text :: IsEntry(gendeps, lookupcache, t, taskdeps[t], text) && basehash[HashKey(fn, t)] == sha(text)
  {
    hide IsEntry, HashKey;
    taskdeps, basehash := map[], map[];
    ghost var texts: map<Node, string> := map[];
    for i := 0 to |tasklist|
      invariant taskdeps.Keys == texts.Keys == set t <- tasklist[..i]
      invariant forall t <- taskdeps ::
                  && IsEntry(gendeps, lookupcache, t, taskdeps[t], texts[t])
                  && HashKey(fn, t) in basehash && basehash[HashKey(fn, t)] == sha(texts[t])
    {
      var task := tasklist[i];
      var seen, text := BuildEntry(task, gendeps, lookupcache);
      if task in taskdeps {
        EntryUnique(gendeps, lookupcache, task, seen, text, taskdeps[task], texts[task]);
      }
      forall t | t in taskdeps
        ensures HashKey(fn, t) == HashKey(fn, task) <==> t == task
      {
        KeysDiffer(fn, t, task);
      }
      basehash := basehash[HashKey(fn, task) := sha(text)];
      taskdeps := taskdeps[task := seen];
      texts := texts[task := text];
    }
    assert tasklist[..|tasklist|] == tasklist;
  }

  // ----- what the text consists of -----

  /** `at` cuts the text: the value of `task` first, then each name followed by that variable's value, if any. */
  ghost predicate LaidOut(text: string, values: Values, task: Node, q: seq<Node>, at: seq<nat>) {
    && task in values && (forall d <- q :: d in values)
    && |at| == |q| + 1 && at[|q|] == |text|
    && (forall i, j :: 0 <= i <= j < |at| ==> at[i] <= at[j])
    && text[..at[0]] == (match values[task] case Some(v) => v case None => "")
    && forall i :: 0 <= i < |q| ==> IsPiece(text[at[i]..at[i + 1]], q[i], values[q[i]])
  }

  predicate IsPiece(piece: string, name: Node, value: Option<string>) {
    match value
    case Some(v) => piece == name + v
    case None => piece == name
  }

  lemma HashedNext(values: Values, task: Node, init: seq<Node>, last: Node)
    requires task in values && last in values && forall d <- init :: d in values
    ensures forall d <- init + [last] :: d in values
    ensures HashedText(values, task, init + [last]) == HashedText(values, task, init) + (last + TextOf(values[last]))
  {
    var q := init + [last];
    assert q[..|q| - 1] == init;
    hide TextOf;
    assert HashedText(values, task, q) == HashedText(values, task, init) + last + TextOf(values[last]);
  }

  lemma LaidOutMore(before: string, values: Values, task: Node, q: seq<Node>, at: seq<nat>, last: Node, piece: string)
    requires LaidOut(before, values, task, q, at) && last in values && IsPiece(piece, last, values[last])
    ensures LaidOut(before + piece, values, task, q + [last], at + [|before + piece|])
  {
    hide IsPiece;
    var text, q', at' := before + piece, q + [last], at + [|before + piece|];
    assert text[..at[0]] == before[..at[0]];
    forall i | 0 <= i < |q'|
      ensures IsPiece(text[at'[i]..at'[i + 1]], q'[i], values[q'[i]])
    {
      if i < |q| {
        assert text[at[i]..at[i + 1]] == before[at[i]..at[i + 1]];
      } else {
        assert text[|before|..|text|] == piece;
      }
    }
  }

  lemma NoNamesLaidOut(values: Values, task: Node)
    requires task in values
    ensures LaidOut(HashedText(values, task, []), values, task, [], [|HashedText(values, task, [])|])
  {}

  lemma {:induction false} TextIsLaidOut(values: Values, task: Node, q: seq<Node>) returns (at: seq<nat>)
    requires task in values && forall d <- q :: d in values
    ensures LaidOut(HashedText(values, task, q), values, task, q, at)
  {
    hide HashedText, LaidOut;
    if q == [] {
      NoNamesLaidOut(values, task);
      return [|HashedText(values, task, q)|];
    }
    var init, last := q[..|q| - 1], q[|q| - 1];
    assert init + [last] == q && last in q && forall d <- init :: d in q;
    at := TextIsLaidOut(values, task, init);
    HashedNext(values, task, init, last);
    LaidOutMore(HashedText(values, task, init), values, task, init, at, last, last + TextOf(values[last]));
    at := at + [|HashedText(values, task, q)|];
  }

  /** The text of an entry is its own value, then the names it depends on, in order, each with its value. */
  lemma EntryIsLaidOut(deps: Dependents, values: Values, task: Node, s: set<Node>, text: string)
    returns (q: seq<Node>, at: seq<nat>)
    requires IsEntry(deps, values, task, s, text)
    ensures IsSorted(q, s) && LaidOut(text, values, task, q, at)
  {
    q :| IsSorted(q, s) && IsText(values, task, q, text);
    at := TextIsLaidOut(values, task, q);
  }

  // ----- sensitivity -----

  /** The maps agree but for the value of `n`. */
  ghost predicate DifferAt(v: Values, w: Values, nodes: set<Node>, n: Node) {
    n in nodes && forall d <- nodes :: d in v && d in w && (d != n ==> v[d] == w[d])
  }

  lemma DifferBefore(v: Values, w: Values, task: Node, init: seq<Node>, last: Node, n: Node)
    requires DifferAt(v, w, (set d <- init + [last]) + {task}, n)
    ensures task in v && task in w && last in v && last in w && (forall d <- init :: d in v && d in w)
    ensures last == n || v[last] == w[last]
    ensures if n == task || n in init then DifferAt(v, w, (set d <- init) + {task}, n)
            else last == n && v[task] == w[task] && forall d <- init :: v[d] == w[d]
  {
    assert last in init + [last] && forall d <- init :: d in init + [last];
  }

  lemma {:induction false} TextFollowsLength(v: Values, w: Values, task: Node, q: seq<Node>, n: Node)
    requires DifferAt(v, w, (set d <- q) + {task}, n)
    ensures |TextOf(v[n])| < |TextOf(w[n])| ==> |HashedText(v, task, q)| < |HashedText(w, task, q)|
    ensures |TextOf(v[n])| == |TextOf(w[n])| ==> |HashedText(v, task, q)| == |HashedText(w, task, q)|
    ensures |TextOf(v[n])| == |TextOf(w[n])| && TextOf(v[n]) != TextOf(w[n]) ==>
              HashedText(v, task, q) != HashedText(w, task, q)
  {
    if q != [] {
      var init, last := q[..|q| - 1], q[|q| - 1];
      assert init + [last] == q;
      DifferBefore(v, w, task, init, last, n);
      hide HashedText, TextOf, DifferAt;
      HashedNext(v, task, init, last);
      HashedNext(w, task, init, last);
      if n == task || n in init {
        TextFollowsLength(v, w, task, init, n);
      } else {
        SameText(v, w, task, init);
      }
      OneMorePiece(HashedText(v, task, init), HashedText(w, task, init), last, TextOf(v[last]), TextOf(w[last]));
    }
  }

  lemma OneMorePiece(a: string, b: string, name: string, v: string, w: string)
    ensures |a + (name + v)| == |a| + |name| + |v| && |b + (name + w)| == |b| + |name| + |w|
    ensures |a| == |b| ==> (a + (name + v) == b + (name + w) <==> a == b && v == w)
  {
    if |a| == |b| {
      PartsDiffer(a, name + v, b, name + w);
      PartsDiffer(name, v, name, w);
    }
  }

  lemma PartsDiffer(a: string, b: string, c: string, d: string)
    requires |a| == |c|
    ensures a + b == c + d <==> a == c && b == d
  {
    assert (a + b)[..|a|] == a && (a + b)[|a|..] == b && (c + d)[..|a|] == c && (c + d)[|a|..] == d;
  }

  /**
    Sensitivity: between two configurations that agree on the value of a task and of everything it depends
    on, but for one, the text is the same exactly when that value's text is.
   */
  lemma OneChangeShows(deps: Dependents, v: Values, w: Values, task: Node, s: set<Node>, n: Node, text: string, text': string)
    requires IsEntry(deps, v, task, s, text) && IsEntry(deps, w, task, s, text') && DifferAt(v, w, s + {task}, n)
    ensures text == text' <==> TextOf(v[n]) == TextOf(w[n])
  {
    hide HashedText, TextOf, IsReach, Increasing;
    var q :| IsSorted(q, s) && IsText(v, task, q, text);
    var q' :| IsSorted(q', s) && IsText(w, task, q', text');
    SortedUnique(q, q', s);
    assert (set d <- q) == s;
    TextFollowsLength(v, w, task, q, n);
    TextFollowsLength(w, v, task, q, n);
    if TextOf(v[n]) == TextOf(w[n]) {
      SameTexts(v, w, task, q);
    }
  }

  lemma {:induction false} SameTexts(v: Values, w: Values, task: Node, q: seq<Node>)
    requires task in v && task in w && TextOf(v[task]) == TextOf(w[task])
    requires forall d <- q :: d in v && d in w && TextOf(v[d]) == TextOf(w[d])
    ensures HashedText(v, task, q) == HashedText(w, task, q)
  {
    if q != [] {
      assert q[|q| - 1] in q && forall d <- q[..|q| - 1] :: d in q;
      SameTexts(v, w, task, q[..|q| - 1]);
    }
  }

  /** Two changes can cancel out, since nothing separates names from values. */
  lemma TwoChangesCanHide(v: Values, w: Values)
    requires v == map["t" := None, "A" := None, "B" := Some("B")]
    requires w == map["t" := None, "A" := Some("B"), "B" := None]
    ensures HashedText(v, "t", ["A", "B"]) == HashedText(w, "t", ["A", "B"])
  {
    var q: seq<Node> := ["A", "B"];
    assert q[..1] == ["A"] && q[..1][..0] == [];
    assert HashedText(v, "t", ["A"]) == "A" && HashedText(w, "t", ["A"]) == "AB";
  }

  // ----- non-interference -----

  lemma {:induction false} SameText(v: Values, w: Values, task: Node, sorted: seq<Node>)
    requires task in v && task in w && v[task] == w[task]
    requires forall d <- sorted :: d in v && d in w && v[d] == w[d]
    ensures HashedText(v, task, sorted) == HashedText(w, task, sorted)
  {
    if sorted != [] {
      assert forall d <- sorted[..|sorted| - 1] :: d in sorted;
      assert sorted[|sorted| - 1] in sorted;
      SameText(v, w, task, sorted[..|sorted| - 1]);
    }
  }

  /** The two maps have the same entries for `task` and for everything in `s`. */
  ghost predicate AgreeOn(d: Dependents, e: Dependents, task: Node, s: set<Node>) {
    forall n <- s + {task} :: n in d && n in e && d[n] == e[n]
  }

  lemma {:induction false} PathCarriesOver(d: Dependents, e: Dependents, task: Node, s: set<Node>, p: seq<Node>)
    requires IsReach(d, task, s) && AgreeOn(d, e, task, s)
    requires IsPath(EdgesOf(e), p) && p[0] in s
    ensures p[|p| - 1] in s
    decreases |p|
  {
    if |p| > 1 {
      var q := p[1..];
      assert EdgesOf(e)(p[0], p[1]);
      var c :| EdgesOf(d)(task, c) && Reaches(EdgesOf(d), c, p[0]);
      ReachesStep(EdgesOf(d), c, p[0], p[1]);
      assert ReachesPlus(EdgesOf(d), task, p[1]);
      forall i | 0 <= i < |q| - 1 ensures EdgesOf(e)(q[i], q[i + 1]) {
        assert EdgesOf(e)(p[i + 1], p[i + 2]);
      }
      PathCarriesOver(d, e, task, s, q);
    }
  }

  lemma ReachWithin(d: Dependents, e: Dependents, task: Node, s: set<Node>, n: Node)
    requires IsReach(d, task, s) && AgreeOn(d, e, task, s) && ReachesPlus(EdgesOf(e), task, n)
    ensures n in s
  {
    var c :| EdgesOf(e)(task, c) && Reaches(EdgesOf(e), c, n);
    ReachesSelf(EdgesOf(d), c);
    assert EdgesOf(d)(task, c) && ReachesPlus(EdgesOf(d), task, c);
    var p :| PathBetween(EdgesOf(e), p, c, n);
    PathCarriesOver(d, e, task, s, p);
  }

  lemma ReachForward(d: Dependents, e: Dependents, task: Node, s: set<Node>, n: Node)
    requires IsReach(d, task, s) && AgreeOn(d, e, task, s) && n in s
    ensures ReachesPlus(EdgesOf(e), task, n)
  {
    var c :| EdgesOf(d)(task, c) && Reaches(EdgesOf(d), c, n);
    var p :| PathBetween(EdgesOf(d), p, c, n);
    forall i | 0 <= i < |p| - 1 ensures EdgesOf(e)(p[i], p[i + 1]) {
      PrefixReached(d, task, s, p, i);
      assert EdgesOf(d)(p[i], p[i + 1]);
    }
    assert PathBetween(EdgesOf(e), p, c, n);
    assert EdgesOf(e)(task, c) by { assert task in s + {task}; }
  }

  lemma {:induction false} PrefixReached(d: Dependents, task: Node, s: set<Node>, p: seq<Node>, i: nat)
    requires IsReach(d, task, s) && IsPath(EdgesOf(d), p) && EdgesOf(d)(task, p[0]) && i < |p|
    ensures p[i] in s
  {
    assert PathBetween(EdgesOf(d), p[..i + 1], p[0], p[i]);
    assert ReachesPlus(EdgesOf(d), task, p[i]);
  }

  lemma SameReach(d: Dependents, e: Dependents, task: Node, s: set<Node>, t: set<Node>)
    requires IsReach(d, task, s) && IsReach(e, task, t) && AgreeOn(d, e, task, s)
    ensures s == t
  {
    forall n | n in t ensures n in s {
      ReachWithin(d, e, task, s, n);
    }
    forall n | n in s ensures n in t {
      ReachForward(d, e, task, s, n);
    }
  }

  /**
    Whatever else differs between two configurations: if `task` and everything it reaches in
    the first have the same dependencies and values in the second, its signature is the same.
   */
  lemma NonInterference(d: Dependents, v: Values, e: Dependents, w: Values, task: Node,
                        s: set<Node>, text: string, s': set<Node>, text': string)
    requires IsEntry(d, v, task, s, text) && IsEntry(e, w, task, s', text')
    requires AgreeOn(d, e, task, s)
    requires forall n <- s + {task} :: n in v && n in w && v[n] == w[n]
    ensures s == s' && text == text'
  {
    SameReach(d, e, task, s, s');
    var q :| IsSorted(q, s) && IsText(v, task, q, text);
    var q' :| IsSorted(q', s') && IsText(w, task, q', text');
    SortedUnique(q, q', s);
    forall n | n in q ensures n in s + {task} {}
    SameText(v, w, task, q);
  }
}
