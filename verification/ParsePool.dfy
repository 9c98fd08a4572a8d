/**
  The parallel recipe parser: worker processes (`Parser.realrun`), the result queue between
  them and the server, and the server's generator (`parse_generator`) with the accounting of
  `parse_next`.  One step is one access to something shared, so all interleavings are covered.
 */
module ParsePool {
  // ----- states -----

  /** Where a worker is in its loop. */
  datatype Pc =
    | Top                // at the loop condition
    | Taking             // about to lock the job counter
    | Parsing(job: nat)
    | Putting            // about to put a result, if it has one
    | Closing            // has left the loop; the queue's feeder thread is being joined
    | Dead

  /** `feeder` holds results that were put but are not yet in the pipe. */
  datatype Worker = Worker(pc: Pc, havejobs: bool, exit: bool, pending: seq<nat>, feeder: seq<nat>)

  /** Where the server is. */
  datatype ServerPc =
    | Caching    // yielding results of load_cached
    | LoopTop    // at the condition of parse_generator's loop
    | Reaping    // removing processes that are no longer alive
    | Getting    // at result_queue.get
    | Done       // StopIteration
    | Failed     // a result was an exception
    | Raised     // "Not all recipes parsed"

  /** The result of parsing each job: how many recipes came out of it, or a failure. */
  datatype Outcome = Parsed(count: nat) | Broken

  /** What does not change: the jobs, the sizes of the cached results, the number of workers. */
  datatype Config = Config(jobs: seq<Outcome>, cache: seq<nat>, workers: nat)

  datatype Pool = Pool(
    next: nat,                // next_job_id.value
    workers: seq<Worker>,
    pipe: seq<nat>,
    quit: bool,
    processes: set<nat>,      // workers not yet reaped
    server: ServerPc,
    empty: bool,
    parsed: nat, cached: nat, current: nat, error: nat, virtuals: nat,
    consumed: seq<nat>,       // results the server has taken
    lost: seq<nat>)           // results that vanished with a worker

  function Ids(n: nat): (r: set<nat>)
    ensures forall w: nat :: w in r <==> w < n
  {
    if n == 0 then {} else Ids(n - 1) + {n - 1}
  }

  function Init(c: Config): Pool {
    Pool(0, seq(c.workers, _ => Worker(Top, true, false, [], [])), [], false, Ids(c.workers),
         Caching, false, 0, 0, 0, 0, 0, [], [])
  }

  // ----- steps -----

  datatype Step =
    | Enter(w: nat) | Take(w: nat) | FinishParse(w: nat) | Put(w: nat) | PutFull(w: nat)
    | Feed(w: nat) | Exit(w: nat)
    | LoadCached | Loop | Reap(w: nat) | EndReap | Get | GetTimeout
    | Crash(w: nat) | Signal(w: nat) | SetQuit

  /** Steps of the environment that end a worker before its time. */
  predicate Disruptive(step: Step) {
    step.Crash? || step.Signal? || step.SetQuit?
  }

  predicate ByWorker(step: Step) {
    step.Enter? || step.Take? || step.FinishParse? || step.Put? || step.PutFull? || step.Feed? || step.Exit? ||
    step.Crash? || step.Signal?
  }

  predicate Enabled(c: Config, s: Pool, step: Step) {
    && (ByWorker(step) || step.Reap? ==> step.w < |s.workers|)
    && match step
       case Enter(w) => s.workers[w].pc == Top
       case Take(w) => s.workers[w].pc == Taking
       case FinishParse(w) => s.workers[w].pc.Parsing?
       case Put(w) => s.workers[w].pc == Putting
       case PutFull(w) => s.workers[w].pc == Putting && s.workers[w].pending != []
       case Feed(w) => s.workers[w].pc != Dead && s.workers[w].feeder != []
       case Exit(w) => s.workers[w].pc == Closing && s.workers[w].feeder == []
       case LoadCached => s.server == Caching
       case Loop => s.server == LoopTop
       case Reap(w) => s.server == Reaping && w in s.processes && s.workers[w].pc == Dead
       case EndReap => s.server == Reaping
       case Get => s.server == Getting && s.pipe != [] && s.pipe[0] < |c.jobs|
       case GetTimeout => s.server == Getting && s.pipe == []
       case Crash(w) => s.workers[w].pc != Dead
       case Signal(w) => s.workers[w].pc != Dead
       case SetQuit => true
  }

  /** What a worker holds. */
  function Hold(w: Worker): seq<nat> {
    (if w.pc.Parsing? then [w.pc.job] else []) + w.pending + w.feeder
  }

  /** A worker's own step; `next` is the shared counter. */
  function WorkerStep(c: Config, x: Worker, next: nat, quit: bool, step: Step): Worker
    requires ByWorker(step) && !step.Feed? && !step.Crash?
    requires step.FinishParse? ==> x.pc.Parsing?
  {
    match step
    case Enter(_) =>
      if (x.havejobs || x.pending != []) && !x.exit && !quit
      then x.(pc := if x.havejobs then Taking else Putting)
      else x.(pc := Closing)
    case Take(_) =>
      if next < |c.jobs| then x.(pc := Parsing(next)) else x.(havejobs := false, pc := Putting)
    case FinishParse(_) => x.(pending := x.pending + [x.pc.job], pc := Putting)
    case Put(_) =>
      if x.pending == [] then x.(pc := Top)
      else x.(feeder := x.feeder + [x.pending[|x.pending| - 1]], pending := x.pending[..|x.pending| - 1], pc := Top)
    case PutFull(_) => x.(pc := Top)
    case Exit(_) => x.(pc := Dead, pending := [])
    case Signal(_) => x.(exit := true)
  }

  function Account(c: Config, s: Pool, r: nat): Pool
    requires r < |c.jobs|
  {
    match c.jobs[r]
    case Parsed(n) =>
      s.(parsed := s.parsed + 1, current := s.current + 1, virtuals := s.virtuals + n, server := LoopTop)
    case Broken => s.(error := s.error + 1, quit := true, server := Failed)
  }

  /** After the generator's loop: was everything parsed? */
  function Finish(c: Config, s: Pool): Pool {
    s.(server := if s.parsed >= |c.jobs| then Done else Raised)
  }

  function Apply(c: Config, s: Pool, step: Step): Pool
    requires Enabled(c, s, step)
  {
    match step
    case Take(w) =>
      s.(workers := s.workers[w := WorkerStep(c, s.workers[w], s.next, s.quit, step)],
         next := if s.next < |c.jobs| then s.next + 1 else s.next)
    case Feed(w) =>
      var x := s.workers[w];
      s.(workers := s.workers[w := x.(feeder := x.feeder[1..])], pipe := s.pipe + [x.feeder[0]])
    case Exit(w) =>
      s.(workers := s.workers[w := WorkerStep(c, s.workers[w], s.next, s.quit, step)],
         lost := s.lost + s.workers[w].pending)
    case Crash(w) =>
      s.(workers := s.workers[w := s.workers[w].(pc := Dead, pending := [], feeder := [])],
         lost := s.lost + Hold(s.workers[w]))
    case LoadCached =>
      if s.cached < |c.cache| then
        s.(cached := s.cached + 1, current := s.current + 1, virtuals := s.virtuals + c.cache[s.cached])
      else s.(server := if c.jobs == [] then Done else LoopTop)
    case Loop => if s.processes != {} || !s.empty then s.(server := Reaping) else Finish(c, s)
    case Reap(w) => s.(processes := s.processes - {w})
    case EndReap => if s.parsed >= |c.jobs| then Finish(c, s) else s.(server := Getting)
    case Get =>
      Account(c, s.(pipe := s.pipe[1..], consumed := s.consumed + [s.pipe[0]], empty := false), s.pipe[0])
    case GetTimeout => s.(empty := true, server := LoopTop)
    case SetQuit => s.(quit := true)
    case _ => s.(workers := s.workers[step.w := WorkerStep(c, s.workers[step.w], s.next, s.quit, step)])
  }

  // ----- conservation: every job taken is in exactly one place -----

  /** How often `j` occurs in a sequence. */
  function Count(q: seq<nat>, j: nat): nat {
    if q == [] then 0 else (if q[0] == j then 1 else 0) + Count(q[1..], j)
  }

  lemma {:induction false} CountConcat(a: seq<nat>, b: seq<nat>, j: nat)
    ensures Count(a + b, j) == Count(a, j) + Count(b, j)
  {
    if a == [] {
      assert a + b == b;
    } else {
      assert (a + b)[1..] == a[1..] + b;
      CountConcat(a[1..], b, j);
    }
  }

  lemma CountHold(w: Worker, j: nat)
    ensures Count(Hold(w), j) ==
              (if w.pc.Parsing? && w.pc.job == j then 1 else 0) + Count(w.pending, j) + Count(w.feeder, j)
  {
    var first := if w.pc.Parsing? then [w.pc.job] else [];
    CountConcat(first + w.pending, w.feeder, j);
    CountConcat(first, w.pending, j);
  }

  lemma CountSnoc(q: seq<nat>, r: nat, j: nat)
    ensures Count(q + [r], j) == Count(q, j) + if r == j then 1 else 0
  {
    CountConcat(q, [r], j);
  }

  /** How often the workers hold job `j`. */
  function HeldBy(ws: seq<Worker>, j: nat): nat {
    if ws == [] then 0 else Count(Hold(ws[0]), j) + HeldBy(ws[1..], j)
  }

  /** In how many places job `j` is: with a worker, in the pipe, with the server, or gone. */
  function Places(s: Pool, j: nat): nat {
    HeldBy(s.workers, j) + Count(s.pipe, j) + Count(s.consumed, j) + Count(s.lost, j)
  }

  function One(b: bool): nat {
    if b then 1 else 0
  }

  ghost predicate Conserved(c: Config, s: Pool) {
    s.next <= |c.jobs| && forall j: nat :: Places(s, j) == One(j < s.next)
  }

  lemma {:induction false} HeldUpdate(ws: seq<Worker>, i: nat, x: Worker, j: nat)
    requires i < |ws|
    ensures HeldBy(ws[i := x], j) + Count(Hold(ws[i]), j) == HeldBy(ws, j) + Count(Hold(x), j)
  {
    hide Hold, Count;
    if i == 0 {
      assert ws[i := x][1..] == ws[1..];
    } else {
      assert ws[i := x][1..] == ws[1..][i - 1 := x];
      HeldUpdate(ws[1..], i - 1, x, j);
    }
  }

  /** A worker's own step moves what it holds, takes a new job, or gives up what is pending. */
  lemma WorkerStepHolds(c: Config, s: Pool, step: Step, j: nat)
    requires Enabled(c, s, step) && ByWorker(step) && !step.Feed? && !step.Crash?
    ensures var x := s.workers[step.w];
            var y := WorkerStep(c, x, s.next, s.quit, step);
            Count(Hold(y), j) + (if step.Exit? then Count(x.pending, j) else 0) ==
              Count(Hold(x), j) + One(step.Take? && s.next < |c.jobs| && j == s.next)
  {
    var x := s.workers[step.w];
    var y := WorkerStep(c, x, s.next, s.quit, step);
    CountHold(x, j);
    CountHold(y, j);
    hide Hold;
    if step.Put? && x.pending != [] {
      var init, last := x.pending[..|x.pending| - 1], x.pending[|x.pending| - 1];
      assert x.pending == init + [last];
      CountSnoc(init, last, j);
      CountSnoc(x.feeder, last, j);
    } else if step.FinishParse? {
      CountSnoc(x.pending, x.pc.job, j);
    }
  }

  lemma WorkerConserves(c: Config, s: Pool, step: Step, j: nat)
    requires Enabled(c, s, step) && ByWorker(step)
    ensures var s' := Apply(c, s, step);
            Places(s', j) == Places(s, j) + One(step.Take? && s.next < |c.jobs| && j == s.next)
  {
    var s' := Apply(c, s, step);
    var x, y := s.workers[step.w], s'.workers[step.w];
    HeldUpdate(s.workers, step.w, y, j);
    hide HeldBy, Hold;
    if step.Feed? {
      FeedConserves(c, s, step.w, j);
    } else if step.Crash? {
      CrashConserves(c, s, step.w, j);
    } else {
      WorkerStepHolds(c, s, step, j);
      CountConcat(s.lost, x.pending, j);
      hide Count, WorkerStep;
    }
  }

  /** What a crashed worker held is lost. */
  lemma CrashConserves(c: Config, s: Pool, w: nat, j: nat)
    requires Enabled(c, s, Crash(w))
    ensures var s' := Apply(c, s, Crash(w));
            Count(Hold(s'.workers[w]), j) + Count(s'.lost, j) == Count(Hold(s.workers[w]), j) + Count(s.lost, j)
  {
    hide Hold, WorkerStep;
    CountHold(Apply(c, s, Crash(w)).workers[w], j);
    CountConcat(s.lost, Hold(s.workers[w]), j);
  }

  /** The result that leaves the feeder is in the pipe. */
  lemma FeedConserves(c: Config, s: Pool, w: nat, j: nat)
    requires Enabled(c, s, Feed(w))
    ensures var s' := Apply(c, s, Feed(w));
            Count(Hold(s'.workers[w]), j) + Count(s'.pipe, j) == Count(Hold(s.workers[w]), j) + Count(s.pipe, j)
  {
    hide Hold, WorkerStep;
    var x := s.workers[w];
    CountHold(x, j);
    CountHold(Apply(c, s, Feed(w)).workers[w], j);
    CountSnoc(s.pipe, x.feeder[0], j);
  }

  lemma ServerConserves(c: Config, s: Pool, step: Step, j: nat)
    requires Enabled(c, s, step) && !ByWorker(step)
    ensures Places(Apply(c, s, step), j) == Places(s, j)
  {
    hide HeldBy;
    if step.Get? {
      CountSnoc(s.consumed, s.pipe[0], j);
    }
  }

  lemma ConservedStep(c: Config, s: Pool, step: Step)
    requires Conserved(c, s) && Enabled(c, s, step)
    ensures Conserved(c, Apply(c, s, step))
  {
    var s' := Apply(c, s, step);
    assert s'.next == s.next + One(step.Take? && s.next < |c.jobs|);
    hide Places, Apply, Enabled;
    forall j: nat
      ensures Places(s', j) == One(j < s'.next)
    {
      assert Places(s, j) == One(j < s.next);
      if ByWorker(step) {
        WorkerConserves(c, s, step, j);
      } else {
        ServerConserves(c, s, step, j);
      }
    }
  }

  // ----- runs -----

  ghost predicate IsRun(c: Config, s: Pool, steps: seq<Step>)
    decreases |steps|
  {
    steps != [] ==> Enabled(c, s, steps[0]) && IsRun(c, Apply(c, s, steps[0]), steps[1..])
  }

  ghost function After(c: Config, s: Pool, steps: seq<Step>): Pool
    requires IsRun(c, s, steps)
    decreases |steps|
  {
    if steps == [] then s else After(c, Apply(c, s, steps[0]), steps[1..])
  }

  lemma {:induction false} ConservedAlong(c: Config, s: Pool, steps: seq<Step>)
    requires IsRun(c, s, steps) && Conserved(c, s)
    ensures Conserved(c, After(c, s, steps))
    decreases |steps|
  {
    if steps != [] {
      ConservedStep(c, s, steps[0]);
      ConservedAlong(c, Apply(c, s, steps[0]), steps[1..]);
    }
  }

  lemma {:induction false} NothingHeld(ws: seq<Worker>, j: nat)
    requires forall x <- ws :: Hold(x) == []
    ensures HeldBy(ws, j) == 0
  {
    if ws != [] {
      NothingHeld(ws[1..], j);
    }
  }

  lemma InitConserved(c: Config)
    ensures Conserved(c, Init(c))
  {
    forall j: nat ensures Places(Init(c), j) == 0 {
      NothingHeld(Init(c).workers, j);
    }
  }

  /**
    In every reachable state, whatever crashes, signals and refusals of the queue there were:
    an index below the counter is in exactly one place, one at or above it is nowhere.
   */
  lemma ExactlyOnce(c: Config, steps: seq<Step>, j: nat)
    requires IsRun(c, Init(c), steps)
    ensures var s := After(c, Init(c), steps);
            s.next <= |c.jobs| && Places(s, j) == (if j < s.next then 1 else 0)
  {
    InitConserved(c);
    ConservedAlong(c, Init(c), steps);
    assert Conserved(c, After(c, Init(c), steps));
  }

  // ----- undisturbed runs -----

  function Size(o: Outcome): nat {
    match o
    case Parsed(n) => n
    case Broken => 0
  }

  predicate Below(q: seq<nat>, n: nat) {
    forall i :: 0 <= i < |q| ==> q[i] < n
  }

  /** The sizes of the results in `q`, together. */
  function Gathered(c: Config, q: seq<nat>): nat
    requires Below(q, |c.jobs|)
  {
    if q == [] then 0 else Size(c.jobs[q[0]]) + Gathered(c, q[1..])
  }

  function TotalSize(jobs: seq<Outcome>): nat {
    if jobs == [] then 0 else TotalSize(jobs[..|jobs| - 1]) + Size(jobs[|jobs| - 1])
  }

  function Sum(q: seq<nat>): nat {
    if q == [] then 0 else Sum(q[..|q| - 1]) + q[|q| - 1]
  }

  lemma {:induction false} GatheredSnoc(c: Config, q: seq<nat>, r: nat)
    requires r < |c.jobs| && Below(q, |c.jobs|)
    ensures Below(q + [r], |c.jobs|) && Gathered(c, q + [r]) == Gathered(c, q) + Size(c.jobs[r])
  {
    if q == [] {
      assert q + [r] == [r];
    } else {
      assert (q + [r])[1..] == q[1..] + [r];
      GatheredSnoc(c, q[1..], r);
    }
  }

  predicate AllParsed(c: Config) {
    forall o <- c.jobs :: o.Parsed?
  }

  /** A worker that nothing disturbs leaves its loop only when all jobs are taken and put. */
  ghost predicate Steady(c: Config, next: nat, x: Worker) {
    && !x.exit
    && (!x.havejobs ==> next == |c.jobs|)
    && (x.pc == Taking ==> x.havejobs)
    && (x.pc == Closing || x.pc == Dead ==> !x.havejobs && x.pending == [])
    && (x.pc == Dead ==> x.feeder == [])
  }

  ghost predicate Counted(c: Config, s: Pool) {
    && Below(s.consumed, |c.jobs|)
    && s.parsed == |s.consumed| && s.error == 0
    && s.cached <= |c.cache| && (s.server != Caching ==> s.cached == |c.cache|)
    && s.current == s.parsed + s.cached
    && s.virtuals == Gathered(c, s.consumed) + Sum(c.cache[..s.cached])
  }

  ghost predicate Undisturbed(c: Config, s: Pool) {
    && Conserved(c, s)
    && |s.workers| == c.workers && !s.quit && s.lost == []
    && (forall w :: 0 <= w < |s.workers| ==> Steady(c, s.next, s.workers[w]))
    && (forall w: nat :: w < |s.workers| && w !in s.processes ==> s.workers[w].pc == Dead)
    && (s.server == LoopTop && s.empty && s.processes == {} ==> s.pipe == [])
    && (s.server == Done ==> s.parsed >= |c.jobs|)
    && s.server != Raised && s.server != Failed
    && (s.server == Caching ==> !s.empty)
    && Counted(c, s)
  }

  // ----- everything consumed -----

  /** Every job index below `n` occurs once. */
  ghost predicate Complete(q: seq<nat>, n: nat) {
    forall j: nat {:trigger Count(q, j)} :: j < n ==> Count(q, j) == 1
  }

  /** Sum of the sizes of the jobs below `n`, each as often as it occurs in `q`. */
  function Weighted(q: seq<nat>, v: seq<nat>, n: nat): nat
    requires n <= |v|
  {
    if n == 0 then 0 else Weighted(q, v, n - 1) + Count(q, n - 1) * v[n - 1]
  }

  function Pick(q: seq<nat>, v: seq<nat>): nat
    requires Below(q, |v|)
  {
    if q == [] then 0 else v[q[0]] + Pick(q[1..], v)
  }

  lemma {:induction false} WeightedHead(r: nat, q: seq<nat>, v: seq<nat>, n: nat)
    requires n <= |v| && r < |v|
    ensures Weighted([r] + q, v, n) == Weighted(q, v, n) + if r < n then v[r] else 0
  {
    assert ([r] + q)[1..] == q;
    if n > 0 {
      WeightedHead(r, q, v, n - 1);
      assert Count([r] + q, n - 1) == One(r == n - 1) + Count(q, n - 1);
      if r == n - 1 {
        assert (1 + Count(q, n - 1)) * v[n - 1] == v[n - 1] + Count(q, n - 1) * v[n - 1];
      }
    }
  }

  lemma {:induction false} PickIsWeighted(q: seq<nat>, v: seq<nat>)
    requires Below(q, |v|)
    ensures Pick(q, v) == Weighted(q, v, |v|)
  {
    if q == [] {
      WeightedNothing(v, |v|);
    } else {
      assert q == [q[0]] + q[1..];
      PickIsWeighted(q[1..], v);
      WeightedHead(q[0], q[1..], v, |v|);
    }
  }

  lemma {:induction false} WeightedNothing(v: seq<nat>, n: nat)
    requires n <= |v|
    ensures Weighted([], v, n) == 0
  {
    if n > 0 {
      WeightedNothing(v, n - 1);
    }
  }

  lemma {:induction false} WeightedOnes(q: seq<nat>, v: seq<nat>, n: nat)
    requires n <= |v| && forall i :: 0 <= i < n ==> v[i] == 1
    requires forall j: nat :: Count(q, j) <= 1
    ensures Weighted(q, v, n) <= n
    ensures Weighted(q, v, n) == n ==> Complete(q, n)
    ensures Complete(q, n) ==> Weighted(q, v, n) == n
  {
    if n > 0 {
      WeightedOnes(q, v, n - 1);
      assert Count(q, n - 1) == Count(q, n - 1);
      assert Count(q, n - 1) * v[n - 1] == Count(q, n - 1);
    }
  }

  lemma {:induction false} PickOnes(q: seq<nat>, v: seq<nat>)
    requires Below(q, |v|)
    requires forall i :: 0 <= i < |v| ==> v[i] == 1
    ensures Pick(q, v) == |q|
  {
    if q != [] {
      PickOnes(q[1..], v);
    }
  }

  /** A duplicate-free sequence of job indices is as long as the job list iff it has them all. */
  lemma AllOnce(q: seq<nat>, n: nat)
    requires Below(q, n)
    requires forall j: nat :: Count(q, j) <= 1
    ensures |q| <= n
    ensures |q| == n <==> Complete(q, n)
  {
    var ones := seq(n, _ => 1);
    PickOnes(q, ones);
    PickIsWeighted(q, ones);
    WeightedOnes(q, ones, n);
  }

  lemma {:induction false} GatheredIsPick(c: Config, q: seq<nat>, v: seq<nat>)
    requires |v| == |c.jobs| && (forall i :: 0 <= i < |v| ==> v[i] == Size(c.jobs[i]))
    requires Below(q, |c.jobs|)
    ensures Gathered(c, q) == Pick(q, v)
  {
    if q != [] {
      GatheredIsPick(c, q[1..], v);
    }
  }

  lemma {:induction false} WeightedTotal(c: Config, q: seq<nat>, v: seq<nat>, n: nat)
    requires |v| == |c.jobs| && n <= |v| && (forall i :: 0 <= i < |v| ==> v[i] == Size(c.jobs[i]))
    requires Complete(q, n)
    ensures Weighted(q, v, n) == TotalSize(c.jobs[..n])
  {
    if n > 0 {
      assert c.jobs[..n][..n - 1] == c.jobs[..n - 1];
      assert Count(q, n - 1) == 1;
      WeightedTotal(c, q, v, n - 1);
    }
  }

  lemma AllGathered(c: Config, q: seq<nat>)
    requires Below(q, |c.jobs|)
    requires Complete(q, |c.jobs|)
    ensures Gathered(c, q) == TotalSize(c.jobs)
  {
    var v := seq(|c.jobs|, i requires 0 <= i < |c.jobs| => Size(c.jobs[i]));
    GatheredIsPick(c, q, v);
    PickIsWeighted(q, v);
    WeightedTotal(c, q, v, |v|);
    assert c.jobs[..|c.jobs|] == c.jobs;
  }

  /** No job index at or above the counter is in sight, and none twice. */
  lemma ConsumedOnce(c: Config, s: Pool)
    requires Conserved(c, s)
    ensures forall j: nat :: Count(s.consumed, j) <= One(j < s.next)
    ensures Below(s.consumed, |c.jobs|) && Below(s.pipe, |c.jobs|)
  {
    forall j: nat
      ensures Count(s.consumed, j) <= One(j < s.next)
    {
      assert Places(s, j) == One(j < s.next);
    }
    forall i | 0 <= i < |s.consumed| ensures s.consumed[i] < |c.jobs| {
      CountsMember(s.consumed, i);
      assert Places(s, s.consumed[i]) == One(s.consumed[i] < s.next);
    }
    forall i | 0 <= i < |s.pipe| ensures s.pipe[i] < |c.jobs| {
      CountsMember(s.pipe, i);
      assert Places(s, s.pipe[i]) == One(s.pipe[i] < s.next);
    }
  }

  lemma {:induction false} CountsMember(q: seq<nat>, i: nat)
    requires i < |q|
    ensures Count(q, q[i]) > 0
  {
    if i > 0 {
      CountsMember(q[1..], i - 1);
    }
  }

  lemma AllReaped(c: Config, s: Pool)
    requires Undisturbed(c, s) && (c.jobs != [] ==> c.workers > 0)
    requires s.server == LoopTop && s.empty && s.processes == {}
    ensures s.parsed == |c.jobs|
  {
    forall x | x in s.workers ensures x.pc == Dead {
      var w: nat :| w < |s.workers| && s.workers[w] == x;
      assert w !in s.processes;
    }
    NothingLeft(c, s);
  }

  lemma WorkerStaysSteady(c: Config, s: Pool, step: Step)
    requires Undisturbed(c, s) && Enabled(c, s, step) && ByWorker(step) && !Disruptive(step)
    ensures var s' := Apply(c, s, step);
            && Steady(c, s'.next, s'.workers[step.w])
            && (s.workers[step.w].pc == Dead ==> false)
            && s'.lost == []
  {
    assert Steady(c, s.next, s.workers[step.w]);
  }

  lemma WorkerUndisturbed(c: Config, s: Pool, step: Step)
    requires Undisturbed(c, s) && Enabled(c, s, step) && ByWorker(step) && !Disruptive(step)
    ensures Undisturbed(c, Apply(c, s, step))
  {
    ConservedStep(c, s, step);
    WorkerStaysSteady(c, s, step);
    var s' := Apply(c, s, step);
    forall w | 0 <= w < |s'.workers| && w != step.w
      ensures Steady(c, s'.next, s'.workers[w])
    {
      assert Steady(c, s.next, s.workers[w]);
    }
    assert step.w in s.processes;
  }

  lemma ServerUndisturbed(c: Config, s: Pool, step: Step)
    requires Undisturbed(c, s) && Enabled(c, s, step) && !ByWorker(step) && !Disruptive(step)
    requires AllParsed(c) && (c.jobs != [] ==> c.workers > 0)
    ensures Undisturbed(c, Apply(c, s, step))
  {
    ConservedStep(c, s, step);
    var s' := Apply(c, s, step);
    match step
    case LoadCached =>
      if s.cached < |c.cache| {
        assert c.cache[..s'.cached][..s.cached] == c.cache[..s.cached];
      }
    case Loop =>
      if s.processes == {} && s.empty {
        AllReaped(c, s);
      }
    case Get =>
      assert c.jobs[s.pipe[0]] in c.jobs;
      GatheredSnoc(c, s.consumed, s.pipe[0]);
    case _ =>
  }

  /** A schedule without crashes, signals and a server that asks the workers to quit. */
  predicate Quiet(steps: seq<Step>) {
    forall step <- steps :: !Disruptive(step)
  }

  lemma {:induction false} UndisturbedAlong(c: Config, s: Pool, steps: seq<Step>)
    requires IsRun(c, s, steps) && Quiet(steps) && Undisturbed(c, s)
    requires AllParsed(c) && (c.jobs != [] ==> c.workers > 0)
    ensures Undisturbed(c, After(c, s, steps))
    decreases |steps|
  {
    if steps != [] {
      assert steps[0] in steps && forall t <- steps[1..] :: t in steps;
      if ByWorker(steps[0]) {
        WorkerUndisturbed(c, s, steps[0]);
      } else {
        ServerUndisturbed(c, s, steps[0]);
      }
      UndisturbedAlong(c, Apply(c, s, steps[0]), steps[1..]);
    }
  }

  lemma InitUndisturbed(c: Config)
    ensures Undisturbed(c, Init(c))
  {
    InitConserved(c);
  }

  /**
    With at least one worker, and all parses successful, no interleaving of worker exits, reaps
    and timeouts ends in "Not all recipes parsed".
   */
  lemma NoFalseError(c: Config, steps: seq<Step>)
    requires IsRun(c, Init(c), steps) && Quiet(steps)
    requires AllParsed(c) && (c.jobs != [] ==> c.workers > 0)
    ensures After(c, Init(c), steps).server != Raised
  {
    InitUndisturbed(c);
    UndisturbedAlong(c, Init(c), steps);
  }

  // ----- the accounts in any run -----

  /** What the server has counted, and where its loop has taken it. */
  ghost predicate Accounted(c: Config, s: Pool) {
    && Below(s.consumed, |c.jobs|)
    && (forall i :: 0 <= i < |s.consumed| - 1 ==> c.jobs[s.consumed[i]].Parsed?)
    && (s.server == Failed <==> s.consumed != [] && c.jobs[s.consumed[|s.consumed| - 1]].Broken?)
    && s.error == (if s.server == Failed then 1 else 0) && (s.server == Failed ==> s.quit)
    && s.parsed + s.error == |s.consumed| && s.current == s.parsed + s.cached
    && s.cached <= |c.cache| && (s.server != Caching ==> s.cached == |c.cache|)
    && s.virtuals == Gathered(c, s.consumed) + Sum(c.cache[..s.cached])
    && (s.server == Done ==> s.parsed >= |c.jobs|)
    && (s.server == Raised ==> s.parsed < |c.jobs|)
  }

  lemma GetAccounts(c: Config, s: Pool)
    requires Accounted(c, s) && Enabled(c, s, Get)
    ensures Accounted(c, Apply(c, s, Get))
  {
    var s' := Apply(c, s, Get);
    GatheredSnoc(c, s.consumed, s.pipe[0]);
    hide Gathered, Sum, WorkerStep;
    assert forall i :: 0 <= i < |s.consumed| ==> s'.consumed[i] == s.consumed[i];
  }

  lemma LoadAccounts(c: Config, s: Pool)
    requires Accounted(c, s) && Enabled(c, s, LoadCached)
    ensures Accounted(c, Apply(c, s, LoadCached))
  {
    var s' := Apply(c, s, LoadCached);
    if s.cached < |c.cache| {
      assert c.cache[..s'.cached][..s.cached] == c.cache[..s.cached];
    }
    hide Gathered, WorkerStep;
  }

  lemma StepAccounts(c: Config, s: Pool, step: Step)
    requires Accounted(c, s) && Enabled(c, s, step)
    ensures Accounted(c, Apply(c, s, step))
  {
    hide WorkerStep, Gathered, Sum;
    match step
    case LoadCached => LoadAccounts(c, s);
    case Get => GetAccounts(c, s);
    case _ =>
  }

  lemma {:induction false} RunAccounts(c: Config, s: Pool, steps: seq<Step>)
    requires IsRun(c, s, steps) && Accounted(c, s)
    ensures Accounted(c, After(c, s, steps))
    decreases |steps|
  {
    if steps != [] {
      hide Accounted, Apply, Enabled;
      StepAccounts(c, s, steps[0]);
      RunAccounts(c, Apply(c, s, steps[0]), steps[1..]);
    }
  }

  /**
    In any run, whatever crashes, signals and requests to quit there were: the server fails exactly when
    it takes the result of a broken parse. That is then the last result it takes, it has counted one
    error, and the workers are told to quit.
   */
  lemma FailsIffBroken(c: Config, steps: seq<Step>)
    requires IsRun(c, Init(c), steps)
    ensures var s := After(c, Init(c), steps);
            && Below(s.consumed, |c.jobs|)
            && (s.server == Failed <==> exists r <- s.consumed :: c.jobs[r].Broken?)
            && (s.server == Failed ==>
                  s.error == 1 && s.quit && forall i :: 0 <= i < |s.consumed| - 1 ==> c.jobs[s.consumed[i]].Parsed?)
            && (s.server != Failed ==> s.error == 0)
  {
    RunAccounts(c, Init(c), steps);
    var s := After(c, Init(c), steps);
    if s.server == Failed {
      assert s.consumed[|s.consumed| - 1] in s.consumed;
    }
    if r :| r in s.consumed && c.jobs[r].Broken? {
      var i :| 0 <= i < |s.consumed| && s.consumed[i] == r;
    }
  }

  /** When the generator ends, after any run at all, every recipe has been parsed and counted once. */
  lemma FinalCounts(c: Config, steps: seq<Step>)
    requires IsRun(c, Init(c), steps)
    requires After(c, Init(c), steps).server == Done
    ensures AllParsed(c)
    ensures var s := After(c, Init(c), steps);
            && s.parsed == |s.consumed| == |c.jobs| && s.error == 0
            && s.parsed + s.cached == s.current == |c.jobs| + |c.cache|
            && s.virtuals == TotalSize(c.jobs) + Sum(c.cache)
            && (forall j: nat :: Count(s.consumed, j) == One(j < |c.jobs|))
  {
    InitConserved(c);
    ConservedAlong(c, Init(c), steps);
    RunAccounts(c, Init(c), steps);
    var s := After(c, Init(c), steps);
    ConsumedOnce(c, s);
    AllOnce(s.consumed, |c.jobs|);
    AllGathered(c, s.consumed);
    assert c.cache[..s.cached] == c.cache;
    forall j: nat
      ensures Count(s.consumed, j) == One(j < |c.jobs|)
    {
      assert Count(s.consumed, j) <= One(j < s.next);
      if j < |c.jobs| {
        assert Count(s.consumed, j) == 1;
      }
    }
    forall o | o in c.jobs
      ensures o.Parsed?
    {
      var j :| 0 <= j < |c.jobs| && c.jobs[j] == o;
      assert Count(s.consumed, j) == 1;
      CountedIsMember(s.consumed, j);
    }
  }

  lemma {:induction false} CountedIsMember(q: seq<nat>, j: nat)
    requires Count(q, j) > 0
    ensures exists i :: 0 <= i < |q| && q[i] == j
  {
    if q[0] != j {
      CountedIsMember(q[1..], j);
      var i :| 0 <= i < |q[1..]| && q[1..][i] == j;
      assert q[i + 1] == j;
    }
  }

  /** "Not all recipes parsed" is never said when all were: some job's result has not been taken. */
  lemma RaisedMeansMissing(c: Config, steps: seq<Step>)
    requires IsRun(c, Init(c), steps)
    requires After(c, Init(c), steps).server == Raised
    ensures exists j: nat :: j < |c.jobs| && j !in After(c, Init(c), steps).consumed
  {
    InitConserved(c);
    ConservedAlong(c, Init(c), steps);
    RunAccounts(c, Init(c), steps);
    var s := After(c, Init(c), steps);
    ConsumedOnce(c, s);
    AllOnce(s.consumed, |c.jobs|);
    var j: nat :| j < |c.jobs| && Count(s.consumed, j) != 1;
    if j in s.consumed {
      var i :| 0 <= i < |s.consumed| && s.consumed[i] == j;
      CountsMember(s.consumed, i);
      assert false;
    }
  }

  // ----- the error without workers -----

  lemma {:induction false} AppendStep(c: Config, s: Pool, steps: seq<Step>, step: Step)
    requires IsRun(c, s, steps) && Enabled(c, After(c, s, steps), step)
    ensures IsRun(c, s, steps + [step]) && After(c, s, steps + [step]) == Apply(c, After(c, s, steps), step)
    decreases |steps|
  {
    if steps == [] {
      assert steps + [step] == [step];
      assert [step][1..] == [];
    } else {
      assert (steps + [step])[1..] == steps[1..] + [step];
      AppendStep(c, Apply(c, s, steps[0]), steps[1..], step);
    }
  }

  /** The first results are the cached ones. */
  lemma {:induction false} LoadSome(c: Config, n: nat) returns (steps: seq<Step>)
    requires n <= |c.cache|
    ensures IsRun(c, Init(c), steps) && Quiet(steps)
    ensures var s := After(c, Init(c), steps);
            && s.server == Caching && s.cached == n && !s.empty && s.parsed == 0 && s.pipe == []
            && s.processes == Init(c).processes
  {
    steps := [];
    if n > 0 {
      steps := LoadSome(c, n - 1);
      AppendStep(c, Init(c), steps, LoadCached);
      steps := steps + [LoadCached];
    }
  }

  /** Some undisturbed run ends in "Not all recipes parsed". */
  ghost predicate CanRaise(c: Config) {
    exists steps :: IsRun(c, Init(c), steps) && Quiet(steps) && After(c, Init(c), steps).server == Raised
  }

  /** Zero workers and something to parse: the server gives up although nothing went wrong. */
  lemma NoWorkersRaises(c: Config)
    requires c.workers == 0 && c.jobs != []
    ensures CanRaise(c)
  {
    var steps := LoadSome(c, |c.cache|);
    assert Init(c).processes == {};
    var more := [LoadCached, Loop, EndReap, GetTimeout, Loop];
    for i := 0 to |more|
      invariant IsRun(c, Init(c), steps) && Quiet(steps)
      invariant var s := After(c, Init(c), steps);
                && s.parsed == 0 && s.pipe == [] && s.processes == {} && s.cached == |c.cache|
                && s.empty == (i >= 4)
                && s.server == [Caching, LoopTop, Reaping, Getting, LoopTop, Raised][i]
    {
      AppendStep(c, Init(c), steps, more[i]);
      steps := steps + [more[i]];
    }
  }

  /** When all parses succeed, having no worker is the only way to the false error. */
  lemma RaisesIffNoWorkers(c: Config)
    requires AllParsed(c)
    ensures CanRaise(c) <==> c.jobs != [] && c.workers == 0
  {
    if c.jobs != [] && c.workers == 0 {
      NoWorkersRaises(c);
    } else {
      forall steps | IsRun(c, Init(c), steps) && Quiet(steps)
        ensures After(c, Init(c), steps).server != Raised
      {
        NoFalseError(c, steps);
      }
    }
  }

  // ----- the generator can always end -----

  function WorkerWork(x: Worker): nat {
    (if x.havejobs then 6 else 0) + 16 * |x.pending| + 12 * |x.feeder| +
    match x.pc
    case Top => 3
    case Taking => 2
    case Parsing(_) => 20
    case Putting => if x.pending == [] then 4 else 1
    case Closing => 1
    case Dead => 0
  }

  function Total(f: Worker -> nat, ws: seq<Worker>): nat {
    if ws == [] then 0 else f(ws[0]) + Total(f, ws[1..])
  }

  lemma {:induction false} TotalUpdate(f: Worker -> nat, ws: seq<Worker>, i: nat, x: Worker)
    requires i < |ws|
    ensures Total(f, ws[i := x]) + f(ws[i]) == Total(f, ws) + f(x)
  {
    if i == 0 {
      assert ws[i := x][1..] == ws[1..];
    } else {
      assert ws[i := x][1..] == ws[1..][i - 1 := x];
      TotalUpdate(f, ws[1..], i - 1, x);
    }
  }

  function ServerWork(c: Config, s: Pool): nat {
    (if s.cached <= |c.cache| then |c.cache| - s.cached else 0) + |s.processes| +
    match s.server
    case Caching => 9
    case LoopTop => if s.parsed >= |c.jobs| then 3 else 6
    case Reaping => if s.parsed >= |c.jobs| then 2 else 5
    case Getting => 4
    case _ => 0
  }

  /** Work left: what workers and server still have to do, not counting idle turns. */
  function Work(c: Config, s: Pool): nat {
    30 * (if s.next <= |c.jobs| then |c.jobs| - s.next else 0) + Total(WorkerWork, s.workers) + 10 * |s.pipe| + ServerWork(c, s)
  }

  /** A step of worker `w` that gets something done. */
  function UsefulStep(x: Worker, w: nat): Step {
    match x.pc
    case Top => Enter(w)
    case Taking => Take(w)
    case Parsing(_) => FinishParse(w)
    case Putting => Put(w)
    case Closing => if x.feeder == [] then Exit(w) else Feed(w)
    case Dead => Exit(w)
  }

  /** What a worker's useful step takes off its own work. */
  lemma WorkerEffort(c: Config, s: Pool, w: nat)
    requires w < |s.workers| && s.workers[w].pc != Dead && Steady(c, s.next, s.workers[w])
    ensures var step := UsefulStep(s.workers[w], w);
            && Enabled(c, s, step) && !Disruptive(step) && ByWorker(step)
            && var s' := Apply(c, s, step);
               WorkerWork(s'.workers[w]) + 10 * |s'.pipe| <
                 WorkerWork(s.workers[w]) + 10 * |s.pipe| + (if s'.next > s.next then 30 else 0)
  {}

  lemma WorkerFrame(c: Config, s: Pool, step: Step)
    requires Enabled(c, s, step) && ByWorker(step)
    ensures var s' := Apply(c, s, step);
            && s'.workers == s.workers[step.w := s'.workers[step.w]]
            && ServerWork(c, s') == ServerWork(c, s)
            && s.next <= s'.next <= s.next + 1 && (s'.next > s.next ==> s.next < |c.jobs|)
  {}

  lemma WorkerProgress(c: Config, s: Pool, w: nat)
    requires Undisturbed(c, s) && w < |s.workers| && s.workers[w].pc != Dead
    ensures var step := UsefulStep(s.workers[w], w);
            Enabled(c, s, step) && !Disruptive(step) && Work(c, Apply(c, s, step)) < Work(c, s)
  {
    var step := UsefulStep(s.workers[w], w);
    WorkerEffort(c, s, w);
    WorkerFrame(c, s, step);
    var s' := Apply(c, s, step);
    hide WorkerWork, Total, ServerWork, Apply, Enabled, UsefulStep, Conserved, Counted;
    TotalUpdate(WorkerWork, s.workers, w, s'.workers[w]);
  }

  /** The useful step of the server when all workers are gone. */
  function ServerStep(c: Config, s: Pool): Step {
    match s.server
    case Caching => LoadCached
    case LoopTop => Loop
    case Getting => if s.pipe != [] then Get else GetTimeout
    case _ => EndReap
  }

  lemma ServerEffort(c: Config, s: Pool, step: Step)
    requires Enabled(c, s, step) && step == ServerStep(c, s)
    requires s.cached <= |c.cache| && AllParsed(c)
    requires s.server == Getting && s.pipe == [] ==> s.parsed >= |c.jobs|
    ensures var s' := Apply(c, s, step);
            && s'.workers == s.workers && s'.next == s.next
            && 10 * |s'.pipe| + ServerWork(c, s') < 10 * |s.pipe| + ServerWork(c, s)
  {
    if step.Get? {
      assert c.jobs[s.pipe[0]] in c.jobs;
    }
  }

  lemma ServerProgress(c: Config, s: Pool) returns (step: Step)
    requires Undisturbed(c, s) && s.server != Done
    requires AllParsed(c) && (c.jobs != [] ==> c.workers > 0)
    requires forall x <- s.workers :: x.pc == Dead
    ensures Enabled(c, s, step) && !Disruptive(step) && Work(c, Apply(c, s, step)) < Work(c, s)
  {
    step := ServerStep(c, s);
    ConsumedOnce(c, s);
    if s.server == Getting && s.pipe == [] {
      NothingLeft(c, s);
    }
    ServerEffort(c, s, step);
    hide ServerWork, Total;
  }

  /** All workers gone and the pipe empty: everything has been consumed. */
  lemma NothingLeft(c: Config, s: Pool)
    requires Undisturbed(c, s) && (c.jobs != [] ==> c.workers > 0)
    requires s.pipe == [] && forall x <- s.workers :: x.pc == Dead
    ensures s.parsed == |c.jobs|
  {
    ConsumedOnce(c, s);
    forall x | x in s.workers ensures Hold(x) == [] {
      var w :| 0 <= w < |s.workers| && s.workers[w] == x;
      assert Steady(c, s.next, s.workers[w]);
    }
    if c.jobs != [] {
      assert Steady(c, s.next, s.workers[0]) && s.workers[0] in s.workers;
    }
    assert s.next == |c.jobs|;
    forall j: nat
      ensures Count(s.consumed, j) == One(j < |c.jobs|)
    {
      NothingHeld(s.workers, j);
      assert Places(s, j) == One(j < s.next);
    }
    AllOnce(s.consumed, |c.jobs|);
  }

  /** From every undisturbed state the generator can still come to its normal end. */
  lemma {:induction false} CanFinish(c: Config, s: Pool) returns (steps: seq<Step>)
    requires Undisturbed(c, s)
    requires AllParsed(c) && (c.jobs != [] ==> c.workers > 0)
    ensures IsRun(c, s, steps) && Quiet(steps) && After(c, s, steps).server == Done
    decreases Work(c, s)
  {
    if s.server == Done {
      return [];
    }
    var step;
    if w :| 0 <= w < |s.workers| && s.workers[w].pc != Dead {
      WorkerProgress(c, s, w);
      step := UsefulStep(s.workers[w], w);
    } else {
      step := ServerProgress(c, s);
    }
    if ByWorker(step) {
      WorkerUndisturbed(c, s, step);
    } else {
      ServerUndisturbed(c, s, step);
    }
    var rest := CanFinish(c, Apply(c, s, step));
    steps := [step] + rest;
  }

  // ----- only so much can be done -----

  /** The step gets something done; the others are turns of the loops that only poll. */
  predicate Works(c: Config, s: Pool, step: Step)
    requires Enabled(c, s, step)
  {
    match step
    case Put(w) => s.workers[w].pending != []
    case Enter(w) => Apply(c, s, step).workers[w].pc == Closing
    case LoadCached => s.cached < |c.cache|
    case PutFull(_) => false
    case Signal(_) => false
    case _ => ByWorker(step) || step.Reap? || step.Get?
  }

  /** How many steps of its own the worker can still work, and the server with what it holds. */
  function Effort(x: Worker): nat {
    (if x.havejobs then 1 else 0) + (if x.pc.Parsing? then 4 else 0) + 3 * |x.pending| + 2 * |x.feeder|
    + (if x.pc == Dead then 0 else if x.pc == Closing then 1 else 2)
  }

  function Potential(c: Config, s: Pool): nat {
    5 * (if s.next <= |c.jobs| then |c.jobs| - s.next else 0) + Total(Effort, s.workers) + |s.pipe| + |s.processes|
    + (if s.cached <= |c.cache| then |c.cache| - s.cached else 0)
  }

  ghost predicate TakersHaveJobs(s: Pool) {
    forall w :: 0 <= w < |s.workers| && s.workers[w].pc == Taking ==> s.workers[w].havejobs
  }

  lemma WorkerSpends(c: Config, s: Pool, step: Step)
    requires Enabled(c, s, step) && ByWorker(step) && TakersHaveJobs(s)
    ensures var s' := Apply(c, s, step);
            && s'.workers == s.workers[step.w := s'.workers[step.w]]
            && s'.processes == s.processes && s'.cached == s.cached
            && (s'.workers[step.w].pc == Taking ==> s'.workers[step.w].havejobs)
            && (s'.next == s.next || s'.next == s.next + 1 <= |c.jobs|)
            && Effort(s'.workers[step.w]) + |s'.pipe| + One(Works(c, s, step)) <=
                 Effort(s.workers[step.w]) + |s.pipe| + 5 * (s'.next - s.next)
  {}

  lemma StepSpends(c: Config, s: Pool, step: Step)
    requires Enabled(c, s, step) && TakersHaveJobs(s)
    ensures var s' := Apply(c, s, step);
            TakersHaveJobs(s') && Potential(c, s') + One(Works(c, s, step)) <= Potential(c, s)
  {
    var s' := Apply(c, s, step);
    if ByWorker(step) {
      WorkerSpends(c, s, step);
      hide Effort, Total, Apply, Enabled, Works;
      TotalUpdate(Effort, s.workers, step.w, s'.workers[step.w]);
    } else {
      ServerSpends(c, s, step);
    }
  }

  lemma ServerSpends(c: Config, s: Pool, step: Step)
    requires Enabled(c, s, step) && !ByWorker(step)
    ensures var s' := Apply(c, s, step);
            s'.workers == s.workers && Potential(c, s') + One(Works(c, s, step)) <= Potential(c, s)
  {
    if step.Get? {
      GetSpends(c, s);
    } else {
      hide Effort, Total, WorkerStep, Account;
      if step.Reap? {
        assert |s.processes - {step.w}| == |s.processes| - 1;
      }
    }
  }

  lemma GetSpends(c: Config, s: Pool)
    requires Enabled(c, s, Get)
    ensures var s' := Apply(c, s, Get);
            s'.workers == s.workers && Potential(c, s') + 1 <= Potential(c, s)
  {
    hide Effort, Total, WorkerStep;
  }

  /** How many steps of the run got something done. */
  ghost function Worked(c: Config, s: Pool, steps: seq<Step>): nat
    requires IsRun(c, s, steps)
    decreases |steps|
  {
    if steps == [] then 0
    else One(Works(c, s, steps[0])) + Worked(c, Apply(c, s, steps[0]), steps[1..])
  }

  lemma {:induction false} RunSpends(c: Config, s: Pool, steps: seq<Step>)
    requires IsRun(c, s, steps) && TakersHaveJobs(s)
    ensures Potential(c, After(c, s, steps)) + Worked(c, s, steps) <= Potential(c, s)
    decreases |steps|
  {
    if steps != [] {
      hide Potential, Works, Apply, Enabled;
      StepSpends(c, s, steps[0]);
      RunSpends(c, Apply(c, s, steps[0]), steps[1..]);
    }
  }

  lemma {:induction false} IdsSize(n: nat)
    ensures |Ids(n)| == n
  {
    if n > 0 {
      IdsSize(n - 1);
    }
  }

  lemma {:induction false} NewWorkersEffort(ws: seq<Worker>)
    requires forall i :: 0 <= i < |ws| ==> ws[i] == Worker(Top, true, false, [], [])
    ensures Total(Effort, ws) == 3 * |ws|
  {
    if ws != [] {
      NewWorkersEffort(ws[1..]);
    }
  }

  /**
    In any run at all, with crashes, signals and refused puts, only so many steps get something done:
    five for each job, four for each worker and one for each cached result. The others only poll.
   */
  lemma WorkIsBounded(c: Config, steps: seq<Step>)
    requires IsRun(c, Init(c), steps)
    ensures Worked(c, Init(c), steps) <= 5 * |c.jobs| + 4 * c.workers + |c.cache|
  {
    RunSpends(c, Init(c), steps);
    IdsSize(c.workers);
    NewWorkersEffort(Init(c).workers);
  }

  // ----- quitting -----

  /** 1 for a worker that is about to lock the job counter. */
  function IsTaking(x: Worker): nat {
    One(x.pc == Taking)
  }

  lemma StepAfterQuit(c: Config, s: Pool, step: Step)
    requires Enabled(c, s, step) && s.quit
    ensures var s' := Apply(c, s, step);
            s'.quit && s'.next + Total(IsTaking, s'.workers) <= s.next + Total(IsTaking, s.workers)
  {
    var s' := Apply(c, s, step);
    if ByWorker(step) {
      TotalUpdate(IsTaking, s.workers, step.w, s'.workers[step.w]);
      hide Total;
      assert s'.workers == s.workers[step.w := s'.workers[step.w]];
    } else {
      assert s'.workers == s.workers;
    }
  }

  /** Once the workers are told to quit, only those that are already at the job counter take another job. */
  lemma {:induction false} FewJobsAfterQuit(c: Config, s: Pool, steps: seq<Step>)
    requires IsRun(c, s, steps) && s.quit
    ensures After(c, s, steps).next <= s.next + Total(IsTaking, s.workers)
    ensures After(c, s, steps).next + Total(IsTaking, After(c, s, steps).workers) <= s.next + Total(IsTaking, s.workers)
    decreases |steps|
  {
    if steps != [] {
      hide Apply, Enabled, Total;
      StepAfterQuit(c, s, steps[0]);
      FewJobsAfterQuit(c, Apply(c, s, steps[0]), steps[1..]);
    }
  }

  /** A worker that has got a signal takes no other job, unless it is at the job counter already. */
  lemma {:induction false} NoJobsAfterSignal(c: Config, s: Pool, steps: seq<Step>, w: nat)
    requires IsRun(c, s, steps) && w < |s.workers| && s.workers[w].exit && s.workers[w].pc != Taking
    ensures Take(w) !in steps
    ensures var s' := After(c, s, steps);
            w < |s'.workers| && s'.workers[w].exit && s'.workers[w].pc != Taking
    decreases |steps|
  {
    if steps != [] {
      StepAfterSignal(c, s, steps[0], w);
      hide Apply, Enabled;
      NoJobsAfterSignal(c, Apply(c, s, steps[0]), steps[1..], w);
    }
  }

  lemma StepAfterSignal(c: Config, s: Pool, step: Step, w: nat)
    requires Enabled(c, s, step) && w < |s.workers| && s.workers[w].exit && s.workers[w].pc != Taking
    ensures var s' := Apply(c, s, step);
            step != Take(w) && w < |s'.workers| && s'.workers[w].exit && s'.workers[w].pc != Taking
  {}

  /** The newest result is put first, and a refused one stays. */
  lemma PutTakesNewest(c: Config, s: Pool, w: nat, rest: seq<nat>, r: nat)
    requires Enabled(c, s, Put(w)) && s.workers[w].pending == rest + [r]
    ensures var x := Apply(c, s, Put(w)).workers[w];
            x.pending == rest && x.feeder == s.workers[w].feeder + [r]
    ensures Enabled(c, s, PutFull(w)) && Apply(c, s, PutFull(w)).workers[w].pending == rest + [r]
  {
    assert (rest + [r])[..|rest + [r]| - 1] == rest;
  }

  // ----- backlog -----

  /** How often the queue has refused a result of worker `w`. */
  function Refusals(steps: seq<Step>, w: nat): nat {
    if steps == [] then 0 else One(steps[0] == PutFull(w)) + Refusals(steps[1..], w)
  }

  /** A worker holds one result at most for each refusal, and the one it is about to put. */
  predicate SmallBacklog(x: Worker, refused: nat) {
    |x.pending| <= refused + One(x.pc == Putting)
  }

  lemma StepBacklog(c: Config, s: Pool, step: Step, w: nat, refused: nat)
    requires Enabled(c, s, step) && w < |s.workers| && SmallBacklog(s.workers[w], refused)
    ensures |Apply(c, s, step).workers| == |s.workers|
    ensures SmallBacklog(Apply(c, s, step).workers[w], refused + One(step == PutFull(w)))
  {}

  lemma {:induction false} RunBacklog(c: Config, s: Pool, steps: seq<Step>, w: nat, refused: nat)
    requires IsRun(c, s, steps) && w < |s.workers| && SmallBacklog(s.workers[w], refused)
    ensures |After(c, s, steps).workers| == |s.workers|
    ensures SmallBacklog(After(c, s, steps).workers[w], refused + Refusals(steps, w))
    decreases |steps|
  {
    if steps != [] {
      hide Apply, Enabled, SmallBacklog;
      StepBacklog(c, s, steps[0], w, refused);
      RunBacklog(c, Apply(c, s, steps[0]), steps[1..], w, refused + One(steps[0] == PutFull(w)));
    }
  }

  /** Results are put as soon as they are there: what a worker still holds was refused before, but for one. */
  lemma ResultsArePutAtOnce(c: Config, steps: seq<Step>, w: nat)
    requires IsRun(c, Init(c), steps) && w < c.workers
    ensures var s := After(c, Init(c), steps);
            w < |s.workers| && |s.workers[w].pending| <= Refusals(steps, w) + 1
  {
    RunBacklog(c, Init(c), steps, w, 0);
  }
}
