/** The pool gets its work done: how many steps the threads can take if no more work comes, and where they come
    to rest. A thread that is descheduled, or a task that runs on, makes a run longer in time but not in steps. */
module PoolProgress {
  import opened Results
  import opened ThreadPool

  // ---------- sums over threads ----------

  ghost function Total<T>(m: map<nat, T>, rank: T -> nat): nat
    decreases |m|
  {
    if m == map[] then 0
    else
      var k :| k in m;
      rank(m[k]) + Total(m - {k}, rank)
  }

  lemma {:induction false} TotalWithout<T>(m: map<nat, T>, rank: T -> nat, k: nat)
    requires k in m
    ensures Total(m, rank) == rank(m[k]) + Total(m - {k}, rank)
    decreases |m|
  {
    var c :| c in m && Total(m, rank) == rank(m[c]) + Total(m - {c}, rank);
    if c != k {
      TotalWithout(m - {c}, rank, k);
      TotalWithout(m - {k}, rank, c);
      assert m - {c} - {k} == m - {k} - {c};
    }
  }

  lemma TotalPut<T>(m: map<nat, T>, rank: T -> nat, k: nat, x: T)
    ensures Total(m[k := x], rank) == rank(x) + Total(m, rank) - (if k in m then rank(m[k]) else 0)
  {
    TotalWithout(m[k := x], rank, k);
    assert m[k := x] - {k} == m - {k};
    if k in m {
      TotalWithout(m, rank, k);
    } else {
      assert m - {k} == m;
    }
  }

  // ---------- what is ahead of the threads ----------

  /** The steps of a worker up to the next time it looks at the queue. */
  function WorkerRank(x: Worker): nat {
    match x.pc
    case Executing(_) => 6
    case Finished(_) => 5
    case Top => 4
    case Locking => 3
    case Checking => 2
    case Blocking => 1
    case Deciding => 1
    case Waiting => 0
    case Taking => 0
    case Exited => 0
  }

  /** A notification is worth the steps of the worker that it wakes. */
  function SubRank(u: Sub): nat {
    match u
    case Idle => 0
    case Pushed => 6
    case Counted => 5
    case Notifying => 4
  }

  function CtrlRank(c: Ctrl): nat {
    if c.Spawning? then 5 * c.left + 1 else 0
  }

  /** Every queued task is worth the steps of the worker that takes it. */
  ghost function Ahead(s: Pool): nat {
    7 * |s.queue| + Total(s.workers, WorkerRank) + Total(s.subs, SubRank) + CtrlRank(s.ctrl)
  }

  /** Work on what is there: nothing new is submitted, nobody stops the pool, and no worker wakes up without being
      notified. */
  predicate Draining(a: Action) {
    !a.Push? && !a.Spurious? && !a.Stop? && !a.NotifyAll? && !a.Join?
  }

  /** A worker's step takes it closer to its next look at the queue, or takes a task from the queue. */
  lemma WorkerStep(s: Pool, a: Action)
    requires PcInv(s) && Enabled(s, a) && Draining(a) && OfWorker(a)
    ensures a.w in s.workers && a.w in Step(s, a).workers
    ensures
      var s' := Step(s, a);
      7 * |s'.queue| + WorkerRank(s'.workers[a.w]) < 7 * |s.queue| + WorkerRank(s.workers[a.w])
  {
  }

  lemma OnlyThisWorker(s: Pool, a: Action)
    requires PcInv(s) && Enabled(s, a) && Draining(a) && OfWorker(a)
    ensures a.w in Step(s, a).workers && Step(s, a).workers == s.workers[a.w := Step(s, a).workers[a.w]]
    ensures Step(s, a).subs == s.subs && Step(s, a).ctrl == s.ctrl
  {
  }

  lemma WorkerGoesAhead(s: Pool, a: Action)
    requires PcInv(s) && Enabled(s, a) && Draining(a) && OfWorker(a)
    ensures Ahead(Step(s, a)) < Ahead(s)
  {
    WorkerStep(s, a);
    OnlyThisWorker(s, a);
    TotalPut(s.workers, WorkerRank, a.w, Step(s, a).workers[a.w]);
  }

  lemma SubmitterGoesAhead(s: Pool, a: Action)
    requires Inv(s) && Enabled(s, a) && Draining(a) && OfSubmitter(a)
    ensures Ahead(Step(s, a)) < Ahead(s)
  {
    var s' := Step(s, a);
    TotalPut(s.subs, SubRank, a.u, s'.subs[a.u]);
    if a.NotifyOne? && a.waiter.Some? {
      var w := a.waiter.value;
      TotalPut(s.workers, WorkerRank, w, s'.workers[w]);
    }
  }

  lemma SpawnGoesAhead(s: Pool)
    requires Enabled(s, Spawn)
    ensures Ahead(Step(s, Spawn)) < Ahead(s)
  {
    if s.ctrl.left > 0 {
      TotalPut(s.workers, WorkerRank, FreshId(s.workers), Worker(Top, 0));
    }
  }

  lemma StepGoesAhead(s: Pool, a: Action)
    requires Inv(s) && Enabled(s, a) && Draining(a)
    ensures Ahead(Step(s, a)) < Ahead(s)
  {
    if OfWorker(a) {
      WorkerGoesAhead(s, a);
    } else if OfSubmitter(a) {
      SubmitterGoesAhead(s, a);
    } else {
      SpawnGoesAhead(s);
    }
  }

  ghost predicate Drains(run: seq<Action>) {
    forall a :: a in run ==> Draining(a)
  }

  /** No run that works on what is there is longer than what was ahead at its beginning. */
  lemma {:induction false} DrainingEnds(s: Pool, run: seq<Action>)
    requires Inv(s) && Possible(s, run) && Drains(run)
    ensures |run| + Ahead(RunFrom(s, run)) <= Ahead(s)
    decreases |run|
  {
    if run != [] {
      StepKeepsInv(s, run[0]);
      StepGoesAhead(s, run[0]);
      DrainingEnds(Step(s, run[0]), run[1..]);
    }
  }

  // ---------- where the threads come to rest ----------

  ghost predicate AtRest(s: Pool) {
    forall a :: Draining(a) ==> !Enabled(s, a)
  }

  /** The step that a worker can take by itself. */
  function OwnStep(w: nat, pc: Pc): Action
    requires pc != Waiting && pc != Exited
  {
    match pc
    case Top => TestRunning(w)
    case Locking => Acquire(w)
    case Checking => Evaluate(w)
    case Blocking => Block(w)
    case Deciding => Decide(w)
    case Taking => Take(w)
    case Executing(_) => Finish(w)
    case Finished(_) => CountDown(w)
  }

  /** Whoever holds the mutex can go on. */
  lemma HolderMoves(s: Pool) returns (a: Action)
    requires Inv(s) && s.lock != Nobody
    ensures Draining(a) && Enabled(s, a)
  {
    match s.lock
    case ByWorker(w) => a := OwnStep(w, s.workers[w].pc);
    case BySub(u) => a := if s.subs[u] == Pushed then Increment(u) else Unlock(u);
  }

  /** If nobody does, every thread can go on that is neither blocked nor finished. */
  lemma WorkerMoves(s: Pool, w: nat) returns (a: Action)
    requires s.lock == Nobody && w in s.workers && s.workers[w].pc != Waiting && s.workers[w].pc != Exited
    ensures Draining(a) && Enabled(s, a)
  {
    a := OwnStep(w, s.workers[w].pc);
  }

  lemma SubmitterMoves(s: Pool, u: nat) returns (a: Action)
    requires u in s.subs && s.subs[u] != Idle
    ensures Draining(a) && Enabled(s, a)
  {
    match s.subs[u]
    case Pushed => a := Increment(u);
    case Counted => a := Unlock(u);
    case Notifying =>
      if NoneWaiting(s) {
        a := NotifyOne(u, None);
      } else {
        var w :| w in s.workers && s.workers[w].pc == Waiting;
        a := NotifyOne(u, Some(w));
      }
  }

  /** At rest no submitter is on its way, and every worker is blocked or has exited. */
  lemma RestOfThreads(s: Pool)
    requires Inv(s) && AtRest(s)
    ensures forall u :: u in s.subs ==> s.subs[u] == Idle
    ensures forall w :: w in s.workers ==> s.workers[w].pc == Waiting || s.workers[w].pc == Exited
    ensures !s.ctrl.Spawning?
  {
    assert !Enabled(s, Spawn);
    forall u | u in s.subs
      ensures s.subs[u] == Idle
    {
      if s.subs[u] != Idle {
        var a := SubmitterMoves(s, u);
      }
    }
    if s.lock != Nobody {
      var a := HolderMoves(s);
    }
    forall w | w in s.workers
      ensures s.workers[w].pc == Waiting || s.workers[w].pc == Exited
    {
      if s.workers[w].pc != Waiting && s.workers[w].pc != Exited {
        var a := WorkerMoves(s, w);
      }
    }
  }

  /** A running pool that has a worker comes to rest only when every submitted task is done, and then the
      counter is zero, so that waitForCompletion returns. */
  lemma RestMeansAllDone(threads: nat, subs: set<nat>, run: seq<Action>, s: Pool)
    requires Reaches(threads, subs, run, s) && s.running && AtRest(s)
    requires Asked(threads, run) > 0
    ensures s.queue == [] && s.active == 0 && forall t: nat :: t < s.submitted <==> t in s.done
  {
    ReachableInv(threads, subs, run, s);
    RestOfThreads(s);
    AskedSize(threads, subs, run, s);
    assert s.ctrl == Free;
    var w :| w in s.workers;
    NoLostWakeup(threads, subs, run, s, w);
    CountNone(s.subs, IsPending);
    CountNone(s.workers, IsAwake);
    CountNone(s.subs, IsUncounted);
    CountNone(s.workers, IsTaken);
    WaitMeansAllRan(threads, subs, run, s);
  }

  /** And it can be brought to rest from wherever it is. */
  lemma {:induction false} CanDrain(s: Pool) returns (run: seq<Action>)
    requires Inv(s)
    ensures Possible(s, run) && Drains(run) && AtRest(RunFrom(s, run))
    decreases Ahead(s)
  {
    if AtRest(s) {
      run := [];
    } else {
      var a :| Draining(a) && Enabled(s, a);
      StepKeepsInv(s, a);
      StepGoesAhead(s, a);
      var rest := CanDrain(Step(s, a));
      run := [a] + rest;
      RunCons(s, a, rest, RunFrom(Step(s, a), rest));
    }
  }

  lemma {:induction false} DrainingAsksNothing(asked: nat, before: seq<Action>, run: seq<Action>)
    requires Drains(run)
    ensures Asked(asked, before + run) == Asked(asked, before)
    decreases |before| + |run|
  {
    if before != [] {
      assert (before + run)[1..] == before[1..] + run;
      AskedFirst(asked, true, before);
      AskedFirst(asked, true, before + run);
      DrainingAsksNothing(Asked(asked, [before[0]]), before[1..], run);
    } else if run != [] {
      assert [] + run == run && [] + run[1..] == run[1..];
      assert run[0] in run && Draining(run[0]);
      DrainingAsksNothing(asked, [], run[1..]);
    }
  }

  lemma {:induction false} DrainingKeepsRunning(s: Pool, run: seq<Action>)
    requires Possible(s, run) && Drains(run)
    ensures RunFrom(s, run).running == s.running && RunFrom(s, run).submitted == s.submitted
    decreases |run|
  {
    if run != [] {
      assert run[0] in run && Draining(run[0]);
      DrainingKeepsRunning(Step(s, run[0]), run[1..]);
    }
  }

  /** From every reachable state of a running pool that was asked for at least one worker, its own threads can
      bring every task that was submitted to its end, and the counter to zero, without a spurious wake-up. */
  lemma AllWorkCanBeDone(threads: nat, subs: set<nat>, run: seq<Action>, s: Pool) returns (rest: seq<Action>)
    requires Reaches(threads, subs, run, s) && s.running && Asked(threads, run) > 0
    ensures Possible(s, rest) && Drains(rest)
    ensures RunFrom(s, rest).active == 0 && forall t: nat :: t < s.submitted ==> t in RunFrom(s, rest).done
  {
    ReachableInv(threads, subs, run, s);
    rest := CanDrain(s);
    RunAppend(Init(threads, subs), run, rest);
    DrainingAsksNothing(threads, run, rest);
    DrainingKeepsRunning(s, rest);
    RestMeansAllDone(threads, subs, run + rest, RunFrom(s, rest));
  }

  /** A pool that was stopped or is being resized, with no worker about to block when it was notified: the threads
      come to rest only when every worker has exited, so that stop can join them all. */
  lemma RestMeansAllExited(s: Pool, run: seq<Action>)
    requires Inv(s) && Enabled(s, NotifyAll) && NoneBlocking(s)
    requires Possible(Step(s, NotifyAll), run) && Drains(run) && AtRest(RunFrom(Step(s, NotifyAll), run))
    ensures Enabled(RunFrom(Step(s, NotifyAll), run), Join)
  {
    var s' := Step(s, NotifyAll);
    StepKeepsInv(s, NotifyAll);
    RunKeepsInv(s', run);
    assert NoneWaiting(s') && NoneBlocking(s') && s'.ctrl.Joining? && !s'.running;
    StillJoining(s', run);
    QuietRun(s', run);
    RestJoins(RunFrom(s', run));
  }

  lemma RestJoins(s: Pool)
    requires Inv(s) && AtRest(s) && NoneWaiting(s) && s.ctrl.Joining?
    ensures Enabled(s, Join)
  {
    RestOfThreads(s);
  }

  /** The one late task that a worker may take is taken: a worker that stop finds blocked while there is work in
      the queue can wake up, take the oldest task, and run it although the pool is stopped. */
  lemma WokenByStopTakesTask(s: Pool, w: nat)
    requires Inv(s) && s.ctrl.Announcing? && s.lock == Nobody && At(s, w, Waiting) && s.queue != []
    ensures
      var run := [NotifyAll, Acquire(w), Evaluate(w), Decide(w), Take(w)];
      && Possible(s, run)
      && !RunFrom(s, run).running && Runs(RunFrom(s, run), w, s.queue[0])
      && RunFrom(s, run).workers[w].late == s.workers[w].late + 1
  {
    var s1 := Step(s, NotifyAll);
    assert At(s1, w, Locking);
    TakesOldest(s1, w);
    RunCons(s, NotifyAll, [Acquire(w), Evaluate(w), Decide(w), Take(w)],
            RunFrom(s1, [Acquire(w), Evaluate(w), Decide(w), Take(w)]));
    assert [NotifyAll] + [Acquire(w), Evaluate(w), Decide(w), Take(w)] ==
           [NotifyAll, Acquire(w), Evaluate(w), Decide(w), Take(w)];
  }

  lemma TakesOldest(s: Pool, w: nat)
    requires s.lock == Nobody && At(s, w, Locking) && s.queue != [] && !s.running
    ensures
      var run := [Acquire(w), Evaluate(w), Decide(w), Take(w)];
      && Possible(s, run)
      && !RunFrom(s, run).running && Runs(RunFrom(s, run), w, s.queue[0])
      && RunFrom(s, run).workers[w].late == s.workers[w].late + 1
  {
    var s1 := Step(s, Acquire(w));
    var s2 := Step(s1, Evaluate(w));
    var s3 := Step(s2, Decide(w));
    var s4 := Step(s3, Take(w));
    RunEnds(s3, [Take(w)], s4);
    RunCons(s2, Decide(w), [Take(w)], s4);
    RunCons(s1, Evaluate(w), [Decide(w), Take(w)], s4);
    RunCons(s, Acquire(w), [Evaluate(w), Decide(w), Take(w)], s4);
    assert [Acquire(w)] + [Evaluate(w), Decide(w), Take(w)] == [Acquire(w), Evaluate(w), Decide(w), Take(w)];
  }

  /** In a new pool every thread can submit, and what it submits can be run to its end. */
  lemma SubmittedTaskCanRun(threads: nat, subs: set<nat>, u: nat) returns (rest: seq<Action>)
    requires threads > 0 && u in subs
    ensures Possible(Init(threads, subs), [Push(u)] + rest)
    ensures 0 in RunFrom(Init(threads, subs), [Push(u)] + rest).done
  {
    var s := Step(Init(threads, subs), Push(u));
    RunEnds(Init(threads, subs), [Push(u)], s);
    rest := AllWorkCanBeDone(threads, subs, [Push(u)], s);
    RunAppend(Init(threads, subs), [Push(u)], rest);
  }

  lemma {:induction false} StillJoining(s: Pool, run: seq<Action>)
    requires s.ctrl.Joining? && Possible(s, run) && Drains(run)
    ensures RunFrom(s, run).ctrl == s.ctrl
    decreases |run|
  {
    if run != [] {
      assert run[0] in run && Draining(run[0]) && !Enabled(s, Spawn);
      OthersKeepSize(s, run[0]);
      StillJoining(Step(s, run[0]), run[1..]);
    }
  }
}
