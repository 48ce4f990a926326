/** The thread pool as a step machine: the queue and its mutex, the counter and the running flag, which
    are read and written without the mutex, the condition variable, and a program counter for every
    worker, for every thread that submits, and for the thread that stops or resizes the pool. */
module ThreadPool {
  import opened Results

  /** Where a worker stands in workerThread. Checking, Blocking, Deciding and Taking hold the mutex:
      the wait's predicate is evaluated, found false, found true, and then the queue is popped. */
  datatype Pc =
    | Top | Locking | Checking | Blocking | Waiting | Deciding | Taking
    | Executing(task: nat) | Finished(task: nat) | Exited

  /** late counts the tasks started since running was last set to false. */
  datatype Worker = Worker(pc: Pc, late: nat)

  /** Where a thread stands in submit: Pushed and Counted hold the mutex. */
  datatype Sub = Idle | Pushed | Counted | Notifying

  datatype Next = JustStop | Resize(threads: nat)

  /** Where the controlling thread stands in stop or setThreadCount. */
  datatype Ctrl = Free | Announcing(next: Next) | Joining(next: Next) | Spawning(left: nat)

  datatype Holder = Nobody | ByWorker(w: nat) | BySub(u: nat)

  /** Tasks are numbered in the order of submission. done holds those that have returned or thrown. */
  datatype Pool = Pool(
    queue: seq<nat>, submitted: nat, done: set<nat>, active: int, running: bool, lock: Holder,
    workers: map<nat, Worker>, subs: map<nat, Sub>, ctrl: Ctrl, crashed: bool)

  datatype Action =
    | Push(u: nat) | Increment(u: nat) | Unlock(u: nat) | NotifyOne(u: nat, waiter: Option<nat>)
    | TestRunning(w: nat) | Acquire(w: nat) | Evaluate(w: nat) | Block(w: nat) | Spurious(w: nat)
    | Decide(w: nat) | Take(w: nat) | Finish(w: nat) | CountDown(w: nat)
    | Stop(next: Next) | NotifyAll | Join | Spawn

  predicate At(s: Pool, w: nat, pc: Pc) {
    w in s.workers && s.workers[w].pc == pc
  }

  predicate SubAt(s: Pool, u: nat, sub: Sub) {
    u in s.subs && s.subs[u] == sub
  }

  predicate NoneWaiting(s: Pool) {
    forall w :: w in s.workers ==> s.workers[w].pc != Waiting
  }

  predicate AllExited(s: Pool) {
    forall w :: w in s.workers ==> s.workers[w].pc == Exited
  }

  predicate Enabled(s: Pool, a: Action) {
    match a
    case Push(u) => SubAt(s, u, Idle) && s.lock == Nobody
    case Increment(u) => SubAt(s, u, Pushed)
    case Unlock(u) => SubAt(s, u, Counted)
    case NotifyOne(u, w) => SubAt(s, u, Notifying) && (if w.Some? then At(s, w.value, Waiting) else NoneWaiting(s))
    case TestRunning(w) => At(s, w, Top)
    case Acquire(w) => At(s, w, Locking) && s.lock == Nobody
    case Evaluate(w) => At(s, w, Checking)
    case Block(w) => At(s, w, Blocking)
    case Spurious(w) => At(s, w, Waiting)
    case Decide(w) => At(s, w, Deciding)
    case Take(w) => At(s, w, Taking)
    case Finish(w) => w in s.workers && s.workers[w].pc.Executing?
    case CountDown(w) => w in s.workers && s.workers[w].pc.Finished?
    case Stop(next) => s.ctrl == Free && (next.Resize? ==> next.threads != |s.workers|)
    case NotifyAll => s.ctrl.Announcing?
    case Join => s.ctrl.Joining? && AllExited(s)
    case Spawn => s.ctrl.Spawning?
  }

  function Goto(s: Pool, w: nat, pc: Pc): Pool
    requires w in s.workers
  {
    s.(workers := s.workers[w := s.workers[w].(pc := pc)])
  }

  function SubGoto(s: Pool, u: nat, sub: Sub): Pool {
    s.(subs := s.subs[u := sub])
  }

  function Woken(x: Worker): Worker {
    if x.pc == Waiting then x.(pc := Locking) else x
  }

  /** Popping an empty std::queue is undefined; crashed records that it happened. */
  function PopFront(s: Pool, w: nat): Pool
    requires w in s.workers
  {
    if s.queue == [] then s.(crashed := true)
    else
      var late := if s.running then s.workers[w].late else s.workers[w].late + 1;
      s.(queue := s.queue[1..], lock := Nobody, workers := s.workers[w := Worker(Executing(s.queue[0]), late)])
  }

  function Step(s: Pool, a: Action): Pool
    requires Enabled(s, a)
  {
    match a
    case Push(u) =>
      SubGoto(s, u, Pushed).(lock := BySub(u), queue := s.queue + [s.submitted], submitted := s.submitted + 1)
    case Increment(u) => SubGoto(s, u, Counted).(active := s.active + 1)
    case Unlock(u) => SubGoto(s, u, Notifying).(lock := Nobody)
    case NotifyOne(u, w) =>
      var s' := SubGoto(s, u, Idle);
      if w.Some? then Goto(s', w.value, Locking) else s'
    case TestRunning(w) => Goto(s, w, if s.running then Locking else Exited)
    case Acquire(w) => Goto(s, w, Checking).(lock := ByWorker(w))
    case Evaluate(w) => Goto(s, w, if !s.running || s.queue != [] then Deciding else Blocking)
    case Block(w) => Goto(s, w, Waiting).(lock := Nobody)
    case Spurious(w) => Goto(s, w, Locking)
    case Decide(w) =>
      if !s.running && s.queue == [] then Goto(s, w, Exited).(lock := Nobody) else Goto(s, w, Taking)
    case Take(w) => PopFront(s, w)
    case Finish(w) =>
      var t := s.workers[w].pc.task;
      Goto(s, w, Finished(t)).(done := s.done + {t})
    case CountDown(w) => Goto(s, w, Top).(active := s.active - 1)
    case Stop(next) =>
      s.(running := false, ctrl := Announcing(next), workers := map w | w in s.workers :: s.workers[w].(late := 0))
    case NotifyAll =>
      s.(ctrl := Joining(s.ctrl.next), workers := map w | w in s.workers :: Woken(s.workers[w]))
    case Join =>
      (match s.ctrl.next
       case JustStop => s.(ctrl := Free)
       case Resize(n) => s.(running := true, workers := map[], ctrl := Spawning(n)))
    case Spawn =>
      if s.ctrl.left == 0 then s.(ctrl := Free)
      else s.(ctrl := Spawning(s.ctrl.left - 1), workers := s.workers[FreshId(s.workers) := Worker(Top, 0)])
  }

  /** A number that no worker has. */
  function FreshId(m: map<nat, Worker>): (n: nat)
    ensures n !in m
  {
    Unused(m.Keys, 0)
  }

  function Unused(used: set<nat>, from: nat): (n: nat)
    ensures n !in used && n >= from
    decreases |used|
  {
    if from in used then
      var rest := used - {from};
      var n := Unused(rest, from + 1);
      n
    else from
  }

  // ---------- the invariant ----------

  predicate HoldsLock(pc: Pc) {
    pc == Checking || pc == Blocking || pc == Deciding || pc == Taking
  }

  ghost predicate LockInv(s: Pool) {
    && (forall w :: w in s.workers ==> (HoldsLock(s.workers[w].pc) <==> s.lock == ByWorker(w)))
    && (forall u :: u in s.subs ==> (s.subs[u] == Pushed || s.subs[u] == Counted <==> s.lock == BySub(u)))
    && (s.lock.ByWorker? ==> s.lock.w in s.workers)
    && (s.lock.BySub? ==> s.lock.u in s.subs)
  }

  ghost predicate PcInv(s: Pool) {
    && !s.crashed
    && (forall w :: w in s.workers ==>
          && (s.workers[w].pc == Deciding ==> s.queue != [] || !s.running)
          && (s.workers[w].pc == Taking ==> s.queue != [])
          && (s.workers[w].pc == Blocking ==> s.queue == [])
          && (s.workers[w].pc == Exited ==> !s.running))
    && (forall u :: u in s.subs && (s.subs[u] == Pushed) ==> s.queue != [])
    && (s.ctrl.Announcing? || s.ctrl.Joining? ==> !s.running)
    && (s.ctrl.Spawning? ==> s.running)
    && (s.ctrl == Free && !s.running ==> AllExited(s))
  }

  /** The number of tasks that have left the queue. */
  function Started(s: Pool): int {
    s.submitted - |s.queue|
  }

  predicate Runs(s: Pool, w: nat, t: nat) {
    w in s.workers && s.workers[w].pc == Executing(t)
  }

  /** The queue holds the latest submissions in order, and every earlier task is being run by exactly
      one worker or is done, and not both. */
  ghost predicate TaskInv(s: Pool) {
    && Started(s) >= 0
    && (forall i :: 0 <= i < |s.queue| ==> s.queue[i] == Started(s) + i)
    && (forall t :: t in s.done ==> t < Started(s))
    && (forall w: nat, t: nat :: Runs(s, w, t) ==> t < Started(s) && t !in s.done)
    && (forall w: nat, x: nat, t: nat :: Runs(s, w, t) && Runs(s, x, t) ==> w == x)
    && (forall t: nat :: t < Started(s) && t !in s.done ==> exists w: nat :: Runs(s, w, t))
  }

  function Where<T>(m: map<nat, T>, f: T -> bool): set<nat> {
    set w | w in m && f(m[w])
  }

  function Count<T>(m: map<nat, T>, f: T -> bool): nat {
    |Where(m, f)|
  }

  predicate IsTaken(x: Worker) {
    x.pc.Executing? || x.pc.Finished?
  }

  predicate IsWaiting(x: Worker) {
    x.pc == Waiting
  }

  /** Awake and free to look at the queue before it next blocks. */
  predicate IsAwake(x: Worker) {
    x.pc == Top || x.pc == Locking || x.pc == Checking || x.pc == Deciding || x.pc == Taking
  }

  predicate IsUncounted(u: Sub) {
    u == Pushed
  }

  predicate IsPending(u: Sub) {
    u != Idle
  }

  ghost predicate CountInv(s: Pool) {
    s.active == |s.queue| + Count(s.workers, IsTaken) - Count(s.subs, IsUncounted)
  }

  /** No lost wake-up for work. */
  ghost predicate WakeInv(s: Pool) {
    s.running && Count(s.workers, IsWaiting) > 0 ==>
      |s.queue| <= Count(s.subs, IsPending) + Count(s.workers, IsAwake)
  }

  ghost predicate StopInv(s: Pool) {
    !s.running ==> forall w :: w in s.workers ==>
      && s.workers[w].late <= 1
      && (s.workers[w].late == 1 ==>
            s.workers[w].pc.Executing? || s.workers[w].pc.Finished? || s.workers[w].pc == Top ||
              s.workers[w].pc == Exited)
  }

  ghost predicate Inv(s: Pool) {
    LockInv(s) && PcInv(s) && TaskInv(s) && CountInv(s) && WakeInv(s) && StopInv(s)
  }

  // ---------- every step keeps it ----------

  predicate OfSubmitter(a: Action) {
    a.Push? || a.Increment? || a.Unlock? || a.NotifyOne?
  }

  predicate OfController(a: Action) {
    a.Stop? || a.NotifyAll? || a.Join? || a.Spawn?
  }

  predicate OfWorker(a: Action) {
    !OfSubmitter(a) && !OfController(a)
  }

  lemma LockStepOfSubmitter(s: Pool, a: Action)
    requires OfSubmitter(a) && LockInv(s) && PcInv(s) && Enabled(s, a)
    ensures LockInv(Step(s, a))
  {
  }

  lemma LockStepOfWorker(s: Pool, a: Action)
    requires OfWorker(a) && LockInv(s) && PcInv(s) && Enabled(s, a)
    ensures LockInv(Step(s, a))
  {
  }

  lemma LockStepOfController(s: Pool, a: Action)
    requires OfController(a) && LockInv(s) && PcInv(s) && Enabled(s, a)
    ensures LockInv(Step(s, a))
  {
  }

  lemma LockStep(s: Pool, a: Action)
    requires LockInv(s) && PcInv(s) && Enabled(s, a)
    ensures LockInv(Step(s, a))
  {
    if OfSubmitter(a) {
      LockStepOfSubmitter(s, a);
    } else if OfWorker(a) {
      LockStepOfWorker(s, a);
    } else {
      LockStepOfController(s, a);
    }
  }

  lemma PcStepOfSubmitter(s: Pool, a: Action)
    requires OfSubmitter(a) && LockInv(s) && PcInv(s) && Enabled(s, a)
    ensures PcInv(Step(s, a))
  {
  }

  lemma PcStepOfWorker(s: Pool, a: Action)
    requires OfWorker(a) && LockInv(s) && PcInv(s) && Enabled(s, a)
    ensures PcInv(Step(s, a))
  {
  }

  lemma PcStepOfController(s: Pool, a: Action)
    requires OfController(a) && LockInv(s) && PcInv(s) && Enabled(s, a)
    ensures PcInv(Step(s, a))
  {
  }

  lemma PcStep(s: Pool, a: Action)
    requires LockInv(s) && PcInv(s) && Enabled(s, a)
    ensures PcInv(Step(s, a))
  {
    if OfSubmitter(a) {
      PcStepOfSubmitter(s, a);
    } else if OfWorker(a) {
      PcStepOfWorker(s, a);
    } else {
      PcStepOfController(s, a);
    }
  }

  lemma StopStepOfSubmitter(s: Pool, a: Action)
    requires OfSubmitter(a) && PcInv(s) && StopInv(s) && Enabled(s, a)
    ensures StopInv(Step(s, a))
  {
  }

  lemma StopStepOfWorker(s: Pool, a: Action)
    requires OfWorker(a) && PcInv(s) && StopInv(s) && Enabled(s, a)
    ensures StopInv(Step(s, a))
  {
  }

  lemma StopStepOfController(s: Pool, a: Action)
    requires OfController(a) && PcInv(s) && StopInv(s) && Enabled(s, a)
    ensures StopInv(Step(s, a))
  {
  }

  lemma StopStep(s: Pool, a: Action)
    requires PcInv(s) && StopInv(s) && Enabled(s, a)
    ensures StopInv(Step(s, a))
  {
    if OfSubmitter(a) {
      StopStepOfSubmitter(s, a);
    } else if OfWorker(a) {
      StopStepOfWorker(s, a);
    } else {
      StopStepOfController(s, a);
    }
  }

  /** A step that changes no Executing worker and neither queue nor done keeps the bookkeeping of tasks. */
  lemma TaskFrame(s: Pool, s': Pool)
    requires TaskInv(s)
    requires s'.queue == s.queue && s'.submitted == s.submitted && s'.done == s.done
    requires forall w: nat, t: nat :: Runs(s, w, t) <==> Runs(s', w, t)
    ensures TaskInv(s')
  {
    forall t: nat | t < Started(s') && t !in s'.done
      ensures exists w: nat :: Runs(s', w, t)
    {
      var w: nat :| Runs(s, w, t);
      assert Runs(s', w, t);
    }
  }

  lemma TaskPush(s: Pool, u: nat)
    requires TaskInv(s) && Enabled(s, Push(u))
    ensures TaskInv(Step(s, Push(u)))
  {
    var s' := Step(s, Push(u));
    assert Started(s') == Started(s);
    assert forall w: nat, t: nat :: Runs(s, w, t) <==> Runs(s', w, t);
    forall t: nat | t < Started(s') && t !in s'.done
      ensures exists w: nat :: Runs(s', w, t)
    {
      var w: nat :| Runs(s, w, t);
      assert Runs(s', w, t);
    }
  }

  lemma TaskTake(s: Pool, w: nat)
    requires TaskInv(s) && PcInv(s) && Enabled(s, Take(w))
    ensures TaskInv(Step(s, Take(w)))
  {
    var s' := Step(s, Take(w));
    var t0 := s.queue[0];
    assert t0 == Started(s) && Started(s') == t0 + 1;
    assert Runs(s', w, t0);
    assert forall x: nat, t: nat :: Runs(s', x, t) <==> Runs(s, x, t) || (x == w && t == t0);
    forall t: nat | t < Started(s') && t !in s'.done
      ensures exists x: nat :: Runs(s', x, t)
    {
      if t != t0 {
        var x: nat :| Runs(s, x, t);
        assert Runs(s', x, t);
      }
    }
  }

  lemma TaskFinish(s: Pool, w: nat)
    requires TaskInv(s) && Enabled(s, Finish(w))
    ensures TaskInv(Step(s, Finish(w)))
  {
    var s' := Step(s, Finish(w));
    var t0 := s.workers[w].pc.task;
    assert Runs(s, w, t0);
    assert forall x: nat, t: nat :: Runs(s', x, t) <==> Runs(s, x, t) && x != w;
    forall t: nat | t < Started(s') && t !in s'.done
      ensures exists x: nat :: Runs(s', x, t)
    {
      var x: nat :| Runs(s, x, t);
      assert Runs(s', x, t);
    }
  }

  predicate MovesTask(a: Action) {
    a.Push? || a.Take? || a.Finish?
  }

  ghost predicate SameTasks(s: Pool, s': Pool) {
    && s'.queue == s.queue && s'.submitted == s.submitted && s'.done == s.done
    && forall w: nat, t: nat :: Runs(s, w, t) <==> Runs(s', w, t)
  }

  lemma SameTasksOfSubmitter(s: Pool, a: Action)
    requires OfSubmitter(a) && !MovesTask(a) && PcInv(s) && Enabled(s, a)
    ensures SameTasks(s, Step(s, a))
  {
  }

  lemma SameTasksOfWorker(s: Pool, a: Action)
    requires OfWorker(a) && !MovesTask(a) && PcInv(s) && Enabled(s, a)
    ensures SameTasks(s, Step(s, a))
  {
  }

  lemma SameTasksOfController(s: Pool, a: Action)
    requires OfController(a) && !MovesTask(a) && PcInv(s) && Enabled(s, a)
    ensures SameTasks(s, Step(s, a))
  {
  }

  lemma TaskStep(s: Pool, a: Action)
    requires TaskInv(s) && PcInv(s) && Enabled(s, a)
    ensures TaskInv(Step(s, a))
  {
    if a.Push? {
      TaskPush(s, a.u);
    } else if a.Take? {
      TaskTake(s, a.w);
    } else if a.Finish? {
      TaskFinish(s, a.w);
    } else {
      NoTaskMoved(s, a);
      TaskFrame(s, Step(s, a));
    }
  }

  lemma NoTaskMoved(s: Pool, a: Action)
    requires !MovesTask(a) && PcInv(s) && Enabled(s, a)
    ensures SameTasks(s, Step(s, a))
  {
    if OfSubmitter(a) {
      SameTasksOfSubmitter(s, a);
    } else if OfWorker(a) {
      SameTasksOfWorker(s, a);
    } else {
      SameTasksOfController(s, a);
    }
  }

  /** Counting after one entry changed. */
  lemma CountUpdate<T>(m: map<nat, T>, k: nat, x: T, f: T -> bool)
    requires k in m
    ensures Count(m[k := x], f) == Count(m, f) - (if f(m[k]) then 1 else 0) + (if f(x) then 1 else 0)
  {
    var others := Where(m, f) - {k};
    assert Where(m, f) == others + (if f(m[k]) then {k} else {});
    assert Where(m[k := x], f) == others + (if f(x) then {k} else {});
  }

  lemma CountSame<T>(m: map<nat, T>, m': map<nat, T>, f: T -> bool)
    requires m.Keys == m'.Keys && forall k :: k in m ==> f(m[k]) == f(m'[k])
    ensures Count(m, f) == Count(m', f)
  {
    assert Where(m, f) == Where(m', f);
  }

  lemma CountNone<T>(m: map<nat, T>, f: T -> bool)
    requires forall k :: k in m ==> !f(m[k])
    ensures Count(m, f) == 0
  {
    assert Where(m, f) == {};
  }

  lemma CountAdded<T>(m: map<nat, T>, k: nat, x: T, f: T -> bool)
    requires k !in m
    ensures Count(m[k := x], f) == Count(m, f) + (if f(x) then 1 else 0)
  {
    assert Where(m[k := x], f) == Where(m, f) + (if f(x) then {k} else {});
  }

  lemma CountPositive<T>(m: map<nat, T>, k: nat, f: T -> bool)
    requires k in m && f(m[k])
    ensures Count(m, f) > 0
  {
    assert k in Where(m, f);
  }

  lemma CountMove(s: Pool, w: nat, x: Worker)
    requires w in s.workers
    ensures
      var m := s.workers[w := x];
      var y := s.workers[w];
      && Count(m, IsTaken) == Count(s.workers, IsTaken) - (if IsTaken(y) then 1 else 0) + (if IsTaken(x) then 1 else 0)
      && Count(m, IsAwake) == Count(s.workers, IsAwake) - (if IsAwake(y) then 1 else 0) + (if IsAwake(x) then 1 else 0)
      && Count(m, IsWaiting) ==
         Count(s.workers, IsWaiting) - (if IsWaiting(y) then 1 else 0) + (if IsWaiting(x) then 1 else 0)
  {
    CountUpdate(s.workers, w, x, IsTaken);
    CountUpdate(s.workers, w, x, IsAwake);
    CountUpdate(s.workers, w, x, IsWaiting);
  }

  lemma CountSubMove(s: Pool, u: nat, x: Sub)
    requires u in s.subs
    ensures
      var m := s.subs[u := x];
      var y := s.subs[u];
      && Count(m, IsUncounted) ==
         Count(s.subs, IsUncounted) - (if IsUncounted(y) then 1 else 0) + (if IsUncounted(x) then 1 else 0)
      && Count(m, IsPending) ==
         Count(s.subs, IsPending) - (if IsPending(y) then 1 else 0) + (if IsPending(x) then 1 else 0)
  {
    CountUpdate(s.subs, u, x, IsUncounted);
    CountUpdate(s.subs, u, x, IsPending);
  }

  lemma CountsOfSubmit(s: Pool, a: Action)
    requires OfSubmitter(a)
    requires PcInv(s) && Enabled(s, a) && CountInv(s) && WakeInv(s)
    ensures CountInv(Step(s, a)) && WakeInv(Step(s, a))
  {
    CountSubMove(s, a.u, Step(s, a).subs[a.u]);
    if a.NotifyOne? {
      if a.waiter.Some? {
        CountMove(s, a.waiter.value, s.workers[a.waiter.value].(pc := Locking));
      } else {
        CountNone(s.workers, IsWaiting);
      }
    }
  }

  lemma CountsOfWorker(s: Pool, a: Action)
    requires OfWorker(a)
    requires PcInv(s) && Enabled(s, a) && CountInv(s) && WakeInv(s)
    ensures CountInv(Step(s, a)) && WakeInv(Step(s, a))
  {
    var s' := Step(s, a);
    CountMove(s, a.w, s'.workers[a.w]);
    assert s'.workers == s.workers[a.w := s'.workers[a.w]];
    assert s'.subs == s.subs;
  }

  lemma CountsOfControl(s: Pool, a: Action)
    requires OfController(a)
    requires PcInv(s) && Enabled(s, a) && CountInv(s) && WakeInv(s)
    ensures CountInv(Step(s, a)) && WakeInv(Step(s, a))
  {
    var s' := Step(s, a);
    if a.Stop? || a.NotifyAll? {
      CountSame(s.workers, s'.workers, IsTaken);
    } else if a.Join? {
      CountNone(s.workers, IsTaken);
      CountNone(s'.workers, IsTaken);
      CountNone(s'.workers, IsWaiting);
    } else if s.ctrl.left > 0 {
      var k := FreshId(s.workers);
      CountAdded(s.workers, k, Worker(Top, 0), IsTaken);
      CountAdded(s.workers, k, Worker(Top, 0), IsAwake);
      CountAdded(s.workers, k, Worker(Top, 0), IsWaiting);
    }
  }

  /** Every step, spurious wake-ups, exceptions, stops and resizes included, keeps the invariant. */
  lemma StepKeepsInv(s: Pool, a: Action)
    requires Inv(s) && Enabled(s, a)
    ensures Inv(Step(s, a))
  {
    LockStep(s, a);
    PcStep(s, a);
    StopStep(s, a);
    TaskStep(s, a);
    if OfSubmitter(a) {
      CountsOfSubmit(s, a);
    } else if OfController(a) {
      CountsOfControl(s, a);
    } else {
      CountsOfWorker(s, a);
    }
  }

  // ---------- runs ----------

  /** A new pool about to start its workers, and some threads that may submit. */
  function Init(threads: nat, subs: set<nat>): Pool {
    Pool([], 0, {}, 0, true, Nobody, map[], map u | u in subs :: Idle, Spawning(threads), false)
  }

  /** The steps of run can be taken one after the other from s. */
  predicate Possible(s: Pool, run: seq<Action>)
    decreases |run|
  {
    run == [] || (Enabled(s, run[0]) && Possible(Step(s, run[0]), run[1..]))
  }

  function RunFrom(s: Pool, run: seq<Action>): Pool
    requires Possible(s, run)
    decreases |run|
  {
    if run == [] then s else RunFrom(Step(s, run[0]), run[1..])
  }

  /** s is reached from a new pool by the given steps. */
  predicate Reaches(threads: nat, subs: set<nat>, run: seq<Action>, s: Pool) {
    Possible(Init(threads, subs), run) && RunFrom(Init(threads, subs), run) == s
  }

  lemma InitInv(threads: nat, subs: set<nat>)
    ensures Inv(Init(threads, subs))
  {
    var s := Init(threads, subs);
    CountNone(s.workers, IsTaken);
    CountNone(s.workers, IsWaiting);
    CountNone(s.subs, IsUncounted);
  }

  lemma {:induction false} RunKeepsInv(s: Pool, run: seq<Action>)
    requires Inv(s) && Possible(s, run)
    ensures Inv(RunFrom(s, run))
    decreases |run|
  {
    if run != [] {
      StepKeepsInv(s, run[0]);
      RunKeepsInv(Step(s, run[0]), run[1..]);
    }
  }

  lemma ReachableInv(threads: nat, subs: set<nat>, run: seq<Action>, s: Pool)
    requires Reaches(threads, subs, run, s)
    ensures Inv(s)
  {
    InitInv(threads, subs);
    RunKeepsInv(Init(threads, subs), run);
  }

  /** In every reachable running state with a blocked worker, every queued task is covered by a
      notification still to come or by an awake worker that is not running a task. */
  lemma NoLostWakeup(threads: nat, subs: set<nat>, run: seq<Action>, s: Pool, blocked: nat)
    requires Reaches(threads, subs, run, s)
    requires s.running && At(s, blocked, Waiting)
    ensures |s.queue| <= Count(s.subs, IsPending) + Count(s.workers, IsAwake)
  {
    ReachableInv(threads, subs, run, s);
    CountPositive(s.workers, blocked, IsWaiting);
  }

  /** Every submitted task is queued, or being run by exactly one worker, or done: exactly one of the
      three. Tasks start in the order of submission, and no worker ever pops an empty queue. */
  lemma EveryTaskExactlyOnce(threads: nat, subs: set<nat>, run: seq<Action>, s: Pool, t: nat)
    requires Reaches(threads, subs, run, s)
    requires t < s.submitted
    ensures !s.crashed
    ensures t in s.queue <==> t >= Started(s)
    ensures t in s.done ==> t !in s.queue && forall w: nat :: !Runs(s, w, t)
    ensures t !in s.done && t !in s.queue ==>
            exists w: nat :: Runs(s, w, t) && forall x: nat :: Runs(s, x, t) ==> x == w
    ensures (exists w: nat :: Runs(s, w, t)) ==> t !in s.queue && t !in s.done
  {
    ReachableInv(threads, subs, run, s);
    if t >= Started(s) {
      assert s.queue[t - Started(s)] == t;
    }
  }

  /** The counter is the number of tasks queued or taken and not yet counted down, less one while a
      submitting thread stands between its push and its increment; it never goes below zero, so the
      unsigned counter never wraps. */
  lemma ActiveCountsTasks(threads: nat, subs: set<nat>, run: seq<Action>, s: Pool)
    requires Reaches(threads, subs, run, s)
    ensures s.active == |s.queue| + Count(s.workers, IsTaken) - Count(s.subs, IsUncounted)
    ensures Count(s.subs, IsUncounted) <= 1
    ensures s.active >= 0
  {
    ReachableInv(threads, subs, run, s);
    var uncounted := Where(s.subs, IsUncounted);
    if uncounted != {} {
      var u :| u in uncounted;
      assert uncounted == {u};
    }
  }

  /** When waitForCompletion reads zero and no thread is inside submit, every submitted task is done. */
  lemma WaitMeansAllRan(threads: nat, subs: set<nat>, run: seq<Action>, s: Pool)
    requires Reaches(threads, subs, run, s)
    requires s.active == 0 && forall u :: u in s.subs ==> s.subs[u] == Idle
    ensures forall t: nat :: t < s.submitted <==> t in s.done
  {
    ReachableInv(threads, subs, run, s);
    CountNone(s.subs, IsUncounted);
    forall t: nat | t < s.submitted
      ensures t in s.done
    {
      if t !in s.done {
        var w: nat :| Runs(s, w, t);
        CountPositive(s.workers, w, IsTaken);
        assert false;
      }
    }
  }

  /** After running is set to false each worker starts at most one more task. */
  lemma AtMostOneLateTask(threads: nat, subs: set<nat>, run: seq<Action>, s: Pool, w: nat)
    requires Reaches(threads, subs, run, s)
    requires !s.running && w in s.workers
    ensures s.workers[w].late <= 1
  {
    ReachableInv(threads, subs, run, s);
  }

  /** Once all workers have been joined, the counter is the number of tasks left in the queue, so a
      later waitForCompletion returns only if nothing was left. */
  lemma JoinedLeavesQueue(threads: nat, subs: set<nat>, run: seq<Action>, s: Pool)
    requires Reaches(threads, subs, run, s)
    requires AllExited(s) && forall u :: u in s.subs ==> s.subs[u] != Pushed
    ensures s.active == |s.queue|
    ensures forall t: nat :: t < s.submitted ==> t in s.queue || t in s.done
  {
    ReachableInv(threads, subs, run, s);
    CountNone(s.workers, IsTaken);
    CountNone(s.subs, IsUncounted);
    forall t: nat | t < s.submitted
      ensures t in s.queue || t in s.done
    {
      if t >= Started(s) {
        assert s.queue[t - Started(s)] == t;
      }
    }
  }

  // ---------- the number of workers ----------

  /** The number of workers last asked for: that of the last resize in the run, or else the given one. */
  function Asked(threads: nat, run: seq<Action>): nat
    decreases |run|
  {
    if run == [] then threads
    else Asked(if run[0].Stop? && run[0].next.Resize? then run[0].next.threads else threads, run[1..])
  }

  /** Whether the pool was last asked to run: unless the last stop in the run was not part of a resize. */
  function AskedToRun(runs: bool, run: seq<Action>): bool
    decreases |run|
  {
    if run == [] then runs else AskedToRun(if run[0].Stop? then run[0].next.Resize? else runs, run[1..])
  }

  /** What the controlling thread has still to do brings the pool to what was asked for. */
  ghost predicate SizeInv(s: Pool, asked: nat, runs: bool) {
    match s.ctrl
    case Free => |s.workers| == asked && s.running == runs
    case Announcing(JustStop) => |s.workers| == asked && !runs
    case Joining(JustStop) => |s.workers| == asked && !runs
    case Announcing(Resize(n)) => n == asked && runs
    case Joining(Resize(n)) => n == asked && runs
    case Spawning(left) => |s.workers| + left == asked && runs
  }

  lemma OthersKeepSize(s: Pool, a: Action)
    requires Enabled(s, a) && !OfController(a)
    ensures |Step(s, a).workers| == |s.workers| && Step(s, a).ctrl == s.ctrl && Step(s, a).running == s.running
  {
    assert Step(s, a).workers.Keys == s.workers.Keys;
    assert |Step(s, a).workers| == |Step(s, a).workers.Keys| && |s.workers| == |s.workers.Keys|;
  }

  lemma SizeStep(s: Pool, a: Action, asked: nat, runs: bool)
    requires PcInv(s) && Enabled(s, a) && SizeInv(s, asked, runs)
    ensures SizeInv(Step(s, a), Asked(asked, [a]), AskedToRun(runs, [a]))
  {
    assert [a][1..] == [];
    if !OfController(a) {
      OthersKeepSize(s, a);
    } else if a.Stop? || a.NotifyAll? {
      assert Step(s, a).workers.Keys == s.workers.Keys;
      assert |Step(s, a).workers| == |Step(s, a).workers.Keys| && |s.workers| == |s.workers.Keys|;
    }
  }

  lemma {:induction false} RunKeepsSize(s: Pool, run: seq<Action>, asked: nat, runs: bool)
    requires Inv(s) && Possible(s, run) && SizeInv(s, asked, runs)
    ensures SizeInv(RunFrom(s, run), Asked(asked, run), AskedToRun(runs, run))
    decreases |run|
  {
    if run != [] {
      StepKeepsInv(s, run[0]);
      SizeStep(s, run[0], asked, runs);
      AskedFirst(asked, runs, run);
      RunKeepsSize(Step(s, run[0]), run[1..], Asked(asked, [run[0]]), AskedToRun(runs, [run[0]]));
    }
  }

  lemma AskedFirst(asked: nat, runs: bool, run: seq<Action>)
    requires run != []
    ensures Asked(asked, run) == Asked(Asked(asked, [run[0]]), run[1..])
    ensures AskedToRun(runs, run) == AskedToRun(AskedToRun(runs, [run[0]]), run[1..])
  {
    assert [run[0]][1..] == [];
  }

  /** In every reachable state in which no stop or resize is under way, the pool has exactly the workers last
      asked for, and runs exactly if it was last asked to; while it starts its workers, those started and
      those to come are as many. */
  lemma AskedSize(threads: nat, subs: set<nat>, run: seq<Action>, s: Pool)
    requires Reaches(threads, subs, run, s)
    ensures s.ctrl == Free ==> |s.workers| == Asked(threads, run) && (s.running <==> AskedToRun(true, run))
    ensures s.ctrl.Spawning? ==> |s.workers| + s.ctrl.left == Asked(threads, run) && s.running
  {
    InitInv(threads, subs);
    RunKeepsSize(Init(threads, subs), run, threads, true);
    ReachableInv(threads, subs, run, s);
  }

  /** setThreadCount does something if and only if it asks for another number of workers than was last asked for. */
  lemma ResizeIff(threads: nat, subs: set<nat>, run: seq<Action>, s: Pool, n: nat)
    requires Reaches(threads, subs, run, s) && s.ctrl == Free
    ensures Enabled(s, Stop(Resize(n))) <==> n != Asked(threads, run)
  {
    AskedSize(threads, subs, run, s);
  }

  // ---------- the order in which tasks end ----------

  /** The tasks that end during the run, in the order in which they end. */
  function Ended(s: Pool, run: seq<Action>): seq<nat>
    requires Possible(s, run)
    decreases |run|
  {
    if run == [] then []
    else (if run[0].Finish? then [s.workers[run[0].w].pc.task] else []) + Ended(Step(s, run[0]), run[1..])
  }

  predicate NoneTwice(ts: seq<nat>) {
    forall i, j :: 0 <= i < j < |ts| ==> ts[i] != ts[j]
  }

  /** No task ends twice, and those that end are exactly those newly done. */
  lemma {:induction false} EndedOnce(s: Pool, run: seq<Action>)
    requires Inv(s) && Possible(s, run)
    ensures NoneTwice(Ended(s, run))
    ensures forall t :: t in Ended(s, run) <==> t in RunFrom(s, run).done && t !in s.done
    ensures s.done <= RunFrom(s, run).done
    decreases |run|
  {
    if run != [] {
      var s' := Step(s, run[0]);
      StepKeepsInv(s, run[0]);
      EndedOnce(s', run[1..]);
      if run[0].Finish? {
        assert Runs(s, run[0].w, s.workers[run[0].w].pc.task);
      }
    }
  }

  // ---------- stop and a worker that is about to block ----------

  predicate NoneBlocking(s: Pool) {
    forall w :: w in s.workers ==> s.workers[w].pc != Blocking
  }

  predicate WithoutJoin(run: seq<Action>) {
    forall a :: a in run ==> !a.Join?
  }

  lemma {:induction false} QuietRun(s: Pool, run: seq<Action>)
    requires s.ctrl.Joining? && !s.running && NoneWaiting(s) && NoneBlocking(s)
    requires Possible(s, run) && WithoutJoin(run)
    ensures NoneWaiting(RunFrom(s, run))
    decreases |run|
  {
    if run != [] {
      QuietRun(Step(s, run[0]), run[1..]);
    }
  }

  /** No worker is found blocked in s or later, until stop has joined them all. */
  ghost predicate AllAwakeFrom(s: Pool) {
    forall run :: WithoutJoin(run) && Possible(s, run) ==> NoneWaiting(RunFrom(s, run))
  }

  lemma BlockingWillWait(s: Pool, w: nat)
    requires At(s, w, Blocking)
    ensures !AllAwakeFrom(s)
  {
    var run := [Block(w)];
    var s' := Step(s, Block(w));
    RunEnds(s, run, s');
    assert At(s', w, Waiting);
    assert !NoneWaiting(RunFrom(s, run));
  }

  /** running is set to false and announced without the mutex. The announcement reaches every worker for
      good, so that none is found blocked while stop joins, exactly when no worker stood between
      evaluating the wait's predicate and blocking. */
  lemma StopReachesAllIffNoneBlocking(s: Pool)
    requires Inv(s) && Enabled(s, NotifyAll)
    ensures AllAwakeFrom(Step(s, NotifyAll)) <==> NoneBlocking(s)
  {
    var s' := Step(s, NotifyAll);
    if NoneBlocking(s) {
      forall run | WithoutJoin(run) && Possible(s', run)
        ensures NoneWaiting(RunFrom(s', run))
      {
        QuietRun(s', run);
      }
    } else {
      var w :| w in s.workers && s.workers[w].pc == Blocking;
      BlockingWillWait(s', w);
    }
  }

  /** A pool with one worker, no submitters and nothing submitted. */
  function Lone(pc: Pc, running: bool, lock: Holder, ctrl: Ctrl): Pool {
    Pool([], 0, {}, 0, running, lock, map[0 := Worker(pc, 0)], map[], ctrl, false)
  }

  lemma LoneUp()
    ensures
      var run := [Spawn, Spawn, TestRunning(0), Acquire(0), Evaluate(0)];
      Possible(Init(1, {}), run) && RunFrom(Init(1, {}), run) == Lone(Blocking, true, ByWorker(0), Free)
  {
    var s0, s1, s2 := Init(1, {}), Lone(Top, true, Nobody, Spawning(0)), Lone(Top, true, Nobody, Free);
    LoneSpawned();
    LoneEvaluates();
    RunCons(s1, Spawn, [TestRunning(0), Acquire(0), Evaluate(0)], Lone(Blocking, true, ByWorker(0), Free));
    RunCons(s0, Spawn, [Spawn, TestRunning(0), Acquire(0), Evaluate(0)], Lone(Blocking, true, ByWorker(0), Free));
  }

  lemma LoneSpawned()
    ensures
      var s1 := Lone(Top, true, Nobody, Spawning(0));
      && Enabled(Init(1, {}), Spawn) && Step(Init(1, {}), Spawn) == s1
      && Enabled(s1, Spawn) && Step(s1, Spawn) == Lone(Top, true, Nobody, Free)
  {
    assert FreshId(map[]) == 0;
  }

  lemma LoneEvaluates()
    ensures
      var s := Lone(Top, true, Nobody, Free);
      var run := [TestRunning(0), Acquire(0), Evaluate(0)];
      Possible(s, run) && RunFrom(s, run) == Lone(Blocking, true, ByWorker(0), Free)
  {
    var s2, s3 := Lone(Top, true, Nobody, Free), Lone(Locking, true, Nobody, Free);
    var s4, s5 := Lone(Checking, true, ByWorker(0), Free), Lone(Blocking, true, ByWorker(0), Free);
    assert Step(s2, TestRunning(0)) == s3 && Step(s3, Acquire(0)) == s4 && Step(s4, Evaluate(0)) == s5;
    RunEnds(s4, [Evaluate(0)], s5);
    RunCons(s3, Acquire(0), [Evaluate(0)], s5);
    RunCons(s2, TestRunning(0), [Acquire(0), Evaluate(0)], s5);
  }

  lemma LoneDown()
    ensures
      var s := Lone(Blocking, true, ByWorker(0), Free);
      var run := [Stop(JustStop), NotifyAll, Block(0)];
      Possible(s, run) && RunFrom(s, run) == Lone(Waiting, false, Nobody, Joining(JustStop))
  {
    var s0, s1 := Lone(Blocking, true, ByWorker(0), Free), Lone(Blocking, false, ByWorker(0), Announcing(JustStop));
    var s2 := Lone(Blocking, false, ByWorker(0), Joining(JustStop));
    var s3 := Lone(Waiting, false, Nobody, Joining(JustStop));
    LoneStops();
    RunEnds(s2, [Block(0)], s3);
    RunCons(s1, NotifyAll, [Block(0)], s3);
    RunCons(s0, Stop(JustStop), [NotifyAll, Block(0)], s3);
  }

  lemma LoneStops()
    ensures
      var s0, s1 := Lone(Blocking, true, ByWorker(0), Free), Lone(Blocking, false, ByWorker(0), Announcing(JustStop));
      var s2 := Lone(Blocking, false, ByWorker(0), Joining(JustStop));
      var s3 := Lone(Waiting, false, Nobody, Joining(JustStop));
      && Enabled(s0, Stop(JustStop)) && Step(s0, Stop(JustStop)) == s1
      && Enabled(s1, NotifyAll) && Step(s1, NotifyAll) == s2
      && Enabled(s2, Block(0)) && Step(s2, Block(0)) == s3
  {
  }

  lemma {:induction false} RunAppend(s: Pool, a: seq<Action>, b: seq<Action>)
    requires Possible(s, a) && Possible(RunFrom(s, a), b)
    ensures Possible(s, a + b) && RunFrom(s, a + b) == RunFrom(RunFrom(s, a), b)
    decreases |a|
  {
    if a == [] {
      assert a + b == b;
    } else {
      assert (a + b)[1..] == a[1..] + b;
      RunAppend(Step(s, a[0]), a[1..], b);
    }
  }

  /** The run in which that goes wrong: the only worker blocks after the announcement, and from then on
      nothing but a spurious wake-up can happen, so stop returns only if there is one. */
  lemma StopCanMissAWorker()
    ensures
      var up := [Spawn, Spawn, TestRunning(0), Acquire(0), Evaluate(0)];
      var down := [Stop(JustStop), NotifyAll, Block(0)];
      var s := Lone(Waiting, false, Nobody, Joining(JustStop));
      Reaches(1, {}, up + down, s) && forall a :: Enabled(s, a) ==> a == Spurious(0)
  {
    LoneUp();
    LoneDown();
    RunAppend(Init(1, {}), [Spawn, Spawn, TestRunning(0), Acquire(0), Evaluate(0)],
      [Stop(JustStop), NotifyAll, Block(0)]);
    OnlySpurious();
  }

  lemma OnlySpurious()
    ensures
      var s := Lone(Waiting, false, Nobody, Joining(JustStop));
      forall a :: Enabled(s, a) ==> a == Spurious(0)
  {
    var s := Lone(Waiting, false, Nobody, Joining(JustStop));
    assert At(s, 0, Waiting) && !AllExited(s);
  }

  lemma RunEnds(s: Pool, run: seq<Action>, end: Pool)
    requires |run| == 1 && Enabled(s, run[0]) && Step(s, run[0]) == end
    ensures Possible(s, run) && RunFrom(s, run) == end
  {
    assert run[1..] == [];
    assert Possible(end, []) && RunFrom(end, []) == end;
  }

  lemma RunCons(s: Pool, a: Action, rest: seq<Action>, end: Pool)
    requires Enabled(s, a) && Possible(Step(s, a), rest) && RunFrom(Step(s, a), rest) == end
    ensures Possible(s, [a] + rest) && RunFrom(s, [a] + rest) == end
  {
    assert ([a] + rest)[1..] == rest;
  }
}
