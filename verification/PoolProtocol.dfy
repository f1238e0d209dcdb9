/** Workers, callers of `threadpool_add` and the destroying thread, interleaved.  The mutex
    makes each critical section one step; `pthread_cond_wait` splits a worker's section. */
module PoolProtocol {
  import opened Ring
  import opened ThreadPool

  datatype Worker =
    | AtLock               // awake, about to (re)acquire the lock and test the queue
    | Asleep               // in pthread_cond_wait
    | Running(task: Task)  // outside the lock, executing
    | Exited

  datatype Destroyer =
    | NotStarted
    | Joining(i: nat)  // has published shutdown and joined the first i workers
    | Freed

  /** `accepted` records the tasks whose add returned 0, `started` the tasks taken. */
  datatype State = State(pool: Pool, workers: seq<Worker>, destroyer: Destroyer,
                         accepted: seq<Task>, started: seq<Task>)

  datatype Step =
    | Add(task: Task, wake: nat)  // `wake` is the sleeper the signal picks
    | Enter(w: nat)
    | Finish(w: nat)
    | SpuriousWakeup(w: nat)
    | Destroy
    | Join
    | Free

  /** The queue's slots start with whatever malloc returned. */
  ghost function Init(workers: nat, slots: seq<Task>): State {
    State(Pool(slots, 0, 0, 0, false), seq(workers, _ => AtLock), NotStarted, [], [])
  }

  ghost predicate SomeoneAsleep(ws: seq<Worker>) {
    exists w :: 0 <= w < |ws| && ws[w].Asleep?
  }

  /** A freed pool must not be used; a condition signal wakes a sleeper if there is one. */
  ghost predicate Enabled(s: State, step: Step) {
    s.pool.Valid() && !s.destroyer.Freed? &&
    match step
    case Add(t, wake) =>
      s.pool.Accepts(t) && SomeoneAsleep(s.workers) ==> wake < |s.workers| && s.workers[wake].Asleep?
    case Enter(w) => w < |s.workers| && s.workers[w].AtLock?
    case Finish(w) => w < |s.workers| && s.workers[w].Running?
    case SpuriousWakeup(w) => w < |s.workers| && s.workers[w].Asleep?
    case Destroy => true
    case Join => s.destroyer.Joining? && s.destroyer.i < |s.workers| && s.workers[s.destroyer.i].Exited?
    case Free => s.destroyer.Joining? && s.destroyer.i >= |s.workers|
  }

  ghost function WakeAll(ws: seq<Worker>): seq<Worker> {
    seq(|ws|, w requires 0 <= w < |ws| => if ws[w].Asleep? then AtLock else ws[w])
  }

  ghost function Next(s: State, step: Step): State
    requires Enabled(s, step)
  {
    match step
    case Add(t, wake) =>
      s.(pool := s.pool.Add(t),
         workers := if s.pool.Accepts(t) && SomeoneAsleep(s.workers) then s.workers[wake := AtLock] else s.workers,
         accepted := if s.pool.Accepts(t) then s.accepted + [t] else s.accepted)
    case Enter(w) =>
      (match s.pool.Decide()
       case Sleep => s.(workers := s.workers[w := Asleep])
       case Exit => s.(workers := s.workers[w := Exited])
       case Start(t) =>
         s.(pool := s.pool.AfterEnter(), workers := s.workers[w := Running(t)], started := s.started + [t]))
    case Finish(w) => s.(workers := s.workers[w := AtLock])
    case SpuriousWakeup(w) => s.(workers := s.workers[w := AtLock])
    case Destroy =>
      if s.pool.shutdown then s
      else s.(pool := s.pool.(shutdown := true), workers := WakeAll(s.workers), destroyer := Joining(0))
    case Join => s.(destroyer := Joining(s.destroyer.i + 1))
    case Free => s.(destroyer := Freed)
  }

  ghost predicate Run(s: State, steps: seq<Step>, t: State)
    decreases steps
  {
    if steps == [] then s == t
    else Enabled(s, steps[0]) && Run(Next(s, steps[0]), steps[1..], t)
  }

  // ---------- the invariant ----------

  /** Workers that are awake but not executing a task. */
  ghost function Awake(ws: seq<Worker>): nat {
    if ws == [] then 0 else Awake(ws[..|ws| - 1]) + if ws[|ws| - 1].AtLock? then 1 else 0
  }

  lemma {:induction false} AwakeUpdate(ws: seq<Worker>, w: nat, x: Worker)
    requires w < |ws|
    ensures Awake(ws[w := x]) + (if ws[w].AtLock? then 1 else 0) == Awake(ws) + (if x.AtLock? then 1 else 0)
  {
    var last := |ws| - 1;
    if w < last {
      AwakeUpdate(ws[..last], w, x);
      assert ws[w := x][..last] == ws[..last][w := x];
    } else {
      assert ws[w := x][..last] == ws[..last];
    }
  }

  lemma {:induction false} AwakeZero(ws: seq<Worker>)
    ensures Awake(ws) == 0 <==> forall w :: 0 <= w < |ws| ==> !ws[w].AtLock?
  {
    if ws != [] {
      AwakeZero(ws[..|ws| - 1]);
      assert forall w :: 0 <= w < |ws| - 1 ==> ws[w] == ws[..|ws| - 1][w];
    }
  }

  /** The heart of the condition-variable protocol. */
  ghost predicate NoWakeupLost(s: State) {
    SomeoneAsleep(s.workers) ==> s.pool.count <= Awake(s.workers)
  }

  ghost predicate Inv(s: State) {
    && s.pool.Valid()
    && s.accepted == s.started + s.pool.Contents()
    && (s.pool.shutdown <==> !s.destroyer.NotStarted?)
    && (!s.pool.shutdown ==> NoWakeupLost(s) && forall w :: 0 <= w < |s.workers| ==> !s.workers[w].Exited?)
    && (s.pool.shutdown ==> !SomeoneAsleep(s.workers))
    && (s.destroyer.Joining? ==> s.destroyer.i <= |s.workers|)
    && (forall w :: 0 <= w < |s.workers| && (s.destroyer.Freed? || (s.destroyer.Joining? && w < s.destroyer.i))
          ==> s.workers[w].Exited?)
  }

  lemma AddKeepsInv(s: State, step: Step)
    requires Inv(s) && Enabled(s, step) && step.Add?
    ensures Inv(Next(s, step))
  {
    AddAppends(s.pool, step.task);
    if s.pool.Accepts(step.task) && SomeoneAsleep(s.workers) {
      AwakeUpdate(s.workers, step.wake, AtLock);
    }
  }

  lemma EnterKeepsInv(s: State, w: nat)
    requires Inv(s) && Enabled(s, Enter(w))
    ensures Inv(Next(s, Enter(w)))
  {
    var t := Next(s, Enter(w));
    EnterKeepsOrder(s, w);
    AwakeUpdate(s.workers, w, t.workers[w]);
    if s.pool.Decide().Start? { assert SomeoneAsleep(t.workers) ==> SomeoneAsleep(s.workers); }
  }

  lemma EnterKeepsOrder(s: State, w: nat)
    requires Inv(s) && Enabled(s, Enter(w))
    ensures var t := Next(s, Enter(w));
            t.pool.Valid() && t.accepted == t.started + t.pool.Contents()
  {
    var t := Next(s, Enter(w));
    StartTakesOldest(s.pool);
    if s.pool.Decide().Start? {
      Regroup(s.started, [s.pool.Decide().task], t.pool.Contents());
    }
  }

  lemma StepKeepsInv(s: State, step: Step)
    requires Inv(s) && Enabled(s, step)
    ensures Inv(Next(s, step))
  {
    match step
    case Add(_, _) => AddKeepsInv(s, step);
    case Enter(w) => EnterKeepsInv(s, w);
    case Finish(w) =>
      AwakeUpdate(s.workers, w, AtLock);
      assert SomeoneAsleep(Next(s, step).workers) ==> SomeoneAsleep(s.workers);
    case SpuriousWakeup(w) =>
      AwakeUpdate(s.workers, w, AtLock);
      assert SomeoneAsleep(Next(s, step).workers) ==> SomeoneAsleep(s.workers);
    case Destroy =>
    case Join =>
    case Free =>
  }

  lemma {:induction false} RunKeepsInv(s: State, steps: seq<Step>, t: State)
    requires Inv(s) && Run(s, steps, t)
    ensures Inv(t) && |t.workers| == |s.workers| && |t.pool.slots| == |s.pool.slots|
    decreases steps
  {
    if steps != [] {
      StepKeepsInv(s, steps[0]);
      RunKeepsInv(Next(s, steps[0]), steps[1..], t);
    }
  }

  // ---------- what every run guarantees ----------

  /** No lost wakeup, for every interleaving of adds, takes, finishes and spurious wakeups. */
  lemma NoLostWakeup(n: nat, slots: seq<Task>, steps: seq<Step>, s: State)
    requires slots != [] && Run(Init(n, slots), steps, s)
    requires !s.pool.shutdown && SomeoneAsleep(s.workers)
    ensures s.pool.count <= Awake(s.workers)
  {
    RunKeepsInv(Init(n, slots), steps, s);
  }

  /** If no worker is awake or running before shutdown, every accepted task has started. */
  lemma AllAsleepMeansAllStarted(n: nat, slots: seq<Task>, steps: seq<Step>, s: State)
    requires 0 < n && slots != [] && Run(Init(n, slots), steps, s) && !s.pool.shutdown
    requires forall w :: 0 <= w < |s.workers| ==> !s.workers[w].AtLock? && !s.workers[w].Running?
    ensures s.started == s.accepted
  {
    RunKeepsInv(Init(n, slots), steps, s);
    assert s.workers[0].Asleep?;
    AwakeZero(s.workers);
  }

  /** The tasks of the run's adds that return 0, in order. */
  ghost function AddsReturningZero(s: State, steps: seq<Step>, t: State): seq<Task>
    requires Run(s, steps, t)
    decreases steps
  {
    if steps == [] then []
    else AddReturningZero(s, steps[0]) + AddsReturningZero(Next(s, steps[0]), steps[1..], t)
  }

  ghost function AddReturningZero(s: State, step: Step): seq<Task>
    requires Enabled(s, step)
  {
    if step.Add? && s.pool.Accepts(step.task) then [step.task] else []
  }

  lemma AcceptedByStep(s: State, step: Step)
    requires Enabled(s, step)
    ensures Next(s, step).accepted == s.accepted + AddReturningZero(s, step)
  {
  }

  lemma Regroup(a: seq<Task>, b: seq<Task>, c: seq<Task>)
    ensures a + b + c == a + (b + c)
    ensures a + [] == a
  {
  }

  lemma {:induction false} AcceptedIsAddsReturningZero(s: State, steps: seq<Step>, t: State)
    requires Run(s, steps, t)
    ensures t.accepted == s.accepted + AddsReturningZero(s, steps, t)
    decreases steps
  {
    if steps == [] {
      Regroup(s.accepted, [], []);
    } else {
      var next, rest := Next(s, steps[0]), steps[1..];
      AcceptedByStep(s, steps[0]);
      AcceptedIsAddsReturningZero(next, rest, t);
      Regroup(s.accepted, AddReturningZero(s, steps[0]), AddsReturningZero(next, rest, t));
    }
  }

  /** Tasks start in the order they were accepted and each at most once; what has not started
      is in the ring. */
  lemma StartedInOrderOnce(n: nat, slots: seq<Task>, steps: seq<Step>, s: State)
    requires slots != [] && Run(Init(n, slots), steps, s)
    ensures s.pool.Valid() && s.pool.tail == (s.pool.head + s.pool.count) % |slots|
    ensures s.started + s.pool.Contents() == AddsReturningZero(Init(n, slots), steps, s)
  {
    RunKeepsInv(Init(n, slots), steps, s);
    AcceptedIsAddsReturningZero(Init(n, slots), steps, s);
    SlotIsModular(s.pool.head, s.pool.count, |slots|);
  }

  // ---------- what the steps do to the workers ----------

  /** A worker that gets the lock starts the oldest task, sleeps on an empty ring, or leaves a
      pool that is shutting down; nobody else changes state. */
  lemma EnterIsExact(s: State, w: nat)
    requires Inv(s) && w < |s.workers| && s.workers[w].AtLock? && !s.destroyer.Freed?
    ensures Enabled(s, Enter(w))
    ensures var t := Next(s, Enter(w));
            && |t.workers| == |s.workers| && t.destroyer == s.destroyer && t.accepted == s.accepted
            && (forall v :: 0 <= v < |s.workers| && v != w ==> t.workers[v] == s.workers[v])
            && (if s.pool.shutdown then t.workers[w].Exited? && t.pool == s.pool && t.started == s.started
                else if s.pool.Contents() == [] then t.workers[w].Asleep? && t.pool == s.pool && t.started == s.started
                else
                  var task := s.pool.Contents()[0];
                  && t.workers[w] == Running(task) && t.started == s.started + [task]
                  && t.pool.Valid() && t.pool.Contents() == s.pool.Contents()[1..])
  {
    StartTakesOldest(s.pool);
  }

  /** An accepted add wakes at most one sleeper, the one the signal picks; a refused one
      changes nothing. */
  lemma AddIsExact(s: State, task: Task, wake: nat)
    requires Inv(s) && Enabled(s, Add(task, wake))
    ensures var t := Next(s, Add(task, wake));
            if task.func == 0 || s.pool.shutdown || |s.pool.Contents()| == |s.pool.slots| then t == s
            else
              && t.pool.Valid() && t.pool.Contents() == s.pool.Contents() + [task]
              && t.accepted == s.accepted + [task] && t.started == s.started && t.destroyer == s.destroyer
              && |t.workers| == |s.workers|
              && forall v :: 0 <= v < |s.workers| ==>
                   t.workers[v] == if v == wake && s.workers[v].Asleep? then AtLock else s.workers[v]
  {
    AddAppends(s.pool, task);
  }

  /** Until the pool is freed no worker is stuck outside the lock, and callers can always
      call: a running task can finish, a sleeper can be woken spuriously. */
  lemma ThreadsCanMove(s: State, task: Task)
    requires Inv(s) && !s.destroyer.Freed?
    ensures forall w :: 0 <= w < |s.workers| ==>
              && (s.workers[w].Running? ==> Enabled(s, Finish(w)) && Next(s, Finish(w)).workers[w].AtLock?)
              && (s.workers[w].Asleep? ==>
                    Enabled(s, SpuriousWakeup(w)) && Next(s, SpuriousWakeup(w)).workers[w].AtLock?)
    ensures exists wake :: Enabled(s, Add(task, wake))
    ensures Enabled(s, Destroy) && Next(s, Destroy).pool.shutdown
  {
    if SomeoneAsleep(s.workers) {
      var w :| 0 <= w < |s.workers| && s.workers[w].Asleep?;
      assert Enabled(s, Add(task, w));
    } else {
      assert Enabled(s, Add(task, 0));
    }
  }

  // ---------- every started task is run by one worker ----------

  ghost function Occurrences(ts: seq<Task>, x: Task): nat {
    if ts == [] then 0 else Occurrences(ts[..|ts| - 1], x) + if ts[|ts| - 1] == x then 1 else 0
  }

  /** How many workers are running `x`. */
  ghost function RunningCount(ws: seq<Worker>, x: Task): nat {
    if ws == [] then 0 else RunningCount(ws[..|ws| - 1], x) + if Runs(ws[|ws| - 1], x) then 1 else 0
  }

  ghost predicate Runs(w: Worker, x: Task) { w == Running(x) }

  lemma {:induction false} RunningUpdate(ws: seq<Worker>, w: nat, v: Worker, x: Task)
    requires w < |ws|
    ensures RunningCount(ws[w := v], x) + (if Runs(ws[w], x) then 1 else 0)
            == RunningCount(ws, x) + (if Runs(v, x) then 1 else 0)
  {
    var last := |ws| - 1;
    if w < last {
      RunningUpdate(ws[..last], w, v, x);
      assert ws[w := v][..last] == ws[..last][w := v];
    } else {
      assert ws[w := v][..last] == ws[..last];
    }
  }

  lemma {:induction false} NothingRuns(ws: seq<Worker>, x: Task)
    requires forall w :: 0 <= w < |ws| ==> !ws[w].Running?
    ensures RunningCount(ws, x) == 0
  {
    if ws != [] { NothingRuns(ws[..|ws| - 1], x); }
  }

  lemma {:induction false} WakingKeepsRunning(ws: seq<Worker>, x: Task)
    ensures RunningCount(WakeAll(ws), x) == RunningCount(ws, x)
  {
    if ws != [] {
      WakingKeepsRunning(ws[..|ws| - 1], x);
      assert WakeAll(ws)[..|ws| - 1] == WakeAll(ws[..|ws| - 1]);
    }
  }

  /** How often a worker returns from `x` during a run. */
  ghost function Finished(s: State, steps: seq<Step>, t: State, x: Task): nat
    requires Run(s, steps, t)
    decreases steps
  {
    if steps == [] then 0
    else FinishedBy(s, steps[0], x) + Finished(Next(s, steps[0]), steps[1..], t, x)
  }

  ghost function FinishedBy(s: State, step: Step, x: Task): nat
    requires Enabled(s, step)
  {
    if step.Finish? && Runs(s.workers[step.w], x) then 1 else 0
  }

  lemma ExecutionStep(s: State, step: Step, x: Task)
    requires Enabled(s, step)
    ensures var t := Next(s, step);
            Occurrences(t.started, x) + RunningCount(s.workers, x)
            == Occurrences(s.started, x) + RunningCount(t.workers, x) + FinishedBy(s, step, x)
  {
    var t := Next(s, step);
    match step
    case Add(task, wake) =>
      if s.pool.Accepts(task) && SomeoneAsleep(s.workers) { RunningUpdate(s.workers, wake, AtLock, x); }
    case Enter(w) => RunningUpdate(s.workers, w, t.workers[w], x);
    case Finish(w) => RunningUpdate(s.workers, w, AtLock, x);
    case SpuriousWakeup(w) => RunningUpdate(s.workers, w, AtLock, x);
    case Destroy => WakingKeepsRunning(s.workers, x);
    case Join =>
    case Free =>
  }

  lemma {:induction false} ExecutionAlongRun(s: State, steps: seq<Step>, t: State, x: Task)
    requires Run(s, steps, t)
    ensures Occurrences(t.started, x) + RunningCount(s.workers, x)
            == Occurrences(s.started, x) + RunningCount(t.workers, x) + Finished(s, steps, t, x)
    decreases steps
  {
    if steps != [] {
      ExecutionStep(s, steps[0], x);
      ExecutionAlongRun(Next(s, steps[0]), steps[1..], t, x);
    }
  }

  /** Each start of a task is with exactly one worker until that worker has finished it. */
  lemma StartedIsRunningOrFinished(n: nat, slots: seq<Task>, steps: seq<Step>, s: State, x: Task)
    requires slots != [] && Run(Init(n, slots), steps, s)
    ensures Occurrences(s.started, x) == RunningCount(s.workers, x) + Finished(Init(n, slots), steps, s, x)
  {
    ExecutionAlongRun(Init(n, slots), steps, s, x);
    NothingRuns(Init(n, slots).workers, x);
  }

  // ---------- shutdown ----------

  /** Once shutdown is published nothing more is accepted or started, and nobody sleeps. */
  lemma {:induction false} ShutdownFreezesQueue(s: State, steps: seq<Step>, t: State)
    requires Inv(s) && s.pool.shutdown && Run(s, steps, t)
    ensures t.pool == s.pool && t.accepted == s.accepted && t.started == s.started
    ensures !SomeoneAsleep(t.workers)
    decreases steps
  {
    if steps != [] {
      StepKeepsInv(s, steps[0]);
      ShutdownFreezesQueue(Next(s, steps[0]), steps[1..], t);
    }
  }

  /** Memory is released only after every worker has left. */
  lemma FreedAfterAllExited(n: nat, slots: seq<Task>, steps: seq<Step>, s: State)
    requires slots != [] && Run(Init(n, slots), steps, s) && s.destroyer.Freed?
    ensures |s.workers| == n && forall w :: 0 <= w < n ==> s.workers[w].Exited?
  {
    RunKeepsInv(Init(n, slots), steps, s);
  }

  /** While the destroyer is joining, adds and a second destroy change nothing at all. */
  lemma CallsRefusedWhileJoining(s: State, step: Step)
    requires Inv(s) && Enabled(s, step) && s.pool.shutdown && (step.Add? || step.Destroy?)
    ensures Next(s, step) == s
  {
  }

  ghost function WorkerWork(w: Worker): nat {
    match w
    case Asleep => 0
    case Exited => 0
    case AtLock => 1
    case Running(_) => 2
  }

  ghost function WorkersWork(ws: seq<Worker>): nat {
    if ws == [] then 0 else WorkersWork(ws[..|ws| - 1]) + WorkerWork(ws[|ws| - 1])
  }

  lemma {:induction false} WorkersWorkUpdate(ws: seq<Worker>, w: nat, x: Worker)
    requires w < |ws|
    ensures WorkersWork(ws[w := x]) + WorkerWork(ws[w]) == WorkersWork(ws) + WorkerWork(x)
  {
    var last := |ws| - 1;
    if w < last {
      WorkersWorkUpdate(ws[..last], w, x);
      assert ws[w := x][..last] == ws[..last][w := x];
    } else {
      assert ws[w := x][..last] == ws[..last];
    }
  }

  ghost function ShutdownWork(s: State): int {
    WorkersWork(s.workers)
    + match s.destroyer
      case NotStarted => |s.workers| + 2
      case Joining(i) => |s.workers| - i + 1
      case Freed => 0
  }

  /** After shutdown every step of a worker or of the destroyer makes progress, and until the
      pool is freed one of them is possible. */
  lemma ShutdownProgress(s: State)
    requires Inv(s) && s.pool.shutdown && !s.destroyer.Freed?
    ensures forall step :: Enabled(s, step) && !step.Add? && !step.Destroy?
              ==> 0 <= ShutdownWork(Next(s, step)) < ShutdownWork(s)
    ensures exists step :: Enabled(s, step) && !step.Add? && !step.Destroy?
  {
    forall step | Enabled(s, step) && !step.Add? && !step.Destroy?
      ensures 0 <= ShutdownWork(Next(s, step)) < ShutdownWork(s)
    {
      if step.Enter? || step.Finish? {
        WorkersWorkUpdate(s.workers, step.w, Next(s, step).workers[step.w]);
      }
    }
    var i := s.destroyer.i;
    if i == |s.workers| {
      assert Enabled(s, Free);
    } else if s.workers[i].AtLock? {
      assert Enabled(s, Enter(i));
    } else if s.workers[i].Running? {
      assert Enabled(s, Finish(i));
    } else {
      assert Enabled(s, Join);
    }
  }

  predicate IsCall(step: Step) { step.Add? || step.Destroy? }

  /** Steps of workers and of the destroyer, refused calls not counted. */
  ghost function OwnSteps(steps: seq<Step>): nat {
    if steps == [] then 0 else (if IsCall(steps[0]) then 0 else 1) + OwnSteps(steps[1..])
  }

  /** Hence every run after shutdown that lets running tasks finish ends with a freed pool:
      whatever callers still try, such a run has boundedly many steps of workers and
      destroyer. */
  lemma {:induction false} ShutdownTerminates(s: State, steps: seq<Step>, t: State)
    requires Inv(s) && s.pool.shutdown && Run(s, steps, t)
    ensures OwnSteps(steps) + ShutdownWork(t) <= ShutdownWork(s) && 0 <= ShutdownWork(t)
    ensures (forall step :: Enabled(t, step) ==> IsCall(step)) ==> t.destroyer.Freed?
    decreases steps
  {
    if steps == [] {
      if !s.destroyer.Freed? { ShutdownProgress(s); }
    } else if IsCall(steps[0]) {
      CallsRefusedWhileJoining(s, steps[0]);
      ShutdownTerminates(s, steps[1..], t);
    } else {
      ShutdownProgress(s);
      StepKeepsInv(s, steps[0]);
      ShutdownTerminates(Next(s, steps[0]), steps[1..], t);
    }
  }

  /** At destroy, accepted = started ++ discarded, where the discarded tasks are exactly the
      ones in the ring when shutdown was published.  The header's promise that destroy waits
      for all tasks therefore holds if and only if the ring was empty at that moment. */
  lemma DestroyDiscardsQueue(n: nat, slots: seq<Task>, before: seq<Step>, s: State, after: seq<Step>, t: State)
    requires slots != [] && Run(Init(n, slots), before, s) && !s.pool.shutdown
    requires Enabled(s, Destroy) && Run(Next(s, Destroy), after, t) && t.destroyer.Freed?
    ensures s.pool.Valid() && t.accepted == t.started + s.pool.Contents()
    ensures t.started == t.accepted <==> s.pool.count == 0
  {
    RunKeepsInv(Init(n, slots), before, s);
    StepKeepsInv(s, Destroy);
    ShutdownFreezesQueue(Next(s, Destroy), after, t);
  }

  /** A task that was accepted and never runs: one worker, one add, destroy before the worker
      gets the lock. */
  lemma AcceptedTaskCanBeDiscarded(task: Task)
    requires task.func != 0
    ensures exists steps, s :: Run(Init(1, [task]), steps, s)
              && s.destroyer.Freed? && s.accepted == [task] && s.started == []
  {
    var steps, s := DiscardingRun(task);
  }

  lemma DiscardingRun(task: Task) returns (steps: seq<Step>, s: State)
    requires task.func != 0
    ensures Run(Init(1, [task]), steps, s)
    ensures s.destroyer.Freed? && s.accepted == [task] && s.started == []
  {
    var s0 := Init(1, [task]);
    var s1 := Next(s0, Add(task, 0));
    var s2 := Next(s1, Destroy);
    var s3 := Next(s2, Enter(0));
    var s4 := Next(s3, Join);
    var s5 := Next(s4, Free);
    RunStep(s4, Free, [], s5);
    RunStep(s3, Join, [Free], s5);
    RunStep(s2, Enter(0), [Join, Free], s5);
    RunStep(s1, Destroy, [Enter(0), Join, Free], s5);
    RunStep(s0, Add(task, 0), [Destroy, Enter(0), Join, Free], s5);
    steps, s := [Add(task, 0)] + [Destroy, Enter(0), Join, Free], s5;
  }

  lemma RunStep(s: State, step: Step, rest: seq<Step>, t: State)
    requires Enabled(s, step) && Run(Next(s, step), rest, t)
    ensures Run(s, [step] + rest, t)
  {
  }
}
