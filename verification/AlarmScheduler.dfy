/** The tick scheduler: 16 slots of countdown timers whose expirations are handed to the
    thread pool.  A tick is one delivery of SIGALRM. */
module AlarmScheduler {
  import opened Ring
  import opened ThreadPool

  const MAX_ALARM_TASKS: nat := 16

  datatype AlarmTask = AlarmTask(inUse: bool, interval: int, ticksLeft: int, task: Task)

  const FREE_SLOT: AlarmTask := AlarmTask(false, 0, 0, Task(0, 0))

  /** Does this slot expire at the next tick? */
  predicate Expires(t: AlarmTask) {
    t.inUse && t.ticksLeft - 1 <= 0
  }

  function TickSlot(t: AlarmTask): AlarmTask {
    if !t.inUse then t
    else if Expires(t) then t.(ticksLeft := t.interval)
    else t.(ticksLeft := t.ticksLeft - 1)
  }

  function TickAll(ts: seq<AlarmTask>): (r: seq<AlarmTask>)
    ensures |r| == |ts|
  {
    seq(|ts|, k requires 0 <= k < |ts| => TickSlot(ts[k]))
  }

  /** The tasks a tick hands over from the first `n` slots, in slot order. */
  function Fired(ts: seq<AlarmTask>, n: nat): seq<Task>
    requires n <= |ts|
  {
    if n == 0 then [] else Fired(ts, n - 1) + (if Expires(ts[n - 1]) then [ts[n - 1].task] else [])
  }

  /** One `threadpool_add` per fired task. */
  function Feed(p: Pool, fired: seq<Task>): (r: Pool)
    requires p.Valid()
    ensures r.Valid()
  {
    if fired == [] then p
    else
      var before := Feed(p, fired[..|fired| - 1]);
      AddAppends(before, fired[|fired| - 1]);
      before.Add(fired[|fired| - 1])
  }

  function FirstFree(ts: seq<AlarmTask>, i: nat): (k: nat)
    requires i <= |ts|
    ensures i <= k <= |ts| && (k < |ts| ==> !ts[k].inUse)
    ensures forall j :: i <= j < k ==> ts[j].inUse
    decreases |ts| - i
  {
    if i == |ts| || !ts[i].inUse then i else FirstFree(ts, i + 1)
  }

  predicate Registers(ts: seq<AlarmTask>, interval: int, task: Task) {
    interval > 0 && task.func != 0 && FirstFree(ts, 0) < |ts|
  }

  function Register(ts: seq<AlarmTask>, interval: int, task: Task): seq<AlarmTask> {
    if Registers(ts, interval, task) then
      ts[FirstFree(ts, 0) := AlarmTask(true, interval, interval, task)]
    else ts
  }

  class Scheduler {
    var tasks: array<AlarmTask>

    constructor ()
      ensures fresh(tasks) && tasks.Length == 16
      ensures forall k :: 0 <= k < tasks.Length ==> tasks[k] == FREE_SLOT
    {
      tasks := new AlarmTask[MAX_ALARM_TASKS](_ => FREE_SLOT);
    }

    /** `alarm_scheduler_add_task`, run with SIGALRM blocked. */
    method AddTask(interval: int, func: nat, arg: nat) returns (id: int)
      modifies tasks
      ensures tasks[..] == Register(old(tasks[..]), interval, Task(func, arg))
      ensures id == if Registers(old(tasks[..]), interval, Task(func, arg)) then FirstFree(old(tasks[..]), 0) else -1
      ensures id == -1 <==> interval <= 0 || func == 0 || forall k :: 0 <= k < tasks.Length ==> old(tasks[..])[k].inUse
      ensures id == -1 ==> tasks[..] == old(tasks[..])
      ensures id != -1 ==> 0 <= id < tasks.Length && !old(tasks[..])[id].inUse
                           && tasks[..] == old(tasks[..])[id := AlarmTask(true, interval, interval, Task(func, arg))]
                           && forall k :: 0 <= k < id ==> old(tasks[..])[k].inUse
    {
      if interval <= 0 || func == 0 { return -1; }
      id := -1;
      for i := 0 to tasks.Length
        invariant id == -1 && tasks[..] == old(tasks[..])
        invariant forall j :: 0 <= j < i ==> tasks[j].inUse
      {
        if !tasks[i].inUse {
          assert FirstFree(tasks[..], 0) == i;
          tasks[i] := AlarmTask(true, interval, interval, Task(func, arg));
          id := i;
          break;
        }
      }
    }

    /** The loop body of `handle_sigalrm`; `pool` is null before the pool is created. */
    method TickOne(i: nat, pool: ThreadPool?)
      requires i < tasks.Length
      requires pool != null ==> pool.Valid() && pool.queue as object != tasks
      modifies tasks
      modifies if pool == null then {} else {pool, pool.queue as object}
      ensures tasks[..] == old(tasks[..])[i := TickSlot(old(tasks[i]))]
      ensures pool != null ==> pool.Valid() && pool.queue == old(pool.queue)
      ensures pool != null ==>
                pool.View() == Feed(old(pool.View()), if Expires(old(tasks[i])) then [old(tasks[i]).task] else [])
    {
      if tasks[i].inUse {
        tasks[i] := tasks[i].(ticksLeft := tasks[i].ticksLeft - 1);
        if tasks[i].ticksLeft <= 0 {
          tasks[i] := tasks[i].(ticksLeft := tasks[i].interval);
          if pool != null {
            var err := pool.Add(tasks[i].task.func, tasks[i].task.arg, true, true);
          }
        }
      }
    }

    /** `handle_sigalrm`. */
    method Tick(pool: ThreadPool?)
      requires pool != null ==> pool.Valid() && pool.queue as object != tasks
      modifies tasks
      modifies if pool == null then {} else {pool, pool.queue as object}
      ensures tasks[..] == TickAll(old(tasks[..]))
      ensures pool != null ==> pool.Valid() && pool.queue == old(pool.queue)
      ensures pool != null ==> pool.View() == Feed(old(pool.View()), Fired(old(tasks[..]), old(tasks.Length)))
      ensures pool != null && !old(pool.View()).shutdown && AllRegistered(old(tasks[..])) ==>
                pool.View().Contents()
                == old(pool.View()).Contents()
                   + FirstFitting(Fired(old(tasks[..]), old(tasks.Length)), old(pool.View()))
    {
      ghost var ts := tasks[..];
      for i := 0 to tasks.Length
        invariant tasks[..] == TickAll(ts[..i]) + ts[i..]
        invariant pool != null ==> pool.Valid() && pool.queue == old(pool.queue)
        invariant pool != null ==> pool.View() == Feed(old(pool.View()), Fired(ts, i))
      {
        TickAllStep(ts, i);
        assert tasks[i] == tasks[..][i] == ts[i];
        if pool != null { FeedFired(old(pool.View()), ts, i); }
        TickOne(i, pool);
      }
      if pool != null && !old(pool.View()).shutdown && AllRegistered(ts) {
        FiredAreCallable(ts, tasks.Length);
        FeedAppends(old(pool.View()), Fired(ts, tasks.Length));
      }
    }
  }

  lemma {:induction false} FeedConcat(p: Pool, first: seq<Task>, second: seq<Task>)
    requires p.Valid()
    ensures Feed(p, first + second) == Feed(Feed(p, first), second)
  {
    if second == [] {
      assert first + second == first;
    } else {
      assert (first + second)[..|first + second| - 1] == first + second[..|second| - 1];
      FeedConcat(p, first, second[..|second| - 1]);
    }
  }

  /** What every registration guarantees: no used slot holds a null function. */
  ghost predicate AllRegistered(ts: seq<AlarmTask>) {
    forall k :: 0 <= k < |ts| && ts[k].inUse ==> ts[k].task.func != 0
  }

  /** The longest prefix for which the pool has room. */
  ghost function FirstFitting(fired: seq<Task>, p: Pool): seq<Task>
    requires p.Valid()
  {
    if |fired| <= |p.slots| - |p.Contents()| then fired else fired[..|p.slots| - |p.Contents()|]
  }

  /** An open pool receives the fired tasks themselves, function and argument, in order, as
      long as it has room. */
  lemma {:induction false} FeedAppends(p: Pool, fired: seq<Task>)
    requires p.Valid() && !p.shutdown && forall k :: 0 <= k < |fired| ==> fired[k].func != 0
    ensures Feed(p, fired).Contents() == p.Contents() + FirstFitting(fired, p)
    ensures !Feed(p, fired).shutdown && |Feed(p, fired).slots| == |p.slots|
  {
    if fired == [] {
      assert p.Contents() + FirstFitting(fired, p) == p.Contents();
    } else {
      var init, last := fired[..|fired| - 1], fired[|fired| - 1];
      FeedAppends(p, init);
      AddAppends(Feed(p, init), last);
      assert FirstFitting(fired, p)
             == FirstFitting(init, p) + if |init| < |p.slots| - |p.Contents()| then [last] else [];
      Regroup(p.Contents(), FirstFitting(init, p), [last]);
    }
  }

  lemma Regroup(a: seq<Task>, b: seq<Task>, c: seq<Task>)
    ensures a + b + c == a + (b + c)
    ensures b + [] == b
  {
  }

  /** A pool that is shutting down receives nothing. */
  lemma {:induction false} FeedAfterShutdown(p: Pool, fired: seq<Task>)
    requires p.Valid() && p.shutdown
    ensures Feed(p, fired) == p
  {
    if fired != [] { FeedAfterShutdown(p, fired[..|fired| - 1]); }
  }

  /** Each expiring slot hands over its own task, after those of the slots before it, and no
      other slot hands over anything. */
  lemma {:induction false} FiredAt(ts: seq<AlarmTask>, n: nat, k: nat)
    requires k < n <= |ts|
    ensures |Fired(ts, k)| + (if ts[k].inUse && ts[k].ticksLeft <= 1 then 1 else 0) <= |Fired(ts, n)|
    ensures ts[k].inUse && ts[k].ticksLeft <= 1 ==> Fired(ts, n)[|Fired(ts, k)|] == ts[k].task
    ensures |Fired(ts, k + 1)| == |Fired(ts, k)| + if ts[k].inUse && ts[k].ticksLeft <= 1 then 1 else 0
  {
    if k < n - 1 { FiredAt(ts, n - 1, k); }
  }

  lemma {:induction false} FiredAreCallable(ts: seq<AlarmTask>, n: nat)
    requires n <= |ts| && AllRegistered(ts)
    ensures forall k :: 0 <= k < |Fired(ts, n)| ==> Fired(ts, n)[k].func != 0
  {
    if 0 < n { FiredAreCallable(ts, n - 1); }
  }

  lemma TickAllStep(ts: seq<AlarmTask>, i: nat)
    requires i < |ts|
    ensures TickAll(ts[..i + 1]) + ts[i + 1..] == (TickAll(ts[..i]) + ts[i..])[i := TickSlot(ts[i])]
  {
  }

  lemma FeedFired(p: Pool, ts: seq<AlarmTask>, i: nat)
    requires p.Valid() && i < |ts|
    ensures Feed(p, Fired(ts, i + 1))
            == Feed(Feed(p, Fired(ts, i)), if Expires(ts[i]) then [ts[i].task] else [])
  {
    FeedConcat(p, Fired(ts, i), if Expires(ts[i]) then [ts[i].task] else []);
  }

  // ---------- runs of registrations and ticks ----------

  datatype Event = Add(interval: int, task: Task) | Tick

  function EmptyTable(): seq<AlarmTask> {
    seq(MAX_ALARM_TASKS, _ => FREE_SLOT)
  }

  ghost function Next(ts: seq<AlarmTask>, e: Event): seq<AlarmTask> {
    match e
    case Add(interval, task) => Register(ts, interval, task)
    case Tick => TickAll(ts)
  }

  /** The table after the events, oldest first. */
  ghost function After(events: seq<Event>): (ts: seq<AlarmTask>)
    ensures |ts| == 16
  {
    if events == [] then EmptyTable() else Next(After(events[..|events| - 1]), events[|events| - 1])
  }

  ghost function Ticks(events: seq<Event>): nat {
    if events == [] then 0 else Ticks(events[..|events| - 1]) + if events[|events| - 1].Tick? then 1 else 0
  }

  /** How often slot `k` fired during `events[from..]`. */
  ghost function FireCount(events: seq<Event>, from: nat, k: nat): nat
    requires k < MAX_ALARM_TASKS
  {
    if |events| <= from then 0
    else
      var init := events[..|events| - 1];
      FireCount(init, from, k) + if events[|events| - 1].Tick? && Expires(After(init)[k]) then 1 else 0
  }

  lemma DivStep(n: nat, i: nat)
    requires 0 < i
    ensures n % i == i - 1 ==> (n + 1) % i == 0 && (n + 1) / i == n / i + 1
    ensures n % i != i - 1 ==> (n + 1) % i == n % i + 1 && (n + 1) / i == n / i
  {
    if n % i == i - 1 {
      DivModUnique(n + 1, i, n / i + 1, 0);
    } else {
      DivModUnique(n + 1, i, n / i, n % i + 1);
    }
  }

  /** Scheduler exactness: a task registered by event `e` has, after any later events with n
      ticks among them, fired exactly n / interval times and has interval - n % interval
      ticks left. */
  lemma {:induction false} FiresExactly(events: seq<Event>, e: nat)
    requires e < |events| && events[e].Add?
    requires Registers(After(events[..e]), events[e].interval, events[e].task)
    ensures var k, interval := FirstFree(After(events[..e]), 0), events[e].interval;
            var n := Ticks(events[e + 1..]);
            && After(events)[k] == AlarmTask(true, interval, interval - n % interval, events[e].task)
            && FireCount(events, e + 1, k) == n / interval
  {
    var k, interval := FirstFree(After(events[..e]), 0), events[e].interval;
    var init := events[..|events| - 1];
    if |events| == e + 1 {
      assert init == events[..e];
      DivModUnique(0, interval, 0, 0);
    } else {
      var n := Ticks(init[e + 1..]);
      assert init[..e] == events[..e] && init[e] == events[e];
      FiresExactly(init, e);
      assert events[e + 1..][..|events| - e - 2] == init[e + 1..];
      assert Ticks(events[e + 1..]) == n + if events[|events| - 1].Tick? then 1 else 0;
      DivStep(n, interval);
    }
  }

  /** No history of registrations and ticks puts a null function into a used slot. */
  lemma {:induction false} AlwaysRegistered(events: seq<Event>)
    ensures AllRegistered(After(events))
  {
    if events != [] { AlwaysRegistered(events[..|events| - 1]); }
  }

  /** Registered slots always form a prefix of the 16. */
  lemma {:induction false} SlotsFillAsPrefix(events: seq<Event>, j: nat, k: nat)
    requires j < k < 16 && After(events)[k].inUse
    ensures After(events)[j].inUse
  {
    if events != [] {
      var init := events[..|events| - 1];
      if After(init)[k].inUse {
        SlotsFillAsPrefix(init, j, k);
      }
    }
  }

  // ---------- handing over to the pool ----------

  /** Fires, adds that returned 0 and adds that were refused, against one pool. */
  ghost function Refused(p: Pool, fired: seq<Task>): nat
    requires p.Valid()
  {
    if fired == [] then 0
    else
      var init := fired[..|fired| - 1];
      Refused(p, init) + if Feed(p, init).Accepts(fired[|fired| - 1]) then 0 else 1
  }

  /** Each fire of a tick is one add attempt: it lengthens the queue or it is refused. */
  lemma {:induction false} FeedBalance(p: Pool, fired: seq<Task>)
    requires p.Valid()
    ensures |Feed(p, fired).Contents()| + Refused(p, fired) == |p.Contents()| + |fired|
    ensures |p.Contents()| <= |Feed(p, fired).Contents()|
    ensures Feed(p, fired).Contents()[..|p.Contents()|] == p.Contents()
  {
    if fired != [] {
      var init := fired[..|fired| - 1];
      FeedBalance(p, init);
      AddAppends(Feed(p, init), fired[|fired| - 1]);
    }
  }

  /** Workers take tasks between the scheduler's events. */
  datatype PoolEvent = Timer(event: Event) | WorkerTakes

  datatype Hall = Hall(tasks: seq<AlarmTask>, pool: Pool, fires: nat, refused: nat, taken: nat)

  ghost function NextHall(h: Hall, e: PoolEvent): (h': Hall)
    requires h.pool.Valid()
    ensures h'.pool.Valid()
  {
    match e
    case WorkerTakes =>
      StartTakesOldest(h.pool);
      h.(pool := h.pool.AfterEnter(), taken := h.taken + if h.pool.Decide().Start? then 1 else 0)
    case Timer(Add(interval, task)) => h.(tasks := Register(h.tasks, interval, task))
    case Timer(Tick) =>
      var fired := Fired(h.tasks, |h.tasks|);
      h.(tasks := TickAll(h.tasks), pool := Feed(h.pool, fired),
         fires := h.fires + |fired|, refused := h.refused + Refused(h.pool, fired))
  }

  /** The pool is created when the scheduler has already seen the events `before`. */
  ghost function HallAfter(before: seq<Event>, pool: Pool, events: seq<PoolEvent>): (h: Hall)
    requires pool.Valid()
    ensures h.pool.Valid()
  {
    if events == [] then Hall(After(before), pool, 0, 0, 0)
    else NextHall(HallAfter(before, pool, events[..|events| - 1]), events[|events| - 1])
  }

  /** The scheduler's own events among them. */
  ghost function Timers(events: seq<PoolEvent>): seq<Event> {
    if events == [] then []
    else
      Timers(events[..|events| - 1])
      + if events[|events| - 1].Timer? then [events[|events| - 1].event] else []
  }

  /** Fires of the first `n` slots during `events[from..]`. */
  ghost function TotalFires(events: seq<Event>, from: nat, n: nat): nat
    requires n <= MAX_ALARM_TASKS
  {
    if n == 0 then 0 else TotalFires(events, from, n - 1) + FireCount(events, from, n - 1)
  }

  lemma {:induction false} NoFiresYet(events: seq<Event>, n: nat)
    requires n <= MAX_ALARM_TASKS
    ensures TotalFires(events, |events|, n) == 0
  {
    if 0 < n { NoFiresYet(events, n - 1); }
  }

  /** The tasks a tick hands over are one per slot whose count goes up. */
  lemma {:induction false} TotalFiresStep(events: seq<Event>, e: Event, from: nat, n: nat)
    requires from <= |events| && n <= MAX_ALARM_TASKS
    ensures TotalFires(events + [e], from, n)
            == TotalFires(events, from, n) + if e.Tick? then |Fired(After(events), n)| else 0
  {
    if 0 < n {
      TotalFiresStep(events, e, from, n - 1);
      assert (events + [e])[..|events|] == events;
    }
  }

  /** The hall's table and its count of fires are those of the scheduler's events. */
  lemma {:induction false} HallFollowsScheduler(before: seq<Event>, pool: Pool, events: seq<PoolEvent>)
    requires pool.Valid()
    ensures var h, all := HallAfter(before, pool, events), before + Timers(events);
            h.tasks == After(all) && h.fires == TotalFires(all, |before|, MAX_ALARM_TASKS)
  {
    if events == [] {
      NoFiresYet(before, MAX_ALARM_TASKS);
      assert before + [] == before;
    } else {
      var init, last := events[..|events| - 1], events[|events| - 1];
      var all := before + Timers(init);
      HallFollowsScheduler(before, pool, init);
      if last.Timer? {
        HallStep(HallAfter(before, pool, init), all, |before|, last.event);
        assert before + Timers(events) == all + [last.event];
      } else {
        assert before + Timers(events) == all;
      }
    }
  }

  lemma HallStep(h: Hall, all: seq<Event>, from: nat, e: Event)
    requires h.pool.Valid() && from <= |all|
    requires h.tasks == After(all) && h.fires == TotalFires(all, from, MAX_ALARM_TASKS)
    ensures NextHall(h, Timer(e)).tasks == After(all + [e])
    ensures NextHall(h, Timer(e)).fires == TotalFires(all + [e], from, MAX_ALARM_TASKS)
  {
    TotalFiresStep(all, e, from, MAX_ALARM_TASKS);
    assert (all + [e])[..|all|] == all;
  }

  lemma {:induction false} HallBalance(before: seq<Event>, pool: Pool, events: seq<PoolEvent>)
    requires pool.Valid()
    ensures var h := HallAfter(before, pool, events);
            |pool.Contents()| + h.fires == h.refused + h.taken + |h.pool.Contents()|
  {
    if events != [] {
      var h := HallAfter(before, pool, events[..|events| - 1]);
      HallBalance(before, pool, events[..|events| - 1]);
      StartTakesOldest(h.pool);
      FeedBalance(h.pool, Fired(h.tasks, |h.tasks|));
    }
  }

  /** While the pool exists every fire of every slot is accounted for: waiting, taken by a
      worker, or refused. */
  lemma FiresAreAcceptedOrRefused(before: seq<Event>, pool: Pool, events: seq<PoolEvent>)
    requires pool.Valid() && pool.Contents() == []
    ensures var h := HallAfter(before, pool, events);
            TotalFires(before + Timers(events), |before|, MAX_ALARM_TASKS)
            == h.refused + h.taken + |h.pool.Contents()|
  {
    HallFollowsScheduler(before, pool, events);
    HallBalance(before, pool, events);
  }
}
