/** The thread pool's locked data: a ring of tasks with an explicit count, and the shutdown
    flag.  The pure operations are its critical sections; the class performs them in place. */
module ThreadPool {
  import opened Ring

  /** Function and argument pointers; 0 is NULL. */
  datatype Task = Task(func: nat, arg: nat)

  /** What a worker does in one pass through the lock. */
  datatype Outcome = Sleep | Exit | Start(task: Task)

  datatype Pool = Pool(slots: seq<Task>, head: nat, tail: nat, count: nat, shutdown: bool) {

    predicate Valid() {
      && head < |slots| && count <= |slots|
      && tail == Slot(head, count, |slots|)
    }

    function Contents(): seq<Task>
      requires Valid()
    {
      Window(slots, head, count)
    }

    predicate Accepts(t: Task) {
      t.func != 0 && count != |slots| && !shutdown
    }

    /** The pool after an add; refused adds change nothing. */
    function Add(t: Task): Pool
      requires Valid()
    {
      if !Accepts(t) then this
      else this.(slots := slots[tail := t], tail := Advance(tail, |slots|), count := count + 1)
    }

    function Decide(): Outcome
      requires Valid()
    {
      if shutdown then Exit else if count == 0 then Sleep else Start(slots[head])
    }

    function AfterEnter(): Pool
      requires Valid()
    {
      if Decide().Start? then this.(head := Advance(head, |slots|), count := count - 1) else this
    }
  }

  lemma AddAppends(p: Pool, t: Task)
    requires p.Valid()
    ensures p.Add(t).Valid()
    ensures p.Add(t).Contents() == p.Contents() + (if p.Accepts(t) then [t] else [])
  {
    if p.Accepts(t) {
      SlotIsModular(p.head, p.count, |p.slots|);
      WindowAppend(p.slots, p.head, p.count, t);
    }
  }

  lemma StartTakesOldest(p: Pool)
    requires p.Valid()
    ensures p.AfterEnter().Valid()
    ensures p.Contents() == (if p.Decide().Start? then [p.Decide().task] else []) + p.AfterEnter().Contents()
  {
    if p.Decide().Start? {
      SlotIsModular(p.head, p.count - 1, |p.slots|);
      WindowDrop(p.slots, p.head, p.count);
    }
  }

  class ThreadPool {
    var queue: array<Task>
    var head: nat
    var tail: nat
    var count: nat
    var shutdown: bool
    var threadCount: nat

    ghost function View(): Pool
      reads this, queue
    {
      Pool(queue[..], head, tail, count, shutdown)
    }

    ghost predicate Valid()
      reads this, queue
    {
      View().Valid()
    }

    constructor (size: nat)
      requires 0 < size
      ensures Valid() && fresh(queue) && queue.Length == size && threadCount == 0
      ensures count == 0 && !shutdown
    {
      queue := new Task[size];
      head, tail, count, shutdown, threadCount := 0, 0, 0, false, 0;
    }

    /** `threadpool_create`; the null result stands for NULL.  `memory` says whether the pool
        itself can be allocated, `parts` whether its arrays, mutex and condition variable can
        be had, `creatable` how many threads.  A pool that cannot be completed is destroyed;
        `joined` counts the workers that were running by then. */
    static method Create(threads: int, size: int, memory: bool, parts: bool, creatable: nat)
        returns (pool: ThreadPool?, joined: nat)
      ensures pool == null <==> threads <= 0 || size <= 0 || !memory || !parts || creatable < threads
      ensures pool != null ==> fresh(pool) && fresh(pool.queue) && pool.Valid() && pool.threadCount == threads
      ensures pool != null ==> pool.queue.Length == size && pool.View().Contents() == [] && !pool.shutdown
      ensures joined == if pool == null && 0 < threads && 0 < size && memory && parts then creatable else 0
    {
      if threads <= 0 || size <= 0 || !memory { return null, 0; }
      var p := new ThreadPool(size);
      if !parts {
        var err := p.BeginDestroy(true, true);
        return null, p.threadCount;
      }
      for i := 0 to threads
        invariant fresh(p) && fresh(p.queue) && p.Valid() && p.queue.Length == size
        invariant p.count == 0 && !p.shutdown && p.threadCount == i <= creatable
      {
        if i == creatable {
          var err := p.BeginDestroy(true, true);
          return null, p.threadCount;
        }
        p.threadCount := p.threadCount + 1;
      }
      return p, 0;
    }

    /** `threadpool_add`; `locks` and `signals` say whether the mutex can be locked and the
        condition variable signalled.  A failed signal reports -1 for a task that is queued. */
    method Add(func: nat, arg: nat, locks: bool, signals: bool) returns (err: int)
      requires Valid()
      modifies this`tail, this`count, queue
      ensures Valid() && View() == if locks then old(View()).Add(Task(func, arg)) else old(View())
      ensures err == 0 || err == -1
      ensures var queued := locks && func != 0 && old(count) < queue.Length && !shutdown;
              && (err == 0 <==> queued && signals)
              && View().Contents() == old(View()).Contents() + if queued then [Task(func, arg)] else []
    {
      AddAppends(View(), Task(func, arg));
      err := 0;
      if func == 0 { return -1; }
      if !locks { return -1; }
      if count == queue.Length {
        err := -1;
      } else if shutdown {
        err := -1;
      } else {
        queue[tail] := Task(func, arg);
        tail := Advance(tail, queue.Length);
        count := count + 1;
        if !signals { err := -1; }
      }
    }

    /** One pass of a worker through the lock, from acquiring it to waiting, exiting or
        starting a task. */
    method Enter() returns (outcome: Outcome)
      requires Valid()
      modifies this`head, this`count
      ensures Valid() && View() == old(View()).AfterEnter() && outcome == old(View()).Decide()
      ensures outcome.Sleep? <==> !shutdown && old(count) == 0
      ensures outcome.Exit? <==> shutdown
      ensures old(View()).Contents() == (if outcome.Start? then [outcome.task] else []) + View().Contents()
    {
      StartTakesOldest(View());
      if count == 0 && !shutdown { return Sleep; }
      if shutdown { return Exit; }
      outcome := Start(queue[head]);
      head := Advance(head, queue.Length);
      count := count - 1;
    }

    /** `threadpool_destroy` up to the joins: 0 means that they follow.  `locks` says whether
        the mutex can be locked, `wakes` whether the broadcast and the unlock succeed; if they
        do not, shutdown is published all the same but nothing is joined or freed. */
    method BeginDestroy(locks: bool, wakes: bool) returns (err: int)
      requires Valid()
      modifies this`shutdown
      ensures Valid() && View() == if locks then old(View()).(shutdown := true) else old(View())
      ensures err == 0 || err == -1
      ensures err == 0 <==> locks && !old(shutdown) && wakes
    {
      if !locks { return -1; }
      if shutdown { return -1; }
      shutdown := true;
      if !wakes { return -1; }
      err := 0;
    }
  }
}
