/** The global record queue: a 1024-slot ring with head and tail indices and a counting
    semaphore.  The pure operations are the critical sections of the C code; the class
    performs them in place, and the interleaved protocol reuses the pure ones. */
module SensorQueue {
  import opened Records
  import opened Ring

  const MAX_QUEUE_SIZE: nat := 1024
  const BATCH_LIMIT: nat := 50

  /** `head` is where the next record is written, `tail` where the next one is read,
      `sem` the value of the semaphore. */
  datatype Queue = Queue(slots: seq<Record>, head: nat, tail: nat, sem: nat) {

    predicate Valid() {
      |slots| == MAX_QUEUE_SIZE && head < MAX_QUEUE_SIZE && tail < MAX_QUEUE_SIZE
    }

    /** Number of occupied slots: `(head - tail) mod MAX_QUEUE_SIZE`. */
    function Length(): (n: nat)
      requires Valid()
      ensures n < MAX_QUEUE_SIZE
    {
      if tail <= head then head - tail else head - tail + MAX_QUEUE_SIZE
    }

    function Contents(): seq<Record>
      requires Valid()
    {
      Window(slots, tail, Length())
    }

    /** The producers' test `(head + 1) % MAX_QUEUE_SIZE == tail`. */
    predicate Full()
      requires Valid()
    {
      Advance(head, MAX_QUEUE_SIZE) == tail
    }

    function Push(r: Record): Queue
      requires Valid() && !Full()
    {
      this.(slots := slots[head := r], head := Advance(head, MAX_QUEUE_SIZE))
    }

    /** A producer's whole critical section: push unless the ring is full. */
    function Offer(r: Record): Queue
      requires Valid()
    {
      if Full() then this else Push(r)
    }

    /** The consumer's read of `data_queue[queue_tail]`; nothing guards it. */
    function Pop(): Queue
      requires Valid()
    {
      this.(tail := Advance(tail, MAX_QUEUE_SIZE))
    }

    function Front(): Record
      requires Valid()
    {
      slots[tail]
    }

    function Post(): Queue {
      this.(sem := sem + 1)
    }

    function Take(): Queue
      requires 0 < sem
    {
      this.(sem := sem - 1)
    }
  }

  function EmptyQueue(): Queue {
    Queue(seq(MAX_QUEUE_SIZE, _ => Record(0, 0.0)), 0, 0, 0)
  }

  lemma EmptyQueueIsEmpty()
    ensures EmptyQueue().Valid() && EmptyQueue().Contents() == []
  {
  }

  /** A full ring holds 1023 records: one slot always stays free. */
  lemma FullAt1023(q: Queue)
    requires q.Valid()
    ensures q.Full() <==> q.Length() == 1023
    ensures q.Full() <==> |q.Contents()| == 1023
  {
  }

  lemma HeadIsPastContents(q: Queue)
    requires q.Valid()
    ensures q.head == Slot(q.tail, q.Length(), MAX_QUEUE_SIZE)
  {
  }

  lemma PushAppends(q: Queue, r: Record)
    requires q.Valid() && !q.Full()
    ensures q.Push(r).Valid() && q.Push(r).Length() == q.Length() + 1
    ensures q.Push(r).Contents() == q.Contents() + [r]
  {
    var q', n := q.Push(r), q.Length();
    FullAt1023(q);
    HeadIsPastContents(q);
    assert q'.Length() == n + 1 && q'.slots == q.slots[Slot(q.tail, n, MAX_QUEUE_SIZE) := r];
    WindowAppend(q.slots, q.tail, n, r);
  }

  lemma PopRemovesOldest(q: Queue)
    requires q.Valid() && 0 < q.Length()
    ensures q.Pop().Valid() && q.Pop().Length() == q.Length() - 1
    ensures q.Contents() == [q.Front()] + q.Pop().Contents()
  {
    WindowDrop(q.slots, q.tail, q.Length());
  }

  /** A pop of an empty ring would make it look as if it held 1023 records. */
  lemma PopOfEmptyRingCorrupts(q: Queue)
    requires q.Valid() && q.Length() == 0
    ensures q.Pop().Full()
  {
  }

  /** The queue after `n` pops, and the records those pops read. */
  ghost function PopMany(q: Queue, n: nat): (r: Queue)
    requires q.Valid()
    ensures r.Valid()
  {
    if n == 0 then q else PopMany(q, n - 1).Pop()
  }

  ghost function Popped(q: Queue, n: nat): (rs: seq<Record>)
    requires q.Valid()
    ensures |rs| == n
  {
    if n == 0 then [] else Popped(q, n - 1) + [PopMany(q, n - 1).Front()]
  }

  lemma {:induction false} PopManyTakesPrefix(q: Queue, n: nat)
    requires q.Valid() && n <= q.Length()
    ensures Popped(q, n) == q.Contents()[..n]
    ensures PopMany(q, n).Contents() == q.Contents()[n..]
  {
    if 0 < n {
      PopManyTakesPrefix(q, n - 1);
      PopRemovesOldest(PopMany(q, n - 1));
    }
  }

  lemma PopExtends(q: Queue, n: nat, sem: nat)
    requires q.Valid()
    ensures PopMany(q, n).(sem := sem).Pop() == PopMany(q, n + 1).(sem := sem)
    ensures Popped(q, n + 1) == Popped(q, n) + [PopMany(q, n).(sem := sem).Front()]
  {
  }

  /** Posts that land before the first `n` trywait attempts. */
  function Landed(landing: seq<nat>, n: nat): nat {
    if n == 0 then 0 else Landed(landing, n - 1) + (if n <= |landing| then landing[n - 1] else 0)
  }

  /** A batch of `count` records has made this many trywait attempts: none after the 50th. */
  function Attempts(count: nat): nat
    requires 0 < count
  {
    if count < BATCH_LIMIT then count else count - 1
  }

  function LandedFor(landing: seq<nat>, count: nat): nat
    requires 0 < count
  {
    Landed(landing, Attempts(count))
  }

  lemma {:induction false} LandedIsBounded(landing: seq<nat>, n: nat)
    ensures n <= |landing| ==> Landed(landing, n) <= Landed(landing, |landing|)
    ensures |landing| <= n ==> Landed(landing, n) == Landed(landing, |landing|)
    decreases if n <= |landing| then |landing| - n else n - |landing|
  {
    if n < |landing| {
      LandedIsBounded(landing, n + 1);
    } else if |landing| < n {
      LandedIsBounded(landing, n - 1);
    }
  }

  /** If every token stands for a record in the ring, `count` pops take exactly its oldest
      `count` records. */
  lemma BatchIsOldestPrefix(q: Queue, landing: seq<nat>, count: nat, left: nat)
    requires q.Valid() && 0 < q.sem && q.sem + Landed(landing, |landing|) <= q.Length()
    requires 1 <= count && left + count == q.sem + LandedFor(landing, count)
    ensures var q' := q.(sem := q.sem - 1);
            count <= |q.Contents()| && Popped(q', count) == q.Contents()[..count]
            && PopMany(q', count).Contents() == q.Contents()[count..]
  {
    var q' := q.(sem := q.sem - 1);
    assert q'.Contents() == q.Contents() && q'.Length() == q.Length();
    LandedIsBounded(landing, Attempts(count));
    PopManyTakesPrefix(q', count);
  }

  class SharedQueue {
    var data: array<Record>
    var head: nat
    var tail: nat
    var sem: nat

    ghost function View(): Queue
      reads this, data
    {
      Queue(data[..], head, tail, sem)
    }

    ghost predicate Valid()
      reads this, data
    {
      View().Valid()
    }

    constructor ()
      ensures Valid() && View() == EmptyQueue() && fresh(data)
    {
      data := new Record[MAX_QUEUE_SIZE](_ => Record(0, 0.0));
      head, tail, sem := 0, 0, 0;
    }

    /** A producer between lock and unlock. */
    method Push(r: Record) returns (ok: bool)
      requires Valid()
      modifies this`head, data
      ensures Valid() && data == old(data)
      ensures View() == old(View()).Offer(r)
      ensures ok == (|old(View()).Contents()| < 1023)
      ensures View().Contents() == old(View()).Contents() + if ok then [r] else []
    {
      FullAt1023(View());
      if !View().Full() { PushAppends(View(), r); }
      var nextHead := Advance(head, MAX_QUEUE_SIZE);
      ok := nextHead != tail;
      if ok {
        data[head] := r;
        head := nextHead;
      }
    }

    /** A producer's whole round: push under the lock, and post after it if there was room. */
    method Produce(r: Record) returns (ok: bool)
      requires Valid()
      modifies this`head, this`sem, data
      ensures Valid() && data == old(data) && tail == old(tail)
      ensures ok == (|old(View()).Contents()| < 1023)
      ensures View().Contents() == old(View()).Contents() + if ok then [r] else []
      ensures sem == old(sem) + if ok then 1 else 0
      ensures View() == if ok then old(View()).Push(r).Post() else old(View())
    {
      FullAt1023(View());
      ok := Push(r);
      if ok { Post(); }
    }

    method Post()
      modifies this`sem
      ensures sem == old(sem) + 1
    {
      sem := sem + 1;
    }

    /** The consumer's pop, `batch[count] = data_queue[queue_tail]`: nothing in it guards
        against an empty ring. */
    method PopInto(batch: array<Record>, count: nat)
      requires Valid() && batch != data && count < batch.Length
      modifies this`tail, batch
      ensures Valid() && View() == old(View()).Pop()
      ensures batch[..count] == old(batch[..count]) && batch[count] == old(View()).Front()
    {
      batch[count] := data[tail];
      tail := Advance(tail, MAX_QUEUE_SIZE);
    }

    /** `batch[count++] = data_queue[queue_tail]`, counted from the ring `q` the batch began with. */
    method PopNext(batch: array<Record>, count: nat, ghost q: Queue) returns (n: nat)
      requires Valid() && batch != data && count < batch.Length
      requires q.Valid() && View() == PopMany(q, count).(sem := sem) && batch[..count] == Popped(q, count)
      modifies this`tail, batch
      ensures n == count + 1
      ensures View() == PopMany(q, n).(sem := sem) && batch[..n] == Popped(q, n)
    {
      PopExtends(q, count, sem);
      PopInto(batch, count);
      assert batch[..count + 1] == batch[..count] + [batch[count]];
      n := count + 1;
    }

    /** `sem_trywait`, after `posts` more posts have landed. */
    method TryWait(posts: nat) returns (ok: bool)
      modifies this`sem
      ensures ok == (0 < old(sem) + posts)
      ensures sem == if ok then old(sem) + posts - 1 else 0
    {
      sem := sem + posts;
      ok := 0 < sem;
      if ok { sem := sem - 1; }
    }

    /** The locked loop of the consumer: one pop for the token it came with, one more for
        each `sem_trywait` that succeeds, at most 50 in all.  `landing[k]` is the number of
        posts other threads complete before the k-th `sem_trywait`. */
    method FillBatch(batch: array<Record>, landing: seq<nat>) returns (count: nat)
      requires Valid() && batch != data && batch.Length == BATCH_LIMIT
      modifies this`tail, this`sem, batch
      ensures 1 <= count <= 50
      ensures View() == PopMany(old(View()), count).(sem := sem)
      ensures batch[..count] == Popped(old(View()), count)
      ensures count == BATCH_LIMIT || sem == 0
      ensures sem + (count - 1) == old(sem) + LandedFor(landing, count)
    {
      ghost var q := View();
      count := PopNext(batch, 0, q);
      while count < BATCH_LIMIT
        invariant 1 <= count <= BATCH_LIMIT
        invariant View() == PopMany(q, count).(sem := sem)
        invariant batch[..count] == Popped(q, count)
        invariant sem + (count - 1) == old(sem) + Landed(landing, count - 1)
      {
        var ok := TryWait(if count <= |landing| then landing[count - 1] else 0);
        if !ok {
          assert Attempts(count) == count && sem + (count - 1) == old(sem) + Landed(landing, count);
          break;
        }
        count := PopNext(batch, count, q);
      }
    }

    /** The consumer from `sem_wait` to unlock.  Each token, present or landing, stands for
        a record already in the ring. */
    method TakeBatch(landing: seq<nat>) returns (batch: array<Record>, count: nat)
      requires Valid() && 0 < sem
      requires sem + Landed(landing, |landing|) <= View().Length()
      modifies this`tail, this`sem
      ensures Valid() && fresh(batch) && batch.Length == BATCH_LIMIT && 1 <= count <= BATCH_LIMIT
      ensures count <= |old(View()).Contents()|
      ensures batch[..count] == old(View()).Contents()[..count]
      ensures View().Contents() == old(View()).Contents()[count..]
      ensures count == BATCH_LIMIT || sem == 0
      ensures sem + count == old(sem) + LandedFor(landing, count)
    {
      ghost var q := View();
      sem := sem - 1;
      batch := new Record[BATCH_LIMIT];
      count := FillBatch(batch, landing);
      BatchIsOldestPrefix(q, landing, count, sem);
    }
  }
}
