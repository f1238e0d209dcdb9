/** Any number of producers and one uploading consumer share the record queue.  Every step
    below is one action of one thread; runs interleave them arbitrarily. */
module QueueProtocol {
  import opened Records
  import opened SensorQueue

  /** A producer locks, pushes if there is room, unlocks, and only then posts. */
  datatype Producer =
    | Idle
    | Entered(r: Record)  // holds the mutex, has not tested for room yet
    | Pushed              // holds the mutex, its record is in the ring
    | Refused             // holds the mutex, found the ring full
    | Owing               // released the mutex, has not posted yet

  /** The consumer, with the records of the batch it is collecting. */
  datatype Consumer =
    | Waiting                       // at sem_wait
    | Woken                         // sem_wait returned, mutex not yet acquired
    | Popping(batch: seq<Record>)   // holds the mutex and an unspent token
    | Draining(batch: seq<Record>)  // holds the mutex, about to loop
    | Finished(batch: seq<Record>)  // sem_trywait failed, about to unlock
    | Sending

  datatype Holder = Free | ByProducer(p: nat) | ByConsumer

  /** `accepted` and `batches` record the pushes made and the batches taken so far. */
  datatype State = State(q: Queue, holder: Holder, producers: seq<Producer>, consumer: Consumer,
                         accepted: seq<Record>, batches: seq<seq<Record>>)

  datatype Step =
    | Enter(p: nat, r: Record) | TryPush(p: nat) | Leave(p: nat) | Post(p: nat)
    | Wait | Lock | PopOne | TryWait | Unlock | Upload

  ghost function Init(producers: nat): State {
    State(EmptyQueue(), Free, seq(producers, _ => Idle), Waiting, [], [])
  }

  ghost predicate Enabled(s: State, step: Step) {
    s.q.Valid() &&
    match step
    case Enter(p, _) => p < |s.producers| && s.producers[p].Idle? && s.holder.Free?
    case TryPush(p) => p < |s.producers| && s.producers[p].Entered?
    case Leave(p) => p < |s.producers| && (s.producers[p].Pushed? || s.producers[p].Refused?)
    case Post(p) => p < |s.producers| && s.producers[p].Owing?
    case Wait => s.consumer.Waiting? && 0 < s.q.sem
    case Lock => s.consumer.Woken? && s.holder.Free?
    case PopOne => s.consumer.Popping?
    case TryWait => s.consumer.Draining? && |s.consumer.batch| < BATCH_LIMIT
    case Unlock => s.consumer.Finished? || (s.consumer.Draining? && |s.consumer.batch| >= BATCH_LIMIT)
    case Upload => s.consumer.Sending?
  }

  ghost function Next(s: State, step: Step): State
    requires Enabled(s, step)
  {
    match step
    case Enter(p, r) => s.(producers := s.producers[p := Entered(r)], holder := ByProducer(p))
    case TryPush(p) =>
      var r := s.producers[p].r;
      if s.q.Full() then s.(producers := s.producers[p := Refused])
      else s.(producers := s.producers[p := Pushed], q := s.q.Push(r), accepted := s.accepted + [r])
    case Leave(p) =>
      s.(producers := s.producers[p := if s.producers[p].Pushed? then Owing else Idle], holder := Free)
    case Post(p) => s.(producers := s.producers[p := Idle], q := s.q.Post())
    case Wait => s.(consumer := Woken, q := s.q.Take())
    case Lock => s.(consumer := Popping([]), holder := ByConsumer)
    case PopOne => s.(consumer := Draining(s.consumer.batch + [s.q.Front()]), q := s.q.Pop())
    case TryWait =>
      if 0 < s.q.sem then s.(consumer := Popping(s.consumer.batch), q := s.q.Take())
      else s.(consumer := Finished(s.consumer.batch))
    case Unlock => s.(consumer := Sending, holder := Free, batches := s.batches + [s.consumer.batch])
    case Upload => s.(consumer := Waiting)
  }

  /** `steps` leads from `s` to `t`. */
  ghost predicate Run(s: State, steps: seq<Step>, t: State)
    decreases steps
  {
    if steps == [] then s == t
    else Enabled(s, steps[0]) && Run(Next(s, steps[0]), steps[1..], t)
  }

  // ---------- the accounting invariant ----------

  ghost predicate Owes(p: Producer) { p.Pushed? || p.Owing? }

  /** Records already in the ring whose post is still to come. */
  ghost function Owed(ps: seq<Producer>): nat {
    if ps == [] then 0 else Owed(ps[..|ps| - 1]) + if Owes(ps[|ps| - 1]) then 1 else 0
  }

  lemma {:induction false} OwedUpdate(ps: seq<Producer>, p: nat, x: Producer)
    requires p < |ps|
    ensures Owed(ps[p := x]) + (if Owes(ps[p]) then 1 else 0) == Owed(ps) + (if Owes(x) then 1 else 0)
  {
    var last := |ps| - 1;
    if p < last {
      OwedUpdate(ps[..last], p, x);
      assert ps[p := x][..last] == ps[..last][p := x];
    } else {
      assert ps[p := x][..last] == ps[..last];
    }
  }

  lemma {:induction false} OwedZeroMeansNoneOwes(ps: seq<Producer>)
    ensures Owed(ps) == 0 <==> forall p :: 0 <= p < |ps| ==> !Owes(ps[p])
  {
    if ps != [] {
      OwedZeroMeansNoneOwes(ps[..|ps| - 1]);
      assert forall p :: 0 <= p < |ps| - 1 ==> ps[p] == ps[..|ps| - 1][p];
    }
  }

  /** Tokens the consumer has taken from the semaphore and not yet spent on a pop. */
  ghost function Tokens(c: Consumer): nat {
    if c.Woken? || c.Popping? then 1 else 0
  }

  ghost function InHand(c: Consumer): seq<Record> {
    if c.Popping? || c.Draining? || c.Finished? then c.batch else []
  }

  ghost function Flatten(batches: seq<seq<Record>>): seq<Record> {
    if batches == [] then [] else Flatten(batches[..|batches| - 1]) + batches[|batches| - 1]
  }

  ghost predicate InCriticalSection(p: Producer) { p.Entered? || p.Pushed? || p.Refused? }

  ghost predicate Locking(s: State) {
    && (forall p :: 0 <= p < |s.producers| ==>
          (InCriticalSection(s.producers[p]) <==> s.holder == ByProducer(p)))
    && (s.consumer.Popping? || s.consumer.Draining? || s.consumer.Finished? <==> s.holder.ByConsumer?)
    && (s.holder.ByProducer? ==> s.holder.p < |s.producers|)
  }

  ghost predicate Credit(s: State)
    requires s.q.Valid()
  {
    s.q.Length() == s.q.sem + Owed(s.producers) + Tokens(s.consumer)
  }

  ghost predicate Fifo(s: State)
    requires s.q.Valid()
  {
    s.accepted == Flatten(s.batches) + (InHand(s.consumer) + s.q.Contents())
  }

  ghost predicate BatchSizes(s: State) {
    && (forall b :: b in s.batches ==> 1 <= |b| <= BATCH_LIMIT)
    && (s.consumer.Popping? ==> |s.consumer.batch| < BATCH_LIMIT)
    && (s.consumer.Draining? ==> 1 <= |s.consumer.batch| <= BATCH_LIMIT)
    && (s.consumer.Finished? ==> 1 <= |s.consumer.batch| < BATCH_LIMIT)
  }

  ghost predicate Inv(s: State) {
    s.q.Valid() && Locking(s) && Credit(s) && Fifo(s) && BatchSizes(s)
  }

  lemma InitInv(n: nat)
    ensures Inv(Init(n))
  {
    EmptyQueueIsEmpty();
    OwedZeroMeansNoneOwes(Init(n).producers);
  }

  lemma TryPushKeepsInv(s: State, p: nat)
    requires Inv(s) && Enabled(s, TryPush(p))
    ensures Inv(Next(s, TryPush(p)))
  {
    var t := Next(s, TryPush(p));
    OwedUpdate(s.producers, p, t.producers[p]);
    if !s.q.Full() {
      var r := s.producers[p].r;
      PushAppends(s.q, r);
      Append(Flatten(s.batches), InHand(s.consumer), s.q.Contents(), r);
    }
    assert Credit(t) && Fifo(t) && BatchSizes(t);
  }

  lemma Append(a: seq<Record>, b: seq<Record>, c: seq<Record>, r: Record)
    ensures a + (b + (c + [r])) == a + (b + c) + [r]
  {
    Regroup(a, b + c, [r]);
    Regroup(b, c, [r]);
  }

  lemma PostKeepsInv(s: State, p: nat)
    requires Inv(s) && Enabled(s, Post(p))
    ensures Inv(Next(s, Post(p)))
  {
    OwedUpdate(s.producers, p, Idle);
    assert Next(s, Post(p)).q.Contents() == s.q.Contents();
  }

  lemma ProducerStepKeepsInv(s: State, step: Step)
    requires Inv(s) && Enabled(s, step)
    requires step.Enter? || step.TryPush? || step.Leave? || step.Post?
    ensures Inv(Next(s, step))
  {
    if step.TryPush? {
      TryPushKeepsInv(s, step.p);
    } else if step.Post? {
      PostKeepsInv(s, step.p);
    } else {
      OwedUpdate(s.producers, step.p, Next(s, step).producers[step.p]);
    }
  }

  lemma PopKeepsInv(s: State)
    requires Inv(s) && Enabled(s, PopOne)
    ensures Inv(Next(s, PopOne))
  {
    PopRemovesOldest(s.q);
    assert InHand(s.consumer) + s.q.Contents() == s.consumer.batch + [s.q.Front()] + s.q.Pop().Contents();
  }

  lemma UnlockKeepsInv(s: State)
    requires Inv(s) && Enabled(s, Unlock)
    ensures Inv(Next(s, Unlock))
  {
    UnlockKeepsRecords(s);
    UnlockKeepsLocking(s);
  }

  lemma UnlockKeepsRecords(s: State)
    requires Inv(s) && Enabled(s, Unlock)
    ensures Next(s, Unlock).q == s.q && Fifo(Next(s, Unlock)) && BatchSizes(Next(s, Unlock))
  {
    HandOver(s.batches, s.consumer.batch, s.q.Contents());
  }

  lemma UnlockKeepsLocking(s: State)
    requires Inv(s) && Enabled(s, Unlock)
    ensures Next(s, Unlock).q == s.q && Locking(Next(s, Unlock)) && Credit(Next(s, Unlock))
  {
  }

  /** Handing over the batch in hand changes neither order nor content. */
  lemma HandOver(batches: seq<seq<Record>>, batch: seq<Record>, rest: seq<Record>)
    ensures Flatten(batches + [batch]) + ([] + rest) == Flatten(batches) + (batch + rest)
  {
    assert (batches + [batch])[..|batches|] == batches;
    Regroup(Flatten(batches), batch, rest);
    assert [] + rest == rest;
  }

  lemma Regroup(a: seq<Record>, b: seq<Record>, c: seq<Record>)
    ensures a + b + c == a + (b + c)
  {
  }

  lemma ConsumerStepKeepsInv(s: State, step: Step)
    requires Inv(s) && Enabled(s, step)
    requires !(step.Enter? || step.TryPush? || step.Leave? || step.Post?)
    ensures Inv(Next(s, step))
  {
    if step.PopOne? {
      PopKeepsInv(s);
    } else if step.Unlock? {
      UnlockKeepsInv(s);
    }
  }

  lemma StepKeepsInv(s: State, step: Step)
    requires Inv(s) && Enabled(s, step)
    ensures Inv(Next(s, step))
  {
    if step.Enter? || step.TryPush? || step.Leave? || step.Post? {
      ProducerStepKeepsInv(s, step);
    } else {
      ConsumerStepKeepsInv(s, step);
    }
  }

  lemma {:induction false} RunKeepsInv(s: State, steps: seq<Step>, t: State)
    requires Inv(s) && Run(s, steps, t)
    ensures Inv(t)
    decreases steps
  {
    if steps != [] {
      StepKeepsInv(s, steps[0]);
      RunKeepsInv(Next(s, steps[0]), steps[1..], t);
    }
  }

  lemma RunInv(n: nat, steps: seq<Step>, s: State)
    requires Run(Init(n), steps, s)
    ensures Inv(s)
  {
    InitInv(n);
    RunKeepsInv(Init(n), steps, s);
  }

  // ---------- what every run guarantees ----------

  /** Semaphore credit, and with it the safety of the consumer's unguarded pops. */
  lemma CreditAndSafePops(n: nat, steps: seq<Step>, s: State)
    requires Run(Init(n), steps, s)
    ensures s.q.Valid() && s.q.Length() == s.q.sem + Owed(s.producers) + Tokens(s.consumer)
    ensures s.consumer.Popping? ==> 0 < |s.q.Contents()| && s.q.Front() == s.q.Contents()[0]
  {
    RunInv(n, steps, s);
    if s.consumer.Popping? { PopRemovesOldest(s.q); }
  }

  /** Nothing is lost, duplicated or reordered between an accepted push and its batch. */
  lemma FifoConservation(n: nat, steps: seq<Step>, s: State)
    requires Run(Init(n), steps, s)
    ensures s.q.Valid() && Flatten(s.batches) + InHand(s.consumer) + s.q.Contents() == s.accepted
    ensures forall b :: b in s.batches ==> 1 <= |b| <= 50
    ensures |s.q.Contents()| <= 1023
  {
    RunInv(n, steps, s);
    Regroup(Flatten(s.batches), InHand(s.consumer), s.q.Contents());
  }

  // ---------- which pushes are accepted ----------

  /** What a push of `r` adds to a ring with these contents: the record, unless 1023 are held. */
  ghost function Admitted(contents: seq<Record>, r: Record): seq<Record> {
    if |contents| < 1023 then [r] else []
  }

  /** A producer can enter whenever the mutex is free, and its push then adds exactly the
      record it came with, exactly if fewer than 1023 are held; a post follows exactly then. */
  lemma PushSection(s: State, p: nat, r: Record)
    requires Inv(s) && p < |s.producers| && s.producers[p].Idle? && s.holder.Free?
    ensures Enabled(s, Enter(p, r)) && Enabled(Next(s, Enter(p, r)), TryPush(p))
    ensures var t := Next(Next(s, Enter(p, r)), TryPush(p));
            && t.q.Valid() && t.q.Contents() == s.q.Contents() + Admitted(s.q.Contents(), r)
            && t.accepted == s.accepted + Admitted(s.q.Contents(), r)
            && (forall p' :: 0 <= p' < |s.producers| && p' != p ==> t.producers[p'] == s.producers[p'])
            && t.consumer == s.consumer && t.batches == s.batches && t.q.sem == s.q.sem
            && Enabled(t, Leave(p))
            && (Enabled(Next(t, Leave(p)), Post(p)) <==> |s.q.Contents()| < 1023)
            && Next(t, Leave(p)).holder.Free?
  {
    FullAt1023(s.q);
    if !s.q.Full() { PushAppends(s.q, r); }
  }

  /** The records a run's pushes add, as far as the ring has room. */
  ghost function Admissions(s: State, steps: seq<Step>, t: State): seq<Record>
    requires Inv(s) && Run(s, steps, t)
    decreases steps
  {
    if steps == [] then []
    else
      StepKeepsInv(s, steps[0]);
      AdmittedBy(s, steps[0]) + Admissions(Next(s, steps[0]), steps[1..], t)
  }

  ghost function AdmittedBy(s: State, step: Step): seq<Record>
    requires s.q.Valid() && Enabled(s, step)
  {
    if step.TryPush? then Admitted(s.q.Contents(), s.producers[step.p].r) else []
  }

  lemma AcceptedByStep(s: State, step: Step)
    requires Inv(s) && Enabled(s, step)
    ensures Next(s, step).accepted == s.accepted + AdmittedBy(s, step)
  {
    FullAt1023(s.q);
  }

  /** Along every run the accepted records grow by exactly the pushes that found fewer than
      1023 records in the ring. */
  lemma {:induction false} AcceptedIsAdmissions(s: State, steps: seq<Step>, t: State)
    requires Inv(s) && Run(s, steps, t)
    ensures t.accepted == s.accepted + Admissions(s, steps, t)
    decreases steps
  {
    if steps != [] {
      var next, rest := Next(s, steps[0]), steps[1..];
      StepKeepsInv(s, steps[0]);
      AcceptedByStep(s, steps[0]);
      AcceptedIsAdmissions(next, rest, t);
      Regroup(s.accepted, AdmittedBy(s, steps[0]), Admissions(next, rest, t));
    }
  }

  /** The record producer `p` last entered with. */
  ghost function LastEntered(steps: seq<Step>, p: nat): seq<Record> {
    if steps == [] then []
    else if LastEntered(steps[1..], p) != [] then LastEntered(steps[1..], p)
    else if steps[0].Enter? && steps[0].p == p then [steps[0].r]
    else []
  }

  /** The record a producer is about to push is the one it entered with. */
  lemma {:induction false} PushedIsEntered(s: State, steps: seq<Step>, t: State, p: nat)
    requires Run(s, steps, t) && p < |s.producers|
    ensures |t.producers| == |s.producers|
    ensures t.producers[p].Entered? ==>
              if LastEntered(steps, p) == [] then t.producers[p] == s.producers[p]
              else LastEntered(steps, p) == [t.producers[p].r]
    decreases steps
  {
    if steps != [] { PushedIsEntered(Next(s, steps[0]), steps[1..], t, p); }
  }

  /** Two threads are never inside the mutex together. */
  lemma MutualExclusion(n: nat, steps: seq<Step>, s: State, p: nat, p': nat)
    requires Run(Init(n), steps, s)
    requires p < |s.producers| && p' < |s.producers|
    requires InCriticalSection(s.producers[p])
    ensures InCriticalSection(s.producers[p']) ==> p == p'
    ensures InHand(s.consumer) == [] && !s.consumer.Popping? && !s.consumer.Draining?
  {
    RunInv(n, steps, s);
  }

  /** A consumer asleep on a zero semaphore leaves no record behind unless some producer is
      still about to post. */
  lemma NoStranding(n: nat, steps: seq<Step>, s: State)
    requires Run(Init(n), steps, s)
    requires s.consumer.Waiting? && s.q.sem == 0
    ensures s.q.Valid()
    ensures s.q.Contents() == [] || exists p :: 0 <= p < |s.producers| && Owes(s.producers[p])
  {
    RunInv(n, steps, s);
    OwedZeroMeansNoneOwes(s.producers);
  }

  /** Only a producer starting a new push can be enabled. */
  ghost predicate Quiescent(s: State) {
    forall step :: Enabled(s, step) ==> step.Enter?
  }

  /** No deadlock: when nothing but a new push can happen, everything accepted has been
      handed over in batches and every thread is back at its start. */
  lemma QuiescentMeansDelivered(n: nat, steps: seq<Step>, s: State)
    requires Run(Init(n), steps, s)
    requires Quiescent(s)
    ensures s.holder.Free? && s.consumer.Waiting?
    ensures forall p :: 0 <= p < |s.producers| ==> s.producers[p].Idle?
    ensures Flatten(s.batches) == s.accepted
  {
    RunInv(n, steps, s);
    QuiescentIsIdle(s);
  }

  lemma QuiescentIsIdle(s: State)
    requires Inv(s) && Quiescent(s)
    ensures s.holder.Free? && s.consumer.Waiting? && s.q.Length() == 0
    ensures AllIdle(s)
    ensures Flatten(s.batches) == s.accepted
  {
    forall p | 0 <= p < |s.producers|
      ensures !InCriticalSection(s.producers[p])
    {
      assert !Enabled(s, TryPush(p)) && !Enabled(s, Leave(p));
    }
    assert !Enabled(s, Lock) && !Enabled(s, PopOne) && !Enabled(s, TryWait);
    assert !Enabled(s, Unlock) && !Enabled(s, Upload) && !Enabled(s, Wait);
    forall p | 0 <= p < |s.producers|
      ensures s.producers[p].Idle?
    {
      assert !Enabled(s, Post(p));
    }
    OwedZeroMeansNoneOwes(s.producers);
  }

  // ---------- draining ----------

  ghost predicate AllIdle(s: State) {
    forall p :: 0 <= p < |s.producers| ==> s.producers[p].Idle?
  }

  ghost predicate NoNewPush(steps: seq<Step>) {
    forall i :: 0 <= i < |steps| ==> !steps[i].Enter?
  }

  ghost function ProducerWork(p: Producer): nat {
    match p
    case Idle => 0
    case Entered(_) => 9
    case Pushed => 2
    case Refused => 1
    case Owing => 1
  }

  ghost function ProducersWork(ps: seq<Producer>): nat {
    if ps == [] then 0 else ProducersWork(ps[..|ps| - 1]) + ProducerWork(ps[|ps| - 1])
  }

  lemma {:induction false} ProducersWorkUpdate(ps: seq<Producer>, p: nat, x: Producer)
    requires p < |ps|
    ensures ProducersWork(ps[p := x]) + ProducerWork(ps[p]) == ProducersWork(ps) + ProducerWork(x)
  {
    var last := |ps| - 1;
    if p < last {
      ProducersWorkUpdate(ps[..last], p, x);
      assert ps[p := x][..last] == ps[..last][p := x];
    } else {
      assert ps[p := x][..last] == ps[..last];
    }
  }

  ghost function ConsumerWork(c: Consumer): nat {
    match c
    case Waiting => 2
    case Woken => 1
    case Popping(_) => 0
    case Draining(_) => 5
    case Finished(_) => 4
    case Sending => 3
  }

  /** Steps still possible without a new push. */
  ghost function Work(s: State): nat
    requires s.q.Valid()
  {
    6 * s.q.Length() + ProducersWork(s.producers) + ConsumerWork(s.consumer)
  }

  lemma ProducerWorkDecreases(s: State, step: Step)
    requires Inv(s) && Enabled(s, step) && (step.TryPush? || step.Leave? || step.Post?)
    ensures Next(s, step).q.Valid() && Work(Next(s, step)) < Work(s)
  {
    ProducersWorkUpdate(s.producers, step.p, Next(s, step).producers[step.p]);
    if step.TryPush? && !s.q.Full() { PushAppends(s.q, s.producers[step.p].r); }
  }

  lemma ConsumerWorkDecreases(s: State, step: Step)
    requires Inv(s) && Enabled(s, step) && !(step.Enter? || step.TryPush? || step.Leave? || step.Post?)
    ensures Next(s, step).q.Valid() && Work(Next(s, step)) < Work(s)
  {
    if step.PopOne? { PopRemovesOldest(s.q); }
  }

  lemma WorkDecreases(s: State, step: Step)
    requires Inv(s) && Enabled(s, step) && !step.Enter?
    ensures Inv(Next(s, step)) && Work(Next(s, step)) < Work(s)
  {
    if step.TryPush? || step.Leave? || step.Post? {
      ProducerStepKeepsInv(s, step);
      ProducerWorkDecreases(s, step);
    } else {
      ConsumerStepKeepsInv(s, step);
      ConsumerWorkDecreases(s, step);
    }
  }

  /** Without new pushes every run from a reachable state is finite, with a known bound. */
  lemma {:induction false} DrainTerminates(s: State, steps: seq<Step>, t: State)
    requires Inv(s) && Run(s, steps, t) && NoNewPush(steps)
    ensures Inv(t) && |steps| + Work(t) <= Work(s)
    decreases steps
  {
    if steps != [] {
      var step, rest := steps[0], steps[1..];
      WorkDecreases(s, step);
      assert NoNewPush(rest);
      DrainTerminates(Next(s, step), rest, t);
    }
  }

  function CeilDiv(a: nat, b: nat): nat
    requires 0 < b
  {
    (a + b - 1) / b
  }

  /** Batches taken plus batches the remaining records will make. */
  ghost function Rounds(s: State): nat
    requires s.q.Valid()
  {
    |s.batches| + CeilDiv(|InHand(s.consumer)| + s.q.Length(), BATCH_LIMIT)
  }

  /** The producers rest, so a failed sem_trywait means the ring is empty. */
  ghost predicate Emptying(s: State) {
    Inv(s) && AllIdle(s) && (s.consumer.Finished? ==> s.q.Length() == 0)
  }

  lemma RoundsUnchanged(s: State, step: Step)
    requires Emptying(s)
    requires Enabled(s, step) && !step.Enter?
    ensures Next(s, step).q.Valid() && Rounds(Next(s, step)) == Rounds(s)
  {
    if step.PopOne? { PopRemovesOldest(s.q); }
  }

  lemma RoundsInvariant(s: State, step: Step)
    requires Emptying(s) && Enabled(s, step) && !step.Enter?
    ensures Emptying(Next(s, step)) && Rounds(Next(s, step)) == Rounds(s)
  {
    ConsumerStepKeepsInv(s, step);
    OwedZeroMeansNoneOwes(s.producers);
    RoundsUnchanged(s, step);
  }

  lemma {:induction false} RoundsAlongRun(s: State, steps: seq<Step>, t: State)
    requires Emptying(s) && Run(s, steps, t) && NoNewPush(steps)
    ensures Emptying(t) && Rounds(t) == Rounds(s)
    decreases steps
  {
    if steps != [] {
      var step, rest := steps[0], steps[1..];
      RoundsInvariant(s, step);
      assert NoNewPush(rest);
      RoundsAlongRun(Next(s, step), rest, t);
    }
  }

  /** Once producers rest, a queue of L records is emptied in exactly ceil(L / 50) batches:
      no schedule can take more or fewer, and every schedule gets there. */
  lemma DrainRounds(n: nat, before: seq<Step>, s: State, steps: seq<Step>, t: State)
    requires Run(Init(n), before, s) && AllIdle(s) && s.consumer.Waiting?
    requires Run(s, steps, t) && NoNewPush(steps)
    ensures s.q.Valid() && |steps| <= 6 * |s.q.Contents()| + 2
    ensures Quiescent(t) ==> |t.batches| == |s.batches| + CeilDiv(|s.q.Contents()|, 50)
    ensures Quiescent(t) ==> t.q.Valid() && t.q.Contents() == [] && t.accepted == Flatten(t.batches)
  {
    RunInv(n, before, s);
    RoundsAlongRun(s, steps, t);
    DrainTerminates(s, steps, t);
    NoWorkWhenIdle(s.producers);
    if Quiescent(t) { QuiescentIsIdle(t); }
  }

  lemma {:induction false} NoWorkWhenIdle(ps: seq<Producer>)
    requires forall p :: 0 <= p < |ps| ==> ps[p].Idle?
    ensures ProducersWork(ps) == 0
  {
    if ps != [] { NoWorkWhenIdle(ps[..|ps| - 1]); }
  }

  // ---------- the locked batch loop ----------

  ghost predicate NoUnlock(steps: seq<Step>) {
    forall i :: 0 <= i < |steps| ==> !steps[i].Unlock?
  }

  ghost function Posts(steps: seq<Step>): nat {
    if steps == [] then 0 else (if steps[0].Post? then 1 else 0) + Posts(steps[1..])
  }

  /** The posts of a run, grouped by the trywait attempt they precede; the last group precedes
      none. */
  ghost function LandingOf(steps: seq<Step>): (landing: seq<nat>)
    ensures landing != []
  {
    if steps == [] then [0]
    else
      var landing := LandingOf(steps[1..]);
      if steps[0].Post? then landing[0 := landing[0] + 1]
      else if steps[0].TryWait? then [0] + landing
      else landing
  }

  lemma {:induction false} LandedShifts(landing: seq<nat>, n: nat)
    requires n <= |landing|
    ensures Landed([0] + landing, n + 1) == Landed(landing, n)
    ensures 0 < n ==> Landed(landing[0 := landing[0] + 1], n) == Landed(landing, n) + 1
  {
    if n == 0 {
      assert Landed([0] + landing, n) == 0;
    } else {
      LandedShifts(landing, n - 1);
    }
  }

  lemma {:induction false} LandingCountsPosts(steps: seq<Step>)
    ensures Landed(LandingOf(steps), |LandingOf(steps)|) == Posts(steps)
  {
    if steps == [] {
      assert Landed([0], 0) == 0;
    } else {
      LandingCountsPosts(steps[1..]);
      LandedShifts(LandingOf(steps[1..]), |LandingOf(steps[1..])|);
    }
  }

  /** While the consumer holds the mutex nothing is pushed, every post that lands is one that
      was owed when it took the mutex, and every token ends up in the batch or stays. */
  lemma {:induction false} LockedPostsWereOwed(s: State, steps: seq<Step>, t: State)
    requires Inv(s) && s.holder.ByConsumer? && Run(s, steps, t) && NoUnlock(steps)
    ensures Inv(t) && t.holder.ByConsumer? && t.accepted == s.accepted && t.batches == s.batches
    ensures Posts(steps) + Owed(t.producers) == Owed(s.producers)
    ensures Drawn(t) == Drawn(s) + Posts(steps)
    decreases steps
  {
    if steps != [] {
      var step, rest := steps[0], steps[1..];
      LockedStep(s, step);
      assert NoUnlock(rest);
      LockedPostsWereOwed(Next(s, step), rest, t);
    }
  }

  /** Tokens on the semaphore, in the consumer's hand, and spent on the current batch. */
  ghost function Drawn(s: State): nat {
    s.q.sem + Tokens(s.consumer) + |InHand(s.consumer)|
  }

  lemma LockedStep(s: State, step: Step)
    requires Inv(s) && s.holder.ByConsumer? && Enabled(s, step) && !step.Unlock?
    ensures var t := Next(s, step);
            && Inv(t) && t.holder.ByConsumer? && t.accepted == s.accepted && t.batches == s.batches
            && (if step.Post? then 1 else 0) + Owed(t.producers) == Owed(s.producers)
            && Drawn(t) == Drawn(s) + if step.Post? then 1 else 0
  {
    if step.Post? {
      PostKeepsInv(s, step.p);
      OwedUpdate(s.producers, step.p, Idle);
    } else {
      ConsumerStepKeepsInv(s, step);
    }
  }

  /** From the moment the consumer takes the mutex, whatever other threads do until it lets it
      go: the token it came with, the tokens present and all posts that land are covered by
      records in the ring, which is what `SharedQueue.TakeBatch` requires of `landing`. */
  lemma BatchPreconditionHolds(n: nat, before: seq<Step>, s: State, steps: seq<Step>, t: State)
    requires Run(Init(n), before, s) && Enabled(s, Lock)
    requires Run(Next(s, Lock), steps, t) && NoUnlock(steps)
    ensures var landing := LandingOf(steps);
            s.q.Valid() && (s.q.sem + 1) + Landed(landing, |landing|) <= s.q.Length()
  {
    RunInv(n, before, s);
    ConsumerStepKeepsInv(s, Lock);
    LockedPostsWereOwed(Next(s, Lock), steps, t);
    LandingCountsPosts(steps);
  }

  /** ... and the batch it leaves with is what `TakeBatch` promises: the oldest 1 to 50
      records, the others staying, 50 or as many as tokens were found. */
  lemma LockedBatchIsOldestPrefix(n: nat, before: seq<Step>, s: State, steps: seq<Step>, t: State)
    requires Run(Init(n), before, s) && Enabled(s, Lock)
    requires Run(Next(s, Lock), steps, t) && NoUnlock(steps) && Enabled(t, Unlock)
    ensures s.q.Valid() && t.q.Valid() && s.q.Contents() == InHand(t.consumer) + t.q.Contents()
    ensures 1 <= |InHand(t.consumer)| <= BATCH_LIMIT
    ensures |InHand(t.consumer)| == BATCH_LIMIT || t.consumer.Finished?
    ensures t.q.sem + |InHand(t.consumer)| == s.q.sem + 1 + Posts(steps)
  {
    RunInv(n, before, s);
    ConsumerStepKeepsInv(s, Lock);
    LockedPostsWereOwed(Next(s, Lock), steps, t);
    SameTail(Flatten(s.batches), s.q.Contents(), InHand(t.consumer) + t.q.Contents());
  }

  lemma SameTail(a: seq<Record>, b: seq<Record>, c: seq<Record>)
    requires a + ([] + b) == a + c
    ensures b == c
  {
    assert [] + b == b;
    assert (a + b)[|a|..] == b && (a + c)[|a|..] == c;
  }
}
