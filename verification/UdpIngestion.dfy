/** The UDP handler end to end: rate limit, parse, enqueue, post, blackboard update, while
    the uploader consumes and IPC clients push in between. */
module UdpIngestion {
  import opened CText
  import opened Records
  import opened SensorQueue
  import opened TokenBucket
  import Blackboard
  import RecordText
  import Upload

  /** The shared data the handler works on. */
  datatype Parts = Parts(bucket: Bucket, queue: Queue, board: seq<Blackboard.Slot>)

  /** The limiter's verdict on a datagram that asks for one token at clock reading `now`. */
  function Admits(p: Parts, now: int): bool { Grants(p.bucket, Call(now, 1)) }

  function Limit(p: Parts, now: int): Parts { p.(bucket := Consume(p.bucket, Call(now, 1))) }

  /** Push under the lock; if there was room, post and update the blackboard. */
  function Deliver(p: Parts, r: Record, now: int): (q: Parts)
    requires p.queue.Valid()
    ensures q.queue.Valid()
  {
    if p.queue.Full() then p
    else p.(queue := p.queue.Push(r).Post(), board := Blackboard.Update(p.board, r, now))
  }

  /** Deliveries of one datagram in a row. */
  function DeliverAll(p: Parts, rs: seq<Record>, times: seq<int>): (q: Parts)
    requires p.queue.Valid() && |rs| <= |times|
    ensures q.queue.Valid()
    decreases rs
  {
    if rs == [] then p else DeliverAll(Deliver(p, rs[0], times[0]), rs[1..], times[1..])
  }

  class UdpServer {
    const queue: SharedQueue
    const limiter: Limiter
    const table: Blackboard.SharedTable

    ghost predicate Valid()
      reads this, queue, queue.data, limiter, table, table.slots
    {
      && queue.Valid() && table.Attached()
      && queue.data as object != table.slots as object
    }

    ghost function View(): Parts
      reads this, queue, queue.data, limiter, table, table.slots
    {
      Parts(limiter.View(), queue.View(), table.View())
    }

    constructor (queue: SharedQueue, limiter: Limiter, table: Blackboard.SharedTable)
      requires queue.Valid() && table.Attached() && queue.data as object != table.slots as object
      ensures Valid() && this.queue == queue && this.limiter == limiter && this.table == table
    {
      this.queue, this.limiter, this.table := queue, limiter, table;
    }

    method Enqueue(r: Record, now: int)
      requires Valid()
      modifies queue, queue.data, table.slots
      ensures Valid() && queue.data == old(queue.data) && table.slots == old(table.slots)
      ensures View() == Deliver(old(View()), r, now)
    {
      var ok := queue.Produce(r);
      if ok {
        table.UpdateSensor(r.sensorId, r.data, now);
      }
    }

    /** `handle_udp_read`; None stands for a failed or empty recvfrom, `times` for the clock
        readings of the blackboard updates. */
    method HandleUdpRead(received: Option<string>, now: int, times: seq<int>)
      requires Valid() && |times| == 2
      modifies queue, queue.data, limiter, table.slots
      ensures Valid() && queue.data == old(queue.data) && table.slots == old(table.slots)
      ensures received == None ==> View() == old(View())
      ensures received.Some? && !Admits(old(View()), now) ==> View() == Limit(old(View()), now)
      ensures received.Some? && Admits(old(View()), now) ==>
                View() == DeliverAll(Limit(old(View()), now), RecordText.Readings(received.value), times)
    {
      if received == None { return; }
      var allowed := limiter.TryConsume(now, 1);
      if allowed == 0 { return; }
      var readings := RecordText.Readings(received.value);
      ghost var limited := View();
      for i := 0 to |readings|
        invariant Valid() && queue.data == old(queue.data) && table.slots == old(table.slots)
        invariant DeliverAll(View(), readings[i..], times[i..]) == DeliverAll(limited, readings, times)
      {
        assert readings[i..][1..] == readings[i + 1..] && times[i..][1..] == times[i + 1..];
        Enqueue(readings[i], times[i]);
      }
    }
  }

  // ---------- runs ----------

  datatype Pushed = Pushed(record: Record, udp: bool)

  /** `todo` holds the readings of the current datagram not yet delivered; the other fields
      record what has happened so far. */
  datatype State = State(parts: Parts, todo: seq<Record>, accepted: seq<Pushed>, consumed: seq<Record>,
                         granted: nat, attempted: nat, dropped: nat)

  datatype Event =
    | Datagram(now: int, text: string)
    | DeliverNext(now: int)
    | IpcRecord(r: Record)
    | UploaderPops

  ghost function Init(capacity: nat, rate: nat, now: int): State {
    State(Parts(Start(capacity, rate, now), EmptyQueue(), Blackboard.EmptyTable()), [], [], [], 0, 0, 0)
  }

  /** The event loop is one thread: it takes up new input only when `todo` is empty.  The
      uploader is another thread and may pop between any two of its steps. */
  ghost predicate Enabled(s: State, e: Event) {
    s.parts.queue.Valid() &&
    match e
    case Datagram(_, _) => s.todo == []
    case DeliverNext(_) => s.todo != []
    case IpcRecord(_) => s.todo == []
    case UploaderPops => 0 < s.parts.queue.sem
  }

  ghost function Next(s: State, e: Event): State
    requires Enabled(s, e)
  {
    match e
    case Datagram(now, text) =>
      if !Admits(s.parts, now) then s.(parts := Limit(s.parts, now))
      else s.(parts := Limit(s.parts, now), todo := RecordText.Readings(text), granted := s.granted + 1,
              attempted := s.attempted + |RecordText.Readings(text)|)
    case DeliverNext(now) =>
      var r := s.todo[0];
      if s.parts.queue.Full() then s.(todo := s.todo[1..], dropped := s.dropped + 1)
      else s.(parts := Deliver(s.parts, r, now), todo := s.todo[1..], accepted := s.accepted + [Pushed(r, true)])
    case IpcRecord(r) =>
      if s.parts.queue.Full() then s
      else s.(parts := s.parts.(queue := s.parts.queue.Push(r).Post()), accepted := s.accepted + [Pushed(r, false)])
    case UploaderPops =>
      s.(parts := s.parts.(queue := s.parts.queue.Take().Pop()), consumed := s.consumed + [s.parts.queue.Front()])
  }

  ghost predicate Run(s: State, events: seq<Event>, t: State)
    decreases events
  {
    if events == [] then s == t
    else Enabled(s, events[0]) && Run(Next(s, events[0]), events[1..], t)
  }

  ghost function RecordsOf(ps: seq<Pushed>): seq<Record> {
    if ps == [] then [] else RecordsOf(ps[..|ps| - 1]) + [ps[|ps| - 1].record]
  }

  /** The UDP readings among the accepted pushes, in order. */
  ghost function UdpRecords(ps: seq<Pushed>): seq<Record> {
    if ps == [] then []
    else UdpRecords(ps[..|ps| - 1]) + if ps[|ps| - 1].udp then [ps[|ps| - 1].record] else []
  }

  ghost predicate Inv(s: State) {
    var q := s.parts.queue;
    && q.Valid() && q.Length() == q.sem
    && s.consumed + q.Contents() == RecordsOf(s.accepted)
    && Blackboard.Tracks(s.parts.board, UdpRecords(s.accepted))
    && s.attempted == |UdpRecords(s.accepted)| + s.dropped + |s.todo|
    && |s.todo| <= 2
  }

  lemma InitInv(capacity: nat, rate: nat, now: int)
    ensures Inv(Init(capacity, rate, now))
  {
  }

  lemma LogGrows(log: seq<Pushed>, p: Pushed)
    ensures RecordsOf(log + [p]) == RecordsOf(log) + [p.record]
    ensures UdpRecords(log + [p]) == if p.udp then UdpRecords(log) + [p.record] else UdpRecords(log)
  {
  }

  lemma PushKeepsConservation(before: Queue, consumed: seq<Record>, log: seq<Record>, r: Record, q: Queue)
    requires before.Valid() && !before.Full() && before.Length() == before.sem
    requires consumed + before.Contents() == log && q == before.Push(r).Post()
    ensures q.Valid() && q.Length() == q.sem && consumed + q.Contents() == log + [r]
  {
    PushAppends(before, r);
  }

  lemma PopKeepsInv(s: State)
    requires Inv(s) && Enabled(s, UploaderPops)
    ensures Inv(Next(s, UploaderPops))
  {
    PopRemovesOldest(s.parts.queue);
  }

  lemma StepKeepsInv(s: State, e: Event)
    requires Inv(s) && Enabled(s, e)
    ensures Inv(Next(s, e))
  {
    match e
    case Datagram(now, text) =>
    case DeliverNext(now) =>
      if !s.parts.queue.Full() {
        LogGrows(s.accepted, Pushed(s.todo[0], true));
        PushKeepsConservation(s.parts.queue, s.consumed, RecordsOf(s.accepted), s.todo[0],
                              s.parts.queue.Push(s.todo[0]).Post());
        Blackboard.UpdateKeepsTracking(s.parts.board, UdpRecords(s.accepted), s.todo[0], now);
      }
    case IpcRecord(r) =>
      if !s.parts.queue.Full() {
        LogGrows(s.accepted, Pushed(r, false));
        PushKeepsConservation(s.parts.queue, s.consumed, RecordsOf(s.accepted), r, s.parts.queue.Push(r).Post());
      }
    case UploaderPops => PopKeepsInv(s);
  }

  lemma {:induction false} RunKeepsInv(s: State, events: seq<Event>, t: State)
    requires Inv(s) && Run(s, events, t)
    ensures Inv(t)
    decreases events
  {
    if events != [] {
      StepKeepsInv(s, events[0]);
      RunKeepsInv(Next(s, events[0]), events[1..], t);
    }
  }

  // ---------- what each event does ----------

  /** What a push adds to a ring with these contents: the record, unless 1023 are held. */
  ghost function Admitted(contents: seq<Record>, r: Record): seq<Record> {
    if |contents| < 1023 then [r] else []
  }

  /** A delivery enqueues the next reading and puts it on the blackboard exactly if fewer than
      1023 records are held, and counts it as dropped otherwise. */
  lemma DeliveryIsExact(s: State, now: int)
    requires Inv(s) && s.todo != []
    ensures Enabled(s, DeliverNext(now))
    ensures var t, r := Next(s, DeliverNext(now)), s.todo[0];
            var added := Admitted(s.parts.queue.Contents(), r);
            && t.parts.queue.Valid() && t.parts.queue.Contents() == s.parts.queue.Contents() + added
            && RecordsOf(t.accepted) == RecordsOf(s.accepted) + added
            && UdpRecords(t.accepted) == UdpRecords(s.accepted) + added
            && t.parts.board == (if added == [r] then Blackboard.Update(s.parts.board, r, now) else s.parts.board)
            && t.dropped == s.dropped + (if added == [r] then 0 else 1)
            && t.todo == s.todo[1..] && t.parts.bucket == s.parts.bucket && t.consumed == s.consumed
  {
    var q, r := s.parts.queue, s.todo[0];
    FullAt1023(q);
    LogGrows(s.accepted, Pushed(r, true));
    if !q.Full() { PushAppends(q, r); }
  }

  /** A record from a local client is enqueued exactly if fewer than 1023 are held, and never
      touches blackboard, limiter or the UDP counts. */
  lemma IpcIsExact(s: State, r: Record)
    requires Inv(s) && s.todo == []
    ensures Enabled(s, IpcRecord(r))
    ensures var t, added := Next(s, IpcRecord(r)), Admitted(s.parts.queue.Contents(), r);
            && t.parts.queue.Valid() && t.parts.queue.Contents() == s.parts.queue.Contents() + added
            && RecordsOf(t.accepted) == RecordsOf(s.accepted) + added
            && UdpRecords(t.accepted) == UdpRecords(s.accepted)
            && t.parts.board == s.parts.board && t.parts.bucket == s.parts.bucket
            && t.todo == [] && t.consumed == s.consumed
            && t.granted == s.granted && t.attempted == s.attempted && t.dropped == s.dropped
  {
    FullAt1023(s.parts.queue);
    LogGrows(s.accepted, Pushed(r, false));
    if !s.parts.queue.Full() { PushAppends(s.parts.queue, r); }
  }

  /** A pop hands over the oldest record and changes nothing else but the ring; it is possible
      exactly when the ring holds one. */
  lemma PopIsExact(s: State)
    requires Inv(s)
    ensures Enabled(s, UploaderPops) <==> s.parts.queue.Contents() != []
    ensures Enabled(s, UploaderPops) ==>
              var t, contents := Next(s, UploaderPops), s.parts.queue.Contents();
              && t.parts.queue.Valid() && t.parts.queue.Contents() == contents[1..]
              && t.consumed == s.consumed + [contents[0]]
              && t == s.(parts := s.parts.(queue := t.parts.queue), consumed := t.consumed)
  {
    if s.parts.queue.Contents() != [] { PopRemovesOldest(s.parts.queue); }
  }

  /** A datagram needs one token, those arrived since the last advance of the clock included. */
  lemma AdmitsExactly(p: Parts, now: int)
    requires InRange(p.bucket)
    ensures var b := p.bucket;
            var arrived := b.rate as real * (Limit(p, now).bucket.last - b.last) as real / 1000.0;
            Admits(p, now) <==> 1 <= b.capacity && 1.0 <= b.tokens + arrived
  {
    ConsumeIsExact(p.bucket, Call(now, 1));
  }

  /** With the token its readings come next; without it nothing but the limiter changes. */
  lemma DatagramIsExact(s: State, now: int, text: string, rs: seq<Record>)
    requires Inv(s) && s.todo == [] && rs == RecordText.Readings(text)
    ensures Enabled(s, Datagram(now, text))
    ensures var t := Next(s, Datagram(now, text));
            && t.todo == (if Admits(s.parts, now) then rs else [])
            && t.granted == s.granted + (if Admits(s.parts, now) then 1 else 0)
            && t.attempted == s.attempted + |t.todo|
            && t.parts == Limit(s.parts, now)
            && t.accepted == s.accepted && t.consumed == s.consumed && t.dropped == s.dropped
  {
  }

  // ---------- what every run guarantees ----------

  /** After any run the blackboard shows, for each of the first 100 distinct non-zero ids, the
      last UDP reading of that id that was actually enqueued; for any other non-zero id -999,
      and for id 0 what is left of its readings. */
  lemma BoardShowsLastEnqueued(capacity: nat, rate: nat, start: int, events: seq<Event>, s: State, id: Uint32)
    requires Run(Init(capacity, rate, start), events, s)
    ensures Blackboard.Read(s.parts.board, id) == Blackboard.Recalled(UdpRecords(s.accepted), id)
  {
    InitInv(capacity, rate, start);
    RunKeepsInv(Init(capacity, rate, start), events, s);
    Blackboard.TrackedRead(s.parts.board, UdpRecords(s.accepted), id);
  }

  /** Every accepted push, from UDP or IPC, is popped exactly once and in order or still in the
      ring; every attempted UDP reading was enqueued, dropped on a full ring, or is next. */
  lemma IngestionConserves(capacity: nat, rate: nat, start: int, events: seq<Event>, s: State)
    requires Run(Init(capacity, rate, start), events, s)
    ensures s.parts.queue.Valid() && s.consumed + s.parts.queue.Contents() == RecordsOf(s.accepted)
    ensures s.attempted == |UdpRecords(s.accepted)| + s.dropped + |s.todo|
  {
    InitInv(capacity, rate, start);
    RunKeepsInv(Init(capacity, rate, start), events, s);
  }

  /** The consume calls of a run. */
  ghost function Calls(events: seq<Event>): seq<Call> {
    if events == [] then []
    else (if events[0].Datagram? then [Call(events[0].now, 1)] else []) + Calls(events[1..])
  }

  lemma {:induction false} CallsAskForOne(events: seq<Event>)
    ensures NonNegative(Calls(events))
  {
    if events != [] { CallsAskForOne(events[1..]); }
  }

  lemma {:induction false} GrantsAlongRun(s: State, events: seq<Event>, t: State)
    requires Run(s, events, t)
    ensures t.parts.bucket == After(s.parts.bucket, Calls(events))
    ensures t.granted == s.granted + Granted(s.parts.bucket, Calls(events))
    decreases events
  {
    if events != [] {
      var e := events[0];
      GrantsAlongRun(Next(s, e), events[1..], t);
      if e.Datagram? {
        assert Calls(events)[0] == Call(e.now, 1) && Calls(events)[1..] == Calls(events[1..]);
      } else {
        assert Calls(events) == Calls(events[1..]);
      }
    }
  }

  lemma {:induction false} AttemptsAlongRun(s: State, events: seq<Event>, t: State)
    requires Run(s, events, t)
    ensures t.attempted <= s.attempted + 2 * (t.granted - s.granted) && s.dropped <= t.dropped
    decreases events
  {
    if events != [] { AttemptsAlongRun(Next(s, events[0]), events[1..], t); }
  }

  /** The bucket and the admissions of a run up to s and on to t, in terms of the consume calls. */
  lemma GrantsInWindow(capacity: nat, rate: nat, start: int,
                       before: seq<Event>, s: State, during: seq<Event>, t: State)
    requires Run(Init(capacity, rate, start), before, s) && Run(s, during, t)
    ensures s.parts.bucket == After(Start(capacity, rate, start), Calls(before))
    ensures t.granted - s.granted == Granted(s.parts.bucket, Calls(during))
  {
    GrantsAlongRun(Init(capacity, rate, start), before, s);
    GrantsAlongRun(s, during, t);
  }

  /** What the token bucket lets through in the window of the calls `second` after `first`. */
  ghost function Allowance(capacity: nat, rate: nat, start: int, first: seq<Call>, second: seq<Call>): real {
    capacity as real + Gain(rate, RunningMax(start, first + second) - RunningMax(start, first))
  }

  /** Datagrams admitted in a window obey the token bucket's bound. */
  lemma AdmitRateBound(capacity: nat, rate: nat, start: int,
                       before: seq<Event>, s: State, during: seq<Event>, t: State)
    requires Run(Init(capacity, rate, start), before, s) && Run(s, during, t)
    ensures (t.granted - s.granted) as real
            <= Allowance(capacity, rate, start, Calls(before), Calls(during))
  {
    GrantsInWindow(capacity, rate, start, before, s, during, t);
    CallsAskForOne(before);
    CallsAskForOne(during);
    BoundOf(capacity, rate, start, Calls(before), Calls(during), s.parts.bucket, t.granted - s.granted);
  }

  lemma BoundOf(capacity: nat, rate: nat, start: int, first: seq<Call>, second: seq<Call>, b: Bucket, granted: int)
    requires NonNegative(first) && NonNegative(second)
    requires b == After(Start(capacity, rate, start), first) && granted == Granted(b, second)
    ensures granted as real
            <= Allowance(capacity, rate, start, first, second)
  {
    WindowBound(capacity, rate, start, first, second);
  }

  /** A window enqueues at most two readings per admission, plus those of a datagram in whose
      middle it opens. */
  lemma TwoReadingsPerAdmission(s: State, during: seq<Event>, t: State)
    requires Inv(s) && Run(s, during, t)
    ensures |UdpRecords(t.accepted)| - |UdpRecords(s.accepted)| <= 2 * (t.granted - s.granted) + |s.todo|
  {
    RunKeepsInv(s, during, t);
    AttemptsAlongRun(s, during, t);
  }

  /** In any window of any run the UDP readings enqueued are at most twice what the token
      bucket lets through in that window, plus the readings under way when it opens. */
  lemma EnqueueRateBound(capacity: nat, rate: nat, start: int,
                         before: seq<Event>, s: State, during: seq<Event>, t: State)
    requires Run(Init(capacity, rate, start), before, s) && Run(s, during, t)
    ensures |s.todo| <= 2
    ensures (|UdpRecords(t.accepted)| - |UdpRecords(s.accepted)|) as real
            <= 2.0 * Allowance(capacity, rate, start, Calls(before), Calls(during)) + |s.todo| as real
  {
    InitInv(capacity, rate, start);
    RunKeepsInv(Init(capacity, rate, start), before, s);
    AdmitRateBound(capacity, rate, start, before, s, during, t);
    TwoReadingsPerAdmission(s, during, t);
  }

  /** Handling a datagram without interference is the corresponding run of events, so the
      results above hold for the handler as written. */
  lemma {:induction false} DeliveriesAreRun(s: State, times: seq<int>) returns (events: seq<Event>, t: State)
    requires Inv(s) && |s.todo| <= |times|
    ensures Run(s, events, t) && t.todo == [] && t.parts == DeliverAll(s.parts, s.todo, times)
    decreases |s.todo|
  {
    if s.todo == [] {
      events, t := [], s;
    } else {
      var first := DeliverNext(times[0]);
      StepKeepsInv(s, first);
      var rest;
      rest, t := DeliveriesAreRun(Next(s, first), times[1..]);
      events := [first] + rest;
      assert events[1..] == rest;
    }
  }

  lemma HandlerIsRun(s: State, text: string, now: int, times: seq<int>) returns (events: seq<Event>, t: State)
    requires Inv(s) && s.todo == [] && |times| == 2
    ensures Run(s, events, t) && t.todo == []
    ensures t.parts == if Admits(s.parts, now) then DeliverAll(Limit(s.parts, now), RecordText.Readings(text), times)
                       else Limit(s.parts, now)
  {
    var first := Datagram(now, text);
    StepKeepsInv(s, first);
    var rest;
    rest, t := DeliveriesAreRun(Next(s, first), times);
    events := [first] + rest;
    assert events[1..] == rest;
  }

  // ---------- a batch that does not fit ----------

  lemma {:induction false} RunAppend(s: State, first: seq<Event>, m: State, second: seq<Event>, t: State)
    requires Run(s, first, m) && Run(m, second, t)
    ensures Run(s, first + second, t)
    decreases first
  {
    if first == [] {
      assert first + second == second;
    } else {
      assert (first + second)[1..] == first[1..] + second;
      RunAppend(Next(s, first[0]), first[1..], m, second, t);
    }
  }

  /** The ring holds `k` copies of `r`, and the limiter has admitted as many datagrams. */
  ghost predicate Flooded(s: State, capacity: nat, now: int, r: Record, k: nat) {
    && s.parts.queue.Valid() && s.todo == []
    && s.parts.bucket.last == now && s.parts.bucket.tokens == (capacity - k) as real
    && s.parts.queue.Contents() == seq(k, _ => r)
  }

  /** One more datagram with a single reading, at the same clock reading. */
  lemma FloodStep(s: State, capacity: nat, now: int, text: string, r: Record, k: nat) returns (t: State)
    requires Flooded(s, capacity, now, r, k) && k < capacity && k < MAX_QUEUE_SIZE - 1
    requires RecordText.Readings(text) == [r]
    ensures Run(s, [Datagram(now, text), DeliverNext(now)], t) && Flooded(t, capacity, now, r, k + 1)
  {
    var m := Next(s, Datagram(now, text));
    assert Admits(s.parts, now) && m.todo == [r] && m.parts.queue == s.parts.queue;
    FullAt1023(s.parts.queue);
    assert !s.parts.queue.Full();
    t := Next(m, DeliverNext(now));
    PushAppends(s.parts.queue, r);
    assert t.parts.queue.Contents() == seq(k, _ => r) + [r] == seq(k + 1, _ => r);
    var steps := [Datagram(now, text), DeliverNext(now)];
    assert steps[1..] == [DeliverNext(now)] && steps[1..][1..] == [];
  }

  lemma {:induction false} Flood(capacity: nat, rate: nat, now: int, text: string, r: Record, k: nat)
      returns (events: seq<Event>, s: State)
    requires k <= capacity && k <= MAX_QUEUE_SIZE - 1 && RecordText.Readings(text) == [r]
    ensures Run(Init(capacity, rate, now), events, s) && Flooded(s, capacity, now, r, k)
  {
    if k == 0 {
      events, s := [], Init(capacity, rate, now);
      EmptyQueueIsEmpty();
    } else {
      var before, m := Flood(capacity, rate, now, text, r, k - 1);
      s := FloodStep(m, capacity, now, text, r, k - 1);
      events := before + [Datagram(now, text), DeliverNext(now)];
      RunAppend(Init(capacity, rate, now), before, m, [Datagram(now, text), DeliverNext(now)], s);
    }
  }

  /** With a bucket of at least 50 tokens there is a run of datagrams after which the next
      batch, up to 50 records, does not fit the uploader's buffer. */
  lemma RunCanOverflow(capacity: nat, rate: nat, start: int) returns (events: seq<Event>, s: State)
    requires BATCH_LIMIT <= capacity
    ensures Run(Init(capacity, rate, start), events, s) && s.parts.queue.Valid()
    ensures |Upload.Body(Upload.Entries(Upload.Oldest(s.parts.queue.Contents())))| >= Upload.PAYLOAD_SIZE
  {
    var text := RecordText.ScientificText(Upload.WIDE_ID, 2, 47);
    var r := Upload.WideRecord(Upload.WIDE_ID, 2, 47);
    events, s := Flood(capacity, rate, start, text, r, BATCH_LIMIT);
    Upload.DatagramsCanOverflow(s.parts.queue.Contents());
  }
}
