/** The poll() loop: its table of descriptors is walked while accept appends to it and a
    disconnect moves the last entry into the gap. */
module EventLoop {
  const MAX_POLL_FDS: nat := 1024

  /** `revents` is the POLLIN bit poll reported. */
  datatype PollFd = PollFd(fd: int, events: bool, revents: bool)

  /** What the kernel answers during one pass: the result of accept, and of read per
      descriptor.  A listener that could not be opened is negative. */
  datatype Env = Env(udp: int, ipc: int, accepted: int, bytesRead: int -> int) {
    /** Slot of the IPC listener, when there is one. */
    function IpcSlot(): nat { if udp >= 0 then 1 else 0 }

    predicate IsClient(fd: int) { fd != udp && fd != ipc }
  }

  /** A pass in progress: next index to visit, and the descriptors dispatched so far. */
  datatype Pass = Pass(fds: seq<PollFd>, nfds: nat, i: nat, log: seq<int>)

  ghost function Fds(fds: seq<PollFd>, nfds: nat): set<int>
    requires nfds <= |fds|
  {
    set k | 0 <= k < nfds :: fds[k].fd
  }

  /** Pairwise distinct open descriptors, all registered for POLLIN, listeners first. */
  ghost predicate Table(fds: seq<PollFd>, nfds: nat, env: Env) {
    && |fds| == MAX_POLL_FDS && nfds <= MAX_POLL_FDS
    && (forall a :: 0 <= a < nfds ==> fds[a].fd >= 0 && fds[a].events)
    && (forall a, b :: 0 <= a < b < nfds ==> fds[a].fd != fds[b].fd)
    && (env.udp >= 0 ==> 0 < nfds && fds[0].fd == env.udp)
    && (env.ipc >= 0 ==> env.IpcSlot() < nfds && fds[env.IpcSlot()].fd == env.ipc)
  }

  /** The kernel never hands out a descriptor that is still open. */
  ghost predicate FreshAccept(fds: seq<PollFd>, nfds: nat, env: Env)
    requires nfds <= |fds|
  {
    env.accepted !in Fds(fds, nfds)
  }

  /** One iteration of the dispatch loop, index update included. */
  function Step(p: Pass, env: Env): Pass
    requires p.i < p.nfds <= |p.fds|
  {
    var e := p.fds[p.i];
    if !e.revents then p.(i := p.i + 1)
    else if e.fd == env.udp then p.(i := p.i + 1, log := p.log + [e.fd])
    else if e.fd == env.ipc then
      if env.accepted >= 0 && p.nfds < |p.fds| then
        var slot := p.fds[p.nfds].(fd := env.accepted, events := true);
        Pass(p.fds[p.nfds := slot], p.nfds + 1, p.i + 1, p.log + [e.fd])
      else p.(i := p.i + 1, log := p.log + [e.fd])
    else if env.bytesRead(e.fd) > 0 then p.(i := p.i + 1, log := p.log + [e.fd])
    else
      var last := p.fds[p.nfds - 1];
      var moved := p.fds[p.i := last];
      Pass(moved[p.nfds - 1 := moved[p.nfds - 1].(fd := -1)], p.nfds - 1, p.i, p.log + [e.fd])
  }

  // ---------- the invariant of a pass ----------

  /** Entries not yet visited. */
  ghost function Ahead(p: Pass): set<PollFd>
    requires p.nfds <= |p.fds|
  {
    set m | p.i <= m < p.nfds :: p.fds[m]
  }

  ghost predicate Distinct(log: seq<int>) {
    forall a, b :: 0 <= a < b < |log| ==> log[a] != log[b]
  }

  /** Clients whose read returned 0 or an error when they were dispatched. */
  ghost function ClosedSet(log: seq<int>, env: Env): set<int> {
    set f | f in log && env.IsClient(f) && env.bytesRead(f) <= 0
  }

  /** What a pass starts from: the entries poll filled in, their descriptors, and the entry
      accept adds if it adds one. */
  datatype Origin = Origin(polled: set<PollFd>, open0: set<int>, added: PollFd, appends: bool)

  ghost predicate Reported(polled: set<PollFd>, fd: int) {
    exists e :: e in polled && e.fd == fd && e.revents
  }

  /** The pass so far, seen as sets: `passed` once the listener's slot has been visited. */
  ghost predicate Faithful(ahead: set<PollFd>, fds: set<int>, log: seq<int>, passed: bool, o: Origin, env: Env) {
    && Distinct(log)
    && (forall e :: e in ahead ==> e.fd !in log)
    && (forall e :: e in o.polled && e.revents ==> e.fd in log || e in ahead)
    && (forall f :: f in log ==>
          Reported(o.polled, f) || (passed && o.appends && o.added.revents && f == o.added.fd))
    && (forall e :: e in ahead ==> e in o.polled || (passed && o.appends && e == o.added))
    && (passed && o.appends && o.added.revents ==> o.added.fd in log || o.added in ahead)
    && fds == o.open0 + (if passed && o.appends then {o.added.fd} else {}) - ClosedSet(log, env)
  }

  lemma SkipKeepsFaithful(ahead: set<PollFd>, fds: set<int>, log: seq<int>, passed: bool, o: Origin, env: Env,
                          e: PollFd, passed': bool)
    requires Faithful(ahead, fds, log, passed, o, env)
    requires !e.revents && (passed' == passed || !o.appends)
    ensures Faithful(ahead - {e}, fds, log, passed', o, env)
  {
  }

  /** Dispatching an entry that stays, or that is closed and leaves the table. */
  lemma DispatchKeepsFaithful(ahead: set<PollFd>, fds: set<int>, log: seq<int>, passed: bool, o: Origin, env: Env,
                              e: PollFd, passed': bool)
    requires Faithful(ahead, fds, log, passed, o, env)
    requires e in ahead && e.revents && (passed' == passed || !o.appends)
    requires forall e' :: e' in ahead && e'.fd == e.fd ==> e' == e
    ensures Faithful(ahead - {e}, fds - ClosedSet([e.fd], env), log + [e.fd], passed', o, env)
  {
  }

  /** Dispatching the listener when accept appends. */
  lemma AcceptKeepsFaithful(ahead: set<PollFd>, fds: set<int>, log: seq<int>, o: Origin, env: Env, e: PollFd)
    requires Faithful(ahead, fds, log, false, o, env)
    requires e in ahead && e.revents && o.appends && !env.IsClient(e.fd)
    requires forall e' :: e' in ahead && e'.fd == e.fd ==> e' == e
    requires o.added.fd !in o.open0 && forall e' :: e' in o.polled ==> e'.fd in o.open0
    ensures Faithful(ahead - {e} + {o.added}, fds + {o.added.fd}, log + [e.fd], true, o, env)
  {
  }

  // ---------- from the array to the sets ----------

  /** The listener is ready, accept succeeds and the table has room. */
  ghost predicate Appends(p0: Pass, env: Env)
    requires Table(p0.fds, p0.nfds, env)
  {
    env.ipc >= 0 && p0.fds[env.IpcSlot()].revents && env.accepted >= 0 && p0.nfds < MAX_POLL_FDS
  }

  /** ... and the slot it fills still carries the POLLIN bit of an earlier occupant. */
  ghost predicate StaleAppend(p0: Pass, env: Env)
    requires Table(p0.fds, p0.nfds, env)
  {
    Appends(p0, env) && p0.fds[p0.nfds].revents
  }

  ghost predicate Starts(p0: Pass, env: Env) {
    Table(p0.fds, p0.nfds, env) && FreshAccept(p0.fds, p0.nfds, env) && p0.i == 0 && p0.log == []
  }

  ghost function OriginOf(p0: Pass, env: Env): Origin
    requires Starts(p0, env)
  {
    Origin(Ahead(p0), Fds(p0.fds, p0.nfds), PollFd(env.accepted, true, StaleAppend(p0, env)), Appends(p0, env))
  }

  ghost predicate Inv(p: Pass, p0: Pass, env: Env)
    requires Starts(p0, env)
  {
    && Table(p.fds, p.nfds, env) && p.i <= p.nfds
    && (env.ipc >= 0 && p.i <= env.IpcSlot() ==> p.fds == p0.fds && p.nfds == p0.nfds)
    && FaithfulPass(p, p0, env)
  }

  ghost predicate FaithfulPass(p: Pass, p0: Pass, env: Env)
    requires Starts(p0, env) && p.nfds <= |p.fds|
  {
    Faithful(Ahead(p), Fds(p.fds, p.nfds), p.log, p.i > env.IpcSlot(), OriginOf(p0, env), env)
  }

  lemma VisitedEntryIsGone(p: Pass, env: Env)
    requires Table(p.fds, p.nfds, env) && p.i < p.nfds
    ensures Ahead(p.(i := p.i + 1)) == Ahead(p) - {p.fds[p.i]}
    ensures p.fds[p.i] in Ahead(p) && forall e :: e in Ahead(p) && e.fd == p.fds[p.i].fd ==> e == p.fds[p.i]
  {
  }

  /** The pass after the listener's slot, with the accepted connection in the next free slot. */
  ghost function Accepted(p: Pass, env: Env): Pass
    requires p.nfds < |p.fds|
  {
    var added := p.fds[p.nfds].(fd := env.accepted, events := true);
    p.(fds := p.fds[p.nfds := added], nfds := p.nfds + 1, i := p.i + 1)
  }

  lemma AcceptAddsEntry(p: Pass, env: Env)
    requires Table(p.fds, p.nfds, env) && FreshAccept(p.fds, p.nfds, env)
    requires p.i < p.nfds < MAX_POLL_FDS && env.accepted >= 0
    ensures var q := Accepted(p, env);
            && Ahead(q) == Ahead(p) - {p.fds[p.i]} + {q.fds[p.nfds]}
            && Fds(q.fds, q.nfds) == Fds(p.fds, p.nfds) + {env.accepted}
            && Table(q.fds, q.nfds, env)
  {
    var added := p.fds[p.nfds].(fd := env.accepted, events := true);
    var fds := p.fds[p.nfds := added];
    forall a, b | 0 <= a < b < p.nfds + 1
      ensures fds[a].fd != fds[b].fd
    {
      assert fds[a].fd in Fds(p.fds, p.nfds);
    }
    assert fds[p.nfds] == added;
    assert forall m :: 0 <= m < p.nfds ==> fds[m] == p.fds[m];
  }

  /** The pass after the entry at `p.i` has been replaced by the last one. */
  ghost function Removed(p: Pass): Pass
    requires p.i < p.nfds <= |p.fds|
  {
    var moved := p.fds[p.i := p.fds[p.nfds - 1]];
    p.(fds := moved[p.nfds - 1 := moved[p.nfds - 1].(fd := -1)], nfds := p.nfds - 1)
  }

  /** Where the entries of the old table are in the new one. */
  lemma RemovedAt(p: Pass, k: nat)
    requires p.i < p.nfds <= |p.fds| && k < p.nfds && k != p.i
    ensures var k' := if k == p.nfds - 1 then p.i else k;
            k' < p.nfds - 1 && Removed(p).fds[k'] == p.fds[k]
  {
  }

  lemma RemoveDropsDescriptor(p: Pass, env: Env)
    requires Table(p.fds, p.nfds, env) && p.i < p.nfds
    ensures Fds(Removed(p).fds, p.nfds - 1) == Fds(p.fds, p.nfds) - {p.fds[p.i].fd}
  {
    var q := Removed(p);
    forall f | f in Fds(p.fds, p.nfds) && f != p.fds[p.i].fd
      ensures f in Fds(q.fds, q.nfds)
    {
      var k :| 0 <= k < p.nfds && p.fds[k].fd == f;
      RemovedAt(p, k);
    }
    assert forall m :: 0 <= m < q.nfds ==> q.fds[m] == p.fds[if m == p.i then p.nfds - 1 else m];
  }

  /** Swap-with-last removal: the gap is filled and the entry moved there is still ahead. */
  lemma RemoveDropsAhead(p: Pass, env: Env)
    requires Table(p.fds, p.nfds, env) && p.i < p.nfds
    ensures Ahead(Removed(p)) == Ahead(p) - {p.fds[p.i]}
  {
    var q := Removed(p);
    forall e | e in Ahead(p) && e != p.fds[p.i]
      ensures e in Ahead(q)
    {
      var k :| p.i <= k < p.nfds && p.fds[k] == e;
      RemovedAt(p, k);
    }
    assert forall m :: 0 <= m < q.nfds ==> q.fds[m] == p.fds[if m == p.i then p.nfds - 1 else m];
  }

  lemma RemoveKeepsTable(p: Pass, env: Env)
    requires Table(p.fds, p.nfds, env) && p.i < p.nfds && env.IsClient(p.fds[p.i].fd)
    ensures Table(Removed(p).fds, p.nfds - 1, env)
  {
  }

  lemma QuietStepKeepsInv(p: Pass, p0: Pass, env: Env)
    requires Starts(p0, env) && Inv(p, p0, env) && p.i < p.nfds && !p.fds[p.i].revents
    ensures Inv(Step(p, env), p0, env)
  {
    VisitedEntryIsGone(p, env);
    SkipKeepsFaithful(Ahead(p), Fds(p.fds, p.nfds), p.log, p.i > env.IpcSlot(), OriginOf(p0, env), env,
                      p.fds[p.i], p.i + 1 > env.IpcSlot());
  }

  /** The listener is visited before anything has moved, so at most one accept happens and it
      fills the slot that followed the table when poll returned. */
  lemma AcceptStepKeepsInv(p: Pass, p0: Pass, env: Env)
    requires Starts(p0, env) && Inv(p, p0, env) && p.i < p.nfds && p.fds[p.i].revents
    requires env.ipc >= 0 && p.fds[p.i].fd == env.ipc && env.accepted >= 0 && p.nfds < MAX_POLL_FDS
    ensures Inv(Step(p, env), p0, env)
  {
    ListenerSlot(p, env);
    AcceptLeavesFaithful(p, p0, env);
    AcceptAddsEntry(p, env);
    assert Step(p, env) == Accepted(p, env).(log := p.log + [p.fds[p.i].fd]);
  }

  /** The listeners stand first, clients after them. */
  lemma ListenerSlot(p: Pass, env: Env)
    requires Table(p.fds, p.nfds, env) && p.i < p.nfds
    ensures env.ipc >= 0 && p.fds[p.i].fd == env.ipc ==> p.i == env.IpcSlot()
    ensures env.ipc >= 0 && env.IsClient(p.fds[p.i].fd) ==> p.i > env.IpcSlot()
  {
  }

  lemma AcceptLeavesFaithful(p: Pass, p0: Pass, env: Env)
    requires Starts(p0, env) && Inv(p, p0, env) && p.i < p.nfds && p.fds[p.i].revents
    requires env.ipc >= 0 && p.i == env.IpcSlot() && env.accepted >= 0 && p.nfds < MAX_POLL_FDS
    ensures FaithfulPass(Accepted(p, env).(log := p.log + [p.fds[p.i].fd]), p0, env)
  {
    var o, e, q := OriginOf(p0, env), p.fds[p.i], Accepted(p, env);
    VisitedEntryIsGone(p, env);
    AcceptAddsEntry(p, env);
    assert p.fds[p.nfds].(fd := env.accepted, events := true) == o.added;
    AcceptKeepsFaithful(Ahead(p), Fds(p.fds, p.nfds), p.log, o, env, e);
    assert Ahead(q.(log := p.log + [e.fd])) == Ahead(q);
  }

  lemma DispatchStepKeepsInv(p: Pass, p0: Pass, env: Env)
    requires Starts(p0, env) && Inv(p, p0, env) && p.i < p.nfds && p.fds[p.i].revents
    requires var e := p.fds[p.i];
             !(env.ipc >= 0 && e.fd == env.ipc && env.accepted >= 0 && p.nfds < MAX_POLL_FDS)
             && !(env.IsClient(e.fd) && env.bytesRead(e.fd) <= 0)
    ensures Inv(Step(p, env), p0, env)
  {
    DispatchLeavesFaithful(p, p0, env);
    assert Step(p, env) == p.(i := p.i + 1, log := p.log + [p.fds[p.i].fd]);
  }

  lemma DispatchLeavesFaithful(p: Pass, p0: Pass, env: Env)
    requires Starts(p0, env) && Inv(p, p0, env) && p.i < p.nfds && p.fds[p.i].revents
    requires p.i == env.IpcSlot() ==> !Appends(p0, env)
    requires !(env.IsClient(p.fds[p.i].fd) && env.bytesRead(p.fds[p.i].fd) <= 0)
    ensures FaithfulPass(p.(i := p.i + 1, log := p.log + [p.fds[p.i].fd]), p0, env)
  {
    var e, o := p.fds[p.i], OriginOf(p0, env);
    VisitedSets(p, env, p.log + [e.fd]);
    DispatchKeepsFaithful(Ahead(p), Fds(p.fds, p.nfds), p.log, p.i > env.IpcSlot(), o, env, e, p.i + 1 > env.IpcSlot());
    assert ClosedSet([e.fd], env) == {};
  }

  lemma VisitedSets(p: Pass, env: Env, log: seq<int>)
    requires Table(p.fds, p.nfds, env) && p.i < p.nfds
    ensures Ahead(p.(i := p.i + 1, log := log)) == Ahead(p) - {p.fds[p.i]}
    ensures p.fds[p.i] in Ahead(p) && forall e :: e in Ahead(p) && e.fd == p.fds[p.i].fd ==> e == p.fds[p.i]
  {
    VisitedEntryIsGone(p, env);
    assert Ahead(p.(i := p.i + 1, log := log)) == Ahead(p.(i := p.i + 1));
  }

  lemma RemoveKeepsFaithful(p: Pass, p0: Pass, env: Env)
    requires Starts(p0, env) && Inv(p, p0, env) && p.i < p.nfds && p.fds[p.i].revents
    requires env.IsClient(p.fds[p.i].fd) && env.bytesRead(p.fds[p.i].fd) <= 0
    ensures FaithfulPass(Removed(p).(log := p.log + [p.fds[p.i].fd]), p0, env)
  {
    var e, o := p.fds[p.i], OriginOf(p0, env);
    VisitedEntryIsGone(p, env);
    RemovedSets(p, env, p.log + [e.fd]);
    DispatchKeepsFaithful(Ahead(p), Fds(p.fds, p.nfds), p.log, p.i > env.IpcSlot(), o, env, e, p.i > env.IpcSlot());
    assert ClosedSet([e.fd], env) == {e.fd};
  }

  lemma RemovedSets(p: Pass, env: Env, log: seq<int>)
    requires Table(p.fds, p.nfds, env) && p.i < p.nfds
    ensures var q := Removed(p).(log := log);
            Ahead(q) == Ahead(p) - {p.fds[p.i]} && Fds(q.fds, q.nfds) == Fds(p.fds, p.nfds) - {p.fds[p.i].fd}
  {
    RemoveDropsDescriptor(p, env);
    RemoveDropsAhead(p, env);
    assert Ahead(Removed(p).(log := log)) == Ahead(Removed(p));
  }

  lemma RemoveStepKeepsInv(p: Pass, p0: Pass, env: Env)
    requires Starts(p0, env) && Inv(p, p0, env) && p.i < p.nfds && p.fds[p.i].revents
    requires env.IsClient(p.fds[p.i].fd) && env.bytesRead(p.fds[p.i].fd) <= 0
    ensures Inv(Step(p, env), p0, env)
  {
    ListenerSlot(p, env);
    RemoveKeepsFaithful(p, p0, env);
    RemoveKeepsTable(p, env);
    assert Step(p, env) == Removed(p).(log := p.log + [p.fds[p.i].fd]);
  }

  /** The listener has not been visited yet. */
  ghost predicate MayAccept(p: Pass, env: Env) {
    env.ipc >= 0 && p.i <= env.IpcSlot()
  }

  lemma StepKeepsInv(p: Pass, p0: Pass, env: Env)
    requires Starts(p0, env) && Inv(p, p0, env) && p.i < p.nfds
    ensures var q := Step(p, env);
            Inv(q, p0, env)
            && (MayAccept(q, env) ==> MayAccept(p, env))
            && (MayAccept(q, env) == MayAccept(p, env) ==> q.nfds - q.i < p.nfds - p.i)
  {
    var e := p.fds[p.i];
    if !e.revents {
      QuietStepKeepsInv(p, p0, env);
    } else if env.ipc >= 0 && e.fd == env.ipc && env.accepted >= 0 && p.nfds < MAX_POLL_FDS {
      AcceptStepKeepsInv(p, p0, env);
    } else if env.IsClient(e.fd) && env.bytesRead(e.fd) <= 0 {
      RemoveStepKeepsInv(p, p0, env);
    } else {
      DispatchStepKeepsInv(p, p0, env);
    }
  }

  // ---------- a whole pass ----------

  /** The dispatch loop from an intermediate point on.  It ends although the table grows:
      accept happens only at the listener's slot, and every other step shortens the rest. */
  ghost function RunPass(p: Pass, p0: Pass, env: Env): (q: Pass)
    requires Starts(p0, env) && Inv(p, p0, env)
    ensures Inv(q, p0, env) && q.i == q.nfds
    decreases MayAccept(p, env), p.nfds - p.i
  {
    if p.i == p.nfds then p
    else
      StepKeepsInv(p, p0, env);
      RunPass(Step(p, env), p0, env)
  }

  lemma StartSatisfiesInv(p0: Pass, env: Env)
    requires Starts(p0, env)
    ensures Inv(p0, p0, env)
  {
  }

  ghost function FullPass(p0: Pass, env: Env): Pass
    requires Starts(p0, env)
  {
    StartSatisfiesInv(p0, env);
    RunPass(p0, p0, env)
  }

  /** Every descriptor poll reported is dispatched exactly once; the only other descriptor a
      pass can dispatch is a connection just accepted into a slot with a leftover POLLIN.
      Afterwards the table holds exactly the old descriptors and the accepted one, without
      the clients whose read failed; it is still a table, listeners in place. */
  lemma PassIsExact(p0: Pass, env: Env)
    requires Starts(p0, env)
    ensures var p := FullPass(p0, env);
            && Distinct(p.log)
            && (forall f :: f in p.log <==> Reported(Ahead(p0), f) || (StaleAppend(p0, env) && f == env.accepted))
            && Table(p.fds, p.nfds, env)
            && Fds(p.fds, p.nfds) == Fds(p0.fds, p0.nfds) + (if Appends(p0, env) then {env.accepted} else {})
                                     - ClosedSet(p.log, env)
  {
    var p := FullPass(p0, env);
    assert Ahead(p) == {};
  }

  /** A pass reads only descriptors that poll reported if and only if accept does not reuse a
      slot whose old POLLIN bit is still set. */
  lemma OnlyReportedIffNoStaleSlot(p0: Pass, env: Env)
    requires Starts(p0, env)
    ensures (forall f :: f in FullPass(p0, env).log ==> Reported(Ahead(p0), f)) <==> !StaleAppend(p0, env)
  {
    PassIsExact(p0, env);
    if StaleAppend(p0, env) {
      assert env.accepted in FullPass(p0, env).log;
      assert forall e :: e in Ahead(p0) ==> e.fd in Fds(p0.fds, p0.nfds);
    }
  }

  // ---------- the loop around the passes ----------

  /** One iteration of the outer loop: what poll reports and what the calls then return. */
  datatype Round = Round(ready: set<int>, accepted: int, bytesRead: int -> int)

  /** poll() rewrites `revents` of the first nfds entries only, and reports POLLIN only for
      entries registered for it. */
  function Poll(fds: seq<PollFd>, nfds: nat, ready: set<int>): seq<PollFd> {
    seq(|fds|, k requires 0 <= k < |fds| =>
      if k < nfds then fds[k].(revents := fds[k].events && fds[k].fd in ready) else fds[k])
  }

  ghost predicate RoundAllowed(fds: seq<PollFd>, nfds: nat, udp: int, ipc: int, r: Round) {
    var env := Env(udp, ipc, r.accepted, r.bytesRead);
    Table(fds, nfds, env) && FreshAccept(fds, nfds, env)
  }

  lemma PollStartsPass(fds: seq<PollFd>, nfds: nat, udp: int, ipc: int, r: Round)
    requires RoundAllowed(fds, nfds, udp, ipc, r)
    ensures Starts(Pass(Poll(fds, nfds, r.ready), nfds, 0, []), Env(udp, ipc, r.accepted, r.bytesRead))
    ensures Fds(Poll(fds, nfds, r.ready), nfds) == Fds(fds, nfds)
    ensures forall f :: Reported(Ahead(Pass(Poll(fds, nfds, r.ready), nfds, 0, [])), f)
                        <==> f in Fds(fds, nfds) && f in r.ready
  {
    var polled := Poll(fds, nfds, r.ready);
    assert forall k :: 0 <= k < nfds ==> polled[k].fd == fds[k].fd;
    forall f
      ensures Reported(Ahead(Pass(polled, nfds, 0, [])), f) <==> f in Fds(fds, nfds) && f in r.ready
    {
      if f in Fds(fds, nfds) && f in r.ready {
        var k :| 0 <= k < nfds && fds[k].fd == f;
        assert polled[k] in Ahead(Pass(polled, nfds, 0, []));
      }
    }
  }

  ghost function AfterRound(fds: seq<PollFd>, nfds: nat, udp: int, ipc: int, r: Round): Pass
    requires RoundAllowed(fds, nfds, udp, ipc, r)
  {
    PollStartsPass(fds, nfds, udp, ipc, r);
    FullPass(Pass(Poll(fds, nfds, r.ready), nfds, 0, []), Env(udp, ipc, r.accepted, r.bytesRead))
  }

  /** A round reads, exactly once each, the table's descriptors that are ready, and besides
      them at most the connection it has just accepted into a stale slot. */
  lemma RoundIsExact(fds: seq<PollFd>, nfds: nat, udp: int, ipc: int, r: Round)
    requires RoundAllowed(fds, nfds, udp, ipc, r)
    ensures var log := AfterRound(fds, nfds, udp, ipc, r).log;
            && Distinct(log)
            && (forall f :: f in log && f != r.accepted ==> f in Fds(fds, nfds) && f in r.ready)
            && (forall f :: f in Fds(fds, nfds) && f in r.ready ==> f in log)
  {
    PollStartsPass(fds, nfds, udp, ipc, r);
    PassIsExact(Pass(Poll(fds, nfds, r.ready), nfds, 0, []), Env(udp, ipc, r.accepted, r.bytesRead));
  }

  /** The kernel's answers along a run of rounds are possible ones. */
  ghost predicate RoundsAllowed(fds: seq<PollFd>, nfds: nat, udp: int, ipc: int, rounds: seq<Round>)
    decreases rounds
  {
    rounds != [] ==>
      RoundAllowed(fds, nfds, udp, ipc, rounds[0])
      && var p := AfterRound(fds, nfds, udp, ipc, rounds[0]);
         RoundsAllowed(p.fds, p.nfds, udp, ipc, rounds[1..])
  }

  ghost function AfterRounds(fds: seq<PollFd>, nfds: nat, udp: int, ipc: int, rounds: seq<Round>): Pass
    requires RoundsAllowed(fds, nfds, udp, ipc, rounds)
    decreases rounds
  {
    if rounds == [] then Pass(fds, nfds, 0, [])
    else
      var p := AfterRound(fds, nfds, udp, ipc, rounds[0]);
      AfterRounds(p.fds, p.nfds, udp, ipc, rounds[1..])
  }

  /** Through any number of rounds the entries stay distinct, the listeners stay, and the
      table never outgrows its 1024 slots. */
  lemma {:induction false} TableForever(fds: seq<PollFd>, nfds: nat, env: Env, rounds: seq<Round>)
    requires Table(fds, nfds, env) && RoundsAllowed(fds, nfds, env.udp, env.ipc, rounds)
    ensures var p := AfterRounds(fds, nfds, env.udp, env.ipc, rounds);
            p.nfds <= 1024 && Table(p.fds, p.nfds, env)
    decreases rounds
  {
    if rounds != [] {
      var p := AfterRound(fds, nfds, env.udp, env.ipc, rounds[0]);
      TableForever(p.fds, p.nfds, env, rounds[1..]);
    }
  }

  /** Three iterations over a table of two listeners and one client that hangs up. */
  lemma HangupSteps(p0: Pass, env: Env)
    requires |p0.fds| == MAX_POLL_FDS && p0.nfds == 3 && p0.i == 0 && p0.log == []
    requires p0.fds[0].fd == env.udp && p0.fds[1].fd == env.ipc && env.IsClient(p0.fds[2].fd)
    requires !p0.fds[0].revents && !p0.fds[1].revents && p0.fds[2].revents
    requires env.bytesRead(p0.fds[2].fd) <= 0
    ensures var p := Step(Step(Step(p0, env), env), env);
            p.i == p.nfds == 2 && p.fds == p0.fds[2 := p0.fds[2].(fd := -1)]
  {
  }

  lemma HangupLeavesStaleBit(p0: Pass, env: Env)
    requires Starts(p0, env) && p0.nfds == 3 && 0 <= env.udp && 0 <= env.ipc
    requires env.IsClient(p0.fds[2].fd) && env.bytesRead(p0.fds[2].fd) <= 0
    requires !p0.fds[0].revents && !p0.fds[1].revents && p0.fds[2].revents
    ensures var p := FullPass(p0, env);
            p.nfds == 2 && p.fds == p0.fds[2 := p0.fds[2].(fd := -1)]
  {
    HangupSteps(p0, env);
    StartSatisfiesInv(p0, env);
    var p1 := Step(p0, env);
    var p2 := Step(p1, env);
    var p3 := Step(p2, env);
    StepKeepsInv(p0, p0, env);
    StepKeepsInv(p1, p0, env);
    StepKeepsInv(p2, p0, env);
    assert RunPass(p3, p0, env) == p3;
    assert RunPass(p1, p0, env) == RunPass(p2, p0, env) == p3;
  }

  lemma ConnectIntoStaleSlot(fds: seq<PollFd>, udp: int, ipc: int, r: Round)
    requires |fds| == MAX_POLL_FDS && fds[0].fd == udp && fds[1].fd == ipc && fds[2].revents
    requires fds[0].events && fds[1].events
    requires 0 <= udp && 0 <= ipc && udp != ipc
    requires r.ready == {ipc} && 0 <= r.accepted && r.accepted != udp && r.accepted != ipc
    ensures RoundAllowed(fds, 2, udp, ipc, r)
    ensures r.accepted in AfterRound(fds, 2, udp, ipc, r).log
  {
  }

  lemma HangupRound(fds: seq<PollFd>, udp: int, ipc: int, r: Round)
    requires |fds| == MAX_POLL_FDS && fds[0].fd == udp && fds[1].fd == ipc
    requires fds[0].events && fds[1].events && fds[2].events
    requires 0 <= udp && 0 <= ipc && 0 <= fds[2].fd && udp != ipc && fds[2].fd != udp && fds[2].fd != ipc
    requires r.ready == {fds[2].fd} && r.accepted < 0 && r.bytesRead(fds[2].fd) <= 0
    ensures RoundAllowed(fds, 3, udp, ipc, r)
    ensures var p := AfterRound(fds, 3, udp, ipc, r);
            p.nfds == 2 && |p.fds| == MAX_POLL_FDS && p.fds[0].fd == udp && p.fds[1].fd == ipc && p.fds[2].revents
            && p.fds[0].events && p.fds[1].events
  {
    PollStartsPass(fds, 3, udp, ipc, r);
    HangupLeavesStaleBit(Pass(Poll(fds, 3, r.ready), 3, 0, []), Env(udp, ipc, r.accepted, r.bytesRead));
  }

  /** How a stale slot arises: the last client disconnects, and the next round accepts a
      connection, which is then read in that same pass although poll did not report it. */
  lemma FreshConnectionIsReadUnreported(fds: seq<PollFd>, udp: int, ipc: int, hangup: Round, connect: Round)
    requires |fds| == MAX_POLL_FDS && fds[0].fd == udp && fds[1].fd == ipc
    requires fds[0].events && fds[1].events && fds[2].events
    requires 0 <= udp && 0 <= ipc && 0 <= fds[2].fd && udp != ipc && fds[2].fd != udp && fds[2].fd != ipc
    requires hangup.ready == {fds[2].fd} && hangup.accepted < 0 && hangup.bytesRead(fds[2].fd) <= 0
    requires connect.ready == {ipc} && 0 <= connect.accepted && connect.accepted != udp && connect.accepted != ipc
    ensures RoundAllowed(fds, 3, udp, ipc, hangup)
    ensures var p := AfterRound(fds, 3, udp, ipc, hangup);
            RoundAllowed(p.fds, p.nfds, udp, ipc, connect)
            && connect.accepted !in connect.ready
            && connect.accepted in AfterRound(p.fds, p.nfds, udp, ipc, connect).log
  {
    HangupRound(fds, udp, ipc, hangup);
    ConnectIntoStaleSlot(AfterRound(fds, 3, udp, ipc, hangup).fds, udp, ipc, connect);
  }

  /** The table as the loop starts: the listeners that could be opened, UDP first. */
  lemma ListenersOnly(fds: seq<PollFd>, nfds: nat, udp: int, ipc: int)
    requires |fds| == MAX_POLL_FDS && (udp >= 0 ==> udp != ipc)
    requires nfds == (if udp >= 0 then 1 else 0) + (if ipc >= 0 then 1 else 0)
    requires udp >= 0 ==> fds[0].fd == udp && fds[0].events
    requires ipc >= 0 ==> fds[nfds - 1].fd == ipc && fds[nfds - 1].events
    ensures Fds(fds, nfds) == (if udp >= 0 then {udp} else {}) + (if ipc >= 0 then {ipc} else {})
    ensures Table(fds, nfds, Env(udp, ipc, -1, _ => 0))
  {
    assert udp >= 0 ==> udp in Fds(fds, nfds);
    assert ipc >= 0 ==> ipc in Fds(fds, nfds);
  }

  class Reactor {
    var fds: array<PollFd>
    var nfds: nat
    const udp: int
    const ipc: int

    ghost predicate Valid()
      reads this, fds
    {
      Table(fds[..], nfds, Env(udp, ipc, -1, _ => 0))
    }

    /** The head of `start_event_loop`: clear the slots, register the listeners. */
    constructor (udp: int, ipc: int)
      requires udp >= 0 ==> udp != ipc
      ensures Valid() && fresh(fds) && this.udp == udp && this.ipc == ipc
      ensures Fds(fds[..], nfds) == (if udp >= 0 then {udp} else {}) + (if ipc >= 0 then {ipc} else {})
      ensures forall k :: 0 <= k < fds.Length ==> !fds[k].revents
    {
      this.udp, this.ipc := udp, ipc;
      fds := new PollFd[MAX_POLL_FDS](_ => PollFd(-1, false, false));
      nfds := 0;
      new;
      if udp >= 0 {
        fds[nfds] := PollFd(udp, true, false);
        nfds := nfds + 1;
      }
      if ipc >= 0 {
        fds[nfds] := PollFd(ipc, true, false);
        nfds := nfds + 1;
      }
      ListenersOnly(fds[..], nfds, udp, ipc);
    }

    /** The body of the inner loop for slot `i`, with its `i--` and the loop's `i++`. */
    method Visit(slot: nat, env: Env, dispatched: seq<int>) returns (i: nat, log: seq<int>)
      requires slot < nfds <= MAX_POLL_FDS == fds.Length && env.udp == udp && env.ipc == ipc
      modifies this`nfds, fds
      ensures Pass(fds[..], nfds, i, log) == Step(Pass(old(fds[..]), old(nfds), slot, dispatched), env)
    {
      i, log := slot, dispatched;
      if fds[i].revents {
        log := log + [fds[i].fd];
        if fds[i].fd == udp {
        } else if fds[i].fd == ipc {
          if env.accepted >= 0 {
            if nfds < MAX_POLL_FDS {
              fds[nfds] := fds[nfds].(fd := env.accepted, events := true);
              nfds := nfds + 1;
            }
          }
        } else if env.bytesRead(fds[i].fd) <= 0 {
          fds[i] := fds[nfds - 1];
          fds[nfds - 1] := fds[nfds - 1].(fd := -1);
          nfds := nfds - 1;
          return;
        }
      }
      i := i + 1;
    }

    /** The inner for loop, in place; `log` lists the descriptors in dispatch order. */
    method DispatchPass(env: Env) returns (log: seq<int>)
      requires Valid() && env.udp == udp && env.ipc == ipc
      requires FreshAccept(fds[..], nfds, env)
      modifies this`nfds, fds
      ensures Valid()
      ensures var p := FullPass(Pass(old(fds[..]), old(nfds), 0, []), env);
              p.fds == fds[..] && p.nfds == nfds && p.log == log
    {
      ghost var p0 := Pass(fds[..], nfds, 0, []);
      StartSatisfiesInv(p0, env);
      log := [];
      var i: nat := 0;
      while i < nfds
        invariant Inv(Pass(fds[..], nfds, i, log), p0, env)
        invariant RunPass(Pass(fds[..], nfds, i, log), p0, env) == FullPass(p0, env)
        decreases MayAccept(Pass(fds[..], nfds, i, log), env), nfds - i
      {
        StepKeepsInv(Pass(fds[..], nfds, i, log), p0, env);
        i, log := Visit(i, env, log);
      }
    }
  }
}
