/** The UDP rate limiter: a token bucket that refills lazily from the wall clock. */
module TokenBucket {

  /** Tokens are exact reals; `last` is the clock reading of the latest refill, in ms. */
  datatype Bucket = Bucket(capacity: int, rate: int, tokens: real, last: int)

  /** One call of `token_bucket_consume`: the clock it reads and the tokens it asks for. */
  datatype Call = Call(now: int, count: int)

  /** Tokens produced in `ms` milliseconds. */
  function Gain(rate: int, ms: int): real {
    ms as real * rate as real / 1000.0
  }

  function Refill(b: Bucket, now: int): Bucket {
    if now - b.last > 0 then
      var filled := b.tokens + Gain(b.rate, now - b.last);
      b.(tokens := if filled > b.capacity as real then b.capacity as real else filled, last := now)
    else
      b
  }

  function Grants(b: Bucket, c: Call): bool {
    Refill(b, c.now).tokens >= c.count as real
  }

  function Consume(b: Bucket, c: Call): Bucket {
    var r := Refill(b, c.now);
    if Grants(b, c) then r.(tokens := r.tokens - c.count as real) else r
  }

  function Start(capacity: int, rate: int, now: int): Bucket {
    Bucket(capacity, rate, capacity as real, now)
  }

  class Limiter {
    var capacity: int
    var rate: int
    var tokens: real
    var last: int

    ghost function View(): Bucket
      reads this
    {
      Bucket(capacity, rate, tokens, last)
    }

    constructor (capacity: int, rate: int, now: int)
      ensures View() == Start(capacity, rate, now)
    {
      this.capacity, this.rate, this.tokens, this.last := capacity, rate, capacity as real, now;
    }

    method TryConsume(now: int, count: int) returns (allowed: int)
      modifies this`tokens, this`last
      ensures View() == Consume(old(View()), Call(now, count))
      ensures allowed == if Grants(old(View()), Call(now, count)) then 1 else 0
    {
      var elapsed := now - last;
      if elapsed > 0 {
        tokens := tokens + elapsed as real * rate as real / 1000.0;
        if tokens > capacity as real { tokens := capacity as real; }
        last := now;
      }
      allowed := 0;
      if tokens >= count as real {
        tokens := tokens - count as real;
        allowed := 1;
      }
    }
  }

  // ---------- runs ----------

  ghost function After(b: Bucket, calls: seq<Call>): Bucket
    decreases calls
  {
    if calls == [] then b else After(Consume(b, calls[0]), calls[1..])
  }

  /** The verdicts of successive calls. */
  ghost function Verdicts(b: Bucket, calls: seq<Call>): (v: seq<bool>)
    ensures |v| == |calls|
    decreases calls
  {
    if calls == [] then [] else [Grants(b, calls[0])] + Verdicts(Consume(b, calls[0]), calls[1..])
  }

  /** Total tokens handed out by successive calls. */
  ghost function Granted(b: Bucket, calls: seq<Call>): int
    decreases calls
  {
    if calls == [] then 0
    else (if Grants(b, calls[0]) then calls[0].count else 0) + Granted(Consume(b, calls[0]), calls[1..])
  }

  /** The largest clock reading so far, `start` included. */
  ghost function RunningMax(start: int, calls: seq<Call>): int
    decreases calls
  {
    if calls == [] then start
    else RunningMax(if calls[0].now > start then calls[0].now else start, calls[1..])
  }

  ghost predicate NonNegative(calls: seq<Call>) {
    forall i :: 0 <= i < |calls| ==> 0 <= calls[i].count
  }

  ghost predicate InRange(b: Bucket) {
    0.0 <= b.tokens <= b.capacity as real && 0 <= b.rate
  }

  lemma GainAdds(rate: int, a: int, b: int)
    ensures Gain(rate, a + b) == Gain(rate, a) + Gain(rate, b)
    ensures 0 <= rate && 0 <= a ==> 0.0 <= Gain(rate, a)
  {
  }

  /** The refill clock is the running maximum of the readings: it never moves backwards. */
  lemma {:induction false} ClockIsRunningMax(b: Bucket, calls: seq<Call>)
    ensures After(b, calls).last == RunningMax(b.last, calls)
    ensures After(b, calls).capacity == b.capacity && After(b, calls).rate == b.rate
    ensures b.last <= After(b, calls).last
    decreases calls
  {
    if calls != [] { ClockIsRunningMax(Consume(b, calls[0]), calls[1..]); }
  }

  lemma ConsumeBalance(b: Bucket, c: Call)
    requires InRange(b) && 0 <= c.count
    ensures var b' := Consume(b, c);
            InRange(b') && b'.tokens + (if Grants(b, c) then c.count else 0) as real
                           <= b.tokens + Gain(b.rate, b'.last - b.last)
  {
  }

  /** The exact account of one call: what arrived since the last advance of the clock is
      added up to the capacity, and what is granted is taken out, all of it or nothing. */
  lemma ConsumeIsExact(b: Bucket, c: Call)
    requires InRange(b)
    ensures var b' := Consume(b, c);
            var arrived := b.rate as real * (b'.last - b.last) as real / 1000.0;
            && b'.last == (if c.now > b.last then c.now else b.last)
            && b'.capacity == b.capacity && b'.rate == b.rate
            && b'.tokens + (if Grants(b, c) then c.count else 0) as real
               == (if b.tokens + arrived > b.capacity as real then b.capacity as real else b.tokens + arrived)
            && (Grants(b, c) <==> c.count <= b.capacity && c.count as real <= b.tokens + arrived)
  {
  }

  lemma {:induction false} GrantedBalance(b: Bucket, calls: seq<Call>)
    requires InRange(b) && NonNegative(calls)
    ensures InRange(After(b, calls))
    ensures Granted(b, calls) as real + After(b, calls).tokens
            <= b.tokens + Gain(b.rate, After(b, calls).last - b.last)
    decreases calls
  {
    if calls != [] {
      var b' := Consume(b, calls[0]);
      ConsumeBalance(b, calls[0]);
      GrantedBalance(b', calls[1..]);
      GainAdds(b.rate, b'.last - b.last, After(b, calls).last - b'.last);
      ClockIsRunningMax(b', calls[1..]);
    }
  }

  /** What the calls `second` are granted when they come after the calls `first`. */
  lemma WindowBound(capacity: nat, rate: nat, start: int, first: seq<Call>, second: seq<Call>)
    requires NonNegative(first) && NonNegative(second)
    ensures Granted(After(Start(capacity, rate, start), first), second) as real
            <= capacity as real + Gain(rate, RunningMax(start, first + second) - RunningMax(start, first))
  {
    var b := Start(capacity, rate, start);
    GrantedBalance(b, first);
    GrantedBalance(After(b, first), second);
    ClockIsRunningMax(b, first);
    ClockIsRunningMax(b, first + second);
    AfterConcat(b, first, second);
  }

  /** The rate bound over any window i..j of any run, whatever the clock does. */
  lemma RateBound(capacity: nat, rate: nat, start: int, calls: seq<Call>, i: nat, j: nat)
    requires i <= j <= |calls| && NonNegative(calls)
    ensures Granted(After(Start(capacity, rate, start), calls[..i]), calls[i..j]) as real
            <= capacity as real + Gain(rate, RunningMax(start, calls[..j]) - RunningMax(start, calls[..i]))
  {
    WindowBound(capacity, rate, start, calls[..i], calls[i..j]);
    assert calls[..j] == calls[..i] + calls[i..j];
  }

  lemma {:induction false} AfterConcat(b: Bucket, first: seq<Call>, second: seq<Call>)
    ensures After(b, first + second) == After(After(b, first), second)
    decreases first
  {
    if first == [] {
      assert first + second == second;
    } else {
      assert (first + second)[1..] == first[1..] + second;
      AfterConcat(Consume(b, first[0]), first[1..], second);
    }
  }

  lemma TokensStayInRange(capacity: nat, rate: nat, start: int, calls: seq<Call>)
    requires NonNegative(calls)
    ensures 0.0 <= After(Start(capacity, rate, start), calls).tokens <= capacity as real
  {
    GrantedBalance(Start(capacity, rate, start), calls);
    ClockIsRunningMax(Start(capacity, rate, start), calls);
  }

  // ---------- the ticking reference bucket ----------

  /** One millisecond of a bucket that is refilled eagerly and saturates at every tick. */
  ghost function Tick(b: Bucket): Bucket {
    var filled := b.tokens + Gain(b.rate, 1);
    b.(tokens := if filled > b.capacity as real then b.capacity as real else filled, last := b.last + 1)
  }

  ghost function TickUntil(b: Bucket, now: int): Bucket
    decreases now - b.last
  {
    if b.last >= now then b else TickUntil(Tick(b), now)
  }

  ghost function TickingGrants(b: Bucket, c: Call): bool {
    TickUntil(b, c.now).tokens >= c.count as real
  }

  ghost function TickingConsume(b: Bucket, c: Call): Bucket {
    var r := TickUntil(b, c.now);
    if TickingGrants(b, c) then r.(tokens := r.tokens - c.count as real) else r
  }

  ghost function TickingVerdicts(b: Bucket, calls: seq<Call>): seq<bool>
    decreases calls
  {
    if calls == [] then []
    else [TickingGrants(b, calls[0])] + TickingVerdicts(TickingConsume(b, calls[0]), calls[1..])
  }

  /** A refill at an intermediate time is absorbed by the next one. */
  lemma RefillAbsorbs(b: Bucket, t: int, now: int)
    requires b.tokens <= b.capacity as real && (t <= now || t <= b.last)
    ensures Refill(Refill(b, t), now) == Refill(b, now)
  {
  }

  lemma {:induction false} TicksEqualRefill(b: Bucket, now: int)
    requires b.tokens <= b.capacity as real
    ensures TickUntil(b, now) == Refill(b, now)
    decreases now - b.last
  {
    if b.last < now {
      TicksEqualRefill(Tick(b), now);
      assert Tick(b) == Refill(b, b.last + 1);
      RefillAbsorbs(b, b.last + 1, now);
    }
  }

  /** Lazy refill refines the ticking bucket: the same verdicts on every run. */
  lemma {:induction false} LazyRefinesTicking(b: Bucket, calls: seq<Call>)
    requires b.tokens <= b.capacity as real && NonNegative(calls)
    ensures Verdicts(b, calls) == TickingVerdicts(b, calls)
    decreases calls
  {
    if calls != [] {
      TicksEqualRefill(b, calls[0].now);
      LazyRefinesTicking(Consume(b, calls[0]), calls[1..]);
    }
  }

  /** Looking at the bucket in between (a zero-token call) changes no later verdict. */
  lemma ExtraRefillIsInvisible(b: Bucket, t: int, calls: seq<Call>)
    requires InRange(b) && calls != [] && (t <= calls[0].now || t <= b.last)
    ensures Verdicts(Consume(b, Call(t, 0)), calls) == Verdicts(b, calls)
    ensures After(Consume(b, Call(t, 0)), calls) == After(b, calls)
  {
    assert Consume(b, Call(t, 0)) == Refill(b, t);
    RefillAbsorbs(b, t, calls[0].now);
  }

  /** A request no larger than the capacity succeeds once 1000 * count / rate ms have passed
      on the refill clock with no other consumer. */
  lemma RetryIsGranted(b: Bucket, c: Call)
    requires InRange(b) && 0 <= c.count <= b.capacity && b.last <= c.now
    requires 1000 * c.count <= (c.now - b.last) * b.rate
    ensures Grants(b, c)
  {
  }

  /** The waiting time is not generous: an empty bucket denies any earlier retry. */
  lemma EarlierRetryIsDenied(b: Bucket, c: Call)
    requires InRange(b) && b.tokens == 0.0 && b.last <= c.now
    requires (c.now - b.last) * b.rate < 1000 * c.count
    ensures !Grants(b, c)
  {
  }
}
