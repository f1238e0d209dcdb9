# IoT gateway: verified model of the edge daemon

The Linux gateway collects sensor readings over UDP and over a local socket, keeps them in a
bounded ring until an uploader thread sends them to the cloud in batches, shows the latest value
of each sensor on a shared-memory blackboard, and runs periodic tasks on a thread pool.  This
project models that daemon's logic and proves what its parts promise, alone and together.

## How it is organised

| Files | What they model |
|---|---|
| `Ring`, `Records`, `SensorQueue`, `QueueProtocol` | the record ring, its mutex and counting semaphore; any number of producers and the uploader, interleaved |
| `ThreadPool`, `PoolProtocol` | the ring of tasks, condition variable, workers, shutdown and destruction, interleaved |
| `TokenBucket` | the lazily refilled rate limiter |
| `EventLoop` | the poll() table, walked while it grows and shrinks |
| `Blackboard`, `UdpIngestion` | the fixed sensor table; the UDP handler from datagram to ring and blackboard |
| `AlarmScheduler` | the 16-slot tick scheduler that feeds the pool |
| `Base64`, `Credential` | the credential encoder and its inverse; which API keys fit its buffer |
| `CText`, `NumberTexts`, `RecordText`, `Upload` | the printf and scanf formats in use and every number text they accept, the record parser and printer, the JSON body |
| `Trimming`, `Config` | in-place trim and the configuration reader |

Code that changes state in place is a class or a method over arrays, tied by its `ensures` to a
function on values (a `View` or `Contents`); the lemmas are about those functions.  Concurrent
parts are state machines whose step is one action of one thread; a `Run` is any finite
interleaving.  The step functions reuse the very functions the methods are proved against, so the
sequential code and the protocols talk about the same operations.

## Main results

- **Semaphore credit and safe pops** (`QueueProtocol.CreditAndSafePops`): for any number of
  producers and any interleaving, ring length = semaphore + owed posts + unspent token, so the
  consumer, which never tests for an empty ring, never pops one. What such a pop would do is
  `SensorQueue.PopOfEmptyRingCorrupts`.
- **FIFO conservation** (`QueueProtocol.FifoConservation`), **no stranding** and **no deadlock**
  (`NoStranding`, `QuiescentMeansDelivered`), **drain in exactly ceil(L/50) rounds**
  (`DrainRounds`).
- **No lost wakeup** (`PoolProtocol.NoLostWakeup`), tasks started **in order and at most once**
  (`StartedInOrderOnce`), shutdown that **terminates** and frees only after every worker has
  exited (`ShutdownTerminates`, `FreedAfterAllExited`).
- **Rate bound** under arbitrary, even decreasing, clock readings (`TokenBucket.RateBound`) and
  the **lazy bucket refines a ticking one** (`LazyRefinesTicking`).
- **A poll pass is exact** although it appends and swap-removes while it iterates
  (`EventLoop.PassIsExact`).
- **Blackboard = last-value map** (`Blackboard.ReadIsLastValue`) and, end to end, **the blackboard
  shows the last reading actually enqueued** (`UdpIngestion.BoardShowsLastEnqueued`).
- **Which pushes are accepted** (`QueueProtocol.PushSection`, `AcceptedIsAdmissions`): exactly those
  that find fewer than 1023 records, each with the record its producer entered with.
- **What the UDP handler reads**: every text of each of its formats, with the number it denotes
  (`RecordText.HandlerReadsComma`, `HandlerReadsBlank`, `HandlerReadsJson`, `HandlerReadsPair`), over
  all decimal floating constants (`NumberTexts.ScanNumberText`).
- **Round trips**: base64 (`Base64.RoundTrip`), printed record (`RecordText.HandlerReadsPrintedEntry`),
  whole JSON body (`Upload.BodyParsesBack`); a batch of doubles arrives with every value within half
  a unit of the sixth decimal (`Upload.BodyDenotesBatch`).
- **Scheduler exactness** (`AlarmScheduler.FiresExactly`), **every fire accounted for**
  (`AlarmScheduler.FiresAreAcceptedOrRefused`) and **last assignment wins**
  (`Config.LastAssignmentWins`).

## Where the code falls short of its documentation or of what one would expect

The model follows the code. In each case below a lemma says exactly when the expectation holds.

- `thread_pool.h:36` says destroy waits for all tasks to be executed. The workers leave as soon as
  they see the shutdown flag (`thread_pool.c:36-39`), so queued tasks are discarded. The promise
  holds if and only if the ring is empty when shutdown is published (`PoolProtocol.DestroyDiscardsQueue`,
  witness `AcceptedTaskCanBeDiscarded`).
- `README.md:142` of the repository calls the record ring a 1024-slot lock-free FIFO. It is guarded
  by a mutex, and one slot stays free: it holds 1023 records (`SensorQueue.FullAt1023`).
- A pass of the event loop is expected to read only what poll reported. Neither removal
  (`io_multiplexing.c:107-108`) nor accept (`:71-73`) clears `revents`, so a new connection may be
  read in the pass that accepted it. It reads reported descriptors only if and only if accept does
  not reuse a slot with a leftover POLLIN (`EventLoop.OnlyReportedIffNoStaleSlot`, two-round witness
  `FreshConnectionIsReadUnreported`).
- `mystrlen` skips the first byte (`base64.c:14`), so the empty string is not encoded as empty.
  The encoder's output is the encoding of the string if and only if the string is not empty
  (`Base64.EncodesStringIffNonEmpty`). A caller that decodes it again still finds the same C string
  in every case (`Base64.StringRoundTrip`).
- The 4096-byte body buffer does not fit every batch. A body fits if and only if the digits and
  signs of its records stay below an exact bound (`Upload.FitsBufferIff`); up to 50 records whose
  printed values have at most 54 characters always do (`Upload.FitsBuffer`), and that 54 cannot be
  raised (`Upload.LongerValuesOverflow`). Fifty datagrams with id 4294967295 and value `2e47`
  make a batch that does not fit (`Upload.DatagramsCanOverflow`), and a run of the handler puts it
  into the ring (`UdpIngestion.RunCanOverflow`).
- The 256-byte credential buffer is smaller than the longest encoded API key the configuration can
  hold: it fits if and only if the configured key has at most 188 bytes, while 255 are kept
  (`Credential.CredentialFitsIff`, witness `LongKeyOverflows`).
- The blackboard marks free slots with id 0, so a sensor with id 0 is stored in the first free slot,
  which the next new id takes over. What id 0 reads as after any updates is `Blackboard.ReadOfZero`,
  when that is its last value `Blackboard.ZeroReadsLastIff`; witnesses are `ZeroIsForgotten` and
  `ZeroOnEmptyTable` (0.0 instead of -999 for an id never stored). Other ids are not disturbed
  (`Blackboard.IdZero`).

## Model

| member | source | states |
|---|---|---|
| Ring.SlotIsModular | gateway/thread_pool.c:107 | advancing an index k times around the ring is addition modulo the size, from either end |
| Ring.WindowAppend | gateway/udp_server.c:104-108 | writing the slot after the used window appends to its contents, wherever the ring wraps |
| Ring.WindowDrop | gateway/cloud_client.c:34-35 | advancing the start drops exactly the first element of the contents |
| Ring.WindowIgnoresFreeSlots | gateway/thread_pool.c:105-106 | writing a free slot changes no stored element |
| SensorQueue.EmptyQueueIsEmpty | gateway/main.c:23-25 | the zeroed globals are a valid empty queue |
| SensorQueue.FullAt1023 | gateway/udp_server.c:104-105 | the full test succeeds exactly when 1023 records are held |
| SensorQueue.HeadIsPastContents | gateway/udp_server.c:106-108 | the slot a push writes is the one after the last stored record |
| SensorQueue.PushAppends | gateway/udp_server.c:103-108 | a push into a ring with room appends exactly that record |
| SensorQueue.PopRemovesOldest | gateway/cloud_client.c:34-35 | a pop of a non-empty ring removes exactly the oldest record |
| SensorQueue.PopOfEmptyRingCorrupts | gateway/cloud_client.c:34-35 | an unguarded pop of an empty ring would leave it looking full |
| SensorQueue.PopManyTakesPrefix | gateway/cloud_client.c:38-41 | n pops take the n oldest records in order and leave the rest |
| SensorQueue.BatchIsOldestPrefix | gateway/cloud_client.c:30-41 | under the credit bound, the batch is a prefix of the ring's contents and never more than it holds |
| SensorQueue.SharedQueue.constructor | gateway/main.c:23-25 | starts as the empty queue |
| SensorQueue.SharedQueue.Push | gateway/udp_server.c:103-116 | succeeds exactly below 1023 records; then appends the record, otherwise changes nothing; never touches the semaphore or the tail |
| SensorQueue.SharedQueue.Produce | gateway/io_multiplexing.c:89-100 | a producer's round: below 1023 records the record is appended and one token posted, otherwise neither |
| SensorQueue.SharedQueue.Post | gateway/udp_server.c:110 | adds one token |
| SensorQueue.SharedQueue.PopInto | gateway/cloud_client.c:39-40 | copies the oldest record to the next batch place, leaves the earlier ones, advances the tail |
| SensorQueue.SharedQueue.PopNext | gateway/cloud_client.c:34-35 | one more pop of a batch: the ring has had n pops and the batch holds exactly the n records they read |
| SensorQueue.SharedQueue.TryWait | gateway/cloud_client.c:38 | takes a token exactly when there is one, posts that have just landed included |
| SensorQueue.SharedQueue.FillBatch | gateway/cloud_client.c:34-41 | pops 1 to 50 records, one per token, and stops only at 50 or at semaphore 0, counting every post that lands meanwhile |
| SensorQueue.SharedQueue.TakeBatch | gateway/cloud_client.c:26-43 | the batch is the oldest 1 to 50 records, the ring keeps exactly the others, and tokens are conserved |
| QueueProtocol.CreditAndSafePops | gateway/cloud_client.c:26-43 | in every reachable state length = semaphore + pushed-not-posted + unspent token, and a consumer about to pop finds the oldest record |
| QueueProtocol.FifoConservation | gateway/cloud_client.c:30-41 | batches taken, then the batch in hand, then the ring, are exactly the accepted pushes in order; batches have 1 to 50 records; at most 1023 are held |
| QueueProtocol.PushSection | gateway/udp_server.c:103-116 | whenever the mutex is free a producer can enter, and ring and accepted records then grow by exactly its record, exactly if fewer than 1023 are held; it posts exactly then |
| QueueProtocol.AcceptedIsAdmissions | gateway/udp_server.c:104-110 | along every run the accepted records are the pushes that found fewer than 1023 records, in order |
| QueueProtocol.PushedIsEntered | gateway/udp_server.c:106-107 | the record a producer is about to push is the one it last entered with |
| QueueProtocol.MutualExclusion | gateway/cloud_client.c:28-43 | at most one thread is between lock and unlock |
| QueueProtocol.NoStranding | gateway/cloud_client.c:23-26 | a consumer blocked at semaphore 0 means an empty ring or a producer about to post |
| QueueProtocol.QuiescentMeansDelivered | gateway/udp_server.c:103-116 | a reachable state in which nothing but a new push can happen is no deadlock: lock free, all idle, every accepted record in a batch |
| QueueProtocol.WorkDecreases | gateway/cloud_client.c:23-43 | every step but a new push decreases a natural-number measure |
| QueueProtocol.DrainTerminates | gateway/cloud_client.c:23-43 | without new pushes the number of further steps is bounded by that measure |
| QueueProtocol.RoundsInvariant | gateway/cloud_client.c:38-41 | rounds done plus rounds still needed never changes while the queue drains |
| QueueProtocol.RoundsAlongRun | gateway/cloud_client.c:23-43 | the same over whole runs |
| QueueProtocol.DrainRounds | gateway/cloud_client.c:23-43 | with idle producers a ring of L records empties in exactly ceil(L/50) batches, within 6L+2 steps |
| QueueProtocol.LockedPostsWereOwed | gateway/cloud_client.c:28-43 | while the consumer holds the mutex nothing is pushed, every post that lands was owed when it took the mutex, and no token is lost |
| QueueProtocol.BatchPreconditionHolds | gateway/cloud_client.c:26-43 | from lock to unlock, for every interleaving, tokens and landing posts are covered by the ring, as TakeBatch requires |
| QueueProtocol.LockedBatchIsOldestPrefix | gateway/cloud_client.c:28-43 | for every interleaving the batch at unlock is the oldest 1 to 50 records of the ring at lock, 50 or until a trywait failed, and every token is accounted for |
| QueueProtocol.LandingCountsPosts | gateway/cloud_client.c:38 | grouping the posts of a run by trywait attempts loses none |
| QueueProtocol.TryPushKeepsInv | gateway/io_multiplexing.c:89-100 | a push under the lock, accepted or refused, keeps credit, order and locking |
| QueueProtocol.PopKeepsInv | gateway/cloud_client.c:34-35 | an unguarded pop keeps credit, order and locking |
| ThreadPool.AddAppends | gateway/thread_pool.c:98-108 | an accepted task is appended, a refused one changes nothing |
| ThreadPool.StartTakesOldest | gateway/thread_pool.c:31-45 | a worker that starts takes the oldest task; one that sleeps or exits takes nothing |
| ThreadPool.ThreadPool.Create | gateway/thread_pool.c:55-90 | null exactly for a non-positive thread count or size or when memory, a part or one of the threads cannot be had, and then the workers already running are shut down; otherwise empty, open, of that size |
| ThreadPool.ThreadPool.Add | gateway/thread_pool.c:92-118 | the task is appended exactly when there is a function, the lock, room and no shutdown; 0 exactly when the signal succeeds as well |
| ThreadPool.ThreadPool.Enter | gateway/thread_pool.c:28-47 | exits exactly on shutdown, sleeps exactly on an empty ring before it, otherwise takes the oldest task |
| ThreadPool.ThreadPool.BeginDestroy | gateway/thread_pool.c:120-136 | shutdown is published exactly when the lock succeeds; 0, after which the joins follow, exactly on the first call with broadcast and unlock succeeding |
| PoolProtocol.NoLostWakeup | gateway/thread_pool.c:28-50 | before shutdown, if a worker sleeps then at least as many workers are awake and not running as tasks are queued |
| PoolProtocol.AllAsleepMeansAllStarted | gateway/thread_pool.c:31-33 | if before shutdown every worker sleeps, no accepted task is still waiting |
| PoolProtocol.AcceptedIsAddsReturningZero | gateway/thread_pool.c:98-114 | along a run the accepted tasks grow by exactly the adds that returned 0 |
| PoolProtocol.StartedInOrderOnce | gateway/thread_pool.c:36-50 | started tasks followed by the ring are the adds that returned 0, in order; tail = (head + count) mod size |
| PoolProtocol.EnterIsExact | gateway/thread_pool.c:28-50 | a worker at the lock runs the oldest task, sleeps on an empty ring, or leaves on shutdown; no other worker changes |
| PoolProtocol.AddIsExact | gateway/thread_pool.c:98-116 | an accepted add appends its task and wakes at most the sleeper the signal picks; a refused one changes nothing |
| PoolProtocol.ThreadsCanMove | gateway/thread_pool.c:28-50 | until the pool is freed running tasks can finish, sleepers can be woken, and add and destroy can be called |
| PoolProtocol.StartedIsRunningOrFinished | gateway/thread_pool.c:42-50 | every start of a task is with exactly one worker until that worker has finished it |
| PoolProtocol.ShutdownFreezesQueue | gateway/thread_pool.c:31-39 | once shutdown is published no task starts, none is accepted and no worker sleeps, for the rest of the run |
| PoolProtocol.FreedAfterAllExited | gateway/thread_pool.c:138-149 | the pool is freed only after every worker has exited |
| PoolProtocol.CallsRefusedWhileJoining | gateway/thread_pool.c:101-127 | during the joins an add or a second destroy changes nothing |
| PoolProtocol.ShutdownProgress | gateway/thread_pool.c:129-149 | until the pool is freed some step is possible, and every step but a refused call decreases a measure |
| PoolProtocol.ShutdownTerminates | gateway/thread_pool.c:129-149 | after shutdown workers and destroyer make boundedly many steps, whatever calls are still refused, and can only stop with the pool freed |
| PoolProtocol.DestroyDiscardsQueue | gateway/thread_pool.c:31-39 | at the end accepted = started + what was queued at shutdown; all accepted tasks started if and only if that was nothing |
| PoolProtocol.AcceptedTaskCanBeDiscarded | gateway/thread_pool.h:36 | a run in which an accepted task never starts and the pool is freed |
| TokenBucket.Limiter.TryConsume | gateway/token_bucket.c:29-55 | returns 1 exactly when the refilled bucket covers the count, which is then taken out; the clock mark never goes back |
| TokenBucket.Limiter.constructor | gateway/token_bucket.c:21-27 | starts full at the current clock |
| TokenBucket.ClockIsRunningMax | gateway/token_bucket.c:32-44 | the clock mark is the running maximum of all readings since init |
| TokenBucket.ConsumeBalance | gateway/token_bucket.c:31-50 | one call: tokens stay in range, and tokens plus what was granted never exceed tokens before plus the refill |
| TokenBucket.ConsumeIsExact | gateway/token_bucket.c:29-55 | one call adds exactly what arrived since the last clock advance, up to the capacity, and takes out the count exactly if it is covered |
| TokenBucket.GrantedBalance | gateway/token_bucket.c:31-50 | the same balance over any sequence of calls |
| TokenBucket.WindowBound | gateway/token_bucket.c:29-55 | a window of calls after any history is granted at most capacity + rate * (advance of the running maximum) / 1000 |
| TokenBucket.RateBound | gateway/token_bucket.c:29-55 | the bound for every window i..j of one call sequence, whatever the clock does |
| TokenBucket.TokensStayInRange | gateway/token_bucket.c:39-50 | tokens stay between 0 and the capacity |
| TokenBucket.TicksEqualRefill | gateway/token_bucket.c:34-44 | one saturating refill equals a saturating tick for each elapsed millisecond, at any rate sign |
| TokenBucket.LazyRefinesTicking | gateway/token_bucket.c:31-50 | the verdicts are those of a bucket that ticks every millisecond, even across clock jumps back |
| TokenBucket.RefillAbsorbs | gateway/token_bucket.c:34-44 | a refill at an intermediate time is absorbed by the next one |
| TokenBucket.ExtraRefillIsInvisible | gateway/token_bucket.c:31-50 | an extra call for zero tokens changes no later verdict and no later state |
| TokenBucket.RetryIsGranted | gateway/token_bucket.c:35-50 | after 1000*count/rate ms without other calls a request within capacity is granted |
| TokenBucket.EarlierRetryIsDenied | gateway/token_bucket.c:35-50 | from an empty bucket no shorter wait suffices |
| EventLoop.Reactor.constructor | gateway/io_multiplexing.c:20-39 | the table holds exactly the listeners that could be opened, registered for POLLIN, with no reported events |
| EventLoop.Reactor.Visit | gateway/io_multiplexing.c:58-113 | one iteration on the array is one step of the pass |
| EventLoop.Reactor.DispatchPass | gateway/io_multiplexing.c:57-114 | the loop terminates, ends in the state of a full pass, and leaves a valid table |
| EventLoop.StepKeepsInv | gateway/io_multiplexing.c:58-113 | every iteration keeps the pass invariant and decreases (listener unvisited, nfds - i) |
| EventLoop.AcceptStepKeepsInv | gateway/io_multiplexing.c:66-80 | an accept appends one new distinct entry and loses none |
| EventLoop.RemoveStepKeepsInv | gateway/io_multiplexing.c:101-111 | swap-with-last drops exactly the closed descriptor, and the moved entry is still visited |
| EventLoop.RemoveDropsAhead | gateway/io_multiplexing.c:107-110 | the entries still to visit are the old ones without the removed one |
| EventLoop.PassIsExact | gateway/io_multiplexing.c:57-114 | every reported descriptor is dispatched exactly once; the only other one possible is a connection accepted into a stale slot; the resulting table is the old one plus the accepted and minus the failed clients |
| EventLoop.OnlyReportedIffNoStaleSlot | gateway/io_multiplexing.c:69-73 | only reported descriptors are dispatched if and only if accept does not fill a slot with a leftover POLLIN |
| EventLoop.TableForever | gateway/io_multiplexing.c:43-115 | over any rounds entries stay distinct and registered for POLLIN, listeners stay in place and nfds never exceeds 1024 |
| EventLoop.PollStartsPass | gateway/io_multiplexing.c:44 | poll reports exactly the table's ready descriptors, all of which are registered for POLLIN |
| EventLoop.RoundIsExact | gateway/io_multiplexing.c:43-115 | a round reads each ready descriptor of the table exactly once, and besides them at most the connection just accepted |
| EventLoop.HangupLeavesStaleBit | gateway/io_multiplexing.c:107-109 | a hangup of the last client leaves its POLLIN bit behind in the free slot |
| EventLoop.FreshConnectionIsReadUnreported | gateway/io_multiplexing.c:71-73 | a hangup followed by a connect makes the loop read a connection poll has not reported |
| Blackboard.First | gateway/ipc_modules.c:95-99 | the first slot with an id, or the table size if there is none |
| Blackboard.SharedTable.Attach | gateway/ipc_modules.c:57-64 | the attached table is all zero |
| Blackboard.SharedTable.UpdateSensor | gateway/ipc_modules.c:85-118 | the one-pass scan writes the id's slot, else the first free one, else nothing |
| Blackboard.UpdateWritesOneSlot | gateway/ipc_modules.c:94-111 | id, value and time go to the first slot with the id, else to the first free one, and no other slot changes |
| Blackboard.SharedTable.ReadSensor | gateway/ipc_modules.c:120-136 | the value in the id's first slot, or -999 |
| Blackboard.UpdateKeepsTracking | gateway/ipc_modules.c:94-114 | each update keeps: used slots form a prefix holding the remembered ids with their last values, the first free slot holds what is left of id 0, later ones 0.0 |
| Blackboard.RunTracks | gateway/ipc_modules.c:85-118 | the same after any sequence of updates |
| Blackboard.RememberedDistinct | gateway/ipc_modules.c:94-111 | the ids in the used slots are non-zero and pairwise distinct |
| Blackboard.FirstIdsAreReported | gateway/ipc_modules.c:94-111 | the candidates for a slot are exactly the non-zero ids ever reported |
| Blackboard.FirstFreeSlot | gateway/ipc_modules.c:100-102 | the first free slot comes right after the used ones |
| Blackboard.ReadIsLastValue | gateway/ipc_modules.c:120-136 | reading a non-zero id gives its last written value if it got a slot, otherwise -999 |
| Blackboard.ReadIsLastValueUpTo100 | gateway/ipc_modules.c:120-136 | with at most 100 distinct ids the table is exactly the last-value map |
| Blackboard.LastValueOfUnreported | gateway/ipc_modules.c:126 | the last-value map gives -999 for a non-zero id never reported |
| Blackboard.FullTableIgnoresNewId | gateway/ipc_modules.c:106-114 | an update of a new id on a full table changes nothing |
| Blackboard.IdZero | gateway/ipc_modules.c:95-109 | an update of id 0 disturbs no other id and reads back only while a slot is free |
| Blackboard.ReadOfZero | gateway/ipc_modules.c:126-132 | after any updates id 0 reads as its last value since the last new id, 0.0 if there is none, -999 once the table is full |
| Blackboard.ZeroValueMeans | gateway/ipc_modules.c:95-111 | that value is the last one reported for id 0 exactly when no new id arrived since, otherwise 0.0 |
| Blackboard.ZeroReadsLastIff | gateway/ipc_modules.c:120-136 | id 0 reads as its last value if and only if a slot is free and no new id arrived since, up to values equal to 0.0 or, on a full table, -999 |
| Blackboard.ZeroIsForgotten | gateway/ipc_modules.c:100-111 | a value stored under id 0 is gone after the next new id: it reads 0.0 |
| Blackboard.ZeroOnEmptyTable | gateway/ipc_modules.c:64-132 | on the cleared table id 0 reads 0.0 and not -999 |
| AlarmScheduler.FirstFree | gateway/alarm_scheduler.c:88-89 | the first slot not in use, or the table size |
| AlarmScheduler.Scheduler.AddTask | gateway/alarm_scheduler.c:78-109 | -1 and no change exactly for a non-positive interval, a null function or 16 used slots; otherwise the first free slot is filled and its index returned |
| AlarmScheduler.Scheduler.TickOne | gateway/alarm_scheduler.c:29-44 | one slot counts down, or resets and makes one add attempt |
| AlarmScheduler.Scheduler.Tick | gateway/alarm_scheduler.c:26-46 | every slot ticks once, and an open pool receives the expired slots' own tasks in slot order as far as it has room |
| AlarmScheduler.FeedAppends | gateway/alarm_scheduler.c:41 | the fired tasks, function and argument, are appended to an open pool in order, as far as it has room |
| AlarmScheduler.FeedAfterShutdown | gateway/alarm_scheduler.c:41 | a pool that is shutting down receives nothing |
| AlarmScheduler.FiredAt | gateway/alarm_scheduler.c:28-41 | each expiring slot hands over its own task, after those of earlier slots, and no other slot does |
| AlarmScheduler.AlwaysRegistered | gateway/alarm_scheduler.c:79-94 | no history puts a null function into a used slot |
| AlarmScheduler.FiresExactly | gateway/alarm_scheduler.c:26-46 | in any interleaving of registrations and ticks, a task of interval k has fired exactly floor(n/k) times n ticks after it was registered, with k - (n mod k) ticks left |
| AlarmScheduler.SlotsFillAsPrefix | gateway/alarm_scheduler.c:88-97 | the used slots are a prefix of the 16 |
| AlarmScheduler.FeedBalance | gateway/alarm_scheduler.c:40-42 | of the fires of a tick each is either queued or refused, and earlier tasks stay in place |
| AlarmScheduler.TotalFiresStep | gateway/alarm_scheduler.c:28-44 | the tasks a tick hands over are one for each slot whose fire count goes up |
| AlarmScheduler.HallFollowsScheduler | gateway/alarm_scheduler.c:26-46 | with a pool attached the table and the fires are those of the scheduler's own events |
| AlarmScheduler.FiresAreAcceptedOrRefused | gateway/alarm_scheduler.c:40-42 | from the creation of the pool on, the fires summed over all slots = refused + taken by a worker + still queued, in any interleaving |
| Base64.AlphabetIsGood | gateway/base64.c:8 | the alphabet has 64 distinct letters in the order of RFC 4648 section 4, without the padding character |
| Base64.IndexOfLetter | gateway/base64.c:67-71 | looking a letter up gives back its six-bit value |
| Base64.StrchrOfNum | gateway/base64.c:18-71 | the pointer walk finds the first occurrence, the terminator, or -1 |
| Base64.SameTwentyFourBits | gateway/base64.c:33-54 | the four six-bit values are the 24 bits of the three bytes, most significant first |
| Base64.SamePaddedBits | gateway/base64.c:35-59 | for a last group of one or two bytes the sextets are the bytes' bits followed by zeros |
| Base64.GroupBits | gateway/base64.c:33-61 | for every group length the letters stand for the bytes' bits followed by zero bits, the rest is padding |
| Base64.OctetBits | gateway/base64.c:81-91 | the decoder's octets are the low six bits of any four values |
| Base64.IndexOfForeign | gateway/base64.c:67-71 | a character outside the alphabet decodes as the bits of -1 |
| Base64.OctetsOfSextets | gateway/base64.c:81-91 | the decoder's shifts recover the three bytes |
| Base64.GroupRoundTrip | gateway/base64.c:79-91 | a padded or full group decodes to its bytes |
| Base64.EncodedShape | gateway/base64.c:31-62 | the output has 4*ceil(n/3) characters, letters of the alphabet followed by exactly the required padding |
| Base64.RoundTrip | gateway/base64.c:25-95 | decoding an encoding gives back every byte string |
| Base64.EncodeDistributes | gateway/base64.c:31-62 | encoding distributes over concatenation after a multiple of 3 bytes |
| Base64.StringRoundTrip | gateway/base64.c:11-95 | every C string, the empty one included, is again the C string in the decoder's buffer |
| Base64.EncodesStringIffNonEmpty | gateway/base64.c:11-16 | the output is the encoding of the string, and the decoder writes exactly the string's bytes before its NUL, if and only if the string is not empty |
| Base64.StrLen | gateway/base64.c:11-16 | the distance to the first NUL after the first byte |
| Base64.Put | gateway/base64.c:34 | `dest[j++] = x` appends one element to what has been written |
| Base64.EncodeNext | gateway/base64.c:33-61 | writes the four characters of one group after what is already there |
| Base64.Base64Encode | gateway/base64.c:25-65 | the output buffer holds the encoding of the scanned bytes, NUL-terminated |
| Base64.DecodeNext | gateway/base64.c:79-91 | writes the one to three bytes of one group after what is already there |
| Base64.Base64Decode | gateway/base64.c:73-95 | the output buffer holds the decoded bytes, NUL-terminated |
| Credential.SprintfFormats | gateway/cloud_client.c:18 | the buffer holds the key, a colon and a NUL, whatever follows |
| Credential.CredentialRoundTrip | gateway/cloud_client.c:14-19 | the key with its colon is never empty, is measured correctly, and decodes back for every key |
| Credential.CredentialFitsIff | gateway/cloud_client.c:14-19 | the encoded credential fits its 256 bytes if and only if the configured key has at most 188 |
| Credential.LongKeyOverflows | gateway/config.c:45-46 | an API_KEY line with a stripped value of 189 to 255 characters sets exactly that key, and its credential does not fit |
| CText.NatOfPrintNat | gateway/cloud_client.c:53 | the digits of `%u` denote the number |
| CText.PrintNatLength | gateway/cloud_client.c:53 | `%u` prints the least number of digits that holds the number |
| CText.NearestEven | gateway/cloud_client.c:53-54 | the nearest integer, an even one in a tie |
| CText.MicrosDenote | gateway/cloud_client.c:53-54 | `%f` is off by at most half a unit of the sixth decimal, and exact if and only if the value has no more than six |
| CText.ScanPrintedNat | gateway/udp_server.c:137 | `%u` reads back what `%u` printed and stops right after it |
| CText.ScanPrintedFixed | gateway/udp_server.c:137 | `%lf` reads back what `%f` printed, sign and six decimals included, and stops right after it |
| CText.SpaceCharacters | gateway/config.c:15 | white space is the six characters of the C locale |
| CText.NatOfConcat | gateway/udp_server.c:135 | decimal notation is positional |
| NumberTexts.DigitCharacters | gateway/udp_server.c:135 | the ten digits denote their position |
| NumberTexts.ValueScales | gateway/udp_server.c:135 | an exponent smaller by one undoes a tenfold mantissa, for every exponent; at exponent 0 the value is the mantissa |
| NumberTexts.ScanNumberText | gateway/udp_server.c:99-100 | `%lf` reads every decimal floating constant, blanks, sign, point and exponent included, as the number it denotes, and stops right after it |
| NumberTexts.PrintedIsNumberText | gateway/cloud_client.c:53 | what `%f` prints is one of these texts and denotes the value printed |
| NumberTexts.NoNumber | gateway/udp_server.c:99-100 | without a digit after blanks and sign neither `%lf` nor `%u` assigns |
| NumberTexts.BrokenExponent | gateway/udp_server.c:99-100 | an exponent letter without digits spoils the number |
| NumberTexts.UnsignedMeans | gateway/udp_server.c:135 | a magnitude is kept modulo 2^32, negated after a minus sign, and saturates beyond 64 bits |
| NumberTexts.ScanUnsignedText | gateway/udp_server.c:135 | `%u` reads blanks, a sign and digits and stops right after them |
| CText.CompleteAssignsAll | gateway/udp_server.c:135-137 | a scan that reaches the end of its format has assigned every item |
| CText.ScanLiterals | gateway/udp_server.c:137 | ordinary characters of a format consume themselves |
| RecordText.FindIsFirst | gateway/udp_server.c:93-94 | strstr gives the suffix at the first occurrence, and none exactly if there is none |
| RecordText.EntryReachesJsonFormat | gateway/udp_server.c:93-136 | a printed record is taken neither by the temp/hum branch nor by the first two formats |
| RecordText.JsonFormatReadsEntry | gateway/udp_server.c:137 | the third format recovers the id and the value of a printed record |
| RecordText.HandlerReadsPrintedEntry | gateway/udp_server.c:89-137 | for every 32-bit id and six-decimal value the handler reads a printed record as exactly that one record |
| RecordText.HandlerReadsPrintedRecord | gateway/udp_server.c:89-137 | any record printed by the uploader is read back with its id and its value to within half a unit of the sixth decimal, unchanged if and only if it has six decimals |
| RecordText.HandlerReadsScientific | gateway/udp_server.c:135 | the datagram `id,m` with exponent e is read as the record with value m * 10^e |
| RecordText.HandlerReadsComma | gateway/udp_server.c:135 | `id,value` gives exactly that reading, for every id text and every number text, whatever follows |
| RecordText.HandlerReadsBlank | gateway/udp_server.c:136 | so does an id followed by blanks and a number |
| RecordText.HandlerReadsJson | gateway/udp_server.c:137 | so does the JSON form, with any blanks after the comma |
| RecordText.HandlerIgnores | gateway/udp_server.c:157-160 | a text without both keys that begins neither with an unsigned number nor with the JSON opening gives no reading |
| RecordText.HandlerTakesBothKeys | gateway/udp_server.c:93-133 | with both keys present the readings are 16790 with the number after temp, or 0, and then 16789 with the number after hum, or 0 |
| RecordText.NumberAfterKey | gateway/udp_server.c:97-100 | the number after a key is the one its text denotes |
| RecordText.NothingAfterKey | gateway/udp_server.c:97-100 | without a number after a key its value is 0 |
| RecordText.HandlerReadsPair | gateway/udp_server.c:92-133 | a text with temp and hum keys in either order is read as exactly the readings 16790 and 16789, temperature first, each with the number after its own key |
| Upload.SprintfAt | gateway/cloud_client.c:47-56 | writes the text after the given offset, NUL-terminated, and returns its length |
| Upload.AppendEntry | gateway/cloud_client.c:50-54 | appends the separator and one record and advances the length by what was written |
| Upload.BuildPayload | gateway/cloud_client.c:45-56 | for the batch as taken from the ring, `json_len` is the exact length of the NUL-terminated body in the buffer |
| Upload.NextPayload | gateway/cloud_client.c:26-56 | from ring to text: the body printed is that of the oldest records, which have left the ring, if the oldest 50 fit the buffer |
| Upload.BodyHasNoNul | gateway/cloud_client.c:45-69 | the body contains no NUL, so Content-Length (section 6.2 of RFC 9112) is the number of bytes sent |
| Upload.BodyLength | gateway/cloud_client.c:47-56 | the body's exact length from the digits and signs of its records |
| Upload.BodyOfOne | gateway/cloud_client.c:47-56 | the body's text, character by character |
| Upload.ValueText | gateway/cloud_client.c:53 | `%f` prints sign, whole part, point and six decimals |
| Upload.FitsBufferIff | gateway/cloud_client.c:46-56 | a body fits 4096 bytes, terminator included, if and only if the digits and signs of its records add up to little enough |
| Upload.FitsBuffer | gateway/cloud_client.c:46-56 | up to 50 records with values of at most 54 characters fit 4096 bytes, terminator included |
| Upload.LongerValuesOverflow | gateway/cloud_client.c:46-56 | the 54 cannot be raised: 50 records with ten-digit ids and values of 55 characters or more do not fit |
| Upload.DatagramsCanOverflow | gateway/cloud_client.c:46-56 | 50 readings of the datagram with id 4294967295 and value 2e47 make a batch that does not fit |
| Upload.BodyParsesBack | gateway/cloud_client.c:45-69 | a parser of the body format recovers the batch |
| Upload.BodyDenotesBatch | gateway/cloud_client.c:45-69 | parsing the body of a batch of records gives every id and every value to within half a unit of the sixth decimal, exactly if and only if it has six decimals |
| Upload.BodyIsInjective | gateway/cloud_client.c:45-69 | different printed batches have different bodies |
| Trimming.Trim | gateway/config.c:11-18 | the string in the buffer becomes the strip of the old one, and nothing beyond its end is touched |
| Trimming.SkipBlank | gateway/config.c:15 | stops at the first non-blank character or the end |
| Trimming.CutBlank | gateway/config.c:16 | cuts the trailing blanks, and only those |
| Trimming.MemMove | gateway/config.c:17 | overlapping copy |
| Trimming.StripOfPadded | gateway/config.c:11-18 | surrounding blanks are removed, whatever they are |
| Trimming.StripSplits | gateway/config.c:11-18 | nothing but surrounding blanks is removed, and none remain |
| Trimming.StripIsIdempotent | gateway/config.c:11-18 | trimming twice is trimming once |
| Config.ConfigReader.Set | gateway/config.c:39-55 | the strcmp chain assigns the field the key names |
| Config.ConfigReader.ReadAssignment | gateway/config.c:32-55 | splits in place at `=`, trims both halves and assigns |
| Config.ConfigReader.ReadLine | gateway/config.c:26-55 | a line has the effect of its key=value pair, or none |
| Config.ConfigReader.Fgets | gateway/config.c:24-25 | leaves a terminated string of at most 511 characters, up to a newline |
| Config.ConfigReader.Load | gateway/config.c:20-59 | -1 and no change without a file; otherwise 0 and the fold over its lines |
| Config.CutAt | gateway/config.c:29-34 | overwriting `=` by NUL leaves the two halves as strings in one buffer |
| Config.TrimHalves | gateway/config.c:36-37 | trimming the key in place does not disturb the value and vice versa |
| Config.AssignSetsOneField | gateway/config.c:39-55 | a key sets the field it names, converted, and no other |
| Config.AtoiReads | gateway/config.c:42 | blanks, a sign and digits give the number they denote, whatever follows |
| Config.AtoiOfNoNumber | gateway/config.c:42 | without digits the number is 0 |
| Config.AtoiOfPrinted | gateway/config.c:42 | a printed number is read back, also after a minus sign |
| Config.PortLine | gateway/config.c:41-52 | a port line sets exactly its number, whatever blanks surround key and value |
| Config.FieldKeepsPrefix | gateway/config.c:39-54 | a text field keeps the first 63, 255 or 31 characters of its value |
| Config.LastAssignmentWins | gateway/config.c:24-56 | after all lines each field has the value of the last line that assigns its key, or its old value |
| Config.NoiseDoesNotMatter | gateway/config.c:27-30 | a line without an assignment can be removed anywhere |
| Config.BlanksAndCommentsAreNoise | gateway/config.c:26-27 | blank lines and comments, indented or not, are such lines |
| Config.PaddedAssignment | gateway/config.c:26-37 | blanks around key and value do not matter |
| Config.AssignmentsArePadded | gateway/config.c:26-37 | only such lines assign: key without `=`, value, and blanks around them |
| Config.NoEqualsIsNoise | gateway/config.c:29-30 | a line without `=` assigns nothing |
| Config.ChunksAreLines | gateway/config.c:24-25 | a file of NUL-free lines of at most 511 characters is read line by line, also when the last one lacks its newline |
| Config.LongLineComesInPieces | gateway/config.c:24-25 | of a longer line the first 511 characters are read as a line of their own |
| UdpIngestion.UdpServer.Enqueue | gateway/udp_server.c:103-116 | with room: push, post and blackboard update of the same record; when full: nothing |
| UdpIngestion.UdpServer.HandleUdpRead | gateway/udp_server.c:73-161 | no datagram changes nothing; a denied one only the bucket; an admitted one delivers its readings in order |
| UdpIngestion.StepKeepsInv | gateway/udp_server.c:96-160 | every event keeps ring, log, blackboard and counters consistent |
| UdpIngestion.AdmitsExactly | gateway/udp_server.c:84 | a datagram is admitted exactly if one token is there or has arrived |
| UdpIngestion.DatagramIsExact | gateway/udp_server.c:84-137 | an admitted datagram's readings come next, a denied one changes only the limiter |
| UdpIngestion.DeliveryIsExact | gateway/udp_server.c:103-116 | a reading is enqueued and put on the blackboard exactly below 1023 records, and counted as dropped otherwise |
| UdpIngestion.IpcIsExact | gateway/io_multiplexing.c:89-100 | a local client's record is enqueued exactly below 1023 records and touches nothing else |
| UdpIngestion.PopIsExact | gateway/cloud_client.c:26-35 | the uploader can pop exactly when a record is held, and takes the oldest |
| UdpIngestion.BoardShowsLastEnqueued | gateway/udp_server.c:105-113 | after any run the blackboard value of a non-zero id that got a slot is its last UDP reading that was actually enqueued, otherwise -999; id 0 reads as what is left of its readings |
| UdpIngestion.IngestionConserves | gateway/udp_server.c:102-156 | popped records followed by the ring are the accepted pushes in order; attempted UDP readings = enqueued + dropped + next in line |
| UdpIngestion.GrantsAlongRun | gateway/udp_server.c:84-87 | the bucket sees exactly the datagrams of the run, and admissions are its grants |
| UdpIngestion.AdmitRateBound | gateway/udp_server.c:84-87 | datagrams admitted in a window obey the bucket's bound |
| UdpIngestion.TwoReadingsPerAdmission | gateway/udp_server.c:96-160 | any window enqueues at most two UDP readings per admitted datagram, plus those of a datagram under way when it opens |
| UdpIngestion.EnqueueRateBound | gateway/udp_server.c:84-160 | UDP readings enqueued in any window are at most twice the bucket's bound for it, plus at most two under way when it opens |
| UdpIngestion.HandlerIsRun | gateway/udp_server.c:73-161 | the handler's effect is that of a run of events, so the run results apply to it |
| UdpIngestion.RunCanOverflow | gateway/cloud_client.c:30-56 | with a bucket of at least 50 tokens there is a run of datagrams after which the next batch of 50 does not fit the uploader's buffer |

## Left out

- TokenBucket.Limiter.TryConsume: tokens are exact reals, so rounding of the double is not modelled; the clock reading is a parameter.
- RecordText.HandlerReadsPrintedRecord: values are reals, `%f` rounds them to six decimals, and `%lf` gives the exact decimal; the rounding to a double, negative zero, infinities and NaN are not modelled, so `%lf` reads decimal input only, neither hexadecimal floats nor `inf` and `nan`.
- RecordText.Readings: the datagram is its text up to the first NUL; logging is not modelled.
- UdpIngestion.UdpServer.Enqueue: push, post and blackboard update are one step here; that other threads may run between them is covered, for the ring and semaphore, by QueueProtocol.
- SensorQueue.SharedQueue.TakeBatch: posts that land during the loop are a parameter; QueueProtocol.BatchPreconditionHolds proves its precondition for the posts of every interleaving, and LockedBatchIsOldestPrefix its result.
- PoolProtocol.FreedAfterAllExited: says nothing about callers that still hold the pointer after the pool is freed; steps on a freed pool are not enabled.
- PoolProtocol.ShutdownTerminates: a running task is assumed able to finish.
- ThreadPool.ThreadPool.Create: a failed mutex initialisation leads to a destroy that locks it all the same; here that lock is taken to succeed.
- PoolProtocol.AcceptedIsAddsReturningZero: in the protocol locking, signalling and broadcasting never fail; what one call does when they do is in ThreadPool.ThreadPool.Add and ThreadPool.ThreadPool.BeginDestroy.
- AlarmScheduler.Scheduler.Tick: a tick is a step of its own that may wait for the pool's lock; running inside a signal handler is not modelled.
- EventLoop.Reactor.DispatchPass: results of accept and read are parameters; what the branches do with the data is modelled by SensorQueue and UdpIngestion; a partial read from a local client is not modelled (whole records are assumed).
- Config.ConfigReader.Load: the settings are strings cut to their buffers; `atoi` of a number outside the range of int is not modelled.
- Config.LongLineComesInPieces: says where the first piece ends; nothing is claimed about what the pieces of an over-long line assign.
- Blackboard: the System V semaphore around each access is not modelled; an access is one step.
- The HTTP request around the body, sockets, connect, write, response handling and sleeping: a failed upload drops its batch, so conservation is up to the batch and not to delivery.
- Integer overflow of counters and of elapsed time times rate: values stay far below the limits of their types.
- Process pool, daemon start, password check, logger, local socket setup and main: process, terminal and file plumbing; only main's initial values are used.
- The desktop client and the microcontroller firmware: user interface and vendored code.
