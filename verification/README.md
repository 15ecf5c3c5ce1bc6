# Worker pool and dispatch loop of a small epoll web server

This project models the two pieces of sequential decision logic at the heart of
a C++ reactor-style web server: the bounded FIFO task queue of its worker pool
(`threadpool<T>` in `threadpool.h`) and the per-event routing of its dispatch
loop (`main` in `main.cpp`). Locks, threads and the OS are abstracted away.

- `ThreadPool` (threadpool.dfy): a pool is its two constructor parameters, the
  queue of request pointers (`seq<Option<T>>`, `None` being a null pointer)
  and the count of the "work available" semaphore. `NewPool` validates the
  parameters, `Append` is the admission-controlled push, and `WorkerStep` is one
  iteration of the worker loop: the semaphore wait, the critical section that
  pops the head, and the call of `process()` unless the entry is null. Each is
  one atomic step. Under that reading the semaphore always equals the queue
  length (`Valid`), and any interleaving of appends and worker steps keeps it
  so (`ExecKeepsValid`).
- The admission test is `size > max_requests`, so a request is still accepted
  when the queue already holds `max_requests` entries. The queue therefore
  reaches `max_requests + 1` entries (`QueueReachesOneOverMax`), and that is the
  bound `Valid` states. The program's own comments (threadpool.h:14, :31)
  describe `max_requests` as the most requests allowed to wait in the queue;
  the model follows the code, not the comments.
- `Epoll` (epoll.dfy): event masks as `bv32` with the Linux flag values, `EINTR`,
  `MAX_FD` (65536) and `MAX_EVENT_NUMBER` (10000).
- `Dispatch` (dispatch.dfy): `Route` takes one ready event, the listening
  descriptor, the live-connection count and the outcomes of `accept`, `read`
  and `write`. It returns the collaborator call made, if any, and an `Action`.
  The branch priority is: listening socket (whatever its flags), then
  hang-up/error, then input, then output. The connection table is abstracted
  as the set of live descriptors, so that the live-connection count is its size.
  `Round` is the `for` loop over a batch of events. `Iterate` is one turn of the
  `while` loop, including the exit test after `epoll_wait`. `Startup` is the
  argument check and pool construction at the top of `main`.
- The return value of `append` is discarded by the dispatch loop. A submission
  the pool refuses therefore closes nothing and changes nothing
  (`RefusedSubmitKeepsConnection`): main.cpp:120 ignores the result of `append`.
- The capacity test on accept compares the live-connection COUNT with
  `MAX_FD`, not the accepted descriptor. `InitMayExceedTable` shows a
  descriptor equal to `MAX_FD` being initialised while the count is below
  capacity, which would index one past the end of the `users` table. Whether
  that can happen depends on the process's descriptor limit, which is not
  modelled.

## Model

| member | source | states |
|---|---|---|
| ThreadPool.NewPool | threadpool.h:47-75 | construction fails iff a parameter is non-positive or thread start-up fails, bad parameters being reported first; on success the fields equal the arguments, the queue is empty and the pool satisfies its invariant |
| ThreadPool.Append | threadpool.h:83-96 | accepted iff the queue length is at most `max_requests`; a refusal leaves the pool unchanged; an acceptance adds the request at the tail, keeps earlier entries and posts the semaphore once; the invariant is preserved |
| ThreadPool.WorkerStep | threadpool.h:106-123 | with the semaphore at zero the worker stays blocked; on an empty queue nothing is dequeued or processed; otherwise exactly the head is removed, a null head is discarded and a non-null head is processed exactly once; the invariant is preserved |
| ThreadPool.Invocations | threadpool.h:119-122 | an iteration invokes `process()` at most once, and exactly once iff it processed a request |
| ThreadPool.ValidWorkerNeverSpurious | threadpool.h:88-115 | with semaphore equal to queue length, a worker blocks iff the queue is empty and never takes the empty-queue branch |
| ThreadPool.AppendAll | threadpool.h:83-96 | a run of appends reports one result per request and preserves the invariant |
| ThreadPool.Run | threadpool.h:107-123 | a run of worker iterations reports one outcome per iteration and preserves the invariant |
| ThreadPool.AppendAllFits | threadpool.h:88-95 | requests that fit under the threshold are all accepted and queued behind the existing entries in order |
| ThreadPool.QueueReachesOneOverMax | threadpool.h:88-92 | from a fresh pool, `max_requests + 1` appends are all accepted, so the queue exceeds `max_requests` by one |
| ThreadPool.RunIsFifo | threadpool.h:116-122 | n iterations on a valid pool serve the first n entries in queue order and leave the rest queued |
| ThreadPool.ServedInAppendOrder | threadpool.h:83-122 | requests appended to an empty pool within the admission threshold (`max_requests + 1` of them at most) are served in exactly the order they were appended, emptying the queue |
| ThreadPool.Exec | threadpool.h:83-123 | any interleaving of atomic appends and worker iterations keeps the pool's parameters and its invariant |
| ThreadPool.ExecKeepsValid | threadpool.h:83-123 | under any interleaving the semaphore equals the queue length and the queue holds at most `max_requests + 1` entries |
| Dispatch.Route | main.cpp:92-131 | the listening socket always accepts (failed accept: no change; count at `MAX_FD`: new descriptor closed; otherwise initialised); otherwise hang-up/error closes with no call; otherwise input reads and submits or closes; otherwise output writes and closes on failure; no handled flag: nothing |
| Dispatch.RouteTakesOneBranch | main.cpp:96-131 | each event takes exactly one branch, and the call made determines which actions can follow |
| Dispatch.ListenIgnoresFlags | main.cpp:96-111 | an event on the listening descriptor is routed identically whatever its flags |
| Dispatch.HangupDominates | main.cpp:113-115 | with hang-up or error set, extra input/output flags and the read/write outcomes change nothing and no call is made |
| Dispatch.InputBeforeOutput | main.cpp:117-125 | adding the output flag to an input event does not change its routing |
| Dispatch.UnhandledFlagsIrrelevant | main.cpp:113-131 | flags other than the five handled ones never affect routing |
| Dispatch.InitOnlyBelowCapacity | main.cpp:15-111 | a connection is initialised iff the event is on the listening socket, accept succeeded and the count is below `MAX_FD`, and then with the accepted descriptor |
| Dispatch.InitMayExceedTable | main.cpp:107-111 | the capacity test does not bound the accepted descriptor: descriptor `MAX_FD` can be initialised |
| Dispatch.Apply | main.cpp:107-128 | initialisation adds a live slot, close removes one, a submission only appends to the pool with its result dropped, other actions change nothing |
| Dispatch.RefusedSubmitKeepsConnection | main.cpp:119-120 | a submission the pool refuses leaves the connection live and the whole state unchanged |
| Dispatch.Round | main.cpp:92-132 | a batch yields exactly one routing per event |
| Dispatch.RoundSplit | main.cpp:92-132 | the events after any split point are routed from the state the events before it left |
| Dispatch.RoundRoutesInOrder | main.cpp:92-132 | event i is routed by the per-event rule with the live count left by events 0..i, and its action applied to that state gives the state event i+1 sees |
| Dispatch.Submitted | main.cpp:117-120 | the connections submitted by a sequence of routings are at most one per routing, none of them null |
| Dispatch.RoundSubmitsInOrder | main.cpp:117-120 | while the pool has room, a batch leaves the queue as the old queue followed by the submitted connections in event order |
| Dispatch.ApplyRoutePreservesValid | main.cpp:107-111 | applying any routed action keeps the live count within `MAX_FD` and the pool valid |
| Dispatch.RoundPreservesValid | main.cpp:92-132 | a whole batch keeps the live count within `MAX_FD` and the pool valid |
| Dispatch.AfterWait | main.cpp:84-92 | the loop stops iff `epoll_wait` returned a negative value with `errno` other than `EINTR`; an interrupted wait handles zero events |
| Dispatch.Iterate | main.cpp:75-139 | a loop turn exits with status 0 iff the wait failed without `EINTR`, otherwise it is the batch of exactly the first `number` events (none after an interrupted wait, which leaves the state unchanged) |
| Dispatch.IteratePreservesValid | main.cpp:82-133 | every loop turn that continues keeps the reactor invariant |
| Dispatch.Startup | main.cpp:34-51 | `argc <= 1` exits with 1 before any pool exists; a failed pool construction exits with 1; otherwise serving starts with an empty table and a default (8 threads, 10000) valid pool |
| Dispatch.WorkerKeepsReactorValid | threadpool.h:106-123 | a worker iteration interleaved with the dispatch thread keeps the reactor invariant |

## Left out

- Thread creation, detaching and the blocking semaphore wait (threadpool.h:56-74, :110): thread start-up is a boolean input to `NewPool`, and a wait on a zero semaphore is the `Blocked` outcome. Every append and worker iteration is one atomic step; finer interleavings are not modelled.
- The destructor and the `m_stop` flag (threadpool.h:77-81, :109): they only matter for the shutdown race, which has no sequential meaning.
- Socket creation, bind/listen, `epoll_create`, `epoll_wait` and one-shot arming (main.cpp:57-84): OS I/O. The events and the count `epoll_wait` returns are inputs of `Iterate`.
- Signal setup (main.cpp:24-30, :43), the usage message, `printf` logging and `atoi` port parsing: they do not affect control flow.
- The per-connection object (`init`, `read`, `write`, `close_conn`, `process`, its user counter): its code is not part of this model. `read`, `write` and `accept` are boolean or integer outcomes. `init` and `close_conn` are abstracted as adding and removing a live descriptor, so the user counter is the size of that set. `process` appears only as the `Processed` outcome.
- Integer widths: `thread_number` and `max_requests` are C `int` and the queue size is `size_t`. Both are unbounded integers here. After a successful construction `max_requests` is positive, so the mixed signed/unsigned comparison at threadpool.h:88 behaves like the mathematical one.
- Closing the descriptors and freeing the table and pool after the loop exits (main.cpp:135-138): only the exit status 0 is modelled.
