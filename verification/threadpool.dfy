/**
  The bounded FIFO task queue of the worker pool (`threadpool<T>`).

  Threads, the mutex and the blocking semaphore are abstracted away: every
  operation below is one atomic critical section, and the semaphore is a
  counter that `Append` posts and `WorkerStep` waits on. Queue entries are
  `Option<T>` because `threadpool<T>` queues raw `T*`, which may be null.
*/
module ThreadPool {
  import opened Wrappers

  /** Default constructor arguments. */
  const DefaultThreads: int := 8
  const DefaultMaxRequests: int := 10000

  datatype Pool<T> = Pool(
    threadNumber: int,         // number of worker threads
    maxRequests: int,          // admission threshold of the queue
    queue: seq<Option<T>>,     // waiting requests, head first
    sem: nat                   // count of the "work available" semaphore
  )

  datatype PoolError = BadArguments | ThreadStartFailed

  /**
    The state every reachable pool is in: positive parameters, one semaphore
    post per queued entry, and at most `maxRequests + 1` entries (the
    admission test rejects only once the length EXCEEDS `maxRequests`).
  */
  predicate Valid<T>(p: Pool<T>) {
    && p.threadNumber > 0
    && p.maxRequests > 0
    && |p.queue| <= p.maxRequests + 1
    && p.sem == |p.queue|
  }

  /**
    Construction. `threadsStarted` abstracts the outcome of creating and
    detaching the worker threads. Bad arguments are rejected before any
    thread is started.
  */
  function NewPool<T>(threadNumber: int, maxRequests: int, threadsStarted: bool): (r: Result<Pool<T>, PoolError>)
    ensures r.Err? <==> threadNumber <= 0 || maxRequests <= 0 || !threadsStarted
    ensures threadNumber <= 0 || maxRequests <= 0 ==> r == Err(BadArguments)
    ensures r.Ok? ==> && r.value.threadNumber == threadNumber
                      && r.value.maxRequests == maxRequests
                      && r.value.queue == []
                      && Valid(r.value)
  {
    if threadNumber <= 0 || maxRequests <= 0 then Err(BadArguments)
    else if !threadsStarted then Err(ThreadStartFailed)
    else Ok(Pool(threadNumber, maxRequests, [], 0))
  }

  /** The pool after an `append`, and the boolean `append` returns. */
  datatype Admission<T> = Admission(pool: Pool<T>, accepted: bool)

  /**
    `append`: admission-controlled push to the tail, posting the semaphore
    once on success. A refused request leaves the pool exactly as it was.
  */
  function Append<T>(p: Pool<T>, request: Option<T>): (r: Admission<T>)
    ensures r.accepted <==> |p.queue| <= p.maxRequests
    ensures !r.accepted ==> r.pool == p
    ensures r.accepted ==> && |r.pool.queue| == |p.queue| + 1
                           && r.pool.queue[..|p.queue|] == p.queue
                           && r.pool.queue[|p.queue|] == request
                           && r.pool.sem == p.sem + 1
    ensures r.pool.threadNumber == p.threadNumber && r.pool.maxRequests == p.maxRequests
    ensures Valid(p) ==> Valid(r.pool)
  {
    if |p.queue| > p.maxRequests then Admission(p, false)
    else Admission(p.(queue := p.queue + [request], sem := p.sem + 1), true)
  }

  /** What one iteration of a worker did. */
  datatype Outcome<T> =
    | Blocked            // the semaphore was zero: the worker is still waiting
    | Spurious           // woke up, found the queue empty, went round again
    | Discarded          // dequeued a null request and skipped it
    | Processed(task: T) // dequeued a request and ran its `process()`

  datatype Step<T> = Step(pool: Pool<T>, outcome: Outcome<T>)

  /** How a worker disposes of a dequeued entry. */
  function Serve<T>(entry: Option<T>): Outcome<T> {
    match entry
    case None => Discarded
    case Some(t) => Processed(t)
  }

  /** The `process()` calls an outcome stands for, in order. */
  function Invocations<T>(o: Outcome<T>): (calls: seq<T>)
    ensures |calls| <= 1
    ensures |calls| == 1 <==> o.Processed?
  {
    if o.Processed? then [o.task] else []
  }

  /**
    One iteration of the worker loop: wait on the semaphore, then in one
    critical section pop the head if there is one, then process it unless
    it is null.
  */
  function WorkerStep<T>(p: Pool<T>): (r: Step<T>)
    ensures p.sem == 0 ==> r.pool == p && r.outcome == Blocked
    ensures p.sem > 0 && |p.queue| == 0 ==> r.pool == p.(sem := p.sem - 1) && r.outcome == Spurious
    ensures p.sem > 0 && |p.queue| > 0 ==>
              && r.pool == p.(queue := p.queue[1..], sem := p.sem - 1)
              && (r.outcome == Discarded <==> p.queue[0] == None)
              && (r.outcome.Processed? <==> p.queue[0].Some?)
              && (p.queue[0].Some? ==> Invocations(r.outcome) == [p.queue[0].value])
    ensures Valid(p) ==> Valid(r.pool)
  {
    if p.sem == 0 then Step(p, Blocked)
    else
      var woken := p.(sem := p.sem - 1);
      if |woken.queue| == 0 then Step(woken, Spurious)
      else Step(woken.(queue := woken.queue[1..]), Serve(woken.queue[0]))
  }

  /**
    With append and the worker step atomic, the semaphore counts exactly the
    queued entries: a worker blocks iff the queue is empty, and the
    empty-queue branch is never taken.
  */
  lemma ValidWorkerNeverSpurious<T>(p: Pool<T>)
    requires Valid(p)
    ensures WorkerStep(p).outcome == Blocked <==> |p.queue| == 0
    ensures WorkerStep(p).outcome != Spurious
  {
  }

  /** Several appends in a row, with the boolean each returned. */
  datatype Filled<T> = Filled(pool: Pool<T>, accepted: seq<bool>)

  function AppendAll<T>(p: Pool<T>, requests: seq<Option<T>>): (r: Filled<T>)
    ensures |r.accepted| == |requests|
    ensures r.pool.threadNumber == p.threadNumber && r.pool.maxRequests == p.maxRequests
    ensures Valid(p) ==> Valid(r.pool)
    decreases |requests|
  {
    if |requests| == 0 then Filled(p, [])
    else
      var first := Append(p, requests[0]);
      var rest := AppendAll(first.pool, requests[1..]);
      Filled(rest.pool, [first.accepted] + rest.accepted)
  }

  /** Several worker iterations in a row, with what each did. */
  datatype Trace<T> = Trace(pool: Pool<T>, outcomes: seq<Outcome<T>>)

  function Run<T>(p: Pool<T>, n: nat): (r: Trace<T>)
    ensures |r.outcomes| == n
    ensures r.pool.threadNumber == p.threadNumber && r.pool.maxRequests == p.maxRequests
    ensures Valid(p) ==> Valid(r.pool)
    decreases n
  {
    if n == 0 then Trace(p, [])
    else
      var first := WorkerStep(p);
      var rest := Run(first.pool, n - 1);
      Trace(rest.pool, [first.outcome] + rest.outcomes)
  }

  /**
    Requests that fit below the admission threshold are all accepted and end
    up, in order, behind the entries already queued.
  */
  lemma {:induction false} AppendAllFits<T>(p: Pool<T>, requests: seq<Option<T>>)
    requires Valid(p)
    requires |p.queue| + |requests| <= p.maxRequests + 1
    ensures forall i :: 0 <= i < |requests| ==> AppendAll(p, requests).accepted[i]
    ensures AppendAll(p, requests).pool.queue == p.queue + requests
    decreases |requests|
  {
    if |requests| > 0 {
      var first := Append(p, requests[0]);
      assert first.pool.queue == p.queue + [requests[0]];
      AppendAllFits(first.pool, requests[1..]);
      assert p.queue + [requests[0]] + requests[1..] == p.queue + requests;
    }
  }

  /**
    The off-by-one of the admission test: starting from an empty pool,
    `maxRequests + 1` requests are all accepted, so the queue holds one more
    entry than `maxRequests`.
  */
  lemma QueueReachesOneOverMax<T>(maxRequests: int, requests: seq<Option<T>>)
    requires maxRequests > 0
    requires |requests| == maxRequests + 1
    ensures NewPool<T>(1, maxRequests, true).Ok?
    ensures var filled := AppendAll(NewPool<T>(1, maxRequests, true).value, requests);
            && (forall i :: 0 <= i < |requests| ==> filled.accepted[i])
            && |filled.pool.queue| == maxRequests + 1
  {
    AppendAllFits(NewPool<T>(1, maxRequests, true).value, requests);
  }

  /**
    FIFO: on a valid pool, `n` worker iterations take the first `n` queued
    entries in order, leave the rest queued, and process each non-null one.
  */
  lemma {:induction false} RunIsFifo<T>(p: Pool<T>, n: nat)
    requires Valid(p)
    requires n <= |p.queue|
    ensures Run(p, n).pool.queue == p.queue[n..]
    ensures forall i :: 0 <= i < n ==> Run(p, n).outcomes[i] == Serve(p.queue[i])
    decreases n
  {
    if n > 0 {
      var first := WorkerStep(p);
      assert first.outcome == Serve(p.queue[0]);
      RunIsFifo(first.pool, n - 1);
      assert first.pool.queue[n - 1..] == p.queue[n..];
      forall i | 1 <= i < n
        ensures Run(p, n).outcomes[i] == Serve(p.queue[i])
      {
        assert Run(p, n).outcomes[i] == Run(first.pool, n - 1).outcomes[i - 1];
        assert first.pool.queue[i - 1] == p.queue[i];
      }
    }
  }

  /**
    End to end: requests appended to an empty valid pool (within the
    threshold) are served in exactly the order they were appended, and the
    queue is empty afterwards.
  */
  lemma ServedInAppendOrder<T>(p: Pool<T>, requests: seq<Option<T>>)
    requires Valid(p)
    requires p.queue == []
    requires |requests| <= p.maxRequests + 1
    ensures var drained := Run(AppendAll(p, requests).pool, |requests|);
            && drained.pool.queue == []
            && forall i :: 0 <= i < |requests| ==> drained.outcomes[i] == Serve(requests[i])
  {
    AppendAllFits(p, requests);
    var filled := AppendAll(p, requests).pool;
    assert filled.queue == requests;
    RunIsFifo(filled, |requests|);
  }

  /** One atomic operation on the pool: a producer's append or a worker's iteration. */
  datatype Op<T> = Push(request: Option<T>) | Work

  /**
    Any interleaving of appends and worker iterations, applied in order;
    the result is the final pool.
  */
  function Exec<T>(p: Pool<T>, ops: seq<Op<T>>): (r: Pool<T>)
    ensures r.threadNumber == p.threadNumber && r.maxRequests == p.maxRequests
    ensures Valid(p) ==> Valid(r)
    decreases |ops|
  {
    if |ops| == 0 then p
    else
      var next := match ops[0]
        case Push(request) => Append(p, request).pool
        case Work => WorkerStep(p).pool;
      Exec(next, ops[1..])
  }

  /**
    Whatever the interleaving, a pool built by `NewPool` keeps its semaphore
    equal to the queue length and its queue within `maxRequests + 1`.
  */
  lemma ExecKeepsValid<T>(p: Pool<T>, ops: seq<Op<T>>)
    requires Valid(p)
    ensures Exec(p, ops).sem == |Exec(p, ops).queue| <= p.maxRequests + 1
  {
  }
}
