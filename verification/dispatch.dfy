/**
  The dispatch loop of `main`: start-up checks, the exit test after
  `epoll_wait`, and the routing of every ready event to exactly one branch.

  The OS and the per-connection object are not modelled: the results of
  `accept`, `read` and `write` are inputs, and the connection table is
  abstracted as the set of descriptors whose slot is live, so that the
  live-connection count is its size.
*/
module Dispatch {
  import opened Wrappers
  import opened Epoll
  import TP = ThreadPool

  /** The collaborator call an event made, if any. */
  datatype Call = Accept | Read | Write

  /** What an event leads to. */
  datatype Action =
    | Ignore             // accept failed: nothing changes
    | RejectNew(fd: int) // table full: the accepted descriptor is closed, never initialised
    | InitConn(fd: int)  // the accepted descriptor's slot is initialised
    | Close(fd: int)     // the connection is closed
    | Submit(fd: int)    // the connection is appended to the worker pool
    | Nothing            // no further action

  datatype Routed = Routed(call: Option<Call>, action: Action)

  /**
    The outcomes of the collaborator calls for one event, each consulted only
    if its branch makes that call: the descriptor `accept` returned (negative
    on failure) and whether `read` and `write` succeeded.
  */
  datatype Collaborator = Collaborator(acceptFd: int, readOk: bool, writeOk: bool)

  /** The flags on which the routing depends. */
  const Handled: Mask := EPOLLRDHUP | EPOLLHUP | EPOLLERR | EPOLLIN | EPOLLOUT

  /**
    The body of the event loop for one event: the listening socket first,
    whatever its flags; then hang-up or error; then input; then output.
  */
  function Route(ev: Event, listenfd: int, userCount: int, io: Collaborator): (r: Routed)
    // the listening socket always accepts
    ensures ev.fd == listenfd ==> r.call == Some(Accept)
    ensures ev.fd == listenfd && io.acceptFd < 0 ==> r.action == Ignore
    ensures ev.fd == listenfd && io.acceptFd >= 0 ==>
              r.action == (if userCount >= MaxFd then RejectNew(io.acceptFd) else InitConn(io.acceptFd))
    // hang-up and error close without reading or writing
    ensures ev.fd != listenfd && HangupOrError(ev.events) ==> r == Routed(None, Close(ev.fd))
    // input before output
    ensures ev.fd != listenfd && !HangupOrError(ev.events) && Has(ev.events, EPOLLIN) ==>
              r.call == Some(Read) && r.action == (if io.readOk then Submit(ev.fd) else Close(ev.fd))
    ensures ev.fd != listenfd && !HangupOrError(ev.events) && !Has(ev.events, EPOLLIN) && Has(ev.events, EPOLLOUT) ==>
              r.call == Some(Write) && r.action == (if io.writeOk then Nothing else Close(ev.fd))
    ensures ev.fd != listenfd && ev.events & Handled == 0 ==> r == Routed(None, Nothing)
  {
    if ev.fd == listenfd then
      if io.acceptFd < 0 then Routed(Some(Accept), Ignore)
      else if userCount >= MaxFd then Routed(Some(Accept), RejectNew(io.acceptFd))
      else Routed(Some(Accept), InitConn(io.acceptFd))
    else if ev.events & (EPOLLRDHUP | EPOLLHUP | EPOLLERR) != 0 then Routed(None, Close(ev.fd))
    else if ev.events & EPOLLIN != 0 then
      if io.readOk then Routed(Some(Read), Submit(ev.fd)) else Routed(Some(Read), Close(ev.fd))
    else if ev.events & EPOLLOUT != 0 then
      if io.writeOk then Routed(Some(Write), Nothing) else Routed(Some(Write), Close(ev.fd))
    else Routed(None, Nothing)
  }

  /**
    Each event takes exactly one branch, and the branch alone fixes which
    collaborator call is made and which kinds of action can follow.
  */
  lemma RouteTakesOneBranch(ev: Event, listenfd: int, userCount: int, io: Collaborator)
    ensures var r := Route(ev, listenfd, userCount, io);
            && (r.call == Some(Accept) <==> ev.fd == listenfd)
            && (r.call == Some(Accept) <==> (r.action.Ignore? || r.action.RejectNew? || r.action.InitConn?))
            && (r.call == Some(Read) <==> r.action.Submit? || (r.action.Close? && ev.fd != listenfd && !HangupOrError(ev.events) && Has(ev.events, EPOLLIN)))
            && (r.call == Some(Write) ==> r.action.Nothing? || r.action.Close?)
            && (r.call == None ==> r.action == Close(ev.fd) || r.action == Nothing)
  {
  }

  /** An event on the listening socket is routed the same whatever its flags. */
  lemma ListenIgnoresFlags(fd: int, m1: Mask, m2: Mask, userCount: int, io: Collaborator)
    ensures Route(Event(fd, m1), fd, userCount, io) == Route(Event(fd, m2), fd, userCount, io)
  {
  }

  /**
    Hang-up or error dominates: extra input or output flags and the would-be
    results of `read` and `write` make no difference.
  */
  lemma HangupDominates(ev: Event, listenfd: int, userCount: int, io1: Collaborator, io2: Collaborator)
    requires ev.fd != listenfd
    requires HangupOrError(ev.events)
    ensures Route(ev, listenfd, userCount, io1) == Route(Event(ev.fd, ev.events | EPOLLIN | EPOLLOUT), listenfd, userCount, io2)
    ensures Route(ev, listenfd, userCount, io1).call == None
  {
  }

  /** Input takes precedence over output: adding `EPOLLOUT` to an input event changes nothing. */
  lemma InputBeforeOutput(ev: Event, listenfd: int, userCount: int, io: Collaborator)
    requires Has(ev.events, EPOLLIN)
    ensures Route(ev, listenfd, userCount, io) == Route(Event(ev.fd, ev.events | EPOLLOUT), listenfd, userCount, io)
  {
  }

  /** Flags outside `Handled` (priority data, edge-triggering, ...) never affect the routing. */
  lemma UnhandledFlagsIrrelevant(ev: Event, listenfd: int, userCount: int, io: Collaborator)
    ensures Route(ev, listenfd, userCount, io) == Route(Event(ev.fd, ev.events & Handled), listenfd, userCount, io)
  {
  }

  /**
    A new connection is initialised only below capacity, and then with the
    descriptor `accept` returned. The test is on the live count, not on the
    descriptor's value: nothing here keeps the descriptor below `MaxFd`.
  */
  lemma InitOnlyBelowCapacity(ev: Event, listenfd: int, userCount: int, io: Collaborator)
    ensures Route(ev, listenfd, userCount, io).action.InitConn? <==>
              ev.fd == listenfd && io.acceptFd >= 0 && userCount < MaxFd
    ensures Route(ev, listenfd, userCount, io).action.InitConn? ==>
              Route(ev, listenfd, userCount, io).action.fd == io.acceptFd
  {
  }

  /** A descriptor at or above the table size can be initialised while the count is below capacity. */
  lemma InitMayExceedTable()
    ensures Route(Event(3, EPOLLIN), 3, MaxFd - 3, Collaborator(MaxFd, true, true)).action == InitConn(MaxFd)
  {
  }

  /** The dispatch thread's view of the process: live connection slots and the pool. */
  datatype Reactor = Reactor(live: set<int>, pool: TP.Pool<int>)

  /** The live-connection count never exceeds the table, and the pool is in its invariant. */
  predicate ReactorValid(s: Reactor) {
    |s.live| <= MaxFd && TP.Valid(s.pool)
  }

  /**
    The effect of an action on the reactor. Closing a descriptor that is not
    live changes nothing. A submission is appended to the pool and the result
    of the append is DROPPED: a refused submission closes nothing.
  */
  function Apply(s: Reactor, a: Action): (r: Reactor)
    ensures a.Submit? ==> r.live == s.live && r.pool == TP.Append(s.pool, Some(a.fd)).pool
    ensures a.InitConn? ==> r.live == s.live + {a.fd} && r.pool == s.pool
    ensures a.Close? ==> r.live == s.live - {a.fd} && r.pool == s.pool
    ensures a.Ignore? || a.RejectNew? || a.Nothing? ==> r == s
  {
    match a
    case InitConn(fd) => s.(live := s.live + {fd})
    case Close(fd) => s.(live := s.live - {fd})
    case Submit(fd) => s.(pool := TP.Append(s.pool, Some(fd)).pool)
    case _ => s
  }

  /** A submission the pool refuses leaves the whole reactor unchanged. */
  lemma RefusedSubmitKeepsConnection(s: Reactor, fd: int)
    requires !TP.Append(s.pool, Some(fd)).accepted
    ensures Apply(s, Submit(fd)) == s
    ensures fd in s.live ==> fd in Apply(s, Submit(fd)).live
  {
  }

  /** The routing and effects of one batch of ready events, in order. */
  datatype Batch = Batch(state: Reactor, routed: seq<Routed>)

  /** The `for` loop over the events `epoll_wait` returned; `ios[i]` belongs to `evs[i]`. */
  function Round(s: Reactor, listenfd: int, evs: seq<Event>, ios: seq<Collaborator>): (r: Batch)
    requires |ios| == |evs|
    ensures |r.routed| == |evs|
    decreases |evs|
  {
    if |evs| == 0 then Batch(s, [])
    else
      var first := Route(evs[0], listenfd, |s.live|, ios[0]);
      var rest := Round(Apply(s, first.action), listenfd, evs[1..], ios[1..]);
      Batch(rest.state, [first] + rest.routed)
  }

  /** Every action `Route` chooses, applied with the current count, keeps the reactor valid. */
  lemma ApplyRoutePreservesValid(s: Reactor, ev: Event, listenfd: int, io: Collaborator)
    requires ReactorValid(s)
    ensures ReactorValid(Apply(s, Route(ev, listenfd, |s.live|, io).action))
  {
  }

  /** A whole batch keeps the live count within the table and the pool valid. */
  lemma {:induction false} RoundPreservesValid(s: Reactor, listenfd: int, evs: seq<Event>, ios: seq<Collaborator>)
    requires |ios| == |evs|
    requires ReactorValid(s)
    ensures ReactorValid(Round(s, listenfd, evs, ios).state)
    decreases |evs|
  {
    if |evs| > 0 {
      var first := Route(evs[0], listenfd, |s.live|, ios[0]);
      ApplyRoutePreservesValid(s, evs[0], listenfd, ios[0]);
      RoundPreservesValid(Apply(s, first.action), listenfd, evs[1..], ios[1..]);
    }
  }

  /**
    Splitting a batch: the events after the split are routed from the state
    the events before it left behind.
  */
  lemma {:induction false} RoundSplit(s: Reactor, listenfd: int, a: seq<Event>, b: seq<Event>, ia: seq<Collaborator>, ib: seq<Collaborator>)
    requires |ia| == |a| && |ib| == |b|
    ensures var front := Round(s, listenfd, a, ia);
            var back := Round(front.state, listenfd, b, ib);
            Round(s, listenfd, a + b, ia + ib) == Batch(back.state, front.routed + back.routed)
    decreases |a|
  {
    if |a| == 0 {
      assert a + b == b && ia + ib == ib;
    } else {
      assert (a + b)[0] == a[0] && (ia + ib)[0] == ia[0];
      assert (a + b)[1..] == a[1..] + b && (ia + ib)[1..] == ia[1..] + ib;
      var first := Route(a[0], listenfd, |s.live|, ia[0]);
      RoundSplit(Apply(s, first.action), listenfd, a[1..], b, ia[1..], ib);
    }
  }

  /**
    Event `i` of a batch is routed with the live count left by events
    `0..i`, and its action, applied to that state, gives the state event
    `i + 1` sees.
  */
  ghost predicate RoutedInTurn(s: Reactor, listenfd: int, evs: seq<Event>, ios: seq<Collaborator>, i: nat)
    requires |ios| == |evs| && i < |evs|
  {
    var before := Round(s, listenfd, evs[..i], ios[..i]).state;
    var routed := Round(s, listenfd, evs, ios).routed[i];
    && routed == Route(evs[i], listenfd, |before.live|, ios[i])
    && Round(s, listenfd, evs[..i + 1], ios[..i + 1]).state == Apply(before, routed.action)
  }

  /** A batch routes its events in order, each from the state its predecessors left. */
  lemma RoundRoutesInOrder(s: Reactor, listenfd: int, evs: seq<Event>, ios: seq<Collaborator>)
    requires |ios| == |evs|
    ensures forall i: nat :: i < |evs| ==> RoutedInTurn(s, listenfd, evs, ios, i)
  {
    forall i: nat | i < |evs|
      ensures RoutedInTurn(s, listenfd, evs, ios, i)
    {
      RoundSplit(s, listenfd, evs[..i], evs[i..], ios[..i], ios[i..]);
      assert evs[..i] + evs[i..] == evs && ios[..i] + ios[i..] == ios;
      RoundSplit(s, listenfd, evs[..i], [evs[i]], ios[..i], [ios[i]]);
      assert evs[..i] + [evs[i]] == evs[..i + 1] && ios[..i] + [ios[i]] == ios[..i + 1];
    }
  }

  /** The connections a sequence of routings submits to the pool, in order. */
  function Submitted(routed: seq<Routed>): (entries: seq<Option<int>>)
    ensures |entries| <= |routed|
    ensures forall e :: e in entries ==> e.Some?
  {
    if |routed| == 0 then []
    else if routed[0].action.Submit? then [Some(routed[0].action.fd)] + Submitted(routed[1..])
    else Submitted(routed[1..])
  }

  /**
    While the pool has room, a batch leaves its queue as the old queue
    followed by the connections the batch submitted, in event order.
  */
  lemma {:induction false} RoundSubmitsInOrder(s: Reactor, listenfd: int, evs: seq<Event>, ios: seq<Collaborator>)
    requires |ios| == |evs|
    requires TP.Valid(s.pool)
    requires |s.pool.queue| + |evs| <= s.pool.maxRequests + 1
    ensures Round(s, listenfd, evs, ios).state.pool.queue == s.pool.queue + Submitted(Round(s, listenfd, evs, ios).routed)
    decreases |evs|
  {
    if |evs| > 0 {
      var r := Round(s, listenfd, evs, ios);
      var first := Route(evs[0], listenfd, |s.live|, ios[0]);
      var next := Apply(s, first.action);
      RoundSubmitsInOrder(next, listenfd, evs[1..], ios[1..]);
      var rest := Round(next, listenfd, evs[1..], ios[1..]);
      assert r.routed[0] == first && r.routed[1..] == rest.routed;
      if first.action.Submit? {
        assert next.pool.queue == s.pool.queue + [Some(first.action.fd)];
        assert Submitted(r.routed) == [Some(first.action.fd)] + Submitted(rest.routed);
        assert s.pool.queue + [Some(first.action.fd)] + Submitted(rest.routed)
            == s.pool.queue + ([Some(first.action.fd)] + Submitted(rest.routed));
      } else {
        assert Submitted(r.routed) == Submitted(rest.routed);
      }
    }
  }

  /** What `main` does after `epoll_wait` returned `number` with `errno` set to `errno`. */
  datatype Wake = Stop | Handle(count: nat)

  function AfterWait(number: int, errno: int): (r: Wake)
    ensures r.Stop? <==> number < 0 && errno != EINTR
    ensures r.Handle? && number < 0 ==> r.count == 0
    ensures r.Handle? && number >= 0 ==> r.count == number
  {
    if number < 0 && errno != EINTR then Stop
    else if number < 0 then Handle(0)
    else Handle(number)
  }

  /** One turn of the `while` loop: exit with status 0, or the reactor after the batch. */
  datatype Tick = Exited(code: int) | Continued(batch: Batch)

  /**
    One turn of the loop after `epoll_wait` filled `evs` (and `ios`) and
    returned `number`; the event array holds `MaxEventNumber` entries and the
    kernel never reports more events than that.
  */
  function Iterate(s: Reactor, listenfd: int, number: int, errno: int, evs: seq<Event>, ios: seq<Collaborator>): (r: Tick)
    requires |evs| <= MaxEventNumber
    requires number <= |evs| && |ios| == |evs|
    ensures r.Exited? <==> number < 0 && errno != EINTR
    ensures r.Exited? ==> r.code == 0
    ensures r.Continued? ==> var count := AfterWait(number, errno).count;
              r.batch == Round(s, listenfd, evs[..count], ios[..count])
    ensures number < 0 && errno == EINTR ==> r == Continued(Batch(s, []))
  {
    match AfterWait(number, errno)
    case Stop => Exited(0)
    case Handle(count) => Continued(Round(s, listenfd, evs[..count], ios[..count]))
  }

  /** Every turn of the loop keeps the reactor valid. */
  lemma IteratePreservesValid(s: Reactor, listenfd: int, number: int, errno: int, evs: seq<Event>, ios: seq<Collaborator>)
    requires |evs| <= MaxEventNumber
    requires number <= |evs| && |ios| == |evs|
    requires ReactorValid(s)
    ensures Iterate(s, listenfd, number, errno, evs, ios).Continued? ==>
              ReactorValid(Iterate(s, listenfd, number, errno, evs, ios).batch.state)
  {
    var w := AfterWait(number, errno);
    if w.Handle? {
      RoundPreservesValid(s, listenfd, evs[..w.count], ios[..w.count]);
    }
  }

  /** How start-up ends: a non-zero exit, or serving with a fresh pool. */
  datatype Launch = Exit(code: int) | Serving(reactor: Reactor)

  /**
    Start-up: the usage check comes before anything is created, then the pool
    is built with its default arguments; `threadsStarted` abstracts whether
    its threads could be created.
  */
  function Startup(argc: int, threadsStarted: bool): (r: Launch)
    ensures argc <= 1 ==> r == Exit(1)
    ensures argc > 1 && !threadsStarted ==> r == Exit(1)
    ensures argc > 1 && threadsStarted ==> r.Serving?
    ensures r.Serving? ==> && r.reactor.live == {}
                           && r.reactor.pool.queue == []
                           && r.reactor.pool.threadNumber == TP.DefaultThreads
                           && r.reactor.pool.maxRequests == TP.DefaultMaxRequests
                           && ReactorValid(r.reactor)
  {
    if argc <= 1 then Exit(1)
    else
      match TP.NewPool<int>(TP.DefaultThreads, TP.DefaultMaxRequests, threadsStarted)
      case Err(_) => Exit(1)
      case Ok(pool) => Serving(Reactor({}, pool))
  }

  /** A worker iteration running beside the dispatch thread keeps the reactor valid too. */
  lemma WorkerKeepsReactorValid(s: Reactor)
    requires ReactorValid(s)
    ensures ReactorValid(s.(pool := TP.WorkerStep(s.pool).pool))
  {
  }
}
