/**
  The part of the Linux readiness interface the dispatch loop reads: event
  masks with their flag bits as defined in <sys/epoll.h>, the `EINTR` error
  number, and the two capacity constants of the server.
*/
module Epoll {

  /** An epoll event mask (`uint32_t events`). */
  type Mask = bv32

  const EPOLLIN: Mask := 0x001
  const EPOLLOUT: Mask := 0x004
  const EPOLLERR: Mask := 0x008
  const EPOLLHUP: Mask := 0x010
  const EPOLLRDHUP: Mask := 0x2000

  /** "Interrupted system call" on Linux. */
  const EINTR: int := 4

  /** Capacity of the connection table, and so of the live-connection count. */
  const MaxFd: int := 65536
  /** Size of the event array handed to `epoll_wait`. */
  const MaxEventNumber: int := 10000

  /** One ready descriptor as reported by `epoll_wait`. */
  datatype Event = Event(fd: int, events: Mask)

  predicate Has(m: Mask, flag: Mask) {
    m & flag != 0
  }

  /** The peer hung up or the descriptor is in error. */
  predicate HangupOrError(m: Mask) {
    Has(m, EPOLLRDHUP) || Has(m, EPOLLHUP) || Has(m, EPOLLERR)
  }
}
