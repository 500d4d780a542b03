/**
 * The slice of the Linux kernel that the epoll wrappers talk to, as an
 * abstract machine: one epoll instance's interest list, the set of
 * descriptors the kernel refuses to watch, the counter of the eventfd used
 * for wake-ups, and a ready-list oracle standing for whatever the outside
 * world makes ready.
 *
 * The event bits and `epoll_ctl` error rules follow the epoll(7),
 * epoll_ctl(2) and epoll_wait(2) manual pages.
 */
module EpollKernel {
  import opened Wrappers

  type Fd = int

  const EPOLLIN: bv32 := 0x001
  const EPOLLOUT: bv32 := 0x004
  const EPOLLERR: bv32 := 0x008
  const EPOLLHUP: bv32 := 0x010
  const EPOLLRDHUP: bv32 := 0x2000
  const EPOLLONESHOT: bv32 := 0x4000_0000
  const EPOLLET: bv32 := 0x8000_0000

  datatype Errno = ENOENT | EBADF | EINTR | EEXIST | EINVAL | EPERM | Other(code: nat)

  datatype CtlOp = Add | Mod | Del

  /** One `struct epoll_event` as `epoll_wait` fills it in: the fd kept in `data.fd` and the event bits. */
  datatype RawEvent = RawEvent(fd: Fd, events: bv32)

  /**
   * What one `epoll_wait` call comes back with: a positive count of ready
   * descriptors, zero on timeout (`Ready([])`), or -1 with `errno`.
   */
  datatype WaitResult = Ready(events: seq<RawEvent>) | Failed(errno: Errno)

  /** The first `max` ready events whose descriptor is on the interest list, in order. */
  function Reported(events: seq<RawEvent>, interest: map<Fd, bv32>, max: nat): (r: seq<RawEvent>)
    ensures |r| <= |events| && |r| <= max
  {
    if |events| == 0 || max == 0 then []
    else if events[0].fd in interest then [events[0]] + Reported(events[1..], interest, max - 1)
    else Reported(events[1..], interest, max)
  }

  /** Every reported event is one of the ready events, on a watched descriptor. */
  lemma {:induction false} ReportedWatched(events: seq<RawEvent>, interest: map<Fd, bv32>, max: nat)
    ensures forall i :: 0 <= i < |Reported(events, interest, max)| ==> Reported(events, interest, max)[i].fd in interest
    ensures forall e :: e in Reported(events, interest, max) ==> e in events
  {
    if |events| > 0 && max > 0 {
      var rest := events[1..];
      var r := Reported(events, interest, max);
      assert forall e :: e in rest ==> e in events;
      if events[0].fd in interest {
        ReportedWatched(rest, interest, max - 1);
        var tail := Reported(rest, interest, max - 1);
        assert r == [events[0]] + tail;
        assert forall i :: 1 <= i < |r| ==> r[i] == tail[i - 1];
      } else {
        ReportedWatched(rest, interest, max);
      }
    }
  }

  /**
   * `epoll_wait(epfd, events, max, timeout)` on an instance whose interest
   * list is `interest`, given what the world has made ready: only watched
   * descriptors are reported, at most `max` of them, and a non-positive
   * `max` is EINVAL.
   */
  function Deliver(interest: map<Fd, bv32>, w: WaitResult, max: nat): (r: WaitResult)
  {
    if max == 0 then Failed(EINVAL)
    else match w
      case Failed(_) => w
      case Ready(events) => Ready(Reported(events, interest, max))
  }

  /**
   * A non-positive `max` is EINVAL, a failed wait reports its errno, and a
   * batch holds at most `max` events, all on watched descriptors.
   */
  lemma DeliverCases(interest: map<Fd, bv32>, w: WaitResult, max: nat)
    ensures max == 0 ==> Deliver(interest, w, max) == Failed(EINVAL)
    ensures max > 0 && w.Failed? ==> Deliver(interest, w, max) == w
    ensures Deliver(interest, w, max).Ready? ==> |Deliver(interest, w, max).events| <= max
    ensures Deliver(interest, w, max).Ready? ==>
      forall i :: 0 <= i < |Deliver(interest, w, max).events| ==> Deliver(interest, w, max).events[i].fd in interest
  {
    if max > 0 && w.Ready? {
      ReportedWatched(w.events, interest, max);
    }
  }

  class Kernel {
    /** The interest list: descriptor to the event mask it was registered with. */
    var interest: map<Fd, bv32>
    /** Descriptors `epoll_ctl` rejects (a regular file gives EPERM, a closed one EBADF). */
    const refuse: map<Fd, Errno>
    /** The eventfd counter that `eventfd_write` adds to and `eventfd_read` drains. */
    var wake: nat

    ghost predicate Valid()
      reads this`interest
    {
      forall fd :: fd in interest ==> fd >= 0 && fd !in refuse
    }

    constructor (refuse: map<Fd, Errno>)
      ensures Valid()
      ensures interest == map[] && this.refuse == refuse && wake == 0
    {
      interest := map[];
      this.refuse := refuse;
      wake := 0;
    }

    /**
     * `epoll_ctl`: `None` on success, else the errno. A negative descriptor
     * is EBADF; MOD and DEL of an unwatched descriptor are ENOENT; ADD of a
     * watched one is EEXIST.
     */
    method Ctl(op: CtlOp, fd: Fd, events: bv32) returns (r: Option<Errno>)
      requires Valid()
      modifies this`interest
      ensures Valid()
      ensures fd < 0 ==> r == Some(EBADF) && interest == old(interest)
      ensures fd >= 0 && fd in refuse ==> r == Some(refuse[fd]) && interest == old(interest)
      ensures fd >= 0 && fd !in refuse ==> match op
        case Add => if fd in old(interest) then r == Some(EEXIST) && interest == old(interest)
                    else r == None && interest == old(interest)[fd := events]
        case Mod => if fd !in old(interest) then r == Some(ENOENT) && interest == old(interest)
                    else r == None && interest == old(interest)[fd := events]
        case Del => if fd !in old(interest) then r == Some(ENOENT) && interest == old(interest)
                    else r == None && interest == old(interest) - {fd}
    {
      if fd < 0 {
        return Some(EBADF);
      }
      if fd in refuse {
        return Some(refuse[fd]);
      }
      match op {
        case Add =>
          if fd in interest {
            return Some(EEXIST);
          }
          interest := interest[fd := events];
        case Mod =>
          if fd !in interest {
            return Some(ENOENT);
          }
          interest := interest[fd := events];
        case Del =>
          if fd !in interest {
            return Some(ENOENT);
          }
          interest := interest - {fd};
      }
      r := None;
    }

    /** `eventfd_write(fd, 1)`. */
    method Signal()
      modifies this`wake
      ensures wake == old(wake) + 1
    {
      wake := wake + 1;
    }

    /** `eventfd_read`: hands back the counter and resets it. */
    method Drain()
      modifies this`wake
      ensures wake == 0
    {
      wake := 0;
    }
  }
}
