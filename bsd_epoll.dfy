/**
 * `chen::bsd::epoll` (src/bsd/bsd_epoll.cpp): a thin wrapper over one epoll
 * instance and one eventfd. It turns an opcode into an interest mask,
 * registers with MOD-then-ADD, deletes leniently, and fills the caller's
 * event cache from a ready batch, stopping at the wake-up eventfd.
 */
module BsdEpoll {
  import opened Wrappers
  import opened EpollKernel

  /** The opcode bits (the values of the `ModeRead`/`ModeWrite` pair of the reactor). */
  const OpcodeRead: bv32 := 1
  const OpcodeWrite: bv32 := 2
  const FlagOnce: bv32 := EPOLLONESHOT
  const FlagEdge: bv32 := EPOLLET

  /** The socket value `runloop::del` writes over a cached event it cancels. */
  const InvalidSocket: Fd := -1

  /** Any of these means the peer or the descriptor is gone. */
  const Hangup: bv32 := EPOLLRDHUP | EPOLLERR | EPOLLHUP

  datatype Event = Read | Write | End

  /** One cached event: the descriptor and what happened to it. */
  datatype Data = Data(fd: Fd, ev: Event)

  /** What `poll` throws: the `system_error` of a failed wait, or the "unknown event" `runtime_error`. */
  datatype PollError = SystemError(errno: Errno) | UnknownEvent

  /**
   * The mask `set` registers: IN for a read opcode, OUT for a write opcode,
   * RDHUP always, and every bit of `flag` as given.
   */
  /** IN for a read opcode, OUT for a write opcode, and nothing else. */
  function ModeBits(opcode: bv32): (r: bv32)
    ensures r & !(EPOLLIN | EPOLLOUT) == 0
    ensures r & EPOLLIN != 0 <==> opcode & OpcodeRead != 0
    ensures r & EPOLLOUT != 0 <==> opcode & OpcodeWrite != 0
  {
    (if opcode & OpcodeRead != 0 then EPOLLIN else 0) | (if opcode & OpcodeWrite != 0 then EPOLLOUT else 0)
  }

  function Interest(opcode: bv32, flag: bv32): (r: bv32)
    ensures r & EPOLLRDHUP != 0
    ensures r & flag == flag
  {
    ModeBits(opcode) | flag | EPOLLRDHUP
  }

  /** The registered mask asks for input exactly when the opcode or the flag does, and likewise for output. */
  lemma InterestReadWrite(opcode: bv32, flag: bv32)
    ensures Interest(opcode, flag) & EPOLLIN != 0 <==> opcode & OpcodeRead != 0 || flag & EPOLLIN != 0
    ensures Interest(opcode, flag) & EPOLLOUT != 0 <==> opcode & OpcodeWrite != 0 || flag & EPOLLOUT != 0
  {
  }

  /** Apart from IN, OUT and RDHUP the registered mask is exactly the flag. */
  lemma InterestOtherBits(opcode: bv32, flag: bv32)
    ensures Interest(opcode, flag) & !(EPOLLIN | EPOLLOUT | EPOLLRDHUP) == flag & !(EPOLLIN | EPOLLOUT | EPOLLRDHUP)
  {
  }

  /**
   * `epoll::event`: hang-up wins over everything, read wins over write, and
   * a mask with none of these is the "unknown event" error (`None`).
   */
  function Classify(events: bv32): Option<Event>
  {
    if events & EPOLLRDHUP != 0 || events & EPOLLERR != 0 || events & EPOLLHUP != 0 then Some(End)
    else if events & EPOLLIN != 0 then Some(Read)
    else if events & EPOLLOUT != 0 then Some(Write)
    else None
  }

  /**
   * `Classify` in terms of the hang-up bits: End exactly when one is set,
   * otherwise Read exactly for IN, Write exactly for OUT without IN, and no
   * event exactly when none of these bits is set.
   */
  lemma ClassifyCases(events: bv32)
    ensures Classify(events) == Some(End) <==> events & Hangup != 0
    ensures Classify(events) == Some(Read) <==> events & Hangup == 0 && events & EPOLLIN != 0
    ensures Classify(events) == Some(Write) <==> events & Hangup == 0 && events & EPOLLIN == 0 && events & EPOLLOUT != 0
    ensures Classify(events) == None <==> events & (Hangup | EPOLLIN | EPOLLOUT) == 0
  {
  }

  /**
   * Where the fill loop of `poll` leaves the batch: at the first wake-up
   * event or the first event `Classify` rejects, or at the end.
   */
  function StopAt(events: seq<RawEvent>, ef: Fd): (k: nat)
    ensures k <= |events|
  {
    if |events| == 0 then 0
    else if events[0].fd == ef || Classify(events[0].events).None? then 0
    else 1 + StopAt(events[1..], ef)
  }

  /**
   * Every event before the stop point is a user event of a known kind, and
   * the event at the stop point, if any, is the wake-up eventfd or of no
   * known kind.
   */
  lemma {:induction false} StopAtCases(events: seq<RawEvent>, ef: Fd)
    ensures var k := StopAt(events, ef);
      && (forall j :: 0 <= j < k ==> events[j].fd != ef && Classify(events[j].events).Some?)
      && (k < |events| ==> events[k].fd == ef || Classify(events[k].events).None?)
  {
    if |events| > 0 && events[0].fd != ef && Classify(events[0].events).Some? {
      StopAtCases(events[1..], ef);
      var k := StopAt(events, ef);
      forall j | 0 <= j < k
        ensures events[j].fd != ef && Classify(events[j].events).Some?
      {
        if j > 0 {
          assert events[j] == events[1..][j - 1];
        }
      }
      if k < |events| {
        assert events[k] == events[1..][k - 1];
      }
    }
  }

  function Max(a: nat, b: nat): nat
  {
    if a < b then b else a
  }

  /**
   * The caller's cache after the first `k` events were stored: slot `i`
   * overwritten while `i` is below the size on entry, appended past it.
   */
  function Filled(cache: seq<Data>, events: seq<RawEvent>, ef: Fd, k: nat): (r: seq<Data>)
    requires k <= StopAt(events, ef)
    ensures |r| == Max(|cache|, k)
  {
    if k == 0 then cache
    else
      var prev := Filled(cache, events, ef, k - 1);
      StopAtCases(events, ef);
      var d := Data(events[k - 1].fd, Classify(events[k - 1].events).value);
      if k - 1 < |prev| then prev[k - 1 := d] else prev + [d]
  }

  /**
   * After the first `k` events were stored, the slots below `k` hold them
   * with their classified kind, and the slots from `k` to the old size are
   * unchanged.
   */
  lemma {:induction false} FilledSlots(cache: seq<Data>, events: seq<RawEvent>, ef: Fd, k: nat)
    requires k <= StopAt(events, ef)
    ensures forall j :: 0 <= j < k ==> Classify(events[j].events).Some?
    ensures var r := Filled(cache, events, ef, k);
      && (forall j :: 0 <= j < k ==> r[j] == Data(events[j].fd, Classify(events[j].events).value))
      && (forall j :: k <= j < |cache| ==> r[j] == cache[j])
  {
    StopAtCases(events, ef);
    if k > 0 {
      FilledSlots(cache, events, ef, k - 1);
    }
  }

  /** Reporting a batch never lengthens a cache that already holds `count` slots. */
  lemma {:induction false} FilledKeepsSize(cache: seq<Data>, events: seq<RawEvent>, ef: Fd, k: nat)
    requires k <= StopAt(events, ef) && |events| <= |cache|
    ensures |Filled(cache, events, ef, k)| == |cache|
  {
  }

  /** `Read` and `Write` are only ever reported for a descriptor that did not hang up. */
  lemma ClassifyHangupFirst(events: bv32)
    requires events & Hangup != 0
    ensures Classify(events | EPOLLIN | EPOLLOUT) == Some(End)
  {
  }

  /**
   * What `epoll::poll(cache, count, timeout)` returns, leaves in the cache
   * and leaves in the eventfd counter, for an instance with interest list
   * `interest`, counter `wake` and wake-up eventfd `ef`.
   */
  function PollOutcome(cache: seq<Data>, count: nat, w: WaitResult, interest: map<Fd, bv32>, wake: nat, ef: Fd)
    : (Result<nat, PollError>, seq<Data>, nat)
  {
    if count == 0 then (Ok(0), cache, wake)
    else
      match Deliver(interest, w, count)
      case Failed(e) => (if e == EINTR then Ok(0) else Err(SystemError(e)), cache, wake)
      case Ready(events) =>
        var k := StopAt(events, ef);
        var out := Filled(cache, events, ef, k);
        if k == |events| then (Ok(k), out, wake)
        else if events[k].fd == ef then (Ok(0), out, 0)
        else (Err(UnknownEvent), out, wake)
  }

  /**
   * A successful poll reports at most `count` events, every one of them
   * stored in the cache, none of them the wake-up eventfd and all of them
   * for watched descriptors; the cache keeps its size when `count` fits.
   */
  lemma PollBounds(cache: seq<Data>, count: nat, w: WaitResult, interest: map<Fd, bv32>, wake: nat, ef: Fd)
    ensures var o := PollOutcome(cache, count, w, interest, wake, ef);
      && (o.0.Ok? ==> o.0.value <= count && o.0.value <= |o.1|)
      && (o.0.Ok? ==> forall j :: 0 <= j < o.0.value ==> o.1[j].fd != ef && o.1[j].fd in interest)
      && (count <= |cache| ==> |o.1| == |cache|)
  {
    DeliverCases(interest, w, count);
    var got := Deliver(interest, w, count);
    if count > 0 && got.Ready? {
      var k := StopAt(got.events, ef);
      StopAtCases(got.events, ef);
      FilledSlots(cache, got.events, ef, k);
    }
  }

  class Epoll {
    const kernel: Kernel
    /** The eventfd `stop` writes to (`_ef`). */
    const ef: Fd

    ghost predicate Valid()
      reads kernel`interest
    {
      kernel.Valid()
    }

    /**
     * `epoll()`: a fresh epoll instance, with the eventfd registered for
     * edge-triggered reads.
     */
    constructor (refuse: map<Fd, Errno>, ef: Fd)
      requires ef >= 0 && ef !in refuse
      ensures Valid() && fresh(kernel)
      ensures this.ef == ef && kernel.refuse == refuse && kernel.wake == 0
      ensures kernel.interest == map[ef := Interest(OpcodeRead, FlagEdge)]
    {
      kernel := new Kernel(refuse);
      this.ef := ef;
      new;
      var r := Set(ef, OpcodeRead, FlagEdge);
    }

    /**
     * `epoll::set`: MOD first and ADD only when MOD reports ENOENT, so the
     * call is an upsert of the interest mask; anything else is thrown.
     */
    method Set(fd: Fd, opcode: bv32, flag: bv32) returns (r: Result<(), Errno>)
      requires Valid()
      modifies kernel`interest
      ensures Valid()
      ensures r.Ok? <==> fd >= 0 && fd !in kernel.refuse
      ensures r.Ok? ==> kernel.interest == old(kernel.interest)[fd := Interest(opcode, flag)]
      ensures r.Err? ==> kernel.interest == old(kernel.interest)
      ensures r.Err? ==> r.error == if fd < 0 then EBADF else kernel.refuse[fd]
    {
      var events := Interest(opcode, flag);
      var e := kernel.Ctl(CtlOp.Mod, fd, events);
      if e.Some? {
        if e.value != ENOENT {
          return Err(e.value);
        }
        var e2 := kernel.Ctl(CtlOp.Add, fd, events);
        if e2.Some? {
          return Err(e2.value);
        }
      }
      r := Ok(());
    }

    /** `epoll::del`: ENOENT and EBADF count as success; other failures are thrown. */
    method Del(fd: Fd) returns (r: Result<(), Errno>)
      requires Valid()
      modifies kernel`interest
      ensures Valid()
      ensures kernel.interest == old(kernel.interest) - {fd}
      ensures r.Err? <==> fd >= 0 && fd in kernel.refuse && kernel.refuse[fd] != ENOENT && kernel.refuse[fd] != EBADF
      ensures r.Err? ==> r.error == kernel.refuse[fd]
    {
      var e := kernel.Ctl(CtlOp.Del, fd, 0);
      if e.Some? && e.value != ENOENT && e.value != EBADF {
        return Err(e.value);
      }
      r := Ok(());
    }

    /**
     * `epoll::poll(cache, count, timeout)` with `w` standing for what the
     * world has made ready. A zero `count` returns 0 without waiting;
     * a timeout or EINTR returns 0; other wait failures are thrown. Then
     * each event is stored in `cache` in turn, until the wake-up eventfd
     * (drained, and 0 returned, the slots already written staying written)
     * or an unclassifiable event (thrown, likewise).
     */
    method Poll(cache: seq<Data>, count: nat, w: WaitResult) returns (r: Result<nat, PollError>, out: seq<Data>)
      requires Valid()
      modifies kernel`wake
      ensures Valid()
      ensures count == 0 ==> r == Ok(0) && out == cache && kernel.wake == old(kernel.wake)
      ensures count > 0 ==> var got := Deliver(kernel.interest, w, count);
        && (got.Failed? ==> out == cache && kernel.wake == old(kernel.wake)
                            && r == if got.errno == EINTR then Ok(0) else Err(SystemError(got.errno)))
        && (got.Ready? ==>
              var k := StopAt(got.events, ef);
              && out == Filled(cache, got.events, ef, k)
              && (k == |got.events| ==> r == Ok(k) && kernel.wake == old(kernel.wake))
              && (k < |got.events| && got.events[k].fd == ef ==> r == Ok(0) && kernel.wake == 0)
              && (k < |got.events| && got.events[k].fd != ef ==>
                    r == Err(UnknownEvent) && kernel.wake == old(kernel.wake)))
      ensures r.Ok? ==> r.value <= count
      ensures r.Ok? ==> forall j :: 0 <= j < r.value ==> out[j].fd != ef && out[j].fd in kernel.interest
      ensures count <= |cache| ==> |out| == |cache|
      ensures (r, out, kernel.wake) == PollOutcome(cache, count, w, kernel.interest, old(kernel.wake), ef)
    {
      PollBounds(cache, count, w, kernel.interest, kernel.wake, ef);
      out := cache;
      if count == 0 {
        return Ok(0), out;
      }
      var got := Deliver(kernel.interest, w, count);
      if got.Failed? {
        if got.errno == EINTR {
          return Ok(0), out;
        }
        return Err(SystemError(got.errno)), out;
      }
      var k, filled := Fill(cache, got.events);
      out := filled;
      if k < |got.events| {
        if got.events[k].fd == ef {
          kernel.Drain();
          return Ok(0), out;
        }
        return Err(UnknownEvent), out;
      }
      r := Ok(k);
    }

    /**
     * The `for` loop of `poll`: stores the events in turn, overwriting
     * slots below the cache's size and appending past it, and stops at the
     * wake-up eventfd or at an event `event` rejects.
     */
    method Fill(cache: seq<Data>, events: seq<RawEvent>) returns (k: nat, out: seq<Data>)
      ensures k == StopAt(events, ef)
      ensures out == Filled(cache, events, ef, k)
    {
      StopAtCases(events, ef);
      out := cache;
      k := 0;
      while k < |events|
        invariant k <= StopAt(events, ef)
        invariant out == Filled(cache, events, ef, k)
      {
        var e := events[k];
        if e.fd == ef {
          return;
        }
        var ev := Classify(e.events);
        if ev.None? {
          return;
        }
        var d := Data(e.fd, ev.value);
        if k < |out| {
          out := out[k := d];
        } else {
          out := out + [d];
        }
        k := k + 1;
      }
    }

    /** `epoll::stop`: one write to the eventfd; its readiness comes from the wait result, not from this counter. */
    method Stop()
      requires Valid()
      modifies kernel`wake
      ensures Valid()
      ensures kernel.wake == old(kernel.wake) + 1
    {
      kernel.Signal();
    }
  }
}
