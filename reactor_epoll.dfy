/**
 * `chen::reactor` on Linux (src/core/reactor.epoll.cpp): an epoll instance
 * plus a store of callbacks keyed by descriptor. `poll` turns one wait into
 * an error code and calls the stored callback of every reported descriptor
 * with a portable event type; `run` polls until a timeout or a stop.
 */
module ReactorEpoll {
  import opened Wrappers
  import opened EpollKernel
  import BsdEpoll

  const ModeRead: bv32 := 1
  const ModeWrite: bv32 := 2
  const ModeRW: bv32 := ModeRead | ModeWrite
  const FlagEdge: bv32 := EPOLLET
  const FlagOnce: bv32 := EPOLLONESHOT

  /** `reactor::Type` bits. */
  const Readable: bv8 := 1
  const Writable: bv8 := 2
  const Closed: bv8 := 4

  /** A `std::function` callback, which may be empty (the wake-up eventfd is stored with `nullptr`). */
  datatype Callback = Empty | Handler(id: nat)

  /** One callback invocation: whose handler ran, for which descriptor, with which type. */
  datatype Call = Call(fd: Fd, id: nat, kind: bv8)

  /** The `std::error_code` values `poll` returns; `Success` is the empty code. */
  datatype Code = Success | TimedOut | Interrupted | Canceled

  /** How `run` ended: `poll` returned a code that stops it, or threw, or the wait oracle ran out first. */
  datatype RunEnd = Ended(code: Code) | Thrown(errno: Errno) | StillRunning

  /**
   * `reactor::type`: `Closed` alone for any hang-up bit, whatever else is set;
   * otherwise `Readable` for IN, `Writable` for OUT, possibly neither.
   */
  function TypeOf(events: bv32): (r: bv8)
    ensures events & BsdEpoll.Hangup != 0 ==> r == Closed
    ensures events & BsdEpoll.Hangup == 0 ==> r & Closed == 0
  {
    if events & EPOLLRDHUP != 0 || events & EPOLLERR != 0 || events & EPOLLHUP != 0 then Closed
    else (if events & EPOLLIN != 0 then Readable else 0) | (if events & EPOLLOUT != 0 then Writable else 0)
  }

  /** Without a hang-up, `Readable` and `Writable` report IN and OUT exactly, and nothing else is set. */
  lemma TypeReadWrite(events: bv32)
    requires events & BsdEpoll.Hangup == 0
    ensures TypeOf(events) & Readable != 0 <==> events & EPOLLIN != 0
    ensures TypeOf(events) & Writable != 0 <==> events & EPOLLOUT != 0
    ensures TypeOf(events) & !(Readable | Writable) == 0
  {
  }

  /**
   * The reactor's `type` and the wrapper's `event` read the same bits:
   * they agree on hang-ups and on the empty case, and where `event` picks
   * `Read` over `Write` the type carries both.
   */
  lemma TypeAgreesWithEvent(events: bv32)
    ensures BsdEpoll.Classify(events) == Some(BsdEpoll.End) <==> TypeOf(events) == Closed
    ensures BsdEpoll.Classify(events) == None <==> TypeOf(events) == 0
    ensures BsdEpoll.Classify(events) == Some(BsdEpoll.Write) <==> TypeOf(events) == Writable
    ensures BsdEpoll.Classify(events) == Some(BsdEpoll.Read) <==> TypeOf(events) & Readable != 0 && TypeOf(events) != Closed
  {
    if events & BsdEpoll.Hangup == 0 {
      TypeReadWrite(events);
    }
  }

  /** What `_store[fd]` yields: the stored callback, or an empty one for an unknown descriptor. */
  function Lookup(store: map<Fd, Callback>, fd: Fd): Callback
  {
    if fd in store then store[fd] else Empty
  }

  /** How far `poll` walks a batch: up to the wake-up eventfd, or to the end. */
  function WakeAt(events: seq<RawEvent>, wakeup: Fd): (k: nat)
    ensures k <= |events|
  {
    if |events| == 0 then 0
    else if events[0].fd == wakeup then 0
    else 1 + WakeAt(events[1..], wakeup)
  }

  /** No event before the stop point is the wake-up eventfd, and the event at the stop point, if any, is. */
  lemma {:induction false} WakeAtCases(events: seq<RawEvent>, wakeup: Fd)
    ensures forall j :: 0 <= j < WakeAt(events, wakeup) ==> events[j].fd != wakeup
    ensures WakeAt(events, wakeup) < |events| ==> events[WakeAt(events, wakeup)].fd == wakeup
  {
    if |events| > 0 && events[0].fd != wakeup {
      WakeAtCases(events[1..], wakeup);
      forall j | 1 <= j < |events|
        ensures events[j] == events[1..][j - 1]
      {
      }
    }
  }

  /**
   * The store after `operator[]` looked up every descriptor of `events`
   * in turn: each unknown one is added with an empty callback.
   */
  function Touched(store: map<Fd, Callback>, events: seq<RawEvent>): map<Fd, Callback>
  {
    if |events| == 0 then store
    else
      var prev := Touched(store, events[..|events| - 1]);
      var fd := events[|events| - 1].fd;
      if fd in prev then prev else prev[fd := Empty]
  }

  /**
   * Looking callbacks up never loses or changes one: every stored callback
   * survives, every reported descriptor gets an entry, the new entries are
   * empty, and so what a lookup finds is unchanged.
   */
  lemma {:induction false} TouchedOnlyAddsEmpty(store: map<Fd, Callback>, events: seq<RawEvent>)
    ensures var r := Touched(store, events);
            && (forall fd :: fd in store ==> fd in r && r[fd] == store[fd])
            && (forall fd :: fd in r && fd !in store ==> r[fd] == Empty)
            && (forall j :: 0 <= j < |events| ==> events[j].fd in r)
            && (forall fd :: Lookup(r, fd) == Lookup(store, fd))
  {
    if |events| > 0 {
      var prefix := events[..|events| - 1];
      TouchedOnlyAddsEmpty(store, prefix);
      forall j | 0 <= j < |events| - 1
        ensures events[j] == prefix[j]
      {
      }
    }
  }

  /**
   * The callbacks one batch invokes, in order: one call per event whose
   * descriptor holds a non-empty callback; empty ones are skipped.
   */
  function Calls(store: map<Fd, Callback>, events: seq<RawEvent>): seq<Call>
  {
    if |events| == 0 then []
    else
      var prev := Calls(store, events[..|events| - 1]);
      var e := events[|events| - 1];
      match Lookup(store, e.fd)
      case Empty => prev
      case Handler(id) => prev + [Call(e.fd, id, TypeOf(e.events))]
  }

  /**
   * Every call goes to the handler stored for its descriptor with the type
   * of its event, and there is one call per event exactly when every
   * reported descriptor has a handler.
   */
  lemma {:induction false} CallsOnlyHandlers(store: map<Fd, Callback>, events: seq<RawEvent>)
    ensures var r := Calls(store, events);
            && |r| <= |events|
            && (forall i :: 0 <= i < |r| ==> Lookup(store, r[i].fd) == Handler(r[i].id))
            && ((forall j :: 0 <= j < |events| ==> Lookup(store, events[j].fd).Handler?) ==> |r| == |events|)
            && ((forall j :: 0 <= j < |events| ==> Lookup(store, events[j].fd).Empty?) ==> r == [])
  {
    if |events| > 0 {
      var prefix := events[..|events| - 1];
      CallsOnlyHandlers(store, prefix);
      forall j | 0 <= j < |events| - 1
        ensures events[j] == prefix[j]
      {
      }
    }
  }

  /** One more event extends the touched store and the call list by that event alone. */
  lemma {:induction false} BatchStep(store: map<Fd, Callback>, events: seq<RawEvent>, i: nat)
    requires i < |events|
    ensures var fd := events[i].fd;
            var prev := Touched(store, events[..i]);
            Touched(store, events[..i + 1]) == if fd in prev then prev else prev[fd := Empty]
    ensures var e := events[i];
            Calls(store, events[..i + 1])
              == match Lookup(store, e.fd)
                 case Empty => Calls(store, events[..i])
                 case Handler(id) => Calls(store, events[..i]) + [Call(e.fd, id, TypeOf(e.events))]
    ensures Lookup(Touched(store, events[..i]), events[i].fd) == Lookup(store, events[i].fd)
  {
    assert events[..i + 1][..i] == events[..i];
    TouchedOnlyAddsEmpty(store, events[..i]);
  }

  /**
   * What `reactor::poll` makes of one `epoll_wait` outcome `got`: the code
   * it returns, the callbacks it invokes, the store and the eventfd counter
   * it leaves, for a store `store`, counter `wake` and wake-up eventfd
   * `wakeup`.
   */
  function Batch(store: map<Fd, Callback>, wake: nat, wakeup: Fd, got: WaitResult)
    : (Result<Code, Errno>, seq<Call>, map<Fd, Callback>, nat)
  {
    match got
    case Failed(e) => (if e == EINTR then Ok(Interrupted) else Err(e), [], store, wake)
    case Ready(events) =>
      if events == [] then (Ok(TimedOut), [], store, wake)
      else
        var k := WakeAt(events, wakeup);
        var batch := events[..k];
        if k < |events| then (Ok(Canceled), Calls(store, batch), Touched(store, batch), 0)
        else (Ok(Success), Calls(store, batch), Touched(store, batch), wake)
  }

  /**
   * `reactor::poll` on an instance with interest list `interest` and batch
   * size `count`, with `w` standing for what the world made ready.
   */
  function PollResult(store: map<Fd, Callback>, interest: map<Fd, bv32>, wake: nat, wakeup: Fd, count: nat, w: WaitResult)
    : (Result<Code, Errno>, seq<Call>, map<Fd, Callback>, nat)
  {
    Batch(store, wake, wakeup, Deliver(interest, w, count))
  }

  /**
   * A failed wait is `Interrupted` for EINTR and thrown otherwise, touching
   * nothing; an empty batch is `TimedOut`; otherwise the events up to the
   * wake-up eventfd are handled in order, and the batch ends `Canceled`
   * with the counter drained when the eventfd was reported, `Success`
   * otherwise.
   */
  lemma PollCases(store: map<Fd, Callback>, interest: map<Fd, bv32>, wake: nat, wakeup: Fd, count: nat, w: WaitResult)
    ensures var o := PollResult(store, interest, wake, wakeup, count, w);
      var got := Deliver(interest, w, count);
      && (got.Failed? ==> o.2 == store && o.1 == [] && o.3 == wake
                          && o.0 == if got.errno == EINTR then Ok(Interrupted) else Err(got.errno))
      && (got == Ready([]) ==> o == (Ok(TimedOut), [], store, wake))
      && (got.Ready? && got.events != [] ==>
            var k := WakeAt(got.events, wakeup);
            && o.1 == Calls(store, got.events[..k])
            && o.2 == Touched(store, got.events[..k])
            && (k < |got.events| ==> o.0 == Ok(Canceled) && o.3 == 0)
            && (k == |got.events| ==> o.0 == Ok(Success) && o.3 == wake))
  {
  }

  /**
   * What `epoll_wait` reports for each of the wait outcomes `waits`; `run`
   * never changes the interest list, so these do not depend on the store.
   */
  function Delivered(interest: map<Fd, bv32>, waits: seq<WaitResult>, count: nat): (r: seq<WaitResult>)
    ensures |r| == |waits|
  {
    if |waits| == 0 then [] else [Deliver(interest, waits[0], count)] + Delivered(interest, waits[1..], count)
  }

  /** The `i`-th reported batch is what `epoll_wait` makes of the `i`-th wait outcome. */
  lemma {:induction false} DeliveredAt(interest: map<Fd, bv32>, waits: seq<WaitResult>, count: nat, i: nat)
    requires i < |waits|
    ensures Delivered(interest, waits, count)[i] == Deliver(interest, waits[i], count)
  {
    if i > 0 {
      DeliveredAt(interest, waits[1..], count, i - 1);
    }
  }

  /**
   * `reactor::run` after the first `i` reported batches `gots`: how it
   * ended (`StillRunning` while every poll said to go on), the code of
   * every poll that returned, the callbacks invoked, and the store and
   * counter it leaves. Once `run` has returned, later batches change nothing.
   */
  function RunUpTo(store: map<Fd, Callback>, wake: nat, wakeup: Fd, gots: seq<WaitResult>, i: nat)
    : (RunEnd, seq<Code>, seq<Call>, map<Fd, Callback>, nat)
    requires i <= |gots|
  {
    if i == 0 then (StillRunning, [], [], store, wake)
    else
      var prev := RunUpTo(store, wake, wakeup, gots, i - 1);
      if prev.0 != StillRunning then prev
      else
        var p := Batch(prev.3, prev.4, wakeup, gots[i - 1]);
        if p.0.Err? then (Thrown(p.0.error), prev.1, prev.2 + p.1, p.2, p.3)
        else if p.0.value != Success && p.0.value != Interrupted then (Ended(p.0.value), prev.1 + [p.0.value], prev.2 + p.1, p.2, p.3)
        else (StillRunning, prev.1 + [p.0.value], prev.2 + p.1, p.2, p.3)
  }

  /** Once `run` has returned after `i` batches, it is the same after any later number `j`. */
  lemma {:induction false} RunUpToEnded(store: map<Fd, Callback>, wake: nat, wakeup: Fd, gots: seq<WaitResult>, i: nat, j: nat)
    requires i <= j <= |gots|
    requires RunUpTo(store, wake, wakeup, gots, i).0 != StillRunning
    ensures RunUpTo(store, wake, wakeup, gots, j) == RunUpTo(store, wake, wakeup, gots, i)
    decreases j
  {
    if i < j {
      RunUpToEnded(store, wake, wakeup, gots, i, j - 1);
    }
  }

  /**
   * `run` polls again exactly while the code is success or interrupted: it
   * ends on the first timed-out or cancelled code, throws on the first
   * failed wait, and is still running only when every poll said to go on.
   */
  lemma {:induction false} RunCodes(store: map<Fd, Callback>, wake: nat, wakeup: Fd, gots: seq<WaitResult>, i: nat)
    requires i <= |gots|
    ensures var o := RunUpTo(store, wake, wakeup, gots, i);
      && |o.1| <= i
      && (forall j :: 0 <= j < |o.1| - 1 ==> o.1[j] == Success || o.1[j] == Interrupted)
      && (o.0.Ended? ==> |o.1| > 0 && o.0.code == o.1[|o.1| - 1] && (o.0.code == TimedOut || o.0.code == Canceled))
      && (o.0.Thrown? ==> |o.1| < i && forall j :: 0 <= j < |o.1| ==> o.1[j] == Success || o.1[j] == Interrupted)
      && (o.0 == StillRunning <==> |o.1| == i && forall j :: 0 <= j < |o.1| ==> o.1[j] == Success || o.1[j] == Interrupted)
    decreases i
  {
    if i > 0 {
      RunCodes(store, wake, wakeup, gots, i - 1);
    }
  }

  class Reactor {
    const kernel: Kernel
    /** The eventfd `stop` writes to (`_wakeup`). */
    const wakeup: Fd
    /** The most events one wait may report (`_count`). */
    const count: nat
    /** Descriptor to callback (`_store`). */
    var store: map<Fd, Callback>

    ghost predicate Valid()
      reads kernel`interest
    {
      kernel.Valid()
    }

    /** `reactor(count)`: registers the eventfd for edge-triggered reads, with no callback. */
    constructor (refuse: map<Fd, Errno>, wakeup: Fd, count: nat)
      requires wakeup >= 0 && wakeup !in refuse
      ensures Valid() && fresh(kernel)
      ensures this.wakeup == wakeup && this.count == count
      ensures kernel.refuse == refuse && kernel.wake == 0
      ensures kernel.interest == map[wakeup := BsdEpoll.Interest(ModeRead, FlagEdge)]
      ensures store == map[wakeup := Empty]
    {
      kernel := new Kernel(refuse);
      this.wakeup := wakeup;
      this.count := count;
      store := map[];
      new;
      var r := Set(wakeup, Empty, ModeRead, FlagEdge);
    }

    /**
     * `reactor::set`: the same mask and MOD-then-ADD rule as the wrapper;
     * the callback is stored, replacing any earlier one, only once the
     * registration succeeded.
     */
    method Set(fd: Fd, cb: Callback, mode: bv32, flag: bv32) returns (r: Result<(), Errno>)
      requires Valid()
      modifies this`store, kernel`interest
      ensures Valid()
      ensures r.Ok? <==> fd >= 0 && fd !in kernel.refuse
      ensures r.Ok? ==> kernel.interest == old(kernel.interest)[fd := BsdEpoll.Interest(mode, flag)]
      ensures r.Ok? ==> store == old(store)[fd := cb]
      ensures r.Err? ==> kernel.interest == old(kernel.interest) && store == old(store)
      ensures r.Err? ==> r.error == if fd < 0 then EBADF else kernel.refuse[fd]
    {
      var events := BsdEpoll.Interest(mode, flag);
      var e := kernel.Ctl(CtlOp.Mod, fd, events);
      if e.Some? {
        if e.value != ENOENT {
          return Err(e.value);
        }
        var e2 := kernel.Ctl(CtlOp.Add, fd, events);
        if e2.Some? {
          return Err(e2.value);
        }
      }
      store := store[fd := cb];
      r := Ok(());
    }

    /**
     * `reactor::del`: the callback is erased first, so it is gone even when
     * the removal from epoll then throws; ENOENT and EBADF count as success.
     */
    method Del(fd: Fd) returns (r: Result<(), Errno>)
      requires Valid()
      modifies this`store, kernel`interest
      ensures Valid()
      ensures store == old(store) - {fd}
      ensures kernel.interest == old(kernel.interest) - {fd}
      ensures r.Err? <==> fd >= 0 && fd in kernel.refuse && kernel.refuse[fd] != ENOENT && kernel.refuse[fd] != EBADF
      ensures r.Err? ==> r.error == kernel.refuse[fd]
    {
      store := store - {fd};
      var e := kernel.Ctl(CtlOp.Del, fd, 0);
      if e.Some? && e.value != ENOENT && e.value != EBADF {
        return Err(e.value);
      }
      r := Ok(());
    }

    /**
     * `reactor::poll` with `w` standing for what the world made ready: a
     * timeout is `TimedOut`, EINTR is `Interrupted`, any other failure is
     * thrown. Otherwise the events are handled in order up to the wake-up
     * eventfd, which is drained and ends the batch with `Canceled`.
     */
    method Poll(w: WaitResult) returns (r: Result<Code, Errno>, calls: seq<Call>)
      requires Valid()
      modifies this`store, kernel`wake
      ensures Valid()
      ensures (r, calls, store, kernel.wake) == PollResult(old(store), kernel.interest, old(kernel.wake), wakeup, count, w)
    {
      calls := [];
      var got := Deliver(kernel.interest, w, count);
      if got.Failed? {
        if got.errno == EINTR {
          return Ok(Interrupted), calls;
        }
        return Err(got.errno), calls;
      }
      var events := got.events;
      if |events| == 0 {
        return Ok(TimedOut), calls;
      }
      WakeAtCases(events, wakeup);
      var i := 0;
      while i < |events|
        invariant i <= WakeAt(events, wakeup)
        invariant store == Touched(old(store), events[..i])
        invariant calls == Calls(old(store), events[..i])
        invariant kernel.wake == old(kernel.wake)
      {
        var item := events[i];
        if item.fd == wakeup {
          kernel.Drain();
          return Ok(Canceled), calls;
        }
        BatchStep(old(store), events, i);
        var cb := Lookup(store, item.fd);
        if item.fd !in store {
          store := store[item.fd := Empty];
        }
        if cb.Handler? {
          calls := calls + [Call(item.fd, cb.id, TypeOf(item.events))];
        }
        i := i + 1;
      }
      assert events[..i] == events;
      r := Ok(Success);
    }

    /**
     * `reactor::run`: polls again while the code is success or
     * `interrupted`, and returns on `timed_out` or `operation_canceled`;
     * `codes` lists what each poll returned.
     */
    method Run(waits: seq<WaitResult>) returns (r: RunEnd, codes: seq<Code>, calls: seq<Call>)
      requires Valid()
      modifies this`store, kernel`wake
      ensures Valid()
      ensures (r, codes, calls, store, kernel.wake) == RunUpTo(old(store), old(kernel.wake), wakeup, Delivered(kernel.interest, waits, count), |waits|)
      ensures |codes| <= |waits|
      ensures forall j :: 0 <= j < |codes| - 1 ==> codes[j] == Success || codes[j] == Interrupted
      ensures r.Ended? ==> |codes| > 0 && r.code == codes[|codes| - 1]
      ensures r.Ended? ==> r.code == TimedOut || r.code == Canceled
      ensures r == StillRunning ==> |codes| == |waits|
      ensures r == StillRunning ==> forall j :: 0 <= j < |codes| ==> codes[j] == Success || codes[j] == Interrupted
    {
      ghost var gots := Delivered(kernel.interest, waits, count);
      codes, calls := [], [];
      r := StillRunning;
      var i := 0;
      while i < |waits| && r == StillRunning
        invariant i <= |waits|
        invariant Valid() && kernel.interest == old(kernel.interest)
        invariant (r, codes, calls, store, kernel.wake) == RunUpTo(old(store), old(kernel.wake), wakeup, gots, i)
      {
        DeliveredAt(kernel.interest, waits, count, i);
        var p, c := Poll(waits[i]);
        calls := calls + c;
        i := i + 1;
        if p.Err? {
          r := Thrown(p.error);
        } else {
          codes := codes + [p.value];
          if p.value != Success && p.value != Interrupted {
            r := Ended(p.value);
          }
        }
      }
      if i < |waits| {
        RunUpToEnded(old(store), old(kernel.wake), wakeup, gots, i, |waits|);
      }
      RunCodes(old(store), old(kernel.wake), wakeup, gots, |waits|);
    }

    /** `reactor::stop`: one write to the eventfd; its readiness comes from the wait result, not from this counter. */
    method Stop()
      requires Valid()
      modifies kernel`wake
      ensures Valid()
      ensures kernel.wake == old(kernel.wake) + 1
    {
      kernel.Signal();
    }
  }
}
