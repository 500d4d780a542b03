/**
 * `chen::runloop` (src/sys/runloop.cpp): callbacks keyed by descriptor on
 * top of the epoll wrapper, a cache of the current batch of events, and the
 * dispatch loop. Deleting a descriptor from inside a callback cancels the
 * events of that descriptor still waiting in the current batch.
 *
 * A callback is an identifier; what it does to the loop while it runs is
 * taken from a script of actions, one per invocation, so that `set`, `del`
 * and `stop` issued from inside the batch are part of the model.
 */
module Runloop {
  import opened Wrappers
  import opened EpollKernel
  import opened BsdEpoll

  type Callback = nat

  /** What one callback invocation does to the loop. */
  datatype Action = Idle | Remove(fd: Fd) | Register(fd: Fd, opcode: bv32, flag: bv32, cb: Callback) | RequestStop

  /** What happened during a batch, in order: a callback ran, or a descriptor was deleted. */
  datatype Step = Called(pos: nat, fd: Fd, ev: Event, cb: Callback) | Deleted(fd: Fd)

  /** The exceptions that leave `run`. */
  datatype RunError =
    | PollFailed(cause: PollError)
    | CtlFailed(errno: Errno)
    | NoCallback(fd: Fd)

  /** How `run` ended: it returned after a poll of 0, it threw, or the wait oracle ran out first. */
  datatype RunEnd = Stopped | Thrown(error: RunError) | StillRunning

  /** The value `resize` gives new slots; no slot is read before `poll` writes it. */
  const Blank: Data := Data(InvalidSocket, End)

  /** `_caching.resize(n)`. */
  function Resized(cache: seq<Data>, n: nat): (r: seq<Data>)
    ensures |r| == n
    ensures forall j :: 0 <= j < n && j < |cache| ==> r[j] == cache[j]
    ensures forall j :: |cache| <= j < n ==> r[j] == Blank
  {
    if n <= |cache| then cache[..n] else cache + seq(n - |cache|, _ => Blank)
  }

  /** In a batch, no callback runs for a descriptor once it has been deleted. */
  predicate NoCallAfterDelete(steps: seq<Step>)
  {
    forall i, j :: 0 <= i < j < |steps| && steps[i].Deleted? && steps[j].Called? ==> steps[j].fd != steps[i].fd
  }

  /** Callbacks run in cache order, for slots below `bound`. */
  predicate InCacheOrder(steps: seq<Step>, bound: nat)
  {
    && (forall i :: 0 <= i < |steps| && steps[i].Called? ==> steps[i].pos < bound)
    && (forall i, j :: 0 <= i < j < |steps| && steps[i].Called? && steps[j].Called? ==> steps[i].pos < steps[j].pos)
  }

  /** The descriptors deleted so far in a batch. */
  function DeletedFds(steps: seq<Step>): set<Fd>
  {
    set i | 0 <= i < |steps| && steps[i].Deleted? :: steps[i].fd
  }

  /** The action of the `k`-th callback invocation; once the script is used up, callbacks do nothing. */
  function ActionAt(script: seq<Action>, k: nat): Action
  {
    if k < |script| then script[k] else Idle
  }

  /** The slots of a batch whose callbacks ran. */
  function CalledSlots(steps: seq<Step>): set<nat>
  {
    set i | 0 <= i < |steps| && steps[i].Called? :: steps[i].pos
  }

  /** A callback for a slot past every earlier one, for a descriptor not deleted yet, keeps both properties. */
  lemma AppendCalled(steps: seq<Step>, idx: nat, fd: Fd, ev: Event, cb: Callback)
    requires NoCallAfterDelete(steps) && InCacheOrder(steps, idx)
    requires fd !in DeletedFds(steps)
    ensures NoCallAfterDelete(steps + [Called(idx, fd, ev, cb)])
    ensures InCacheOrder(steps + [Called(idx, fd, ev, cb)], idx + 1)
    ensures DeletedFds(steps + [Called(idx, fd, ev, cb)]) == DeletedFds(steps)
    ensures CalledSlots(steps + [Called(idx, fd, ev, cb)]) == CalledSlots(steps) + {idx}
  {
    var s := steps + [Called(idx, fd, ev, cb)];
    forall i | 0 <= i < |steps| && steps[i].Deleted?
      ensures steps[i].fd in DeletedFds(steps)
    {
    }
    assert forall i :: 0 <= i < |s| && s[i].Deleted? ==> i < |steps| && s[i] == steps[i];
    assert s[|steps|].pos == idx;
    assert forall i :: 0 <= i < |steps| ==> s[i] == steps[i];
  }

  /** A deletion at the end of the batch so far keeps both properties and joins the deleted set. */
  lemma AppendDeleted(steps: seq<Step>, idx: nat, fd: Fd)
    requires NoCallAfterDelete(steps) && InCacheOrder(steps, idx)
    ensures NoCallAfterDelete(steps + [Deleted(fd)])
    ensures InCacheOrder(steps + [Deleted(fd)], idx)
    ensures DeletedFds(steps + [Deleted(fd)]) == DeletedFds(steps) + {fd}
    ensures CalledSlots(steps + [Deleted(fd)]) == CalledSlots(steps)
  {
    var s := steps + [Deleted(fd)];
    assert s[|steps|] == Deleted(fd);
    assert forall i :: 0 <= i < |steps| ==> s[i] == steps[i];
  }

  /**
   * The loop's state as a value: the callbacks, the event cache, the size
   * of the batch, epoll's interest list and the wake-up eventfd's counter.
   */
  datatype State = State(mapping: map<Fd, Callback>, caching: seq<Data>, count: nat, interest: map<Fd, bv32>, wake: nat)

  /** Every descriptor epoll watches for the user (all but the wake-up eventfd `ef`) has a callback. */
  ghost predicate InSync(s: State, ef: Fd)
  {
    forall fd :: fd in s.interest && fd != ef ==> fd in s.mapping
  }

  /** Every live event of the batch from slot `from` on has a callback. */
  ghost predicate CoveredFrom(s: State, from: nat)
  {
    forall j :: from <= j < s.count && j < |s.caching| ==> s.caching[j].fd == InvalidSocket || s.caching[j].fd in s.mapping
  }

  /** `runloop::set` on a state, with the kernel refusing the descriptors of `refuse`. */
  function SetOutcome(s: State, refuse: map<Fd, Errno>, fd: Fd, opcode: bv32, flag: bv32, cb: Callback): (Result<(), Errno>, State)
  {
    if fd < 0 then (Err(EBADF), s)
    else if fd in refuse then (Err(refuse[fd]), s)
    else (Ok(()), s.(mapping := s.mapping[fd := cb], interest := s.interest[fd := Interest(opcode, flag)]))
  }

  /** The cache once the events of `fd` among the first `count` slots are cancelled. */
  function Cancel(caching: seq<Data>, count: nat, fd: Fd): (r: seq<Data>)
    ensures |r| == |caching|
  {
    seq(|caching|, j requires 0 <= j < |caching| =>
      if j < count && caching[j].fd == fd then Data(InvalidSocket, caching[j].ev) else caching[j])
  }

  /** `runloop::del` on a state: the descriptor leaves epoll in every case, the rest only when epoll does not throw. */
  function DelOutcome(s: State, refuse: map<Fd, Errno>, fd: Fd): (Result<(), Errno>, State)
  {
    var dropped := s.(interest := s.interest - {fd});
    if fd >= 0 && fd in refuse && refuse[fd] != ENOENT && refuse[fd] != EBADF then (Err(refuse[fd]), dropped)
    else (Ok(()), dropped.(mapping := s.mapping - {fd}, caching := Cancel(s.caching, s.count, fd)))
  }

  /** What a callback's action does to the state. */
  function PerformOutcome(s: State, refuse: map<Fd, Errno>, act: Action): (o: (Result<(), Errno>, State))
    ensures o.1.count == s.count && |o.1.caching| == |s.caching|
  {
    match act
    case Idle => (Ok(()), s)
    case RequestStop => (Ok(()), s.(wake := s.wake + 1))
    case Register(fd, opcode, flag, cb) => SetOutcome(s, refuse, fd, opcode, flag, cb)
    case Remove(fd) => DelOutcome(s, refuse, fd)
  }

  /**
   * The `for` loop of `run` from slot `idx` on, with `k` callbacks run and
   * `steps` recorded so far: the result, the steps, the callbacks run and
   * the state it leaves.
   */
  function DispatchFrom(s: State, refuse: map<Fd, Errno>, script: seq<Action>, idx: nat, k: nat, steps: seq<Step>)
    : (o: (Result<(), RunError>, seq<Step>, nat, State))
    ensures o.3.count == s.count && |o.3.caching| == |s.caching|
    ensures o.0.Err? ==> o.0.error.NoCallback? || o.0.error.CtlFailed?
    decreases s.count - idx
  {
    if idx >= s.count || idx >= |s.caching| then (Ok(()), steps, k, s)
    else
      var event := s.caching[idx];
      if event.fd == InvalidSocket then DispatchFrom(s, refuse, script, idx + 1, k, steps)
      else if event.fd !in s.mapping then (Err(NoCallback(event.fd)), steps, k, s)
      else
        var called := steps + [Called(idx, event.fd, event.ev, s.mapping[event.fd])];
        var act := ActionAt(script, k);
        var done := PerformOutcome(s, refuse, act);
        if done.0.Err? then (Err(CtlFailed(done.0.error)), called, k + 1, done.1)
        else DispatchFrom(done.1, refuse, script, idx + 1, k + 1, if act.Remove? then called + [Deleted(act.fd)] else called)
  }

  /** What the poll of a round gives on state `s`: its result, the cache it fills and the new counter. */
  function Polled(s: State, ef: Fd, n: nat, wait: WaitResult): (Result<nat, PollError>, seq<Data>, nat)
  {
    PollOutcome(s.caching, n, wait, s.interest, s.wake, ef)
  }

  /** One round of the `while` loop of `run`: `None` when the loop goes on, otherwise how `run` ends. */
  function RoundOutcome(s: State, refuse: map<Fd, Errno>, ef: Fd, n: nat, wait: WaitResult, script: seq<Action>, k: nat)
    : (Option<RunEnd>, seq<Step>, nat, State)
  {
    var p := Polled(s, ef, n, wait);
    var polled := s.(caching := p.1, wake := p.2);
    if p.0.Err? then (Some(Thrown(PollFailed(p.0.error))), [], k, polled)
    else if p.0.value == 0 then (Some(Stopped), [], k, polled.(count := 0))
    else
      var d := DispatchFrom(polled.(count := p.0.value), refuse, script, 0, k, []);
      if d.0.Err? then (Some(Thrown(d.0.error)), d.1, d.2, d.3)
      else (None, d.1, d.2, d.3.(count := 0))
  }

  /**
   * The rounds of `run` over the poll outcomes `waits` from the `w`-th on:
   * how it ends, the steps of each completed batch, what the poll of each
   * round it began returned, and the final state. The steps of a last
   * batch that throws are not reported, though its earlier callbacks ran.
   */
  function RunFrom(s: State, refuse: map<Fd, Errno>, ef: Fd, n: nat, waits: seq<WaitResult>, script: seq<Action>, w: nat, k: nat)
    : (RunEnd, seq<seq<Step>>, seq<Result<nat, PollError>>, State)
    decreases |waits| - w
  {
    if w >= |waits| then (StillRunning, [], [], s)
    else
      var q := RoundOutcome(s, refuse, ef, n, waits[w], script, k);
      var p := Polled(s, ef, n, waits[w]).0;
      if q.0.Some? then (q.0.value, [], [p], q.3)
      else
        var rest := RunFrom(q.3, refuse, ef, n, waits, script, w + 1, q.2);
        (rest.0, [q.1] + rest.1, [p] + rest.2, rest.3)
  }

  /**
   * What a callback does to the loop: it fails exactly when epoll throws;
   * slots only ever get cancelled, and only for a descriptor it deleted,
   * which then has no callback and no live slot in the batch; callbacks of
   * live slots and of watched descriptors are kept; `stop` adds one to the
   * counter.
   */
  lemma PerformEffect(s: State, refuse: map<Fd, Errno>, ef: Fd, act: Action, from: nat)
    ensures var o := PerformOutcome(s, refuse, act);
      && (o.0.Err? <==>
            || (act.Register? && (act.fd < 0 || act.fd in refuse))
            || (act.Remove? && act.fd >= 0 && act.fd in refuse && refuse[act.fd] !in {ENOENT, EBADF}))
      && (forall j :: 0 <= j < |s.caching| ==>
            && o.1.caching[j].ev == s.caching[j].ev
            && (|| o.1.caching[j].fd == s.caching[j].fd
                || (o.1.caching[j].fd == InvalidSocket && o.0.Ok? && act.Remove? && s.caching[j].fd == act.fd && j < s.count)))
      && (o.0.Ok? && act.Remove? ==>
            && act.fd !in o.1.mapping
            && forall j :: 0 <= j < s.count && j < |s.caching| ==> o.1.caching[j].fd != act.fd || o.1.caching[j].fd == InvalidSocket)
      && (CoveredFrom(s, from) ==> CoveredFrom(o.1, from))
      && (InSync(s, ef) ==> InSync(o.1, ef))
      && o.1.wake == (if act.RequestStop? then s.wake + 1 else s.wake)
  {
  }

  /**
   * What holds of a batch dispatched from `s0` with outcome `o`: callbacks
   * run in slot order below the batch size, each with its slot's polled
   * descriptor and event and never after its descriptor was deleted; when
   * the batch completes, every live slot had its callback run unless its
   * descriptor was deleted first; "no callback" names a live, undeleted
   * descriptor of the batch that has no callback, and cannot happen when
   * every live slot had one; watched descriptors keep their callbacks.
   */
  ghost predicate DispatchSoundness(s0: State, ef: Fd, o: (Result<(), RunError>, seq<Step>, nat, State))
  {
    && s0.count <= |s0.caching|
    && o.3.count == s0.count && |o.3.caching| == |s0.caching|
    && NoCallAfterDelete(o.1) && InCacheOrder(o.1, s0.count)
    && (forall i :: 0 <= i < |o.1| && o.1[i].Called? ==>
          && o.1[i].fd != InvalidSocket
          && o.1[i].fd == s0.caching[o.1[i].pos].fd
          && o.1[i].ev == s0.caching[o.1[i].pos].ev)
    && (o.0.Ok? ==> forall j :: 0 <= j < s0.count ==>
          j in CalledSlots(o.1) || s0.caching[j].fd == InvalidSocket || s0.caching[j].fd in DeletedFds(o.1))
    && (o.0.Err? && o.0.error.NoCallback? ==>
          && o.0.error.fd != InvalidSocket
          && o.0.error.fd !in o.3.mapping
          && o.0.error.fd !in DeletedFds(o.1)
          && exists j :: 0 <= j < s0.count && s0.caching[j].fd == o.0.error.fd)
    && (CoveredFrom(s0, 0) ==> !(o.0.Err? && o.0.error.NoCallback?))
    && (InSync(s0, ef) ==> InSync(o.3, ef))
  }

  /** What the steps recorded up to slot `idx` of a batch from `s0` satisfy. */
  ghost predicate StepsInv(s0: State, idx: nat, steps: seq<Step>)
  {
    && idx <= s0.count <= |s0.caching|
    && NoCallAfterDelete(steps) && InCacheOrder(steps, idx)
    && (forall i :: 0 <= i < |steps| && steps[i].Called? ==>
          && steps[i].fd != InvalidSocket
          && steps[i].fd == s0.caching[steps[i].pos].fd
          && steps[i].ev == s0.caching[steps[i].pos].ev)
    && (forall j :: 0 <= j < idx ==>
          j in CalledSlots(steps) || s0.caching[j].fd == InvalidSocket || s0.caching[j].fd in DeletedFds(steps))
  }

  /** What the state `s` at slot `idx` of a batch from `s0` satisfies, given the deletions in `steps`. */
  ghost predicate SlotsInv(s0: State, s: State, ef: Fd, idx: nat, steps: seq<Step>)
  {
    && s.count == s0.count <= |s.caching| == |s0.caching|
    && idx <= s.count
    && (forall j :: idx <= j < s.count ==>
          && s.caching[j].ev == s0.caching[j].ev
          && (s.caching[j].fd == s0.caching[j].fd || (s.caching[j].fd == InvalidSocket && s0.caching[j].fd in DeletedFds(steps))))
    && (forall j :: idx <= j < s.count && s.caching[j].fd != InvalidSocket ==> s.caching[j].fd !in DeletedFds(steps))
    && (CoveredFrom(s0, 0) ==> CoveredFrom(s, idx))
    && (InSync(s0, ef) ==> InSync(s, ef))
  }

  /** The invariant of the dispatch loop, from `s0`, at slot `idx` in state `s` with `steps` recorded. */
  ghost predicate DispatchInv(s0: State, s: State, ef: Fd, idx: nat, steps: seq<Step>)
  {
    StepsInv(s0, idx, steps) && SlotsInv(s0, s, ef, idx, steps)
  }

  /** A cancelled or never-filled slot is skipped. */
  lemma SkipStep(s0: State, s: State, ef: Fd, idx: nat, steps: seq<Step>)
    requires DispatchInv(s0, s, ef, idx, steps)
    requires idx < s.count && s.caching[idx].fd == InvalidSocket
    ensures DispatchInv(s0, s, ef, idx + 1, steps)
  {
  }

  /** Running the callback of live slot `idx`, then possibly deleting `removed`, keeps the steps' invariant. */
  lemma CallSteps(s0: State, s: State, ef: Fd, removed: Option<Fd>, idx: nat, steps: seq<Step>)
    requires DispatchInv(s0, s, ef, idx, steps)
    requires idx < s.count && s.caching[idx].fd != InvalidSocket && s.caching[idx].fd in s.mapping
    ensures var called := steps + [Called(idx, s.caching[idx].fd, s.caching[idx].ev, s.mapping[s.caching[idx].fd])];
      var after := if removed.Some? then called + [Deleted(removed.value)] else called;
      && StepsInv(s0, idx + 1, after)
      && DeletedFds(after) == DeletedFds(steps) + (if removed.Some? then {removed.value} else {})
  {
    var event := s.caching[idx];
    var called := steps + [Called(idx, event.fd, event.ev, s.mapping[event.fd])];
    AppendCalled(steps, idx, event.fd, event.ev, s.mapping[event.fd]);
    assert forall i :: 0 <= i < |steps| ==> called[i] == steps[i];
    var after := if removed.Some? then called + [Deleted(removed.value)] else called;
    if removed.Some? {
      AppendDeleted(called, idx + 1, removed.value);
      assert forall i :: 0 <= i < |called| ==> after[i] == called[i];
    }
    assert CalledSlots(after) == CalledSlots(steps) + {idx};
  }

  /**
   * A live slot with a callback keeps the slots' invariant when its action
   * leaves state `t`: every slot keeps its event, and a slot only loses its
   * descriptor to the deletion `removed`, which leaves no live slot for it.
   */
  lemma CallSlots(s0: State, s: State, t: State, ef: Fd, removed: Option<Fd>, idx: nat, steps: seq<Step>, after: seq<Step>)
    requires SlotsInv(s0, s, ef, idx, steps)
    requires idx < s.count
    requires DeletedFds(after) == DeletedFds(steps) + (if removed.Some? then {removed.value} else {})
    requires t.count == s.count && |t.caching| == |s.caching|
    requires forall j :: 0 <= j < |s.caching| ==>
      && t.caching[j].ev == s.caching[j].ev
      && (t.caching[j].fd == s.caching[j].fd || (t.caching[j].fd == InvalidSocket && removed.Some? && s.caching[j].fd == removed.value))
    requires removed.Some? ==> forall j :: 0 <= j < s.count && j < |s.caching| ==>
      t.caching[j].fd != removed.value || t.caching[j].fd == InvalidSocket
    requires CoveredFrom(s, idx + 1) ==> CoveredFrom(t, idx + 1)
    requires InSync(s, ef) ==> InSync(t, ef)
    ensures SlotsInv(s0, t, ef, idx + 1, after)
  {
    assert CoveredFrom(s0, 0) ==> CoveredFrom(s, idx + 1);
  }

  /** A live slot with a callback whose action fails ends the batch soundly. */
  lemma FailStep(s0: State, s: State, t: State, ef: Fd, e: Errno, idx: nat, k: nat, steps: seq<Step>)
    requires DispatchInv(s0, s, ef, idx, steps)
    requires idx < s.count && s.caching[idx].fd != InvalidSocket && s.caching[idx].fd in s.mapping
    requires t.count == s.count && |t.caching| == |s.caching|
    requires InSync(s, ef) ==> InSync(t, ef)
    ensures var called := steps + [Called(idx, s.caching[idx].fd, s.caching[idx].ev, s.mapping[s.caching[idx].fd])];
      DispatchSoundness(s0, ef, (Err(CtlFailed(e)), called, k, t))
  {
    var event := s.caching[idx];
    AppendCalled(steps, idx, event.fd, event.ev, s.mapping[event.fd]);
    var called := steps + [Called(idx, event.fd, event.ev, s.mapping[event.fd])];
    assert forall i :: 0 <= i < |steps| ==> called[i] == steps[i];
  }

  /** The invariant at the end of the batch, or at a live slot with no callback, gives the soundness of the outcome. */
  lemma StopStep(s0: State, s: State, ef: Fd, idx: nat, k: nat, steps: seq<Step>)
    requires DispatchInv(s0, s, ef, idx, steps)
    ensures idx == s.count ==> DispatchSoundness(s0, ef, (Ok(()), steps, k, s))
    ensures idx < s.count && s.caching[idx].fd != InvalidSocket && s.caching[idx].fd !in s.mapping ==>
      DispatchSoundness(s0, ef, (Err(NoCallback(s.caching[idx].fd)), steps, k, s))
  {
  }

  /**
   * Running the callback of live slot `idx`: when its action fails the
   * batch ends soundly, and otherwise the invariant holds at the next slot.
   */
  lemma ActCase(s0: State, s: State, refuse: map<Fd, Errno>, ef: Fd, act: Action, idx: nat, k: nat, steps: seq<Step>)
    requires DispatchInv(s0, s, ef, idx, steps)
    requires idx < s.count && s.caching[idx].fd != InvalidSocket && s.caching[idx].fd in s.mapping
    ensures var called := steps + [Called(idx, s.caching[idx].fd, s.caching[idx].ev, s.mapping[s.caching[idx].fd])];
      var done := PerformOutcome(s, refuse, act);
      && (done.0.Err? ==> DispatchSoundness(s0, ef, (Err(CtlFailed(done.0.error)), called, k, done.1)))
      && (done.0.Ok? ==> DispatchInv(s0, done.1, ef, idx + 1, if act.Remove? then called + [Deleted(act.fd)] else called))
  {
    var event := s.caching[idx];
    var called := steps + [Called(idx, event.fd, event.ev, s.mapping[event.fd])];
    var done := PerformOutcome(s, refuse, act);
    PerformEffect(s, refuse, ef, act, idx + 1);
    if done.0.Err? {
      FailStep(s0, s, done.1, ef, done.0.error, idx, k, steps);
    } else {
      var removed := if act.Remove? then Some(act.fd) else None;
      var after := if act.Remove? then called + [Deleted(act.fd)] else called;
      assert after == if removed.Some? then called + [Deleted(removed.value)] else called;
      CallSteps(s0, s, ef, removed, idx, steps);
      CallSlots(s0, s, done.1, ef, removed, idx, steps, after);
    }
  }

  /** The dispatch loop keeps its invariant to the end, whatever the callbacks do. */
  lemma {:induction false} DispatchInvariant(s0: State, s: State, refuse: map<Fd, Errno>, ef: Fd, script: seq<Action>, idx: nat, k: nat, steps: seq<Step>)
    requires DispatchInv(s0, s, ef, idx, steps)
    ensures DispatchSoundness(s0, ef, DispatchFrom(s, refuse, script, idx, k, steps))
    decreases s.count - idx
  {
    StopStep(s0, s, ef, idx, k, steps);
    if idx < s.count {
      var event := s.caching[idx];
      if event.fd == InvalidSocket {
        SkipStep(s0, s, ef, idx, steps);
        DispatchInvariant(s0, s, refuse, ef, script, idx + 1, k, steps);
        assert DispatchFrom(s, refuse, script, idx, k, steps) == DispatchFrom(s, refuse, script, idx + 1, k, steps);
      } else if event.fd in s.mapping {
        var act := ActionAt(script, k);
        var called := steps + [Called(idx, event.fd, event.ev, s.mapping[event.fd])];
        var done := PerformOutcome(s, refuse, act);
        ActCase(s0, s, refuse, ef, act, idx, k + 1, steps);
        if done.0.Ok? {
          var after := if act.Remove? then called + [Deleted(act.fd)] else called;
          DispatchInvariant(s0, done.1, refuse, ef, script, idx + 1, k + 1, after);
          assert DispatchFrom(s, refuse, script, idx, k, steps) == DispatchFrom(done.1, refuse, script, idx + 1, k + 1, after);
        }
      }
    }
  }

  /** A whole batch dispatched from `s0` is sound in the sense of `DispatchSoundness`. */
  lemma DispatchSound(s0: State, refuse: map<Fd, Errno>, ef: Fd, script: seq<Action>, k0: nat)
    requires s0.count <= |s0.caching|
    ensures DispatchSoundness(s0, ef, DispatchFrom(s0, refuse, script, 0, k0, []))
  {
    DispatchInvariant(s0, s0, refuse, ef, script, 0, k0, []);
  }

  /**
   * A round stops the loop exactly when its poll returns 0, throws the
   * poll's error exactly when the poll fails, and otherwise, if the loop
   * goes on, polled a positive number of events.
   */
  lemma RoundPoll(s: State, refuse: map<Fd, Errno>, ef: Fd, n: nat, wait: WaitResult, script: seq<Action>, k: nat)
    ensures var o := RoundOutcome(s, refuse, ef, n, wait, script, k);
      var p := Polled(s, ef, n, wait).0;
      && (o.0 == Some(Stopped) <==> p == Ok(0))
      && (p.Err? <==> o.0.Some? && o.0.value.Thrown? && o.0.value.error.PollFailed?)
      && (p.Err? ==> o.0 == Some(Thrown(PollFailed(p.error))))
      && o.0 != Some(StillRunning)
      && (o.0.None? ==> p.Ok? && p.value > 0)
  {
  }

  /**
   * A round keeps the cache's `n` slots and leaves the batch size at 0 when
   * the loop stops or goes on; a completed batch keeps the dispatch
   * properties; while every watched descriptor has a callback, it still
   * has one after the round and "no callback" cannot be raised.
   */
  lemma RoundBatch(s: State, refuse: map<Fd, Errno>, ef: Fd, n: nat, wait: WaitResult, script: seq<Action>, k: nat)
    requires |s.caching| == n
    ensures var o := RoundOutcome(s, refuse, ef, n, wait, script, k);
      && |o.3.caching| == n
      && (o.0 == Some(Stopped) || o.0.None? ==> o.3.count == 0)
      && (o.0.None? ==> NoCallAfterDelete(o.1) && InCacheOrder(o.1, n))
      && (InSync(s, ef) ==> InSync(o.3, ef) && !(o.0.Some? && o.0.value.Thrown? && o.0.value.error.NoCallback?))
  {
    var p := Polled(s, ef, n, wait);
    PollBounds(s.caching, n, wait, s.interest, s.wake, ef);
    if p.0.Ok? && p.0.value > 0 {
      var polled := s.(caching := p.1, wake := p.2, count := p.0.value);
      DispatchSound(polled, refuse, ef, script, k);
      assert InSync(s, ef) ==> CoveredFrom(polled, 0);
    }
  }

  /**
   * `run` over the poll outcomes `waits` from the `w`-th on runs out of
   * outcomes exactly when every round completed, and records one poll
   * result per round it began.
   */
  lemma {:induction false} RunShape(s: State, refuse: map<Fd, Errno>, ef: Fd, n: nat, waits: seq<WaitResult>, script: seq<Action>, w: nat, k: nat)
    requires w <= |waits|
    ensures var o := RunFrom(s, refuse, ef, n, waits, script, w, k);
      && |o.1| <= |waits| - w
      && (o.0 == StillRunning <==> |o.1| == |waits| - w)
      && |o.2| == (if o.0 == StillRunning then |o.1| else |o.1| + 1)
    decreases |waits| - w
  {
    if w < |waits| {
      var q := RoundOutcome(s, refuse, ef, n, waits[w], script, k);
      if q.0.None? {
        RunShape(q.3, refuse, ef, n, waits, script, w + 1, q.2);
      }
    }
  }

  /** Every round `run` completed polled a positive number of events. */
  lemma {:induction false} RunPolls(s: State, refuse: map<Fd, Errno>, ef: Fd, n: nat, waits: seq<WaitResult>, script: seq<Action>, w: nat, k: nat)
    requires w <= |waits|
    ensures var o := RunFrom(s, refuse, ef, n, waits, script, w, k);
      && |o.1| <= |o.2|
      && forall i :: 0 <= i < |o.1| ==> o.2[i].Ok? && o.2[i].value > 0
    decreases |waits| - w
  {
    if w < |waits| {
      RoundPoll(s, refuse, ef, n, waits[w], script, k);
      var q := RoundOutcome(s, refuse, ef, n, waits[w], script, k);
      if q.0.None? {
        var rest := RunFrom(q.3, refuse, ef, n, waits, script, w + 1, q.2);
        RunPolls(q.3, refuse, ef, n, waits, script, w + 1, q.2);
        var o := RunFrom(s, refuse, ef, n, waits, script, w, k);
        assert o.1 == [q.1] + rest.1 && o.2 == [Polled(s, ef, n, waits[w]).0] + rest.2;
      }
    }
  }

  /**
   * When `run` returns, its last round is the first whose poll gave 0 (it
   * returns stopped) or failed (it throws that error), or whose batch threw.
   */
  lemma {:induction false} RunStop(s: State, refuse: map<Fd, Errno>, ef: Fd, n: nat, waits: seq<WaitResult>, script: seq<Action>, w: nat, k: nat)
    requires w <= |waits|
    ensures var o := RunFrom(s, refuse, ef, n, waits, script, w, k);
      o.0 != StillRunning ==>
        && |o.1| < |o.2|
        && (o.0 == Stopped ==> o.2[|o.1|] == Ok(0))
        && (o.2[|o.1|].Err? <==> o.0.Thrown? && o.0.error.PollFailed?)
    decreases |waits| - w
  {
    if w < |waits| {
      RoundPoll(s, refuse, ef, n, waits[w], script, k);
      var q := RoundOutcome(s, refuse, ef, n, waits[w], script, k);
      var p := Polled(s, ef, n, waits[w]).0;
      var o := RunFrom(s, refuse, ef, n, waits, script, w, k);
      if q.0.Some? {
        assert o == (q.0.value, [], [p], q.3);
      } else {
        var rest := RunFrom(q.3, refuse, ef, n, waits, script, w + 1, q.2);
        RunStop(q.3, refuse, ef, n, waits, script, w + 1, q.2);
        assert o == (rest.0, [q.1] + rest.1, [p] + rest.2, rest.3);
        if rest.0 != StillRunning {
          assert o.2[|o.1|] == rest.2[|rest.1|];
        }
      }
    }
  }

  /**
   * Every batch of `run` keeps the dispatch properties, the cache keeps its
   * `n` slots, the batch size is back to 0 when `run` returns stopped or
   * after a completed round, and while every watched descriptor has a
   * callback, "no callback" cannot be raised.
   */
  lemma {:induction false} RunBatches(s: State, refuse: map<Fd, Errno>, ef: Fd, n: nat, waits: seq<WaitResult>, script: seq<Action>, w: nat, k: nat)
    requires |s.caching| == n && w <= |waits|
    ensures var o := RunFrom(s, refuse, ef, n, waits, script, w, k);
      && (forall b :: b in o.1 ==> NoCallAfterDelete(b) && InCacheOrder(b, n))
      && |o.3.caching| == n
      && (o.0 == Stopped || (o.0 == StillRunning && w < |waits|) ==> o.3.count == 0)
      && (InSync(s, ef) ==> InSync(o.3, ef) && !(o.0.Thrown? && o.0.error.NoCallback?))
    decreases |waits| - w
  {
    if w < |waits| {
      RoundBatch(s, refuse, ef, n, waits[w], script, k);
      var q := RoundOutcome(s, refuse, ef, n, waits[w], script, k);
      if q.0.None? {
        RunBatches(q.3, refuse, ef, n, waits, script, w + 1, q.2);
      }
    }
  }

  class Loop {
    const epoll: Epoll
    /** Descriptor to callback (`_mapping`). */
    var mapping: map<Fd, Callback>
    /** The event cache `poll` fills (`_caching`). */
    var caching: seq<Data>
    /** How many cached events belong to the batch being dispatched (`_count`). */
    var count: nat

    ghost predicate Valid()
      reads epoll.kernel`interest
    {
      epoll.Valid()
    }

    /** The loop and its epoll instance as a `State`. */
    ghost function Snap(): State
      reads this`mapping, this`caching, this`count, epoll.kernel`interest, epoll.kernel`wake
    {
      State(mapping, caching, count, epoll.kernel.interest, epoll.kernel.wake)
    }

    /** Every descriptor epoll watches for the user has a callback. */
    ghost predicate Synced()
      reads this`mapping, this`caching, this`count, epoll.kernel`interest, epoll.kernel`wake
    {
      InSync(Snap(), epoll.ef)
    }

    /** Every live event of the batch from slot `from` on has a callback. */
    ghost predicate Covered(from: nat)
      reads this`mapping, this`caching, this`count, epoll.kernel`interest, epoll.kernel`wake
    {
      CoveredFrom(Snap(), from)
    }

    constructor (refuse: map<Fd, Errno>, ef: Fd)
      requires ef >= 0 && ef !in refuse
      ensures Valid() && Synced() && fresh(epoll) && fresh(epoll.kernel)
      ensures epoll.ef == ef && epoll.kernel.wake == 0
      ensures mapping == map[] && caching == [] && count == 0
    {
      epoll := new Epoll(refuse, ef);
      mapping := map[];
      caching := [];
      count := 0;
    }

    /**
     * `runloop::set(fd, opcode, flag, callback)`: registers with epoll, and
     * only then stores the callback, replacing any earlier one.
     */
    method Set(fd: Fd, opcode: bv32, flag: bv32, cb: Callback) returns (r: Result<(), Errno>)
      requires Valid()
      modifies this`mapping, epoll.kernel`interest
      ensures Valid()
      ensures old(Synced()) ==> Synced()
      ensures r.Ok? <==> fd >= 0 && fd !in epoll.kernel.refuse
      ensures r.Ok? ==> mapping == old(mapping)[fd := cb]
      ensures r.Ok? ==> epoll.kernel.interest == old(epoll.kernel.interest)[fd := Interest(opcode, flag)]
      ensures r.Err? ==> mapping == old(mapping) && epoll.kernel.interest == old(epoll.kernel.interest)
      ensures r.Err? ==> r.error == if fd < 0 then EBADF else epoll.kernel.refuse[fd]
      ensures (r, Snap()) == SetOutcome(old(Snap()), epoll.kernel.refuse, fd, opcode, flag, cb)
    {
      r := epoll.Set(fd, opcode, flag);
      if r.Err? {
        return;
      }
      mapping := mapping[fd := cb];
      r := Ok(());
    }

    /** `runloop::set(fd, opcode, callback)`: the same with no flag. */
    method SetWithoutFlag(fd: Fd, opcode: bv32, cb: Callback) returns (r: Result<(), Errno>)
      requires Valid()
      modifies this`mapping, epoll.kernel`interest
      ensures Valid()
      ensures old(Synced()) ==> Synced()
      ensures r.Ok? <==> fd >= 0 && fd !in epoll.kernel.refuse
      ensures r.Ok? ==> mapping == old(mapping)[fd := cb]
      ensures r.Ok? ==> epoll.kernel.interest == old(epoll.kernel.interest)[fd := Interest(opcode, 0)]
      ensures r.Err? ==> mapping == old(mapping) && epoll.kernel.interest == old(epoll.kernel.interest)
      ensures (r, Snap()) == SetOutcome(old(Snap()), epoll.kernel.refuse, fd, opcode, 0, cb)
    {
      r := Set(fd, opcode, 0, cb);
    }

    /**
     * `runloop::del`: removes `fd` from epoll and from the callbacks, then
     * cancels its events among the first `count` cached ones, so the
     * current batch will skip them. If epoll throws, nothing else changes.
     */
    method Del(fd: Fd) returns (r: Result<(), Errno>)
      requires Valid()
      requires count <= |caching|
      modifies this`mapping, this`caching, epoll.kernel`interest
      ensures Valid()
      ensures old(Synced()) ==> Synced()
      ensures epoll.kernel.interest == old(epoll.kernel.interest) - {fd}
      ensures r.Err? <==> fd >= 0 && fd in epoll.kernel.refuse && epoll.kernel.refuse[fd] !in {ENOENT, EBADF}
      ensures r.Err? ==> mapping == old(mapping) && caching == old(caching)
      ensures r.Ok? ==> mapping == old(mapping) - {fd}
      ensures |caching| == |old(caching)|
      ensures r.Ok? ==> forall j :: 0 <= j < |caching| ==>
        caching[j] == if j < count && old(caching)[j].fd == fd then Data(InvalidSocket, old(caching)[j].ev) else old(caching)[j]
      ensures (r, Snap()) == DelOutcome(old(Snap()), epoll.kernel.refuse, fd)
    {
      r := epoll.Del(fd);
      if r.Err? {
        return;
      }
      r := Ok(());
      mapping := mapping - {fd};
      var i := 0;
      while i < count
        modifies this`caching
        invariant i <= count
        invariant |caching| == |old(caching)|
        invariant forall j :: 0 <= j < |caching| ==>
          caching[j] == if j < i && old(caching)[j].fd == fd then Data(InvalidSocket, old(caching)[j].ev) else old(caching)[j]
      {
        if caching[i].fd == fd {
          caching := caching[i := caching[i].(fd := InvalidSocket)];
        }
        i := i + 1;
      }
      assert caching == Cancel(old(caching), count, fd);
    }

    /**
     * What a callback does to the loop while the batch runs. Slots only
     * ever get cancelled, a deleted descriptor has no live slot left, and
     * live slots from `from` on keep their callbacks.
     */
    method Perform(act: Action, from: nat) returns (r: Result<(), Errno>)
      requires Valid()
      requires count <= |caching|
      modifies this`mapping, this`caching, epoll.kernel`interest, epoll.kernel`wake
      ensures Valid()
      ensures old(Synced()) ==> Synced()
      ensures count == old(count) && |caching| == |old(caching)|
      ensures forall j :: 0 <= j < |caching| ==>
        caching[j].ev == old(caching[j].ev) && (caching[j].fd == old(caching[j].fd) || caching[j].fd == InvalidSocket)
      ensures r.Ok? && act.Remove? ==> forall j :: 0 <= j < count ==> caching[j].fd == InvalidSocket || caching[j].fd != act.fd
      ensures old(Covered(from)) ==> Covered(from)
      ensures (r, Snap()) == PerformOutcome(old(Snap()), epoll.kernel.refuse, act)
    {
      PerformEffect(Snap(), epoll.kernel.refuse, epoll.ef, act, from);
      r := Ok(());
      match act {
        case Idle =>
        case RequestStop =>
          Stop();
        case Register(fd, opcode, flag, cb) =>
          r := Set(fd, opcode, flag, cb);
        case Remove(fd) =>
          r := Del(fd);
      }
    }

    /**
     * The `for` loop of `run` over one batch: slots in order, skipping
     * cancelled ones, throwing when a live one has no callback, and running
     * each callback, whose action comes from `script` starting at `k0`.
     */
    method Dispatch(script: seq<Action>, k0: nat) returns (r: Result<(), RunError>, steps: seq<Step>, k: nat)
      requires Valid()
      requires count <= |caching|
      modifies this`mapping, this`caching, epoll.kernel`interest, epoll.kernel`wake
      ensures Valid()
      ensures (r, steps, k, Snap()) == DispatchFrom(old(Snap()), epoll.kernel.refuse, script, 0, k0, [])
      ensures old(Synced()) ==> Synced()
      ensures count == old(count) && |caching| == |old(caching)|
      ensures NoCallAfterDelete(steps)
      ensures InCacheOrder(steps, count)
      ensures forall i :: 0 <= i < |steps| && steps[i].Called? ==>
        steps[i].fd == old(caching)[steps[i].pos].fd && steps[i].ev == old(caching)[steps[i].pos].ev
      ensures old(Covered(0)) ==> !(r.Err? && r.error.NoCallback?)
    {
      ghost var s0 := Snap();
      steps := [];
      k := k0;
      r := Ok(());
      var idx := 0;
      while idx < count
        invariant idx <= count <= |caching|
        invariant Valid()
        invariant DispatchFrom(s0, epoll.kernel.refuse, script, 0, k0, []) == DispatchFrom(Snap(), epoll.kernel.refuse, script, idx, k, steps)
      {
        var event := caching[idx];
        if event.fd == InvalidSocket {
          idx := idx + 1;
          continue;
        }
        if event.fd !in mapping {
          r := Err(NoCallback(event.fd));
          break;
        }
        steps := steps + [Called(idx, event.fd, event.ev, mapping[event.fd])];
        var act := ActionAt(script, k);
        k := k + 1;
        var done := Perform(act, idx + 1);
        if done.Err? {
          r := Err(CtlFailed(done.error));
          break;
        }
        if act.Remove? {
          steps := steps + [Deleted(act.fd)];
        }
        idx := idx + 1;
      }
      DispatchSound(s0, epoll.kernel.refuse, epoll.ef, script, k0);
    }

    /**
     * One round of the `while` loop of `run`: poll into the cache, then
     * dispatch the batch and reset `count`. `None` means the loop goes on;
     * otherwise how `run` ends.
     */
    method Round(n: nat, wait: WaitResult, script: seq<Action>, k0: nat) returns (r: Option<RunEnd>, steps: seq<Step>, k: nat)
      requires Valid()
      requires |caching| == n
      modifies this`mapping, this`caching, this`count, epoll.kernel`interest, epoll.kernel`wake
      ensures Valid()
      ensures (r, steps, k, Snap()) == RoundOutcome(old(Snap()), epoll.kernel.refuse, epoll.ef, n, wait, script, k0)
      ensures old(Synced()) ==> Synced()
      ensures |caching| == n
      ensures r.Some? ==> r.value != StillRunning
      ensures r == Some(Stopped) || r.None? ==> count == 0
      ensures r.None? ==> NoCallAfterDelete(steps) && InCacheOrder(steps, n)
      ensures old(Synced()) ==> !(r.Some? && r.value.Thrown? && r.value.error.NoCallback?)
    {
      ghost var s0 := Snap();
      steps := [];
      k := k0;
      var p, out := epoll.Poll(caching, n, wait);
      caching := out;
      if p.Err? {
        r := Some(Thrown(PollFailed(p.error)));
      } else {
        count := p.value;
        if count == 0 {
          r := Some(Stopped);
        } else {
          var d;
          d, steps, k := Dispatch(script, k);
          if d.Err? {
            r := Some(Thrown(d.error));
          } else {
            count := 0;
            r := None;
          }
        }
      }
      RoundPoll(s0, epoll.kernel.refuse, epoll.ef, n, wait, script, k0);
      RoundBatch(s0, epoll.kernel.refuse, epoll.ef, n, wait, script, k0);
    }

    /**
     * `runloop::run(n, timeout)`: sizes the cache to `n`, then polls and
     * dispatches batch after batch, returning as soon as a poll gives 0
     * (stop, timeout or interrupt). `waits` stands for what the world makes
     * ready at each poll, `script` for what the callbacks do.
     */
    method Run(n: nat, waits: seq<WaitResult>, script: seq<Action>) returns (r: RunEnd, batches: seq<seq<Step>>)
      requires Valid()
      modifies this`mapping, this`caching, this`count, epoll.kernel`interest, epoll.kernel`wake
      ensures Valid()
      ensures var o := RunFrom(old(Snap()).(caching := Resized(old(caching), n)), epoll.kernel.refuse, epoll.ef, n, waits, script, 0, 0);
        r == o.0 && batches == o.1 && Snap() == o.3
      ensures old(Synced()) ==> Synced()
      ensures |caching| == n
      ensures r == Stopped ==> count == 0 && |batches| < |waits|
      ensures r == StillRunning ==> |batches| == |waits|
      ensures r == StillRunning && |waits| > 0 ==> count == 0
      ensures old(Synced()) ==> !(r.Thrown? && r.error.NoCallback?)
      ensures forall b :: b in batches ==> NoCallAfterDelete(b) && InCacheOrder(b, n)
    {
      caching := Resized(caching, n);
      r, batches := Rounds(n, waits, script);
      RunShape(old(Snap()).(caching := Resized(old(caching), n)), epoll.kernel.refuse, epoll.ef, n, waits, script, 0, 0);
      RunBatches(old(Snap()).(caching := Resized(old(caching), n)), epoll.kernel.refuse, epoll.ef, n, waits, script, 0, 0);
    }

    /** The `while (true)` loop of `run`, over the poll outcomes `waits`. */
    method Rounds(n: nat, waits: seq<WaitResult>, script: seq<Action>) returns (r: RunEnd, batches: seq<seq<Step>>)
      requires Valid()
      requires |caching| == n
      modifies this`mapping, this`caching, this`count, epoll.kernel`interest, epoll.kernel`wake
      ensures Valid()
      ensures var o := RunFrom(old(Snap()), epoll.kernel.refuse, epoll.ef, n, waits, script, 0, 0);
        r == o.0 && batches == o.1 && Snap() == o.3
    {
      ghost var whole := RunFrom(Snap(), epoll.kernel.refuse, epoll.ef, n, waits, script, 0, 0);
      batches := [];
      r := StillRunning;
      var k := 0;
      var w := 0;
      while w < |waits|
        invariant w <= |waits|
        invariant |caching| == n
        invariant Valid()
        invariant var o := RunFrom(Snap(), epoll.kernel.refuse, epoll.ef, n, waits, script, w, k);
          whole.0 == o.0 && whole.1 == batches + o.1 && whole.3 == o.3
      {
        var end, steps, k' := Round(n, waits[w], script, k);
        k := k';
        if end.Some? {
          r := end.value;
          break;
        }
        batches := batches + [steps];
        w := w + 1;
      }
    }

    /** `runloop::stop`: one write to the eventfd through the epoll wrapper. */
    method Stop()
      requires Valid()
      modifies epoll.kernel`wake
      ensures Valid()
      ensures epoll.kernel.wake == old(epoll.kernel.wake) + 1
    {
      epoll.Stop();
    }
  }
}
