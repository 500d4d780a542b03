/**
 * `chen::ev_timer` (include/socket/base/ev_timer.hpp): a one-shot or
 * repeating deadline, and the comparator that orders timers by their next
 * deadline inside a multiset. Durations and time points are whole
 * nanoseconds.
 */
module EvTimer {
  import opened Wrappers

  /** `std::chrono::nanoseconds`. */
  type Nanos = int

  /** A `high_resolution_clock::time_point`, as nanoseconds since the clock's epoch. */
  type TimePoint = int

  /** The callback a timer notifies, as an identifier (`std::function<void ()>`). */
  type Callback = nat

  class Timer {
    /** Whether the timer fires again after it expires (`_repeat`). */
    var repeat: bool
    /** The period given to `timeout` or `interval` (`_cycle`). */
    var cycle: Nanos
    /** The next time point the timer fires at (`_alarm`). */
    var alarm: TimePoint
    /** The attached callback (`_notify`), absent until one is attached. */
    var notify: Option<Callback>

    /**
     * `ev_timer()`: not repeating, the alarm at the clock's epoch and no
     * callback. `_cycle` is left uninitialised there, so it is a parameter.
     */
    constructor (cycle: Nanos)
      ensures !repeat && this.cycle == cycle && alarm == 0 && notify == None
    {
      repeat := false;
      this.cycle := cycle;
      alarm := 0;
      notify := None;
    }

    /** `ev_timer(cb)`: the same with `cb` attached. */
    constructor WithCallback(cycle: Nanos, cb: Callback)
      ensures !repeat && this.cycle == cycle && alarm == 0 && notify == Some(cb)
    {
      repeat := false;
      this.cycle := cycle;
      alarm := 0;
      notify := Some(cb);
    }

    /** `attach(cb)`: replaces the callback and nothing else. */
    method Attach(cb: Callback)
      modifies this`notify
      ensures notify == Some(cb)
    {
      notify := Some(cb);
    }

    /** `timeout(value)`: fire once, `value` after the timer is set up. */
    method Timeout(value: Nanos)
      modifies this`repeat, this`cycle
      ensures !repeat && cycle == value
    {
      repeat := false;
      cycle := value;
    }

    /** `future(value)`: fire once, at the time point `value`. */
    method Future(value: TimePoint)
      modifies this`repeat, this`alarm
      ensures !repeat && alarm == value
      ensures forall now :: Expire(now) <==> value <= now
    {
      repeat := false;
      alarm := value;
    }

    /** `interval(value)`: fire every `value`. */
    method Interval(value: Nanos)
      modifies this`repeat, this`cycle
      ensures repeat && cycle == value
    {
      repeat := true;
      cycle := value;
    }

    /** `expire(now)`: the deadline has been reached. A query: it reads the timer and changes nothing. */
    predicate Expire(now: TimePoint)
      reads this`alarm
    {
      alarm <= now
    }
  }

  /** `ev_timer::Compare`: `a` goes before `b` when its alarm is strictly earlier. */
  predicate Compare(a: Timer, b: Timer)
    reads a`alarm, b`alarm
  {
    a.alarm < b.alarm
  }

  /** Two timers are equivalent under `Compare` when neither goes before the other. */
  predicate Equivalent(a: Timer, b: Timer)
    reads a`alarm, b`alarm
  {
    !Compare(a, b) && !Compare(b, a)
  }

  /** No timer goes before itself. */
  lemma CompareIrreflexive(a: Timer)
    ensures !Compare(a, a)
  {
  }

  /** `Compare` never holds both ways. */
  lemma CompareAsymmetric(a: Timer, b: Timer)
    ensures Compare(a, b) ==> !Compare(b, a)
  {
  }

  lemma CompareTransitive(a: Timer, b: Timer, c: Timer)
    requires Compare(a, b) && Compare(b, c)
    ensures Compare(a, c)
  {
  }

  /**
   * Timers with the same alarm are equivalent, and only those, so a
   * multiset ordered by `Compare` keeps every one of them.
   */
  lemma EquivalentIffSameAlarm(a: Timer, b: Timer)
    ensures Equivalent(a, b) <==> a.alarm == b.alarm
  {
  }

  /** Equivalence is transitive, which makes `Compare` a strict weak order. */
  lemma EquivalentTransitive(a: Timer, b: Timer, c: Timer)
    requires Equivalent(a, b) && Equivalent(b, c)
    ensures Equivalent(a, c)
  {
  }

  /** A timer that nothing goes before has expired whenever any other has. */
  lemma FirstExpiresFirst(a: Timer, b: Timer, now: TimePoint)
    requires !Compare(b, a)
    requires b.Expire(now)
    ensures a.Expire(now)
  {
  }

  /** Once expired, a timer whose alarm is not moved stays expired. */
  lemma ExpireStays(t: Timer, now: TimePoint, later: TimePoint)
    requires t.Expire(now) && now <= later
    ensures t.Expire(later)
  {
  }
}
