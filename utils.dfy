/**
 * Utils: the console's shared helpers — the message log capped at about
 * fifty entries, and the throttle and debounce wrappers.  A wrapped
 * function's calls are recorded with the arguments (and receiver) they
 * carried; timers are the events that end a throttle window or run a
 * debounced call.
 */
module Utils {
  import opened Common

  /** MAX_MESSAGES. */
  const MaxMessages: nat := 50

  /** A log entry: its text and its optional style class ("" for none). */
  datatype Message = Message(text: string, kind: string)

  /** What the removal loop leaves of a log: its newest MaxMessages
      entries, or all of it when it is no longer than that. */
  function Trimmed<T>(log: seq<T>): (r: seq<T>)
    ensures |r| == if |log| > MaxMessages then MaxMessages else |log|
  {
    if |log| > MaxMessages then log[|log| - MaxMessages..] else log
  }

  /** After adding a message the log holds at most MaxMessages + 1
      entries and ends with the new one; only the oldest entries are
      dropped, the survivors keep their order, and a log of at most
      MaxMessages entries loses nothing and grows by one. */
  lemma AddMessageKeepsNewest<T>(log: seq<T>, m: T)
    ensures var r := Trimmed(log) + [m];
      && |r| <= MaxMessages + 1
      && r[|r| - 1] == m
      && log == log[..|log| - |Trimmed(log)|] + Trimmed(log)
      && (|log| <= MaxMessages ==> r == log + [m] && |r| == |log| + 1)
  {
  }

  /** The message container. */
  class MessageLog {
    var entries: seq<Message>

    constructor (entries: seq<Message>)
      ensures this.entries == entries
    {
      this.entries := entries;
    }

    /** addMessage(text, type): drop the oldest entries while there are
        more than MaxMessages, then append the new one. */
    method AddMessage(text: string, kind: string)
      modifies this
      ensures entries == Trimmed(old(entries)) + [Message(text, kind)]
    {
      while |entries| > MaxMessages
        invariant |entries| >= MaxMessages || entries == old(entries)
        invariant entries == old(entries)[|old(entries)| - |entries|..]
        decreases |entries|
      {
        entries := entries[1..];
      }
      entries := entries + [Message(text, kind)];
    }
  }

  // ---------------------------------------------------------------------
  // throttle(func, limit)
  // ---------------------------------------------------------------------

  /** inThrottle, the timers set and not yet fired, and the calls that
      reached func. */
  datatype Throttle<A> = Throttle(inThrottle: bool, timers: nat, invoked: seq<A>)

  /** A call of the wrapper: outside a window it runs func and opens one;
      inside, it is dropped. */
  function ThrottleCall<A>(t: Throttle<A>, a: A): Throttle<A>
  {
    if !t.inThrottle then t.(inThrottle := true, timers := t.timers + 1, invoked := t.invoked + [a]) else t
  }

  /** The window's timer ends it. */
  function ThrottleTimer<A>(t: Throttle<A>): Throttle<A>
    requires t.timers > 0
  {
    t.(inThrottle := false, timers := t.timers - 1)
  }

  /** A window is open exactly while its one timer is outstanding. */
  ghost predicate ThrottleInv<A>(t: Throttle<A>)
  {
    t.timers <= 1 && (t.inThrottle <==> t.timers == 1)
  }

  lemma ThrottleInvPreserved<A>(t: Throttle<A>, a: A)
    requires ThrottleInv(t)
    ensures ThrottleInv(ThrottleCall(t, a))
    ensures t.timers > 0 ==> ThrottleInv(ThrottleTimer(t))
  {
  }

  function ThrottleCalls<A>(t: Throttle<A>, calls: seq<A>): Throttle<A>
    decreases |calls|
  {
    if calls == [] then t else ThrottleCalls(ThrottleCall(t, calls[0]), calls[1..])
  }

  /** Between two timer events func runs at most once: the first call of a
      run outside a window runs it with that call's arguments, and every
      other call of the run is dropped. */
  lemma {:induction false} ThrottleRunsFirstOnly<A>(t: Throttle<A>, calls: seq<A>)
    requires ThrottleInv(t)
    ensures var r := ThrottleCalls(t, calls);
      && ThrottleInv(r)
      && (t.inThrottle || calls == [] ==> r == t)
      && (!t.inThrottle && calls != [] ==> r.invoked == t.invoked + [calls[0]] && r.inThrottle)
    decreases |calls|
  {
    if calls != [] {
      var t1 := ThrottleCall(t, calls[0]);
      ThrottleInvPreserved(t, calls[0]);
      ThrottleRunsFirstOnly(t1, calls[1..]);
    }
  }

  class Throttled<A> {
    var inThrottle: bool
    var timers: nat
    var invoked: seq<A>

    function State(): Throttle<A>
      reads this
    {
      Throttle(inThrottle, timers, invoked)
    }

    /** inThrottle starts undefined, which is falsy. */
    constructor ()
      ensures State() == Throttle(false, 0, [])
    {
      inThrottle, timers, invoked := false, 0, [];
    }

    method Call(a: A)
      modifies this
      ensures State() == ThrottleCall(old(State()), a)
    {
      if !inThrottle {
        invoked := invoked + [a];
        inThrottle := true;
        timers := timers + 1;
      }
    }

    method TimerFired()
      requires timers > 0
      modifies this
      ensures State() == ThrottleTimer(old(State()))
    {
      inThrottle := false;
      timers := timers - 1;
    }
  }

  // ---------------------------------------------------------------------
  // debounce(func, wait)
  // ---------------------------------------------------------------------

  /** The arguments of the timeout still set (cleared ones never fire),
      and the calls that reached func. */
  datatype Debounce<A> = Debounce(pending: Option<A>, invoked: seq<A>)

  /** A call clears the pending timeout and sets a new one for itself. */
  function DebounceCall<A>(d: Debounce<A>, a: A): Debounce<A>
  {
    d.(pending := Some(a))
  }

  /** The timeout that survived `wait` without a further call fires. */
  function DebounceFire<A>(d: Debounce<A>): Debounce<A>
    requires d.pending.Some?
  {
    Debounce(None, d.invoked + [d.pending.value])
  }

  function DebounceCalls<A>(d: Debounce<A>, calls: seq<A>): Debounce<A>
    decreases |calls|
  {
    if calls == [] then d else DebounceCalls(DebounceCall(d, calls[0]), calls[1..])
  }

  /** A burst of calls runs func not at all until the timeout fires, and
      then once, with the last call's arguments. */
  lemma {:induction false} DebounceRunsLastOnce<A>(d: Debounce<A>, calls: seq<A>)
    requires calls != []
    ensures DebounceCalls(d, calls).invoked == d.invoked
    ensures DebounceCalls(d, calls).pending == Some(calls[|calls| - 1])
    ensures DebounceFire(DebounceCalls(d, calls)).invoked == d.invoked + [calls[|calls| - 1]]
    decreases |calls|
  {
    if |calls| > 1 {
      DebounceRunsLastOnce(DebounceCall(d, calls[0]), calls[1..]);
      assert calls[1..][|calls[1..]| - 1] == calls[|calls| - 1];
    }
  }

  class Debounced<A> {
    var pending: Option<A>
    var invoked: seq<A>

    function State(): Debounce<A>
      reads this
    {
      Debounce(pending, invoked)
    }

    constructor ()
      ensures State() == Debounce(None, [])
    {
      pending, invoked := None, [];
    }

    method Call(a: A)
      modifies this
      ensures State() == DebounceCall(old(State()), a)
    {
      pending := Some(a);
    }

    method TimeoutFired()
      requires pending.Some?
      modifies this
      ensures State() == DebounceFire(old(State()))
    {
      invoked := invoked + [pending.value];
      pending := None;
    }
  }
}
