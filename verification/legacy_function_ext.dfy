/** The older `Function.oneshot` and `Function.debounce`
    (src/scripts/extensions/function.ts), as state machines on the same
    explicit clock as the current ones.

    Neither wrapper passes arguments. The legacy `debounce` is a throttle
    rather than a debounce: the first call sets a timer, calls while it is
    pending are dropped, and the flag is cleared only after the predicate has
    run. Each run is recorded by the time it happened. */
module LegacyFunctionExt {
  import opened Wrappers

  // ----- oneshot -----

  datatype Oneshot = Oneshot(fired: bool, runs: nat)

  /** A call: the first one runs the predicate, later ones return at once. */
  function OneshotCall(s: Oneshot): (t: Oneshot)
    ensures t.fired
    ensures s.fired ==> t == s
    ensures !s.fired ==> t.runs == s.runs + 1
  {
    if s.fired then s else Oneshot(true, s.runs + 1)
  }

  /** `n` calls in a row. */
  function OneshotCalls(s: Oneshot, n: nat): Oneshot
    decreases n
  {
    if n == 0 then s else OneshotCalls(OneshotCall(s), n - 1)
  }

  lemma {:induction false} OneshotFiredStays(s: Oneshot, n: nat)
    requires s.fired
    ensures OneshotCalls(s, n) == s
    decreases n
  {
    if n > 0 {
      OneshotFiredStays(s, n - 1);
    }
  }

  /** A fresh wrapper runs its predicate once if called at all, and never
      more. */
  lemma OneshotAtMostOnce(n: nat)
    ensures OneshotCalls(Oneshot(false, 0), n).runs == if n == 0 then 0 else 1
  {
    if n > 0 {
      OneshotFiredStays(OneshotCall(Oneshot(false, 0)), n - 1);
    }
  }

  // ----- debounce -----

  /** `fired` is the closure's flag; `due` is when the one timer it may have
      set falls due; `runs` are the times the predicate ran. */
  datatype Debounce = Debounce(amount: nat, now: int, fired: bool, due: Option<int>, runs: seq<int>)

  /** The flag is set exactly while a timer is pending, so there is never more
      than one, and it lies between now and `amount` ms from now. */
  predicate Valid(s: Debounce) {
    && (s.fired <==> s.due.Some?)
    && (s.due.Some? ==> s.now <= s.due.value <= s.now + s.amount)
  }

  function NewDebounce(amount: nat, now: int): (s: Debounce)
    ensures Valid(s) && !s.fired && s.runs == []
  {
    Debounce(amount, now, false, None, [])
  }

  /** A call: dropped while a timer is pending (which keeps its due time);
      otherwise it sets the flag and a timer `amount` ms from now. */
  function DebounceCall(s: Debounce): (t: Debounce)
    requires Valid(s)
    ensures Valid(t) && t.fired
    ensures s.fired ==> t == s
    ensures !s.fired ==> t.due == Some(s.now + s.amount)
    ensures t.runs == s.runs && t.now == s.now && t.amount == s.amount
  {
    if s.fired then s else s.(fired := true, due := Some(s.now + s.amount))
  }

  /** `ms` milliseconds pass: a timer due in that time runs the predicate at
      its due time and then clears the flag. */
  function Wait(s: Debounce, ms: nat): (t: Debounce)
    requires Valid(s)
    ensures Valid(t)
    ensures t.now == s.now + ms && t.amount == s.amount
    ensures s.due.Some? && s.due.value <= s.now + ms ==> !t.fired && t.runs == s.runs + [s.due.value]
    ensures !(s.due.Some? && s.due.value <= s.now + ms) ==> t.due == s.due && t.runs == s.runs
  {
    if s.due.Some? && s.due.value <= s.now + ms then Debounce(s.amount, s.now + ms, false, None, s.runs + [s.due.value])
    else s.(now := s.now + ms)
  }

  datatype Event = Call | Advance(ms: nat)

  function Step(s: Debounce, e: Event): (t: Debounce)
    requires Valid(s)
    ensures Valid(t) && t.amount == s.amount
  {
    match e
    case Call => DebounceCall(s)
    case Advance(ms) => Wait(s, ms)
  }

  function Play(s: Debounce, events: seq<Event>): (t: Debounce)
    requires Valid(s)
    ensures Valid(t) && t.amount == s.amount
    decreases |events|
  {
    if events == [] then s else Play(Step(s, events[0]), events[1..])
  }

  /** How many of the events are calls. */
  function Calls(events: seq<Event>): (n: nat)
    ensures n <= |events|
  {
    if events == [] then 0 else (if events[0].Call? then 1 else 0) + Calls(events[1..])
  }

  /** How much time the events let pass. */
  function Elapsed(events: seq<Event>): nat {
    if events == [] then 0 else (if events[0].Advance? then events[0].ms else 0) + Elapsed(events[1..])
  }

  /** The timer is anchored to the call that set it: calls and waits that end
      before it is due neither move it nor run anything. */
  lemma {:induction false} Anchored(s: Debounce, events: seq<Event>)
    requires Valid(s) && s.due.Some?
    requires s.now + Elapsed(events) < s.due.value
    ensures Play(s, events).due == s.due && Play(s, events).runs == s.runs
    decreases |events|
  {
    if events != [] {
      Anchored(Step(s, events[0]), events[1..]);
    }
  }

  function Pending(s: Debounce): nat {
    if s.fired then 1 else 0
  }

  /** Every run was opened by a call: runs plus the pending timer never
      outnumber the calls. */
  lemma {:induction false} RunsWithinCalls(s: Debounce, events: seq<Event>)
    requires Valid(s)
    ensures |Play(s, events).runs| + Pending(Play(s, events)) <= |s.runs| + Pending(s) + Calls(events)
    decreases |events|
  {
    if events != [] {
      RunsWithinCalls(Step(s, events[0]), events[1..]);
    }
  }

  /** Once the predicate has run, the next call opens a new window `amount`
      ms from that call. */
  lemma ReopensAfterRun(s: Debounce, ms: nat)
    requires Valid(s) && s.due.Some? && s.due.value <= s.now + ms
    ensures DebounceCall(Wait(s, ms)).due == Some(s.now + ms + s.amount)
  {
  }

  /** The reset test played against the older wrapper: the second call is
      dropped, so the predicate runs 100 ms after the first call, where the
      current wrapper has not run yet. */
  lemma ResetExample()
    ensures Play(NewDebounce(100, 0), [Call, Advance(50), Call, Advance(50)]).runs == [100]
  {
    var s := NewDebounce(100, 0);
    var t1 := Wait(DebounceCall(s), 50);
    var t2 := Wait(DebounceCall(t1), 50);
    assert t2.runs == [100];
    assert Play(s, [Call, Advance(50), Call, Advance(50)]) == t2 by {
      assert [Call, Advance(50), Call, Advance(50)][1..] == [Advance(50), Call, Advance(50)];
      assert [Advance(50), Call, Advance(50)][1..] == [Call, Advance(50)];
      assert [Call, Advance(50)][1..] == [Advance(50)];
    }
  }
}
