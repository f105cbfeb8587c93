/** `Function.oneshot` and `Function.debounce`
    (src/scripts/utils/extensions/function.ts) as state machines.

    The wrapper's closure state becomes a datatype; a call of the wrapper and
    the passing of time are transitions. Time is an explicit clock in
    milliseconds that advances only by `Wait`, which fires the pending timer
    when it falls due, in the manner of a fake-timer `advanceTimersByTime`.
    Each run of the predicate is recorded with its arguments and the time it
    ran, which is how the properties observe the predicate. */
module FunctionExt {
  import opened Wrappers

  /** One run of the predicate: the arguments it got and when it ran. */
  datatype Run<A> = Run(args: A, at: int)

  // ----- oneshot -----

  datatype Oneshot<A> = Oneshot(fired: bool, runs: seq<A>)

  function NewOneshot<A>(): (s: Oneshot<A>)
    ensures !s.fired && s.runs == []
  {
    Oneshot(false, [])
  }

  /** A call of the `oneshot` wrapper: the first one runs the predicate with the
      call's arguments, every later one does nothing. */
  function OneshotCall<A>(s: Oneshot<A>, args: A): (t: Oneshot<A>)
    ensures t.fired
    ensures s.fired ==> t == s
    ensures !s.fired ==> t.runs == s.runs + [args]
  {
    if s.fired then s else Oneshot(true, s.runs + [args])
  }

  /** A sequence of calls, in order. */
  function OneshotCalls<A>(s: Oneshot<A>, calls: seq<A>): Oneshot<A>
    decreases |calls|
  {
    if calls == [] then s else OneshotCalls(OneshotCall(s, calls[0]), calls[1..])
  }

  lemma {:induction false} OneshotFiredStays<A>(s: Oneshot<A>, calls: seq<A>)
    requires s.fired
    ensures OneshotCalls(s, calls) == s
    decreases |calls|
  {
    if calls != [] {
      OneshotFiredStays(s, calls[1..]);
    }
  }

  /** Whatever the calls, a fresh `oneshot` wrapper runs its predicate at most
      once, and exactly once, with the first call's arguments, if it is called
      at all. */
  lemma OneshotAtMostOnce<A>(calls: seq<A>)
    ensures var t := OneshotCalls(NewOneshot(), calls);
            && |t.runs| <= 1
            && (calls == [] <==> t.runs == [])
            && (calls != [] ==> t.runs == [calls[0]])
  {
    if calls != [] {
      var s := OneshotCall(NewOneshot<A>(), calls[0]);
      OneshotFiredStays(s, calls[1..]);
    }
  }

  // ----- debounce -----

  /** The pending timer: when it falls due and the arguments it will pass. */
  datatype Timer<A> = Timer(due: int, args: A)

  datatype Debounce<A> = Debounce(amount: nat, now: int, pending: Option<Timer<A>>, runs: seq<Run<A>>)

  /** A pending timer never lies in the past, nor further ahead than `amount`. */
  predicate Valid<A>(s: Debounce<A>) {
    s.pending.Some? ==> s.now <= s.pending.value.due <= s.now + s.amount
  }

  function NewDebounce<A>(amount: nat, now: int): (s: Debounce<A>)
    ensures Valid(s) && s.pending.None? && s.runs == []
  {
    Debounce(amount, now, None, [])
  }

  /** A call of the `debounce` wrapper: the pending timer, if any, is cleared
      and a new one is set `amount` ms from now with this call's arguments;
      nothing runs. */
  function DebounceCall<A>(s: Debounce<A>, args: A): (t: Debounce<A>)
    ensures Valid(t)
    ensures t.pending == Some(Timer(s.now + s.amount, args))
    ensures t.runs == s.runs && t.now == s.now && t.amount == s.amount
  {
    s.(pending := Some(Timer(s.now + s.amount, args)))
  }

  /** `ms` milliseconds pass: a timer that falls due in that time runs the
      predicate at its due time and is gone; otherwise nothing runs. */
  function Wait<A>(s: Debounce<A>, ms: nat): (t: Debounce<A>)
    requires Valid(s)
    ensures Valid(t)
    ensures t.now == s.now + ms && t.amount == s.amount
    ensures s.pending.Some? && s.pending.value.due <= s.now + ms ==>
              t.pending.None? && t.runs == s.runs + [Run(s.pending.value.args, s.pending.value.due)]
    ensures !(s.pending.Some? && s.pending.value.due <= s.now + ms) ==> t.pending == s.pending && t.runs == s.runs
  {
    match s.pending
    case Some(timer) =>
      if timer.due <= s.now + ms then Debounce(s.amount, s.now + ms, None, s.runs + [Run(timer.args, timer.due)])
      else s.(now := s.now + ms)
    case None => s.(now := s.now + ms)
  }

  /** What can happen to a wrapper: a call, or time passing. */
  datatype Event<A> = Call(args: A) | Advance(ms: nat)

  function Step<A>(s: Debounce<A>, e: Event<A>): (t: Debounce<A>)
    requires Valid(s)
    ensures Valid(t) && t.amount == s.amount
  {
    match e
    case Call(args) => DebounceCall(s, args)
    case Advance(ms) => Wait(s, ms)
  }

  function Play<A>(s: Debounce<A>, events: seq<Event<A>>): (t: Debounce<A>)
    requires Valid(s)
    ensures Valid(t) && t.amount == s.amount
    decreases |events|
  {
    if events == [] then s else Play(Step(s, events[0]), events[1..])
  }

  /** Calls with no time between them. */
  function Burst<A>(calls: seq<A>): (events: seq<Event<A>>)
    ensures |events| == |calls|
  {
    if calls == [] then [] else [Call(calls[0])] + Burst(calls[1..])
  }

  lemma {:induction false} BurstState<A>(s: Debounce<A>, calls: seq<A>)
    requires Valid(s) && calls != []
    ensures var t := Play(s, Burst(calls));
            t.pending == Some(Timer(s.now + s.amount, calls[|calls| - 1])) && t.runs == s.runs && t.now == s.now
    decreases |calls|
  {
    var t := DebounceCall(s, calls[0]);
    assert Burst(calls)[1..] == Burst(calls[1..]);
    if |calls| > 1 {
      BurstState(t, calls[1..]);
    }
  }

  /** A burst of calls runs the predicate exactly once, `amount` ms after the
      burst, with the last call's arguments. */
  lemma BurstRunsOnce<A>(s: Debounce<A>, calls: seq<A>)
    requires Valid(s) && calls != []
    ensures var t := Wait(Play(s, Burst(calls)), s.amount);
            t.runs == s.runs + [Run(calls[|calls| - 1], s.now + s.amount)] && t.pending.None?
  {
    BurstState(s, calls);
    var b := Play(s, Burst(calls));
    assert b.pending == Some(Timer(s.now + s.amount, calls[|calls| - 1]));
    assert b.now == s.now && b.runs == s.runs;
    assert b.pending.value.due <= b.now + s.amount;
    var t := Wait(b, s.amount);
    assert t.runs == b.runs + [Run(b.pending.value.args, b.pending.value.due)];
  }

  /** Right after a call, nothing runs before `amount` ms have passed. */
  lemma NotBeforeAmount<A>(s: Debounce<A>, args: A, ms: nat)
    requires Valid(s) && ms < s.amount
    ensures Wait(DebounceCall(s, args), ms).runs == s.runs
  {
  }

  /** Calls, each followed by less than `amount` ms of waiting. */
  function Spaced<A>(args: A, gaps: seq<nat>): seq<Event<A>> {
    if gaps == [] then [] else [Call(args), Advance(gaps[0])] + Spaced(args, gaps[1..])
  }

  /** Calls spaced closer than `amount` keep postponing the run: however many
      there are, the predicate does not run, and one timer is pending. */
  lemma {:induction false} KeepPostponing<A>(s: Debounce<A>, args: A, gaps: seq<nat>)
    requires Valid(s) && gaps != []
    requires forall i :: 0 <= i < |gaps| ==> gaps[i] < s.amount
    ensures var t := Play(s, Spaced(args, gaps));
            t.runs == s.runs && t.pending.Some?
    decreases |gaps|
  {
    var t1 := DebounceCall(s, args);
    var t2 := Wait(t1, gaps[0]);
    var rest := Spaced(args, gaps[1..]);
    assert Spaced(args, gaps) == [Call(args), Advance(gaps[0])] + rest;
    assert Play(s, Spaced(args, gaps)) == Play(t2, rest) by {
      assert ([Call(args), Advance(gaps[0])] + rest)[1..] == [Advance(gaps[0])] + rest;
      assert ([Advance(gaps[0])] + rest)[1..] == rest;
    }
    if gaps[1..] != [] {
      KeepPostponing(t2, args, gaps[1..]);
    }
  }

  /** The repository's test: three calls, then 100 ms, run the predicate once. */
  lemma DebounceExample()
    ensures var t := Wait(Play(NewDebounce<int>(100, 0), Burst([1, 2, 3])), 100);
            t.runs == [Run(3, 100)]
  {
    BurstRunsOnce(NewDebounce<int>(100, 0), [1, 2, 3]);
  }

  /** The repository's reset test: a call, 50 ms, a call, 50 ms, and nothing
      has run; 50 ms later the predicate runs once, 100 ms after the second
      call. */
  lemma ResetExample()
    ensures var t := Play(NewDebounce<int>(100, 0), [Call(1), Advance(50), Call(2), Advance(50)]);
            && t.runs == []
            && Wait(t, 50).runs == [Run(2, 150)]
  {
    var s := NewDebounce<int>(100, 0);
    KeepPostponing(s, 1, [50, 50]);
    var t1 := Wait(DebounceCall(s, 1), 50);
    var t2 := Wait(DebounceCall(t1, 2), 50);
    assert t2.pending == Some(Timer(150, 2)) && t2.runs == [];
    assert Play(s, [Call(1), Advance(50), Call(2), Advance(50)]) == t2 by {
      assert [Call(1), Advance(50), Call(2), Advance(50)][1..] == [Advance(50), Call(2), Advance(50)];
      assert [Advance(50), Call(2), Advance(50)][1..] == [Call(2), Advance(50)];
      assert [Call(2), Advance(50)][1..] == [Advance(50)];
    }
  }
}
