/** The trailing-edge debouncer of src/debounce.ts.

    The wrapper returned by `debounce(fn, delay)` keeps one captured variable,
    `timeoutId`. Every call clears the timer that variable names and schedules a
    new one, `delay` later, that will run `fn` with the call's arguments. The host
    timer API is made explicit: `live` lists the wrapper's timers that are still
    scheduled, a clock value is passed to every step, and a `Tick(now)` step
    stands for the host running a timer whose time has come. `fired` records
    every invocation of `fn` by its arguments. */
module Debounce {
  import opened Wrappers

  /** A timer registered by `setTimeout`: its id, the time it is due and the
      arguments its callback passes to `fn`. */
  datatype Timer<A> = Timer(id: nat, due: int, args: A)

  /** What one wrapper can observe or cause.
      timeoutId: the closure's variable; undefined before the first call and never reset.
      nextId:    the next timer id the host hands out.
      live:      the wrapper's timers still scheduled with the host, oldest first.
      fired:     the arguments of every invocation of `fn` so far, oldest first. */
  datatype State<A> = State(timeoutId: Option<nat>, nextId: nat, live: seq<Timer<A>>, fired: seq<A>)

  /** The state right after `debounce(fn, delay)` returns. */
  function Initial<A>(): State<A> {
    State(None, 0, [], [])
  }

  /** The delay the host honours: `setTimeout` treats a negative delay as zero. */
  function EffectiveDelay(delay: int): nat {
    if delay < 0 then 0 else delay
  }

  /** `clearTimeout(id)`: the timer with that id is no longer scheduled; an
      undefined id, or one whose timer already ran, changes nothing. */
  function ClearTimeout<A>(live: seq<Timer<A>>, id: Option<nat>): (r: seq<Timer<A>>)
    ensures id.None? ==> r == live
    ensures forall i :: 0 <= i < |r| ==> r[i] in live && Some(r[i].id) != id
    ensures forall i :: 0 <= i < |live| && Some(live[i].id) != id ==> live[i] in r
    ensures (forall i :: 0 <= i < |live| ==> Some(live[i].id) == id) ==> r == []
    ensures (forall i :: 0 <= i < |live| ==> Some(live[i].id) != id) ==> r == live
    decreases |live|
  {
    if id.None? || live == [] then live
    else (if live[0].id == id.value then [] else [live[0]]) + ClearTimeout(live[1..], id)
  }

  /** One call of the wrapper at time `now` (src/debounce.ts:7-11): clear the
      timer named by `timeoutId`, schedule a fresh one and remember its id. */
  function CallStep<A>(s: State<A>, delay: int, now: int, args: A): State<A> {
    var t := Timer(s.nextId, now + EffectiveDelay(delay), args);
    State(Some(t.id), s.nextId + 1, ClearTimeout(s.live, s.timeoutId) + [t], s.fired)
  }

  /** The host at time `now`: the oldest scheduled timer runs `fn` with its
      arguments once it is due, and is then no longer scheduled. */
  function TickStep<A>(s: State<A>, now: int): State<A> {
    if |s.live| > 0 && s.live[0].due <= now then
      State(s.timeoutId, s.nextId, s.live[1..], s.fired + [s.live[0].args])
    else
      s
  }

  /** The invariant the wrapper keeps: at most one timer is scheduled, it is
      the one `timeoutId` names, and every id handed out is below `nextId`. */
  predicate Valid<A>(s: State<A>) {
    && |s.live| <= 1
    && (forall i :: 0 <= i < |s.live| ==> s.timeoutId == Some(s.live[i].id))
    && (s.timeoutId.Some? ==> s.timeoutId.value < s.nextId)
  }

  /** The pending invocation, if any. */
  function Pending<A>(s: State<A>): Option<Timer<A>> {
    if s.live == [] then None else Some(s.live[0])
  }

  lemma InitialIsValid<A>()
    ensures Valid(Initial<A>()) && Pending(Initial<A>()) == None && Initial<A>().fired == []
  {
  }

  /** A call cancels whatever was pending and leaves exactly one pending
      invocation: a fresh timer carrying this call's arguments, due `delay`
      after `now`. It never runs `fn` itself. */
  lemma CallReschedules<A>(s: State<A>, delay: int, now: int, args: A)
    requires Valid(s)
    ensures var r := CallStep(s, delay, now, args);
      && Valid(r)
      && r.live == [Timer(s.nextId, now + EffectiveDelay(delay), args)]
      && Pending(r) == Some(Timer(s.nextId, now + EffectiveDelay(delay), args))
      && r.fired == s.fired
      && (forall i :: 0 <= i < |s.live| ==> s.live[i] !in r.live)
  {
  }

  /** Before the pending invocation is due, or when nothing is pending, the
      host has nothing to run. */
  lemma TickBeforeDueIsNoop<A>(s: State<A>, now: int)
    requires Pending(s).None? || now < Pending(s).value.due
    ensures TickStep(s, now) == s
  {
  }

  /** The invocation a call schedules becomes due exactly `delay` after the
      call: a tick one time unit earlier runs nothing, a tick at that time runs
      `fn` with the call's arguments. A negative delay acts as zero, so the
      invocation is due at the call's own time (still never during the call). */
  lemma CallIsDueAfterDelay<A>(s: State<A>, delay: int, now: int, args: A)
    requires Valid(s)
    ensures var r := CallStep(s, delay, now, args);
      var due := if delay < 0 then now else now + delay;
      && TickStep(r, due - 1) == r
      && TickStep(r, due).fired == s.fired + [args]
      && Pending(TickStep(r, due)) == None
  {
    CallReschedules(s, delay, now, args);
  }

  /** Once due, the pending invocation runs `fn` exactly once with its
      arguments and the slot is empty afterwards. */
  lemma TickFires<A>(s: State<A>, now: int)
    requires Valid(s) && Pending(s).Some? && Pending(s).value.due <= now
    ensures var r := TickStep(s, now);
      && Valid(r)
      && Pending(r) == None
      && r.fired == s.fired + [Pending(s).value.args]
      && r.timeoutId == s.timeoutId
  {
  }

  /** Every step keeps the invariant. */
  lemma TickKeepsValid<A>(s: State<A>, now: int)
    requires Valid(s)
    ensures Valid(TickStep(s, now))
    ensures TickStep(s, now).fired == s.fired || TickStep(s, now).fired == s.fired + [s.live[0].args]
  {
  }

  /** After the invocation has run, `timeoutId` still names the spent timer.
      The next call's `clearTimeout` on it is harmless and the call schedules
      afresh. */
  lemma CallAfterFireSchedulesAfresh<A>(s: State<A>, t0: int, t1: int, delay: int, args: A)
    requires Valid(s) && Pending(s).Some? && Pending(s).value.due <= t0
    ensures var fired := TickStep(s, t0);
      && fired.timeoutId == s.timeoutId
      && ClearTimeout(fired.live, fired.timeoutId) == []
      && var r := CallStep(fired, delay, t1, args);
      && Pending(r) == Some(Timer(s.nextId, t1 + EffectiveDelay(delay), args))
      && r.fired == s.fired + [Pending(s).value.args]
  {
    TickFires(s, t0);
    CallReschedules(TickStep(s, t0), delay, t1, args);
  }

  // ---------------------------------------------------------------------------
  // Traces of calls and ticks

  datatype Event<A> = CallAt(now: int, args: A) | TickAt(now: int)

  function Step<A>(s: State<A>, delay: int, e: Event<A>): State<A> {
    match e
    case CallAt(now, args) => CallStep(s, delay, now, args)
    case TickAt(now) => TickStep(s, now)
  }

  /** The state after the events of `trace`, in order. */
  function Run<A>(s: State<A>, delay: int, trace: seq<Event<A>>): State<A>
    decreases |trace|
  {
    if trace == [] then s else Run(Step(s, delay, trace[0]), delay, trace[1..])
  }

  /** Over any trace the invariant holds and invocations of `fn` are only
      ever appended: at most one invocation is pending at any time. */
  lemma {:induction false} RunKeepsValid<A>(s: State<A>, delay: int, trace: seq<Event<A>>)
    requires Valid(s)
    ensures var r := Run(s, delay, trace);
      Valid(r) && |r.live| <= 1 && s.fired <= r.fired
    decreases |trace|
  {
    if trace != [] {
      var s' := Step(s, delay, trace[0]);
      match trace[0] {
        case CallAt(now, args) => CallReschedules(s, delay, now, args);
        case TickAt(now) => TickKeepsValid(s, now);
      }
      RunKeepsValid(s', delay, trace[1..]);
    }
  }

  /** Every tick of `trace` comes strictly before the deadline of the latest
      call before it; `lastCall` is the time of the latest call so far. */
  predicate TicksBeforeDeadline<A>(trace: seq<Event<A>>, delay: int, lastCall: int)
    decreases |trace|
  {
    trace == [] ||
    match trace[0]
    case CallAt(now, _) => TicksBeforeDeadline(trace[1..], delay, now)
    case TickAt(now) => now < lastCall + EffectiveDelay(delay) && TicksBeforeDeadline(trace[1..], delay, lastCall)
  }

  /** A burst: a trace that starts with a call and in which each tick comes
      before the latest call's deadline (so every call arrives while the
      previous one is still pending). */
  predicate Burst<A>(trace: seq<Event<A>>, delay: int) {
    |trace| > 0 && trace[0].CallAt? && TicksBeforeDeadline(trace[1..], delay, trace[0].now)
  }

  /** The time and arguments of the latest call of `trace`, `latest` if it has none. */
  function LastCall<A>(trace: seq<Event<A>>, latest: (int, A)): (int, A)
    decreases |trace|
  {
    if trace == [] then latest
    else match trace[0]
      case CallAt(now, args) => LastCall(trace[1..], (now, args))
      case TickAt(_) => LastCall(trace[1..], latest)
  }

  /** While one invocation is pending for the call at `t0` with `a0`, a trace of
      calls and early ticks leaves exactly one pending invocation, for the
      latest call, and runs nothing. */
  lemma {:induction false} PendingThroughBurst<A>(s: State<A>, delay: int, trace: seq<Event<A>>, t0: int, a0: A)
    requires Valid(s) && |s.live| == 1
    requires s.live[0].due == t0 + EffectiveDelay(delay) && s.live[0].args == a0
    requires TicksBeforeDeadline(trace, delay, t0)
    ensures var r := Run(s, delay, trace);
      var (t, a) := LastCall(trace, (t0, a0));
      && Valid(r) && |r.live| == 1
      && r.live[0].due == t + EffectiveDelay(delay) && r.live[0].args == a
      && r.fired == s.fired
    decreases |trace|
  {
    if trace != [] {
      match trace[0]
      case CallAt(now, args) =>
        CallReschedules(s, delay, now, args);
        PendingThroughBurst(CallStep(s, delay, now, args), delay, trace[1..], now, args);
      case TickAt(now) =>
        PendingThroughBurst(s, delay, trace[1..], t0, a0);
    }
  }

  /** N calls, each before the previous deadline, followed by a tick once the
      last deadline has passed: `fn` runs exactly once, with the last call's
      arguments. */
  lemma BurstCoalesces<A>(s: State<A>, delay: int, trace: seq<Event<A>>, later: int)
    requires Valid(s) && Burst(trace, delay)
    requires later >= LastCall(trace, (0, trace[0].args)).0 + EffectiveDelay(delay)
    ensures var r := Run(s, delay, trace + [TickAt(later)]);
      && Valid(r) && Pending(r) == None
      && r.fired == s.fired + [LastCall(trace, (0, trace[0].args)).1]
  {
    var first := trace[0];
    CallReschedules(s, delay, first.now, first.args);
    var s1 := CallStep(s, delay, first.now, first.args);
    PendingThroughBurst(s1, delay, trace[1..], first.now, first.args);
    var mid := Run(s, delay, trace);
    assert mid == Run(s1, delay, trace[1..]);
    RunAppend(s, delay, trace, [TickAt(later)]);
    TickFires(mid, later);
  }

  lemma {:induction false} RunAppend<A>(s: State<A>, delay: int, xs: seq<Event<A>>, ys: seq<Event<A>>)
    ensures Run(s, delay, xs + ys) == Run(Run(s, delay, xs), delay, ys)
    decreases |xs|
  {
    if xs == [] {
      assert xs + ys == ys;
    } else {
      assert (xs + ys)[0] == xs[0] && (xs + ys)[1..] == xs[1..] + ys;
      RunAppend(Step(s, delay, xs[0]), delay, xs[1..], ys);
    }
  }

  /** One timer slot per wrapper, whatever the arguments: a second call (say for
      another note id) before the first has run drops the first call's work,
      and only the second call's arguments ever reach `fn`. */
  lemma SharedSlotDropsEarlierCall<A>(s: State<A>, delay: int, t1: int, a1: A, t2: int, a2: A, later: int)
    requires Valid(s) && later >= t2 + EffectiveDelay(delay)
    ensures var r := TickStep(CallStep(CallStep(s, delay, t1, a1), delay, t2, a2), later);
      && r.fired == s.fired + [a2]
      && Pending(r) == None
  {
    CallReschedules(s, delay, t1, a1);
    var s1 := CallStep(s, delay, t1, a1);
    CallReschedules(s1, delay, t2, a2);
    TickFires(CallStep(s1, delay, t2, a2), later);
  }

  // ---------------------------------------------------------------------------
  // The wrapper as an object

  /** The closure returned by `debounce(fn, delay)`: `delay` is fixed when it is
      created, the other fields change with every call and every timer run. */
  class Debounced<A> {
    const delay: int
    var timeoutId: Option<nat>
    var nextId: nat
    var live: seq<Timer<A>>
    var fired: seq<A>

    function Current(): State<A>
      reads this
    {
      State(timeoutId, nextId, live, fired)
    }

    constructor (delay: int)
      ensures this.delay == delay && Current() == Initial() && Valid(Current())
    {
      this.delay := delay;
      timeoutId := None;
      nextId := 0;
      live := [];
      fired := [];
    }

    /** `debounced(...args)` at time `now`. */
    method Call(now: int, args: A)
      requires Valid(Current())
      modifies this
      ensures Current() == CallStep(old(Current()), delay, now, args)
      ensures Valid(Current())
      ensures live == [Timer(old(nextId), now + EffectiveDelay(delay), args)]
      ensures timeoutId == Some(old(nextId)) && fired == old(fired)
    {
      CallReschedules(Current(), delay, now, args);
      live := ClearTimeout(live, timeoutId);
      var id := nextId;
      nextId := nextId + 1;
      live := live + [Timer(id, now + EffectiveDelay(delay), args)];
      timeoutId := Some(id);
    }

    /** The host's event loop at time `now`. */
    method Tick(now: int)
      requires Valid(Current())
      modifies this
      ensures Current() == TickStep(old(Current()), now)
      ensures Valid(Current())
      ensures old(|live| > 0 && live[0].due <= now) ==> live == [] && fired == old(fired) + [old(live[0].args)]
      ensures old(live == [] || now < live[0].due) ==> Current() == old(Current())
    {
      if |live| > 0 && live[0].due <= now {
        fired := fired + [live[0].args];
        live := live[1..];
      }
    }
  }
}
