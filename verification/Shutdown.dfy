/** The application lifecycle: resources closed once, in reverse order of registration
    (src/core/lifecycle/application-lifecycle.ts).

    The asynchronous functions of this and the next module are cut at their awaits: a settlement
    arrives as an input, and between two settlements any calls may arrive, from hooks as well as from
    anybody else. */
module Lifecycle {
  import opened JsText

  datatype Settlement = Done | Rejects(reason: nat)

  datatype CloseError = CloseError(name: string, cause: nat)

  datatype Promise = Pending | Resolved | Rejected(errors: seq<CloseError>)

  /** A close hook that was called and has settled. */
  datatype Closing = Closing(name: string, settlement: Settlement)

  /** The registered resources, the promise of close() once it was called, the hooks settled so far,
      and those yet to settle, of which the first has been called. */
  datatype State = State(
    resources: seq<string>,
    closePromise: Option<Promise>,
    closings: seq<Closing>,
    queue: seq<string>)

  function Reverse<T>(s: seq<T>): (r: seq<T>)
    ensures |r| == |s| && forall i :: 0 <= i < |s| ==> r[i] == s[|s| - 1 - i]
  {
    seq(|s|, i requires 0 <= i < |s| => s[|s| - 1 - i])
  }

  /** The errors of the given hooks, in order. */
  function CloseErrors(closings: seq<Closing>): seq<CloseError> {
    if closings == [] then []
    else
      var last := closings[|closings| - 1];
      CloseErrors(closings[..|closings| - 1])
      + (if last.settlement.Rejects? then [CloseError(last.name, last.settlement.reason)] else [])
  }

  function Outcome(closings: seq<Closing>): Promise {
    if CloseErrors(closings) == [] then Resolved else Rejected(CloseErrors(closings))
  }

  function Failing(closings: seq<Closing>): nat {
    if closings == [] then 0
    else Failing(closings[..|closings| - 1]) + (if closings[|closings| - 1].settlement.Rejects? then 1 else 0)
  }

  /** Closing resolves just when every hook does; otherwise each failing hook is reported once, under
      its own name. */
  lemma {:induction false} EveryFailureIsReported(closings: seq<Closing>)
    ensures |CloseErrors(closings)| == Failing(closings)
    ensures Outcome(closings) == Resolved <==> forall i :: 0 <= i < |closings| ==> closings[i].settlement.Done?
    ensures forall i :: 0 <= i < |closings| && closings[i].settlement.Rejects? ==>
              CloseError(closings[i].name, closings[i].settlement.reason) in CloseErrors(closings)
  {
    if closings != [] {
      EveryFailureIsReported(closings[..|closings| - 1]);
      assert forall i :: 0 <= i < |closings| - 1 ==> closings[i] == closings[..|closings| - 1][i];
      if Outcome(closings) == Resolved {
        assert CloseErrors(closings[..|closings| - 1]) == [];
      }
    }
  }

  /** The errors come in the order in which the hooks settled: those of the first hooks, then those of
      the rest; one hook has its own error or none. */
  lemma {:induction false} ErrorsInOrder(first: seq<Closing>, rest: seq<Closing>, name: string, reason: nat)
    ensures CloseErrors(first + rest) == CloseErrors(first) + CloseErrors(rest)
    ensures CloseErrors([Closing(name, Done)]) == []
    ensures CloseErrors([Closing(name, Rejects(reason))]) == [CloseError(name, reason)]
  {
    if rest == [] {
      assert first + rest == first;
    } else {
      var front := rest[..|rest| - 1];
      assert (first + rest)[..|first + rest| - 1] == first + front;
      ErrorsInOrder(first, front, name, reason);
    }
  }

  // ---- the steps ----

  function RegisterCalled(l: State, name: string): State {
    if l.closePromise.Some? then l else l.(resources := l.resources + [name])
  }

  function CloseCalled(l: State): State {
    if l.closePromise.Some? then l
    else l.(closePromise := Some(if l.resources == [] then Resolved else Pending), queue := Reverse(l.resources))
  }

  /** A close hook has been called and has not settled. */
  predicate AwaitsHook(l: State) {
    l.closePromise == Some(Pending) && l.queue != []
  }

  function HookSettled(l: State, s: Settlement): State
    requires AwaitsHook(l)
  {
    var closings := l.closings + [Closing(l.queue[0], s)];
    l.(closings := closings,
       queue := l.queue[1..],
       closePromise := Some(if l.queue[1..] == [] then Outcome(closings) else Pending))
  }

  predicate Settled(l: State) {
    l.closePromise.Some? && l.closePromise != Some(Pending)
  }

  // ---- what every step keeps ----

  function Names(closings: seq<Closing>): (names: seq<string>)
    ensures |names| == |closings|
  {
    seq(|closings|, i requires 0 <= i < |closings| => closings[i].name)
  }

  /** Once close() was called, the hooks settled so far and then those in the queue are the resources in
      reverse order, each once; the promise settles with the last of them, as they did. */
  ghost predicate Inv(l: State) {
    && (l.closePromise.None? ==> l.closings == [] && l.queue == [])
    && (l.closePromise.Some? ==> Names(l.closings) + l.queue == Reverse(l.resources))
    && (l.closePromise == Some(Pending) ==> l.queue != [])
    && (Settled(l) ==> l.queue == [] && l.closePromise == Some(Outcome(l.closings)))
  }

  /** Once close() was called the resources are fixed, hooks that settled stay settled, and so does the
      promise. */
  ghost predicate Later(a: State, b: State) {
    a.closePromise.Some? ==>
      && b.closePromise.Some? && b.resources == a.resources
      && a.closings <= b.closings && (Settled(a) ==> b == a)
  }

  lemma StepsKeepInv(l: State, name: string)
    requires Inv(l)
    ensures Inv(RegisterCalled(l, name)) && Later(l, RegisterCalled(l, name))
    ensures Inv(CloseCalled(l)) && Later(l, CloseCalled(l))
    ensures forall s :: AwaitsHook(l) ==> Inv(HookSettled(l, s)) && Later(l, HookSettled(l, s))
  {
    assert l.closePromise.None? ==> Names(l.closings) + Reverse(l.resources) == Reverse(l.resources);
    forall s | AwaitsHook(l)
      ensures Inv(HookSettled(l, s)) && Later(l, HookSettled(l, s))
    {
      var next := HookSettled(l, s);
      assert Names(next.closings) == Names(l.closings) + [l.queue[0]];
      assert l.queue == [l.queue[0]] + l.queue[1..];
      assert next.closings[..|l.closings|] == l.closings;
    }
  }

  lemma OneMoreClosing(closings: seq<Closing>, last: Closing)
    ensures CloseErrors(closings + [last]) ==
            if last.settlement.Rejects? then CloseErrors(closings) + [CloseError(last.name, last.settlement.reason)]
            else CloseErrors(closings)
  {
    assert (closings + [last])[..|closings|] == closings;
  }

  // ---- the lifecycle as an object ----

  class ApplicationLifecycle {
    var resources: seq<string>
    var shutdownStarted: bool
    var closePromise: Option<Promise>
    var closings: seq<Closing>
    /** Of closeResources: the hook that was called and is pending, those yet to be called after it, and
        the errors so far. */
    var pending: Option<string>
    var remaining: seq<string>
    var errors: seq<CloseError>

    function Value(): State
      reads this
    {
      State(resources, closePromise, closings, Queue())
    }

    function Queue(): seq<string>
      reads this
    {
      if pending.Some? then [pending.value] + remaining else remaining
    }

    ghost predicate Valid()
      reads this
    {
      && Inv(Value()) && shutdownStarted == closePromise.Some?
      && (closePromise == Some(Pending) ==> pending.Some? && errors == CloseErrors(closings))
      && (closePromise != Some(Pending) ==> pending.None? && remaining == [])
    }

    constructor ()
      ensures Valid() && Value() == State([], None, [], [])
    {
      resources, closings, pending, remaining, errors := [], [], None, [], [];
      shutdownStarted, closePromise := false, None;
    }

    /** register; a call after shutdown has started is refused. */
    method Register(name: string) returns (accepted: bool)
      requires Valid()
      modifies this
      ensures Valid() && Value() == RegisterCalled(old(Value()), name)
      ensures accepted == old(closePromise).None?
    {
      if shutdownStarted {
        return false;
      }
      resources := resources + [name];
      return true;
    }

    /** close: the first call starts closeResources, which calls its first hook; any other receives the
        same promise. */
    method Close()
      requires Valid()
      modifies this
      ensures Valid() && Value() == CloseCalled(old(Value()))
    {
      if closePromise.None? {
        StartClosing();
      }
    }

    method StartClosing()
      requires Valid() && closePromise.None?
      modifies this
      ensures Valid() && Value() == CloseCalled(old(Value()))
    {
      StepsKeepInv(Value(), "");
      ghost var next := CloseCalled(Value());
      shutdownStarted := true;
      errors, remaining := [], Reverse(resources);
      closePromise := Some(if remaining == [] then Resolved else Pending);
      CallNext();
      assert Value().queue == next.queue;
      assert Value() == next;
    }

    /** The loop of closeResources moves on: the first of the remaining hooks is called, if there is one. */
    method CallNext()
      modifies this`pending, this`remaining
      ensures Queue() == old(remaining)
      ensures (pending.None? <==> old(remaining) == []) && (pending.None? ==> remaining == [])
    {
      pending := None;
      if remaining != [] {
        pending, remaining := Some(remaining[0]), remaining[1..];
      }
    }

    /** closeResources, from one await to the next: a failure is noted, and the next hook is called or
        the promise settled. */
    method ResumeClosing(s: Settlement)
      requires Valid() && AwaitsHook(Value())
      modifies this
      ensures Valid() && Value() == HookSettled(old(Value()), s)
    {
      ghost var next := HookSettled(Value(), s);
      StepsKeepInv(Value(), "");
      assert remaining == next.queue;
      Note(Closing(pending.value, s));
      if remaining == [] {
        closePromise := Some(if errors == [] then Resolved else Rejected(errors));
      }
      CallNext();
      assert Value() == next;
    }

    /** What the settled hook leaves behind: an error if it failed. */
    method Note(settled: Closing)
      requires errors == CloseErrors(closings)
      modifies this`closings, this`errors
      ensures closings == old(closings) + [settled] && errors == CloseErrors(closings)
    {
      OneMoreClosing(closings, settled);
      closings := closings + [settled];
      if settled.settlement.Rejects? {
        errors := errors + [CloseError(settled.name, settled.settlement.reason)];
      }
    }
  }
}

/** The graceful shutdown coordinator (src/app/lifecycle/graceful-shutdown.ts). */
module GracefulShutdown {
  import opened JsText
  import opened Lifecycle

  /** What has happened, in order. A graceful stop settles within the timeout or is timed out. */
  datatype Event =
    | BeganDrain(settlement: Settlement)
    | Slept(settlement: Settlement)
    | Stopped(settlement: Settlement)
    | StopTimedOut
    | ForcedStop(settlement: Settlement)
    | ClosedLifecycle(promise: Promise)

  datatype ShutdownError = HookFailed(reason: nat) | LifecycleFailed(errors: seq<CloseError>)

  datatype ShutdownPromise = Performing | Completed | CompletedWithErrors(errors: seq<ShutdownError>)

  /** Where performShutdown waits, and the hook it waits for. */
  datatype Phase = Idle | Draining | Sleeping | Stopping | Forcing | ForcingAgain | ClosingLifecycle | Finished

  /** The coordinator; `lateStop` is how a graceful stop that was timed out settles later on. */
  datatype Coordinator = Coordinator(
    drainDelayMs: nat,
    phase: Phase,
    journal: seq<Event>,
    promise: Option<ShutdownPromise>,
    lateStop: Option<Settlement>)

  datatype System = System(lifecycle: Lifecycle.State, coordinator: Coordinator)

  /** Calls, which may come at any time and from anywhere, and settlements. */
  datatype Input =
    | CallShutdown
    | CallClose
    | CallRegister(name: string)
    | HookSettles(settlement: Settlement)
    | StopTimesOut
    | LateStopSettles(settlement: Settlement)
    | ResourceSettles(settlement: Settlement)
    | LifecycleSettles

  /** The failure an event amounts to, if it is one. */
  function FailureOf(e: Event): Option<ShutdownError> {
    match e
    case StopTimedOut => None
    case ClosedLifecycle(p) => if p.Rejected? then Some(LifecycleFailed(p.errors)) else None
    case _ => if e.settlement.Rejects? then Some(HookFailed(e.settlement.reason)) else None
  }

  function Failures(journal: seq<Event>): seq<ShutdownError> {
    if journal == [] then []
    else
      var e := journal[|journal| - 1];
      Failures(journal[..|journal| - 1]) + (if FailureOf(e).Some? then [FailureOf(e).value] else [])
  }

  lemma OneMoreEvent(journal: seq<Event>, e: Event)
    ensures Failures(journal + [e]) == Failures(journal) + (if FailureOf(e).Some? then [FailureOf(e).value] else [])
  {
    assert (journal + [e])[..|journal|] == journal;
  }

  // ---- the steps ----

  function Log(c: Coordinator, e: Event, next: Phase): Coordinator {
    c.(journal := c.journal + [e], phase := next)
  }

  predicate AwaitsOwnHook(c: Coordinator) {
    c.phase in {Draining, Sleeping, Stopping, Forcing, ForcingAgain}
  }

  /** The hook that performShutdown waits for settles. */
  function Resumed(c: Coordinator, s: Settlement): Coordinator
    requires AwaitsOwnHook(c)
  {
    match c.phase
    case Draining => Log(c, BeganDrain(s), if s.Done? && c.drainDelayMs > 0 then Sleeping else Stopping)
    case Sleeping => Log(c, Slept(s), Stopping)
    case Stopping => Log(c, Stopped(s), if s.Done? then ClosingLifecycle else Forcing)
    case Forcing =>
      var timedOut := c.journal != [] && c.journal[|c.journal| - 1] == StopTimedOut;
      Log(c, ForcedStop(s), if s.Rejects? && timedOut then ForcingAgain else ClosingLifecycle)
    case _ => Log(c, ForcedStop(s), ClosingLifecycle)
  }

  predicate Enabled(sys: System, input: Input) {
    match input
    case HookSettles(_) => AwaitsOwnHook(sys.coordinator)
    case StopTimesOut => sys.coordinator.phase == Stopping
    case LateStopSettles(_) => StopTimedOut in sys.coordinator.journal && sys.coordinator.lateStop.None?
    case ResourceSettles(_) => AwaitsHook(sys.lifecycle)
    case LifecycleSettles => sys.coordinator.phase == ClosingLifecycle && Settled(sys.lifecycle)
    case _ => true
  }

  function ShutdownCalled(c: Coordinator): Coordinator {
    if c.promise.Some? then c else c.(promise := Some(Performing), phase := Draining)
  }

  function Concluded(c: Coordinator, p: Promise): Coordinator {
    var done := Log(c, ClosedLifecycle(p), Finished);
    var errors := Failures(done.journal);
    done.(promise := Some(if errors == [] then Completed else CompletedWithErrors(errors)))
  }

  /** Reaching the last phase means calling close() of the lifecycle. */
  function LifecycleAfter(l: Lifecycle.State, c: Coordinator): Lifecycle.State {
    if c.phase == ClosingLifecycle then CloseCalled(l) else l
  }

  function Step(sys: System, input: Input): System
    requires Enabled(sys, input)
  {
    var (l, c) := (sys.lifecycle, sys.coordinator);
    match input
    case CallShutdown => System(l, ShutdownCalled(c))
    case CallClose => System(CloseCalled(l), c)
    case CallRegister(name) => System(RegisterCalled(l, name), c)
    case HookSettles(s) => System(LifecycleAfter(l, Resumed(c, s)), Resumed(c, s))
    case StopTimesOut => System(l, Log(c, StopTimedOut, Forcing))
    case LateStopSettles(s) => System(l, c.(lateStop := Some(s)))
    case ResourceSettles(s) => System(HookSettled(l, s), c)
    case LifecycleSettles => System(l, Concluded(c, l.closePromise.value))
  }

  ghost predicate LegalRun(sys: System, inputs: seq<Input>)
    decreases inputs
  {
    inputs == [] || (Enabled(sys, inputs[0]) && LegalRun(Step(sys, inputs[0]), inputs[1..]))
  }

  function Run(sys: System, inputs: seq<Input>): System
    requires LegalRun(sys, inputs)
    decreases inputs
  {
    if inputs == [] then sys else Run(Step(sys, inputs[0]), inputs[1..])
  }

  function Initial(drainDelayMs: nat): System {
    System(State([], None, [], []), Coordinator(drainDelayMs, Idle, [], None, None))
  }

  // ---- what every step keeps ----

  /** Index of the graceful stop. */
  function StopIndex(journal: seq<Event>): nat {
    if |journal| >= 2 && journal[1].Slept? then 2 else 1
  }

  /** The drain phase is over: it began once, and slept if there is a delay and draining succeeded. */
  predicate Drained(journal: seq<Event>, drainDelayMs: nat) {
    var n := StopIndex(journal);
    && |journal| >= n && journal[0].BeganDrain?
    && (n == 2 <==> journal[0].settlement.Done? && drainDelayMs > 0)
  }

  /** The stops so far: a graceful one, a forced one if that failed or was timed out, and another if
      the forced stop after a timeout failed. */
  predicate StopsFit(stops: seq<Event>, phase: Phase) {
    match phase
    case Stopping => stops == []
    case Forcing => |stops| == 1 && (stops[0] == StopTimedOut || (stops[0].Stopped? && stops[0].settlement.Rejects?))
    case ForcingAgain => |stops| == 2 && stops[0] == StopTimedOut && stops[1].ForcedStop?
        && stops[1].settlement.Rejects?
    case ClosingLifecycle => StopsDone(stops)
    case Finished => |stops| >= 1 && stops[|stops| - 1].ClosedLifecycle? && StopsDone(stops[..|stops| - 1])
    case _ => false
  }

  predicate StopsDone(stops: seq<Event>) {
    || (|stops| == 1 && stops[0] == Stopped(Done))
    || (|stops| == 2 && stops[0].Stopped? && stops[0].settlement.Rejects? && stops[1].ForcedStop?)
    || (|stops| == 2 && stops[0] == StopTimedOut && stops[1] == ForcedStop(Done))
    || (|stops| == 3 && stops[0] == StopTimedOut && stops[1].ForcedStop? && stops[1].settlement.Rejects?
        && stops[2].ForcedStop?)
  }

  predicate JournalFits(c: Coordinator) {
    match c.phase
    case Idle => c.journal == []
    case Draining => c.journal == []
    case Sleeping => c.journal == [BeganDrain(Done)] && c.drainDelayMs > 0
    case _ => Drained(c.journal, c.drainDelayMs) && StopsFit(c.journal[StopIndex(c.journal)..], c.phase)
  }

  ghost predicate SystemInv(sys: System) {
    var (l, c) := (sys.lifecycle, sys.coordinator);
    && Inv(l) && JournalFits(c)
    && (c.phase == Idle <==> c.promise.None?)
    && (c.phase != Finished && c.promise.Some? ==> c.promise == Some(Performing))
    && (c.phase == ClosingLifecycle ==> l.closePromise.Some?)
    && (c.phase == Finished ==>
          && Settled(l) && c.journal[|c.journal| - 1] == ClosedLifecycle(l.closePromise.value)
          && c.promise == Some(if Failures(c.journal) == [] then Completed
                               else CompletedWithErrors(Failures(c.journal))))
    && (c.lateStop.Some? ==> StopTimedOut in c.journal)
  }

  lemma StopsGrow(journal: seq<Event>, e: Event)
    requires |journal| >= 2 || (|journal| == 1 && !e.Slept?)
    ensures StopIndex(journal + [e]) == StopIndex(journal)
    ensures |journal| >= StopIndex(journal) ==>
              (journal + [e])[StopIndex(journal)..] == journal[StopIndex(journal)..] + [e]
  {
  }

  lemma ResumedFits(c: Coordinator, s: Settlement)
    requires JournalFits(c) && AwaitsOwnHook(c)
    ensures JournalFits(Resumed(c, s))
  {
    if c.phase in {Stopping, Forcing, ForcingAgain} {
      StopsGrow(c.journal, if c.phase == Stopping then Stopped(s) else ForcedStop(s));
      var stops := c.journal[StopIndex(c.journal)..];
      if c.phase == Forcing {
        assert stops[|stops| - 1] == c.journal[|c.journal| - 1];
      }
    }
  }

  lemma ConcludedFits(c: Coordinator, p: Promise)
    requires JournalFits(c) && c.phase == ClosingLifecycle
    ensures JournalFits(Concluded(c, p))
  {
    StopsGrow(c.journal, ClosedLifecycle(p));
    var stops := c.journal[StopIndex(c.journal)..];
    assert (stops + [ClosedLifecycle(p)])[..|stops|] == stops;
  }

  lemma TimedOutFits(c: Coordinator)
    requires JournalFits(c) && c.phase == Stopping
    ensures JournalFits(Log(c, StopTimedOut, Forcing))
  {
    StopsGrow(c.journal, StopTimedOut);
  }

  lemma StepKeepsInv(sys: System, input: Input)
    requires SystemInv(sys) && Enabled(sys, input)
    ensures SystemInv(Step(sys, input)) && Later(sys.lifecycle, Step(sys, input).lifecycle)
  {
    match input
    case HookSettles(s) => HookStepKeepsInv(sys, s);
    case StopTimesOut => TimedOutFits(sys.coordinator);
    case LifecycleSettles => ConcludeStepKeepsInv(sys);
    case CallRegister(name) => StepsKeepInv(sys.lifecycle, name);
    case _ => StepsKeepInv(sys.lifecycle, "");
  }

  lemma HookStepKeepsInv(sys: System, s: Settlement)
    requires SystemInv(sys) && AwaitsOwnHook(sys.coordinator)
    ensures SystemInv(Step(sys, HookSettles(s))) && Later(sys.lifecycle, Step(sys, HookSettles(s)).lifecycle)
  {
    StepsKeepInv(sys.lifecycle, "");
    ResumedFits(sys.coordinator, s);
  }

  lemma ConcludeStepKeepsInv(sys: System)
    requires SystemInv(sys) && Enabled(sys, LifecycleSettles)
    ensures SystemInv(Step(sys, LifecycleSettles)) && Later(sys.lifecycle, Step(sys, LifecycleSettles).lifecycle)
  {
    ConcludedFits(sys.coordinator, sys.lifecycle.closePromise.value);
  }

  lemma ResumeKeepsInv(l: Lifecycle.State, c: Coordinator, s: Settlement)
    requires SystemInv(System(l, c)) && AwaitsOwnHook(c)
    ensures SystemInv(System(LifecycleAfter(l, Resumed(c, s)), Resumed(c, s)))
  {
    StepKeepsInv(System(l, c), HookSettles(s));
  }

  lemma TimeOutKeepsInv(l: Lifecycle.State, c: Coordinator)
    requires SystemInv(System(l, c)) && c.phase == Stopping
    ensures SystemInv(System(l, Log(c, StopTimedOut, Forcing)))
  {
    StepKeepsInv(System(l, c), StopTimesOut);
  }

  lemma ConcludeKeepsInv(l: Lifecycle.State, c: Coordinator)
    requires SystemInv(System(l, c)) && c.phase == ClosingLifecycle && Settled(l)
    ensures SystemInv(System(l, Concluded(c, l.closePromise.value)))
  {
    StepKeepsInv(System(l, c), LifecycleSettles);
  }

  lemma {:induction false} RunKeepsInv(sys: System, inputs: seq<Input>)
    requires SystemInv(sys) && LegalRun(sys, inputs)
    ensures SystemInv(Run(sys, inputs)) && Later(sys.lifecycle, Run(sys, inputs).lifecycle)
    decreases inputs
  {
    if inputs != [] {
      StepKeepsInv(sys, inputs[0]);
      RunKeepsInv(Step(sys, inputs[0]), inputs[1..]);
    }
  }

  // ---- what every run keeps ----

  /** In any interleaving of calls and settlements: draining began once and before all else, one
      graceful stop follows it, only forced stops, at most two, come between that and the closing of
      the lifecycle, and nothing comes after. */
  lemma InOrder(drainDelayMs: nat, inputs: seq<Input>)
    requires LegalRun(Initial(drainDelayMs), inputs)
    ensures Ordered(Run(Initial(drainDelayMs), inputs).coordinator.journal)
  {
    RunKeepsInv(Initial(drainDelayMs), inputs);
    FitsInOrder(Run(Initial(drainDelayMs), inputs).coordinator);
  }

  predicate Ordered(journal: seq<Event>) {
    var n := StopIndex(journal);
    && |journal| <= n + 4
    && forall i :: 0 <= i < |journal| ==>
         && (journal[i].BeganDrain? <==> i == 0)
         && (journal[i].Slept? <==> i == 1 && n == 2)
         && (journal[i].Stopped? || journal[i].StopTimedOut? <==> i == n)
         && (i > n ==> journal[i].ForcedStop? || (journal[i].ClosedLifecycle? && i == |journal| - 1))
  }

  lemma FitsInOrder(c: Coordinator)
    requires JournalFits(c)
    ensures Ordered(c.journal)
  {
    if c.phase !in {Idle, Draining, Sleeping} {
      var n := StopIndex(c.journal);
      StopsInOrder(c.journal[n..], c.phase);
      forall i | n <= i < |c.journal|
        ensures c.journal[i] == c.journal[n..][i - n]
      {
      }
    }
  }

  lemma StopsInOrder(stops: seq<Event>, phase: Phase)
    requires StopsFit(stops, phase)
    ensures |stops| <= 4
    ensures forall i :: 0 <= i < |stops| ==>
      && !stops[i].BeganDrain? && !stops[i].Slept?
      && (stops[i].Stopped? || stops[i].StopTimedOut? <==> i == 0)
      && (i > 0 ==> stops[i].ForcedStop? || (stops[i].ClosedLifecycle? && i == |stops| - 1))
  {
    if phase == Finished {
      assert forall i :: 0 <= i < |stops| - 1 ==> stops[i] == stops[..|stops| - 1][i];
    }
  }

  /** Whoever calls close(), and however often: the hooks settled so far are the first of the reverse
      order of the resources, each once; the promise settles with the last of them, and reports each
      that failed. Resources cannot be added once it was called. */
  lemma ClosedOnceInReverse(drainDelayMs: nat, before: seq<Input>, after: seq<Input>)
    requires LegalRun(Initial(drainDelayMs), before) && LegalRun(Run(Initial(drainDelayMs), before), after)
    ensures var l := Run(Initial(drainDelayMs), before).lifecycle;
            var m := Run(Run(Initial(drainDelayMs), before), after).lifecycle;
            && Inv(l) && Inv(m) && Later(l, m)
            && (l.closePromise.Some? ==> Names(l.closings) <= Reverse(l.resources))
            && (Settled(l) ==> Names(l.closings) == Reverse(l.resources) && l.closePromise == Some(Outcome(l.closings)))
  {
    RunKeepsInv(Initial(drainDelayMs), before);
    RunKeepsInv(Run(Initial(drainDelayMs), before), after);
  }

  /** As long as nobody else calls close(), the lifecycle is closed only after the last stop. */
  lemma {:induction false} ClosedAfterStops(sys: System, inputs: seq<Input>)
    requires SystemInv(sys) && LegalRun(sys, inputs) && CallClose !in inputs
    requires sys.lifecycle.closePromise.Some? ==> sys.coordinator.phase in {ClosingLifecycle, Finished}
    ensures var end := Run(sys, inputs);
            end.lifecycle.closePromise.Some? ==>
              && end.coordinator.phase in {ClosingLifecycle, Finished}
              && JournalFits(end.coordinator)
    decreases inputs
  {
    if inputs != [] {
      assert inputs[0] != CallClose;
      StepKeepsInv(sys, inputs[0]);
      ClosedAfterStops(Step(sys, inputs[0]), inputs[1..]);
    }
  }

  /** A call that comes again changes nothing: shutdown() once it was called, close() once it was
      called, and register() from then on. */
  lemma CallsAreMemoized(sys: System, name: string)
    requires SystemInv(sys)
    ensures sys.coordinator.phase != Idle ==> Step(sys, CallShutdown) == sys
    ensures sys.lifecycle.closePromise.Some? ==> Step(sys, CallClose) == sys && Step(sys, CallRegister(name)) == sys
  {
  }

  /** What a journal reports, in order: what its first events do and then what the rest do. A hook that
      rejects and a lifecycle that closes with errors are failures; a timeout is none. */
  lemma {:induction false} FailuresInOrder(first: seq<Event>, rest: seq<Event>, reason: nat, errors: seq<CloseError>)
    ensures Failures(first + rest) == Failures(first) + Failures(rest)
    ensures Failures([BeganDrain(Rejects(reason))]) == Failures([Slept(Rejects(reason))]) == [HookFailed(reason)]
    ensures Failures([Stopped(Rejects(reason))]) == Failures([ForcedStop(Rejects(reason))]) == [HookFailed(reason)]
    ensures Failures([ClosedLifecycle(Rejected(errors))]) == [LifecycleFailed(errors)]
    ensures Failures([BeganDrain(Done)]) == Failures([Slept(Done)]) == Failures([Stopped(Done)]) == []
    ensures Failures([ForcedStop(Done)]) == Failures([StopTimedOut]) == Failures([ClosedLifecycle(Resolved)]) == []
  {
    if rest == [] {
      assert first + rest == first;
      OneEventReports(reason, errors);
    } else {
      var front := rest[..|rest| - 1];
      assert (first + rest)[..|first + rest| - 1] == first + front;
      FailuresInOrder(first, front, reason, errors);
    }
  }

  lemma OneEventReports(reason: nat, errors: seq<CloseError>)
    ensures Failures([BeganDrain(Rejects(reason))]) == Failures([Slept(Rejects(reason))]) == [HookFailed(reason)]
    ensures Failures([Stopped(Rejects(reason))]) == Failures([ForcedStop(Rejects(reason))]) == [HookFailed(reason)]
    ensures Failures([ClosedLifecycle(Rejected(errors))]) == [LifecycleFailed(errors)]
    ensures Failures([BeganDrain(Done)]) == Failures([Slept(Done)]) == Failures([Stopped(Done)]) == []
    ensures Failures([ForcedStop(Done)]) == Failures([StopTimedOut]) == Failures([ClosedLifecycle(Resolved)]) == []
  {
    forall e: Event
      ensures Failures([e]) == if FailureOf(e).Some? then [FailureOf(e).value] else []
    {
      OneMoreEvent([], e);
      assert [] + [e] == [e];
    }
  }

  /** A finished shutdown reports every failure of its hooks and of the lifecycle, in order, and
      nothing else; it stays as it is whatever comes later. */
  lemma FinishedReports(drainDelayMs: nat, before: seq<Input>, after: seq<Input>)
    requires LegalRun(Initial(drainDelayMs), before) && LegalRun(Run(Initial(drainDelayMs), before), after)
    requires Run(Initial(drainDelayMs), before).coordinator.phase == Finished
    ensures var c := Run(Initial(drainDelayMs), before).coordinator;
            var d := Run(Run(Initial(drainDelayMs), before), after).coordinator;
            && c.promise == Some(if Failures(c.journal) == [] then Completed
                                 else CompletedWithErrors(Failures(c.journal)))
            && d.phase == Finished && d.journal == c.journal && d.promise == c.promise
  {
    RunKeepsInv(Initial(drainDelayMs), before);
    FinishedStays(Run(Initial(drainDelayMs), before), after);
  }

  lemma {:induction false} FinishedStays(sys: System, inputs: seq<Input>)
    requires SystemInv(sys) && LegalRun(sys, inputs) && sys.coordinator.phase == Finished
    ensures var end := Run(sys, inputs).coordinator;
            end.phase == Finished && end.journal == sys.coordinator.journal && end.promise == sys.coordinator.promise
    decreases inputs
  {
    if inputs != [] {
      StepKeepsInv(sys, inputs[0]);
      FinishedStays(Step(sys, inputs[0]), inputs[1..]);
    }
  }

  /** Every failure there was, with that of a graceful stop after its timeout. */
  function AllFailures(c: Coordinator): seq<ShutdownError> {
    Failures(c.journal) + (if c.lateStop.Some? && c.lateStop.value.Rejects? then [HookFailed(c.lateStop.value.reason)]
                           else [])
  }

  function Reported(c: Coordinator): seq<ShutdownError> {
    if c.promise.Some? && c.promise.value.CompletedWithErrors? then c.promise.value.errors else []
  }

  /** All failures are reported if and only if no graceful stop fails after its timeout; and only one
      that was timed out can. */
  lemma AllReportedUnlessLate(sys: System)
    requires SystemInv(sys) && sys.coordinator.phase == Finished
    ensures var c := sys.coordinator;
            && (Reported(c) == AllFailures(c) <==> !(c.lateStop.Some? && c.lateStop.value.Rejects?))
            && (c.lateStop.Some? ==> c.journal[StopIndex(c.journal)] == StopTimedOut)
  {
    FitsInOrder(sys.coordinator);
  }

  /** Where a settlement leads: nearer to the end, by phases and then by resources. */
  function PhasesLeft(p: Phase): nat {
    match p
    case Idle => 7
    case Draining => 6
    case Sleeping => 5
    case Stopping => 4
    case Forcing => 3
    case ForcingAgain => 2
    case ClosingLifecycle => 1
    case Finished => 0
  }

  /** The resources that have yet to be closed. */
  function ResourcesLeft(l: Lifecycle.State): nat {
    if l.closePromise.None? then |l.resources| else |l.queue|
  }

  function Left(sys: System): nat {
    PhasesLeft(sys.coordinator.phase) + ResourcesLeft(sys.lifecycle)
  }

  /** The settlements that the coordinator and the lifecycle wait for; a timeout is one. */
  predicate IsSettlement(input: Input) {
    input.HookSettles? || input.StopTimesOut? || input.ResourceSettles? || input.LifecycleSettles?
  }

  function Settlements(inputs: seq<Input>): nat {
    if inputs == [] then 0 else (if IsSettlement(inputs[0]) then 1 else 0) + Settlements(inputs[1..])
  }

  function Registrations(inputs: seq<Input>): nat {
    if inputs == [] then 0 else (if inputs[0].CallRegister? then 1 else 0) + Registrations(inputs[1..])
  }

  /** Every settlement brings the end nearer, and only a registration before close() puts it off. */
  lemma StepIsProgress(sys: System, input: Input)
    requires SystemInv(sys) && Enabled(sys, input)
    ensures Left(Step(sys, input)) + (if IsSettlement(input) then 1 else 0) <=
            Left(sys) + (if input.CallRegister? && sys.lifecycle.closePromise.None? then 1 else 0)
  {
    if input.HookSettles? {
      HookIsProgress(sys, input.settlement);
    }
  }

  lemma HookIsProgress(sys: System, s: Settlement)
    requires SystemInv(sys) && AwaitsOwnHook(sys.coordinator)
    ensures Left(Step(sys, HookSettles(s))) + 1 <= Left(sys)
  {
    var l, c := sys.lifecycle, Resumed(sys.coordinator, s);
    assert PhasesLeft(c.phase) + 1 <= PhasesLeft(sys.coordinator.phase);
    assert ResourcesLeft(LifecycleAfter(l, c)) == ResourcesLeft(l);
  }

  /** Over any run the settlements are bounded by what was left at first and the registrations made. */
  lemma {:induction false} SettlingIsProgress(sys: System, inputs: seq<Input>)
    requires SystemInv(sys) && LegalRun(sys, inputs)
    ensures Left(Run(sys, inputs)) + Settlements(inputs) <= Left(sys) + Registrations(inputs)
    decreases inputs
  {
    if inputs != [] {
      StepIsProgress(sys, inputs[0]);
      StepKeepsInv(sys, inputs[0]);
      SettlingIsProgress(Step(sys, inputs[0]), inputs[1..]);
    }
  }

  /** Once close() was called not even registrations put the end off. */
  lemma {:induction false} ClosingIsProgress(sys: System, inputs: seq<Input>)
    requires SystemInv(sys) && LegalRun(sys, inputs) && sys.lifecycle.closePromise.Some?
    ensures Left(Run(sys, inputs)) + Settlements(inputs) <= Left(sys)
    decreases inputs
  {
    if inputs != [] {
      StepIsProgress(sys, inputs[0]);
      StepKeepsInv(sys, inputs[0]);
      ClosingIsProgress(Step(sys, inputs[0]), inputs[1..]);
    }
  }

  /** A shutdown under way is never stuck: it waits for a hook, for a resource, or for the lifecycle. */
  lemma AlwaysWaitsForSomething(sys: System, s: Settlement)
    requires SystemInv(sys) && sys.coordinator.phase !in {Idle, Finished}
    ensures Enabled(sys, HookSettles(s)) || Enabled(sys, ResourceSettles(s)) || Enabled(sys, LifecycleSettles)
  {
  }

  /** A shutdown under way finishes if every hook settles: when a run has come to a state that waits for
      nothing, it has finished, and it came there with no more settlements than were left and added. */
  lemma FinishesIfAllSettle(sys: System, inputs: seq<Input>)
    requires SystemInv(sys) && sys.coordinator.phase != Idle && LegalRun(sys, inputs)
    requires forall input :: IsSettlement(input) ==> !Enabled(Run(sys, inputs), input)
    ensures Run(sys, inputs).coordinator.phase == Finished
    ensures Settlements(inputs) <= Left(sys) + Registrations(inputs)
  {
    SettlingIsProgress(sys, inputs);
    RunKeepsInv(sys, inputs);
    StaysUnderWay(sys, inputs);
    if Run(sys, inputs).coordinator.phase != Finished {
      AlwaysWaitsForSomething(Run(sys, inputs), Done);
    }
  }

  lemma {:induction false} StaysUnderWay(sys: System, inputs: seq<Input>)
    requires SystemInv(sys) && sys.coordinator.phase != Idle && LegalRun(sys, inputs)
    ensures Run(sys, inputs).coordinator.phase != Idle
    decreases inputs
  {
    if inputs != [] {
      StepKeepsInv(sys, inputs[0]);
      StaysUnderWay(Step(sys, inputs[0]), inputs[1..]);
    }
  }

  /** And it can finish, however the hooks settle one after another: at most as many settlements as are
      left lead there. */
  lemma {:induction false} ReachesTheEnd(sys: System, settle: nat -> Settlement, n: nat) returns (inputs: seq<Input>)
    requires SystemInv(sys) && sys.coordinator.phase != Idle
    ensures |inputs| <= Left(sys)
    ensures SettleInTurn(inputs, settle, n)
    ensures LegalRun(sys, inputs) && Run(sys, inputs).coordinator.phase == Finished
    decreases Left(sys)
  {
    if sys.coordinator.phase == Finished {
      return [];
    }
    var input, next := NextSettlement(sys, settle(n));
    var rest := ReachesTheEnd(next, settle, n + 1);
    RunCons(sys, input, rest);
    Prepended(input, rest, settle, n);
    inputs := [input] + rest;
  }

  lemma Prepended(input: Input, rest: seq<Input>, settle: nat -> Settlement, n: nat)
    requires IsSettledBy(input, settle(n)) && SettleInTurn(rest, settle, n + 1)
    ensures SettleInTurn([input] + rest, settle, n)
  {
    forall i | 0 <= i < |[input] + rest|
      ensures IsSettledBy(([input] + rest)[i], settle(n + i))
    {
      if i > 0 {
        assert IsSettledBy(rest[i - 1], settle(n + 1 + (i - 1)));
      }
    }
  }

  /** The i-th input settles something as the (n + i)-th settlement says. */
  ghost predicate SettleInTurn(inputs: seq<Input>, settle: nat -> Settlement, n: nat) {
    forall i :: 0 <= i < |inputs| ==> IsSettledBy(inputs[i], settle(n + i))
  }

  predicate IsSettledBy(input: Input, s: Settlement) {
    input == HookSettles(s) || input == ResourceSettles(s) || input == LifecycleSettles
  }

  lemma NextSettlement(sys: System, s: Settlement) returns (input: Input, next: System)
    requires SystemInv(sys) && sys.coordinator.phase !in {Idle, Finished}
    ensures IsSettledBy(input, s) && Enabled(sys, input) && next == Step(sys, input)
    ensures SystemInv(next) && Left(next) < Left(sys) && next.coordinator.phase != Idle
  {
    AlwaysWaitsForSomething(sys, s);
    input :=
      if Enabled(sys, HookSettles(s)) then HookSettles(s)
      else if Enabled(sys, ResourceSettles(s)) then ResourceSettles(s)
      else LifecycleSettles;
    next := Step(sys, input);
    StepIsProgress(sys, input);
    StepKeepsInv(sys, input);
    StaysBegun(sys, input);
  }

  lemma StaysBegun(sys: System, input: Input)
    requires Enabled(sys, input) && sys.coordinator.phase != Idle
    ensures Step(sys, input).coordinator.phase != Idle
  {
  }

  /** A graceful stop is timed out and then fails; nothing else does, and the shutdown ends as if all
      were well. */
  lemma LateFailureIsLost()
    ensures var inputs := [CallShutdown, HookSettles(Done), StopTimesOut, LateStopSettles(Rejects(7)),
                           HookSettles(Done), LifecycleSettles];
            && LegalRun(Initial(0), inputs)
            && Run(Initial(0), inputs).coordinator.promise == Some(Completed)
            && AllFailures(Run(Initial(0), inputs).coordinator) == [HookFailed(7)]
  {
    var s1, s2, s3, s4, s5, s6 := LateSteps();
    var a, b, c, d, e, f :=
      CallShutdown, HookSettles(Done), StopTimesOut, LateStopSettles(Rejects(7)), HookSettles(Done), LifecycleSettles;
    RunCons(s5, f, []);
    RunCons(s4, e, [f]);
    RunCons(s3, d, [e, f]);
    RunCons(s2, c, [d, e, f]);
    RunCons(s1, b, [c, d, e, f]);
    RunCons(Initial(0), a, [b, c, d, e, f]);
  }

  ghost predicate Leads(sys: System, input: Input, next: System) {
    Enabled(sys, input) && next == Step(sys, input)
  }

  lemma NoFailureNoted()
    ensures Failures([] + [BeganDrain(Done)] + [StopTimedOut] + [ForcedStop(Done)] + [ClosedLifecycle(Resolved)]) == []
  {
    OneMoreEvent([], BeganDrain(Done));
    OneMoreEvent([] + [BeganDrain(Done)], StopTimedOut);
    OneMoreEvent([] + [BeganDrain(Done)] + [StopTimedOut], ForcedStop(Done));
    OneMoreEvent([] + [BeganDrain(Done)] + [StopTimedOut] + [ForcedStop(Done)], ClosedLifecycle(Resolved));
  }

  lemma LateSteps() returns (s1: System, s2: System, s3: System, s4: System, s5: System, s6: System)
    ensures Leads(Initial(0), CallShutdown, s1) && Leads(s1, HookSettles(Done), s2) && Leads(s2, StopTimesOut, s3)
    ensures Leads(s3, LateStopSettles(Rejects(7)), s4) && Leads(s4, HookSettles(Done), s5)
            && Leads(s5, LifecycleSettles, s6)
    ensures s6.coordinator.promise == Some(Completed) && AllFailures(s6.coordinator) == [HookFailed(7)]
  {
    var j1 := [] + [BeganDrain(Done)];
    var j2 := j1 + [StopTimedOut];
    var j3 := j2 + [ForcedStop(Done)];
    var j4 := j3 + [ClosedLifecycle(Resolved)];
    NoFailureNoted();
    var open, closed := State([], None, [], []), State([], Some(Resolved), [], []);
    var late := Some(Rejects(7));
    s1 := System(open, Coordinator(0, Draining, [], Some(Performing), None));
    s2 := System(open, Coordinator(0, Stopping, j1, Some(Performing), None));
    s3 := System(open, Coordinator(0, Forcing, j2, Some(Performing), None));
    s4 := System(open, Coordinator(0, Forcing, j2, Some(Performing), late));
    s5 := System(closed, Coordinator(0, ClosingLifecycle, j3, Some(Performing), late));
    s6 := System(closed, Coordinator(0, Finished, j4, Some(Completed), late));
  }

  lemma RunCons(sys: System, input: Input, rest: seq<Input>)
    ensures LegalRun(sys, [input] + rest) <==> Enabled(sys, input) && LegalRun(Step(sys, input), rest)
    ensures LegalRun(sys, [input] + rest) ==> Run(sys, [input] + rest) == Run(Step(sys, input), rest)
  {
    assert ([input] + rest)[1..] == rest;
  }

  // ---- the coordinator as an object ----

  class GracefulShutdownCoordinator {
    const lifecycle: ApplicationLifecycle
    const drainDelayMs: nat
    var shutdownPromise: Option<ShutdownPromise>
    var phase: Phase
    var errors: seq<ShutdownError>
    /** Whether the second try block is past its timeout. */
    var timedOut: bool
    var journal: seq<Event>
    var lateStop: Option<Settlement>

    function Value(): Coordinator
      reads this
    {
      Coordinator(drainDelayMs, phase, journal, shutdownPromise, lateStop)
    }

    ghost predicate Valid()
      reads this, lifecycle
    {
      && lifecycle.Valid() && SystemInv(System(lifecycle.Value(), Value()))
      && Consistent()
    }

    /** The variables of performShutdown agree with what has happened. */
    ghost predicate Consistent()
      reads this
    {
      errors == Failures(journal)
      && (phase == Forcing ==> (timedOut <==> journal != [] && journal[|journal| - 1] == StopTimedOut))
    }

    constructor (lifecycle: ApplicationLifecycle, drainDelayMs: nat)
      requires lifecycle.Valid()
      ensures Valid() && this.lifecycle == lifecycle && Value() == Coordinator(drainDelayMs, Idle, [], None, None)
    {
      this.lifecycle, this.drainDelayMs := lifecycle, drainDelayMs;
      shutdownPromise, phase, errors, timedOut, journal, lateStop := None, Idle, [], false, [], None;
    }

    /** shutdown: the first call sets the promise and only then starts performShutdown, which begins to
        drain; any other, also one made by a hook, receives the same promise. */
    method Shutdown()
      requires Valid()
      modifies this
      ensures Valid() && Value() == ShutdownCalled(old(Value()))
    {
      if shutdownPromise.None? {
        shutdownPromise := Some(Performing);
        phase := Draining;
      }
    }

    /** What a settled hook leaves behind: its event, and its error if it failed. */
    method Note(e: Event)
      requires errors == Failures(journal)
      modifies this`errors, this`journal
      ensures journal == old(journal) + [e] && errors == Failures(journal)
    {
      OneMoreEvent(journal, e);
      journal := journal + [e];
      if FailureOf(e).Some? {
        errors := errors + [FailureOf(e).value];
      }
    }

    /** From one await of performShutdown to the next, up to the calls it makes. */
    method Advance(s: Settlement)
      requires AwaitsOwnHook(Value()) && JournalFits(Value()) && Consistent()
      modifies this
      ensures Consistent() && Value() == Resumed(old(Value()), s)
    {
      ghost var next := Resumed(Value(), s);
      var e, following := Judge(s);
      Note(e);
      phase, timedOut := following, false;
      assert Value() == next;
    }

    /** What the settlement of the awaited hook means, and where it leads. */
    method Judge(s: Settlement) returns (e: Event, following: Phase)
      requires AwaitsOwnHook(Value()) && Consistent()
      ensures Log(Value(), e, following) == Resumed(Value(), s)
    {
      e, following := ForcedStop(s), ClosingLifecycle;
      match phase {
        case Draining => e, following := BeganDrain(s), if s.Done? && drainDelayMs > 0 then Sleeping else Stopping;
        case Sleeping => e, following := Slept(s), Stopping;
        case Stopping => e, following := Stopped(s), if s.Done? then ClosingLifecycle else Forcing;
        case Forcing => following := if s.Rejects? && timedOut then ForcingAgain else ClosingLifecycle;
        case ForcingAgain =>
      }
    }

    /** performShutdown goes on: the awaited hook has settled. */
    method Resume(s: Settlement)
      requires Valid() && AwaitsOwnHook(Value())
      modifies this, lifecycle
      ensures Valid() && Value() == Resumed(old(Value()), s)
      ensures lifecycle.Value() == LifecycleAfter(old(lifecycle.Value()), Value())
    {
      ResumeKeepsInv(lifecycle.Value(), Value(), s);
      Advance(s);
      if phase == ClosingLifecycle {
        lifecycle.Close();
      }
    }

    /** settlesWithin answers false: the server is stopped by force. */
    method TimeOut()
      requires Valid() && phase == Stopping
      modifies this
      ensures Valid() && Value() == Log(old(Value()), StopTimedOut, Forcing)
    {
      ghost var next := Log(Value(), StopTimedOut, Forcing);
      TimeOutKeepsInv(lifecycle.Value(), Value());
      Note(StopTimedOut);
      phase, timedOut := Forcing, true;
      assert Value() == next;
    }

    /** A graceful stop that was timed out settles: nobody listens any more. */
    method StopSettlesLate(s: Settlement)
      requires Valid() && StopTimedOut in journal && lateStop.None?
      modifies this
      ensures Valid() && Value() == old(Value()).(lateStop := Some(s))
    {
      lateStop := Some(s);
    }

    /** The awaited promise of the lifecycle settles: performShutdown reports what failed. */
    method Conclude()
      requires Valid() && phase == ClosingLifecycle && Settled(lifecycle.Value())
      modifies this
      ensures Valid() && Value() == Concluded(old(Value()), lifecycle.closePromise.value)
    {
      ghost var next := Concluded(Value(), lifecycle.closePromise.value);
      ConcludeKeepsInv(lifecycle.Value(), Value());
      Note(ClosedLifecycle(lifecycle.closePromise.value));
      phase := Finished;
      shutdownPromise := Some(if errors == [] then Completed else CompletedWithErrors(errors));
      assert Value() == next;
    }
  }
}
