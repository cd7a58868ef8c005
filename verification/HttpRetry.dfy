/** The default retry policy of the HTTP client (src/infrastructure/http/retry-policy.ts).
    Durations are real numbers of milliseconds. */
module RetryPolicy {
  import opened JsText
  import opened Digits

  datatype Method = GET | HEAD | OPTIONS | POST | PUT | PATCH | DELETE

  datatype RetryMode = Unset | Never | Idempotent

  datatype Failure = Network | Response(status: nat, retryAfter: Option<string>)

  /** A number-valued hook: it throws or returns something that is not finite, or a number. */
  datatype Hook = Broken | Value(value: real)

  /** The hooks one decision may consult, and what Date.parse makes of the header. */
  datatype Hooks = Hooks(random: Hook, now: Hook, httpDate: Option<real>)

  datatype Policy = Policy(maxRetries: nat, baseDelayMs: real, maxDelayMs: real)

  predicate ValidPolicy(p: Policy) {
    p.baseDelayMs >= 0.0 && p.maxDelayMs >= 0.0
  }

  datatype Delay = NoRetry | Wait(ms: real) | PolicyError

  function MaxR(a: real, b: real): real { if a >= b then a else b }

  function MinR(a: real, b: real): real { if a <= b then a else b }

  function Pow2(k: nat): (r: real)
    ensures r >= 1.0
  {
    if k == 0 then 1.0 else 2.0 * Pow2(k - 1)
  }

  predicate IsRetryableStatus(status: nat) {
    status in {408, 429, 502, 503, 504}
  }

  predicate CanRetryMethod(m: Method, mode: RetryMode) {
    mode != Never && (mode == Idempotent || m in {GET, HEAD, OPTIONS})
  }

  /** parseRetryAfter; NoRetry stands for its null. */
  function ParseRetryAfter(value: Option<string>, hooks: Hooks): Delay {
    if value.None? || Trim(value.value) == "" then NoRetry
    else
      var text := Trim(value.value);
      if forall i :: 0 <= i < |text| ==> IsDecimal(text[i]) then
        var seconds := FromText(text, 10);
        Wait(if seconds * 1_000 > MAX_SAFE_INTEGER then MAX_SAFE_INTEGER as real else (seconds * 1_000) as real)
      else if hooks.httpDate.None? then NoRetry
      else if hooks.now.Broken? then PolicyError
      else Wait(MaxR(0.0, hooks.httpDate.value - hooks.now.value))
  }

  function BackoffDelay(p: Policy, failedAttempt: nat, hooks: Hooks): Delay
    requires failedAttempt >= 1
  {
    if hooks.random.Broken? then PolicyError
    else Wait((Cap(p, failedAttempt) * MinR(1.0, MaxR(0.0, hooks.random.value))).Floor as real)
  }

  function Cap(p: Policy, failedAttempt: nat): real
    requires failedAttempt >= 1
  {
    if p.baseDelayMs == 0.0 then 0.0 else MinR(p.maxDelayMs, p.baseDelayMs * Pow2(failedAttempt - 1))
  }

  function NextDelay(p: Policy, m: Method, mode: RetryMode, failedAttempt: nat, failure: Failure, hooks: Hooks): Delay
    requires failedAttempt >= 1
  {
    if failedAttempt > p.maxRetries || !CanRetryMethod(m, mode) then NoRetry
    else if failure.Response? && !IsRetryableStatus(failure.status) then NoRetry
    else if failure.Response? && ParseRetryAfter(failure.retryAfter, hooks) != NoRetry then
      ParseRetryAfter(failure.retryAfter, hooks)
    else BackoffDelay(p, failedAttempt, hooks)
  }

  lemma Scaled(cap: real, jitter: real)
    requires cap >= 0.0 && 0.0 <= jitter <= 1.0
    ensures 0.0 <= (cap * jitter).Floor as real <= cap
  {
    assert 0.0 <= cap * jitter <= cap;
  }

  lemma Grown(a: real, b: real)
    requires a >= 0.0 && b >= 1.0
    ensures a * b >= a
  {
  }

  /** Backoff is a whole number of milliseconds within the capped exponential. */
  lemma BackoffBound(p: Policy, failedAttempt: nat, hooks: Hooks)
    requires ValidPolicy(p) && failedAttempt >= 1 && hooks.random.Value?
    ensures var d := BackoffDelay(p, failedAttempt, hooks);
            && d.Wait? && 0.0 <= d.ms <= p.maxDelayMs
            && d.ms <= p.baseDelayMs * Pow2(failedAttempt - 1)
            && d.ms == d.ms.Floor as real
  {
    Grown(p.baseDelayMs, Pow2(failedAttempt - 1));
    assert 0.0 <= Cap(p, failedAttempt);
    Scaled(Cap(p, failedAttempt), MinR(1.0, MaxR(0.0, hooks.random.value)));
  }

  /** A retry happens only within the budget, for an opted-in method, and after a network failure
      or a retryable status; its delay is never negative. */
  lemma RetryConditions(p: Policy, m: Method, mode: RetryMode, failedAttempt: nat, failure: Failure, hooks: Hooks)
    requires ValidPolicy(p) && failedAttempt >= 1
    ensures NextDelay(p, m, mode, failedAttempt, failure, hooks) == NoRetry <==>
            failedAttempt > p.maxRetries || !CanRetryMethod(m, mode)
                || (failure.Response? && !IsRetryableStatus(failure.status))
    ensures NextDelay(p, m, mode, failedAttempt, failure, hooks).Wait? ==>
            NextDelay(p, m, mode, failedAttempt, failure, hooks).ms >= 0.0
  {
    if hooks.random.Value? {
      BackoffBound(p, failedAttempt, hooks);
    }
  }

  lemma {:induction false} Pow2IsPower(k: nat)
    ensures Pow2(k) == Power(2, k) as real
  {
    if k > 0 {
      Pow2IsPower(k - 1);
    }
  }

  /** A failure is repeated if and only if the attempts are not used up, the request allows it (by its
      mode, or without one by a method that has no effect), and it was a transport failure or one of
      five statuses. */
  lemma RetriedExactly(p: Policy, m: Method, mode: RetryMode, failedAttempt: nat, failure: Failure, hooks: Hooks)
    requires ValidPolicy(p) && failedAttempt >= 1
    ensures NextDelay(p, m, mode, failedAttempt, failure, hooks) != NoRetry <==>
            && failedAttempt <= p.maxRetries
            && (mode == Idempotent || (mode == Unset && (m == GET || m == HEAD || m == OPTIONS)))
            && (failure.Response? ==> failure.status == 408 || failure.status == 429 || failure.status == 502
                                      || failure.status == 503 || failure.status == 504)
  {
    RetryConditions(p, m, mode, failedAttempt, failure, hooks);
  }

  /** A share of a cap, the share held between 0 and 1, rounded down to a whole millisecond. */
  ghost predicate IsShare(ms: real, cap: real, sample: real) {
    && ms == ms.Floor as real
    && (sample <= 0.0 ==> ms == 0.0)
    && (0.0 <= sample <= 1.0 ==> ms <= cap * sample < ms + 1.0)
    && (sample >= 1.0 ==> ms <= cap < ms + 1.0)
  }

  lemma FloorIsShare(cap: real, sample: real)
    ensures IsShare((cap * MinR(1.0, MaxR(0.0, sample))).Floor as real, cap, sample)
  {
    var share := MinR(1.0, MaxR(0.0, sample));
    assert sample <= 0.0 ==> cap * share == 0.0;
    assert 0.0 <= sample <= 1.0 ==> share == sample;
    assert sample >= 1.0 ==> cap * share == cap;
  }

  /** Without a Retry-After header the delay is a random share of the exponential of the attempt, capped. */
  lemma BackoffExact(p: Policy, m: Method, mode: RetryMode, failedAttempt: nat, failure: Failure, hooks: Hooks)
    requires ValidPolicy(p) && NextDelayAsked(p, m, mode, failedAttempt, failure)
    requires failure.Network? || failure.retryAfter.None? || Trim(failure.retryAfter.value) == ""
    ensures var d := NextDelay(p, m, mode, failedAttempt, failure, hooks);
            var grown := p.baseDelayMs * Power(2, failedAttempt - 1) as real;
            && (d == PolicyError <==> hooks.random.Broken?)
            && (hooks.random.Value? ==>
                  d.Wait? && IsShare(d.ms, if grown <= p.maxDelayMs then grown else p.maxDelayMs, hooks.random.value))
  {
    BackoffIsNext(p, m, mode, failedAttempt, failure, hooks);
    CapExact(p, failedAttempt);
    BackoffIsShare(p, failedAttempt, hooks, Cap(p, failedAttempt));
  }

  lemma BackoffIsNext(p: Policy, m: Method, mode: RetryMode, failedAttempt: nat, failure: Failure, hooks: Hooks)
    requires NextDelayAsked(p, m, mode, failedAttempt, failure)
    requires failure.Network? || failure.retryAfter.None? || Trim(failure.retryAfter.value) == ""
    ensures NextDelay(p, m, mode, failedAttempt, failure, hooks) == BackoffDelay(p, failedAttempt, hooks)
  {
  }

  lemma BackoffIsShare(p: Policy, failedAttempt: nat, hooks: Hooks, cap: real)
    requires failedAttempt >= 1 && cap == Cap(p, failedAttempt)
    ensures BackoffDelay(p, failedAttempt, hooks) == PolicyError <==> hooks.random.Broken?
    ensures hooks.random.Value? ==>
      BackoffDelay(p, failedAttempt, hooks).Wait?
      && IsShare(BackoffDelay(p, failedAttempt, hooks).ms, cap, hooks.random.value)
  {
    if hooks.random.Value? {
      FloorIsShare(cap, hooks.random.value);
    }
  }

  lemma CapExact(p: Policy, failedAttempt: nat)
    requires ValidPolicy(p) && failedAttempt >= 1
    ensures var grown := p.baseDelayMs * Power(2, failedAttempt - 1) as real;
            Cap(p, failedAttempt) == if grown <= p.maxDelayMs then grown else p.maxDelayMs
  {
    Pow2IsPower(failedAttempt - 1);
  }

  /** The attempt may be repeated. */
  predicate NextDelayAsked(p: Policy, m: Method, mode: RetryMode, failedAttempt: nat, failure: Failure) {
    && 1 <= failedAttempt <= p.maxRetries && CanRetryMethod(m, mode)
    && (failure.Response? ==> IsRetryableStatus(failure.status))
  }

  /** A Retry-After with a date is honoured as the time left until then, at least zero; with text that
      is neither a number nor a date it is ignored. */
  lemma RetryAfterDate(p: Policy, m: Method, mode: RetryMode, failedAttempt: nat, status: nat, text: string,
                       hooks: Hooks)
    requires ValidPolicy(p) && NextDelayAsked(p, m, mode, failedAttempt, Response(status, Some(text)))
    requires exists i :: 0 <= i < |Trim(text)| && !('0' <= Trim(text)[i] <= '9')
    ensures var d := NextDelay(p, m, mode, failedAttempt, Response(status, Some(text)), hooks);
            match hooks.httpDate
            case None => d == NextDelay(p, m, mode, failedAttempt, Network, hooks)
            case Some(date) =>
              match hooks.now
              case Broken => d == PolicyError
              case Value(now) => d == Wait(if date >= now then date - now else 0.0)
  {
  }

  /** A numeric Retry-After is honoured exactly, up to saturation, whatever the backoff cap. */
  lemma RetryAfterHonoured(p: Policy, m: Method, mode: RetryMode, failedAttempt: nat, status: nat, seconds: nat,
                           hooks: Hooks)
    requires 1 <= failedAttempt <= p.maxRetries && CanRetryMethod(m, mode) && IsRetryableStatus(status)
    ensures NextDelay(p, m, mode, failedAttempt, Response(status, Some(ToText(seconds, 10))), hooks) ==
            Wait(if seconds <= 9_007_199_254_740 then (seconds * 1_000) as real else 9_007_199_254_740_991.0)
  {
    NumericRetryAfter(seconds, hooks);
  }

  lemma NumericRetryAfter(seconds: nat, hooks: Hooks)
    ensures ParseRetryAfter(Some(ToText(seconds, 10)), hooks) ==
            Wait(if seconds <= 9_007_199_254_740 then (seconds * 1_000) as real else 9_007_199_254_740_991.0)
  {
    var text := ToText(seconds, 10);
    forall i | 0 <= i < |text|
      ensures IsDecimal(text[i])
    {
      assert DigitValue(text[i]) < 10;
    }
    TrimPadded("", text, "");
    assert "" + text + "" == text;
    assert Trim(text) == text;
    FromToText(seconds, 10);
  }
}

/** The request loop of the HTTP client under its deadline (src/infrastructure/http/fetch-http-client.ts).

    Attempts are counted from 0. The clock is read once to start, then once before each attempt and
    once to judge each failure that the policy would repeat: reading 2i + 1 comes before attempt i,
    reading 2i + 2 judges it. */
module HttpRetry {
  import opened JsText
  import opened RetryPolicy

  /** What one attempt meets: a broken timeout signal (no fetch is made), an invalid response
      object, a transport failure, or a response and whether its body decodes. */
  datatype Outcome =
    | SignalBroken
    | InvalidResponse
    | TransportError(timedOut: bool)
    | Answer(status: nat, retryAfter: Option<string>, decodes: bool)

  datatype Request = Request(httpMethod: Method, mode: RetryMode, timeoutMs: real, attemptTimeoutMs: real)

  datatype Result = Success(status: nat) | UpstreamFailed | TimedOut | ResponseInvalid | LocalError

  /** One fetch: the clock reading before it, the limit it was given, the budget that was left, and
      its outcome. */
  datatype Fetch = Fetch(reading: nat, timeoutMs: int, remainingMs: real, outcome: Outcome)

  /** One retry sleep: the number of failed attempts before it, and the reading that admitted it. */
  datatype Sleep = Sleep(failedAttempts: nat, delayMs: real, reading: nat)

  /** Everything the loop takes from outside: attempts, clock readings, policy hooks, the policy's
      answers after so many failed attempts, and whether the sleep after them works. */
  datatype World = World(
    outcome: nat -> Outcome,
    clock: nat -> Hook,
    hooks: nat -> Hooks,
    delay: (nat, Failure) -> Delay,
    sleepWorks: nat -> bool)

  ghost predicate AsksPolicy(policy: Policy, request: Request, w: World, failedAttempts: nat) {
    failedAttempts >= 1 ==> forall f: Failure ::
      w.delay(failedAttempts, f) ==
      NextDelay(policy, request.httpMethod, request.mode, failedAttempts, f, w.hooks(failedAttempts))
  }

  /** The answers come from the default policy. */
  ghost predicate PolicyAnswers(policy: Policy, request: Request, w: World) {
    forall k: nat :: AsksPolicy(policy, request, w, k)
  }

  predicate IsOk(status: nat) { 200 <= status <= 299 }

  // ---- the clock ----

  /** createRequestNow: a reader that refuses a clock that fails or goes back. */
  class RequestClock {
    var last: Option<real>
    var readCount: nat

    constructor ()
      ensures last == None && readCount == 0
    {
      last, readCount := None, 0;
    }

    method Now(w: World) returns (r: Option<real>)
      modifies this
      ensures readCount == old(readCount) + 1
      ensures r.Some? <==>
              var current := w.clock(old(readCount));
              current.Value? && (old(last).None? || current.value >= old(last).value)
      ensures r.Some? ==> r == last == Some(w.clock(old(readCount)).value)
      ensures r.None? ==> last == old(last)
    {
      var current := w.clock(readCount);
      readCount := readCount + 1;
      if current.Broken? || (last.Some? && current.value < last.value) {
        return None;
      }
      last := Some(current.value);
      return last;
    }
  }

  /** Reading k is finite and not before the one before it. */
  predicate Accepted(w: World, k: nat) {
    && w.clock(k).Value?
    && (k > 0 ==> w.clock(k - 1).Value? && w.clock(k - 1).value <= w.clock(k).value)
  }

  function At(w: World, k: nat): real {
    if w.clock(k).Value? then w.clock(k).value else 0.0
  }

  function Deadline(request: Request, w: World): real {
    At(w, 0) + request.timeoutMs
  }

  /** The reader has made this many readings and accepted the last of them. */
  predicate HasRead(w: World, readCount: nat, last: Option<real>, k: nat) {
    readCount == k && k >= 1 && w.clock(k - 1).Value? && last == Some(w.clock(k - 1).value)
  }

  // ---- what an attempt is and what it leads to ----

  function Ceil(x: real): int {
    -((-x).Floor)
  }

  function AttemptTimeout(request: Request, remaining: real): int {
    var c := Ceil(MinR(request.attemptTimeoutMs, remaining));
    if c >= 1 then c else 1
  }

  function FailureOf(o: Outcome): Failure {
    match o
    case Answer(status, retryAfter, _) => Response(status, retryAfter)
    case _ => Network
  }

  /** An outcome that is put to the policy: a transport failure, or an answer that is not 2xx. */
  predicate Fails(o: Outcome) {
    o.TransportError? || (o.Answer? && !IsOk(o.status))
  }

  /** The policy's answer to the failure of attempt i. */
  function DelayAfter(w: World, i: nat): Delay {
    w.delay(i + 1, FailureOf(w.outcome(i)))
  }

  /** The sleep between attempt i and the next works, if there is one. */
  predicate SleptAfter(w: World, i: nat) {
    DelayAfter(w, i).Wait? && DelayAfter(w, i).ms > 0.0 ==> w.sleepWorks(i + 1)
  }

  /** Attempt i reaches its fetch: the sleep before it works, its reading is accepted and before the
      deadline, and it gets its signal. */
  predicate Begins(request: Request, w: World, i: nat) {
    && (i > 0 ==> SleptAfter(w, i - 1))
    && Accepted(w, 2 * i + 1) && At(w, 2 * i + 1) < Deadline(request, w)
    && !w.outcome(i).SignalBroken?
  }

  /** Attempt i is followed by another: it begins, fails, and the policy's delay, counted from an
      accepted reading, ends before the deadline. */
  predicate Repeats(request: Request, w: World, i: nat) {
    && Begins(request, w, i) && Fails(w.outcome(i))
    && DelayAfter(w, i).Wait? && DelayAfter(w, i).ms >= 0.0
    && Accepted(w, 2 * i + 2) && At(w, 2 * i + 2) + DelayAfter(w, i).ms < Deadline(request, w)
  }

  /** The failure of attempt i is final: the policy asks for no retry, or its delay, counted from
      the reading that judges the attempt, reaches the deadline. */
  predicate GivesUp(request: Request, w: World, i: nat) {
    && Begins(request, w, i) && Fails(w.outcome(i))
    && (|| DelayAfter(w, i).NoRetry?
        || (DelayAfter(w, i).Wait? && Accepted(w, 2 * i + 2)
            && At(w, 2 * i + 2) + DelayAfter(w, i).ms >= Deadline(request, w)))
  }

  /** Attempt i is kept from its fetch by something local. */
  predicate BlockedBefore(request: Request, w: World, i: nat) {
    || (i > 0 && !SleptAfter(w, i - 1))
    || !Accepted(w, 2 * i + 1)
    || (At(w, 2 * i + 1) < Deadline(request, w) && w.outcome(i).SignalBroken?)
  }

  /** Something local fails after the fetch of attempt i. */
  predicate BrokenAfter(request: Request, w: World, i: nat) {
    && Begins(request, w, i)
    && (|| w.outcome(i).InvalidResponse?
        || (Fails(w.outcome(i)) && DelayAfter(w, i).PolicyError?)
        || (Fails(w.outcome(i)) && DelayAfter(w, i).Wait? && !Accepted(w, 2 * i + 2)))
  }

  /** How a request with this many repeated attempts ends: before the fetch of the next attempt, or
      after it. */
  predicate EndsBefore(request: Request, w: World, i: nat, result: Result) {
    || (result.LocalError? && BlockedBefore(request, w, i))
    || (result.TimedOut? && (i > 0 ==> SleptAfter(w, i - 1))
        && Accepted(w, 2 * i + 1) && At(w, 2 * i + 1) >= Deadline(request, w))
  }

  predicate EndsAfter(request: Request, w: World, i: nat, result: Result) {
    match result
    case Success(status) =>
      && Begins(request, w, i)
      && w.outcome(i).Answer? && IsOk(status) && w.outcome(i).status == status && w.outcome(i).decodes
    case ResponseInvalid =>
      Begins(request, w, i) && w.outcome(i).Answer? && IsOk(w.outcome(i).status) && !w.outcome(i).decodes
    case UpstreamFailed => GivesUp(request, w, i) && w.outcome(i) != TransportError(true)
    case TimedOut => GivesUp(request, w, i) && w.outcome(i) == TransportError(true)
    case LocalError => BrokenAfter(request, w, i)
  }

  // ---- the trace of a request ----

  function FetchAt(request: Request, w: World, i: nat): Fetch {
    var remaining := Deadline(request, w) - At(w, 2 * i + 1);
    Fetch(2 * i + 1, AttemptTimeout(request, remaining), remaining, w.outcome(i))
  }

  function FetchesOf(request: Request, w: World, made: nat): (fetches: seq<Fetch>)
    ensures |fetches| == made
  {
    seq(made, i requires 0 <= i < made => FetchAt(request, w, i))
  }

  /** The sleeps after the first n attempts: the policy's positive delays. */
  function SleepsOf(w: World, n: nat): seq<Sleep> {
    if n == 0 then []
    else
      var delay := DelayAfter(w, n - 1);
      SleepsOf(w, n - 1) + (if delay.Wait? && delay.ms > 0.0 then [Sleep(n, delay.ms, 2 * n)] else [])
  }

  ghost predicate AllRepeat(request: Request, w: World, n: nat) {
    forall i :: 0 <= i < n ==> Repeats(request, w, i)
  }

  /** A request whose first reading is accepted: so many attempts were repeated, with these fetches
      and sleeps, and then it ended so. */
  ghost predicate IsRun(request: Request, w: World, repeated: nat, fetches: seq<Fetch>, sleeps: seq<Sleep>,
                        result: Result) {
    && AllRepeat(request, w, repeated) && sleeps == SleepsOf(w, repeated)
    && (|| (fetches == FetchesOf(request, w, repeated) && EndsBefore(request, w, repeated, result))
        || (fetches == FetchesOf(request, w, repeated + 1) && EndsAfter(request, w, repeated, result)))
  }

  // ---- the loop ----

  /** What a failed attempt leads to: another attempt after a delay, giving up, or a local error. */
  datatype Verdict = Again(delayMs: real) | GiveUp | HookFailed

  /** nextRetryDelay and the comparison with the budget that is left. */
  method JudgeFailure(policy: Policy, request: Request, clock: RequestClock, i: nat, w: World) returns (v: Verdict)
    requires ValidPolicy(policy) && PolicyAnswers(policy, request, w)
    requires HasRead(w, clock.readCount, clock.last, 2 * i + 2)
    requires Begins(request, w, i) && Fails(w.outcome(i))
    modifies clock
    ensures v.Again? ==>
      && Repeats(request, w, i) && DelayAfter(w, i) == Wait(v.delayMs) && i < policy.maxRetries
      && HasRead(w, clock.readCount, clock.last, 2 * i + 3)
    ensures v.GiveUp? ==> GivesUp(request, w, i)
    ensures v.HookFailed? ==> BrokenAfter(request, w, i)
  {
    var failure := FailureOf(w.outcome(i));
    assert AsksPolicy(policy, request, w, i + 1);
    RetryConditions(policy, request.httpMethod, request.mode, i + 1, failure, w.hooks(i + 1));
    var delay := NextDelay(policy, request.httpMethod, request.mode, i + 1, failure, w.hooks(i + 1));
    if delay.PolicyError? {
      return HookFailed;
    }
    if delay.NoRetry? {
      return GiveUp;
    }
    var now := clock.Now(w);
    if now.None? {
      return HookFailed;
    }
    if delay.ms < MaxR(0.0, Deadline(request, w) - now.value) {
      return Again(delay.ms);
    }
    return GiveUp;
  }

  /** One pass through the loop: it ends before or after its fetch, or asks for another. */
  datatype Pass = Ended(result: Result, fetch: Option<Fetch>) | Retry(made: Fetch, delayMs: real)

  method RunAttempt(policy: Policy, request: Request, clock: RequestClock, deadlineAt: real, i: nat, w: World)
    returns (pass: Pass)
    requires ValidPolicy(policy) && PolicyAnswers(policy, request, w) && deadlineAt == Deadline(request, w)
    requires HasRead(w, clock.readCount, clock.last, 2 * i + 1) && (i > 0 ==> SleptAfter(w, i - 1))
    modifies clock
    ensures pass.Ended? ==>
      if pass.fetch.None? then EndsBefore(request, w, i, pass.result)
      else pass.fetch.value == FetchAt(request, w, i) && EndsAfter(request, w, i, pass.result)
    ensures pass.Retry? ==>
      && Repeats(request, w, i) && pass.made == FetchAt(request, w, i)
      && DelayAfter(w, i) == Wait(pass.delayMs) && i < policy.maxRetries
      && HasRead(w, clock.readCount, clock.last, 2 * i + 3)
  {
    var before := clock.Now(w);
    if before.None? {
      return Ended(LocalError, None);
    }
    var remainingBeforeAttempt := MaxR(0.0, deadlineAt - before.value);
    if remainingBeforeAttempt <= 0.0 {
      return Ended(TimedOut, None);
    }
    var outcome := w.outcome(i);
    if outcome.SignalBroken? {
      return Ended(LocalError, None);
    }
    var made := Fetch(2 * i + 1, AttemptTimeout(request, remainingBeforeAttempt), remainingBeforeAttempt, outcome);
    if outcome.InvalidResponse? {
      return Ended(LocalError, Some(made));
    }
    if outcome.Answer? && IsOk(outcome.status) {
      return Ended(if outcome.decodes then Success(outcome.status) else ResponseInvalid, Some(made));
    }
    var verdict := JudgeFailure(policy, request, clock, i, w);
    match verdict
    case HookFailed => return Ended(LocalError, Some(made));
    case GiveUp => return Ended(if outcome == TransportError(true) then TimedOut else UpstreamFailed, Some(made));
    case Again(delayMs) => return Retry(made, delayMs);
  }

  lemma OneMore(request: Request, w: World, n: nat)
    requires AllRepeat(request, w, n) && Repeats(request, w, n)
    ensures AllRepeat(request, w, n + 1)
  {
  }

  lemma NextFetch(request: Request, w: World, n: nat)
    ensures FetchesOf(request, w, n + 1) == FetchesOf(request, w, n) + [FetchAt(request, w, n)]
  {
  }

  lemma NextSleep(w: World, n: nat)
    requires DelayAfter(w, n).Wait?
    ensures SleepsOf(w, n + 1) ==
            if DelayAfter(w, n).ms > 0.0 then SleepsOf(w, n) + [Sleep(n + 1, DelayAfter(w, n).ms, 2 * n + 2)]
            else SleepsOf(w, n)
  {
    assert SleepsOf(w, n) + [] == SleepsOf(w, n);
  }

  /** executeRequest, from the deadline on. */
  method ExecuteRequest(policy: Policy, request: Request, clock: RequestClock, startedAt: real, w: World)
    returns (result: Result, fetches: seq<Fetch>, sleeps: seq<Sleep>, ghost repeated: nat)
    requires ValidPolicy(policy) && PolicyAnswers(policy, request, w)
    requires HasRead(w, clock.readCount, clock.last, 1) && startedAt == At(w, 0)
    modifies clock
    ensures IsRun(request, w, repeated, fetches, sleeps, result)
  {
    var deadlineAt := startedAt + request.timeoutMs;
    fetches, sleeps := [], [];
    var attempt := 0;
    while true
      invariant HasRead(w, clock.readCount, clock.last, 2 * attempt + 1)
      invariant AllRepeat(request, w, attempt) && attempt <= policy.maxRetries
      invariant attempt > 0 ==> SleptAfter(w, attempt - 1)
      invariant fetches == FetchesOf(request, w, attempt) && sleeps == SleepsOf(w, attempt)
      decreases policy.maxRetries - attempt
    {
      repeated := attempt;
      var pass := RunAttempt(policy, request, clock, deadlineAt, attempt, w);
      if pass.Ended? {
        result := pass.result;
        if pass.fetch.Some? {
          NextFetch(request, w, attempt);
          fetches := fetches + [pass.fetch.value];
        }
        break;
      }
      OneMore(request, w, attempt);
      NextFetch(request, w, attempt);
      NextSleep(w, attempt);
      fetches := fetches + [pass.made];
      attempt := attempt + 1;
      repeated := attempt;
      if pass.delayMs > 0.0 {
        sleeps := sleeps + [Sleep(attempt, pass.delayMs, 2 * attempt)];
        if !w.sleepWorks(attempt) {
          result := LocalError;
          break;
        }
      }
    }
  }

  /** A whole request: the clock is read first, and a clock that fails at once ends it. */
  method Execute(policy: Policy, request: Request, w: World)
    returns (result: Result, fetches: seq<Fetch>, sleeps: seq<Sleep>)
    requires ValidPolicy(policy) && PolicyAnswers(policy, request, w)
    requires request.timeoutMs > 0.0 && request.attemptTimeoutMs > 0.0
    ensures !Accepted(w, 0) ==> result == LocalError && fetches == [] && sleeps == []
    ensures Accepted(w, 0) ==> exists repeated: nat :: IsRun(request, w, repeated, fetches, sleeps, result)
  {
    var clock := new RequestClock();
    var startedAt := clock.Now(w);
    if startedAt.None? {
      return LocalError, [], [];
    }
    ghost var repeated;
    result, fetches, sleeps, repeated := ExecuteRequest(policy, request, clock, startedAt.value, w);
  }

  // ---- what every request keeps ----

  /** Nothing in a run is left open: attempts, fetches, sleeps and the result are determined by the
      request and the world. */
  lemma RunDetermined(request: Request, w: World, m: nat, n: nat, f: seq<Fetch>, g: seq<Fetch>,
                      s: seq<Sleep>, t: seq<Sleep>, a: Result, b: Result)
    requires IsRun(request, w, m, f, s, a) && IsRun(request, w, n, g, t, b)
    ensures m == n && f == g && s == t && a == b
  {
    assert m < n ==> Repeats(request, w, m);
    assert n < m ==> Repeats(request, w, n);
  }

  lemma RepeatsWithinPolicy(policy: Policy, request: Request, w: World, i: nat)
    requires ValidPolicy(policy) && PolicyAnswers(policy, request, w) && Repeats(request, w, i)
    ensures i < policy.maxRetries && CanRetryMethod(request.httpMethod, request.mode)
    ensures w.outcome(i).Answer? ==> IsRetryableStatus(w.outcome(i).status)
  {
    assert AsksPolicy(policy, request, w, i + 1);
    RetryConditions(policy, request.httpMethod, request.mode, i + 1, FailureOf(w.outcome(i)), w.hooks(i + 1));
  }

  /** At most maxRetries + 1 fetches; one for a method that is not opted in; and another fetch only
      after a transport failure or a retryable status, hence never after a 2xx response. */
  lemma FetchBound(policy: Policy, request: Request, w: World, repeated: nat, fetches: seq<Fetch>, sleeps: seq<Sleep>,
                   result: Result)
    requires ValidPolicy(policy) && PolicyAnswers(policy, request, w)
    requires IsRun(request, w, repeated, fetches, sleeps, result)
    ensures |fetches| <= policy.maxRetries + 1
    ensures |fetches| >= 2 ==> CanRetryMethod(request.httpMethod, request.mode)
    ensures forall i :: 0 <= i < |fetches| - 1 ==>
      fetches[i].outcome.TransportError? || (fetches[i].outcome.Answer? && IsRetryableStatus(fetches[i].outcome.status))
  {
    forall i | 0 <= i < repeated
      ensures i < policy.maxRetries && CanRetryMethod(request.httpMethod, request.mode)
      ensures w.outcome(i).TransportError? || (w.outcome(i).Answer? && IsRetryableStatus(w.outcome(i).status))
    {
      assert Repeats(request, w, i);
      RepeatsWithinPolicy(policy, request, w, i);
    }
    assert repeated > 0 ==> repeated - 1 < policy.maxRetries;
  }

  /** What a result says of the last fetch, and what a 2xx response leads to. */
  lemma ResultOfLastFetch(request: Request, w: World, repeated: nat, fetches: seq<Fetch>, sleeps: seq<Sleep>,
                          result: Result)
    requires IsRun(request, w, repeated, fetches, sleeps, result)
    ensures result.Success? ==>
      fetches != [] && fetches[|fetches| - 1].outcome.Answer? && fetches[|fetches| - 1].outcome.status == result.status
      && 200 <= result.status <= 299
    ensures result.UpstreamFailed? ==>
      fetches != [] && (|| fetches[|fetches| - 1].outcome == TransportError(false)
                        || (fetches[|fetches| - 1].outcome.Answer? && !IsOk(fetches[|fetches| - 1].outcome.status)))
    ensures result.TimedOut? ==>
      || (fetches != [] && fetches[|fetches| - 1].outcome == TransportError(true))
      || (w.clock(2 * |fetches| + 1).Value? && At(w, 0) + request.timeoutMs <= w.clock(2 * |fetches| + 1).value)
    ensures forall i :: 0 <= i < |fetches| && fetches[i].outcome.Answer? && 200 <= fetches[i].outcome.status <= 299 ==>
      && i == |fetches| - 1
      && result == if fetches[i].outcome.decodes then Success(fetches[i].outcome.status) else ResponseInvalid
  {
    forall i | 0 <= i < repeated
      ensures Fails(w.outcome(i))
    {
      assert Repeats(request, w, i);
    }
  }

  /** Retries are not skipped: a failure that the policy would repeat after a delay that ends before the
      deadline is followed by another fetch, if the sleep works, the clock is not yet at the deadline
      when it is over, and the next attempt gets its signal. */
  lemma RetriedWhenItFits(request: Request, w: World, repeated: nat, fetches: seq<Fetch>, sleeps: seq<Sleep>,
                          result: Result, i: nat)
    requires IsRun(request, w, repeated, fetches, sleeps, result) && i < |fetches|
    requires fetches[i].outcome.TransportError? || (fetches[i].outcome.Answer? && !IsOk(fetches[i].outcome.status))
    requires w.delay(i + 1, FailureOf(fetches[i].outcome)).Wait?
    requires var d := w.delay(i + 1, FailureOf(fetches[i].outcome)).ms;
             && d >= 0.0 && w.sleepWorks(i + 1)
             && Accepted(w, 2 * i + 2) && w.clock(2 * i + 2).value + d < At(w, 0) + request.timeoutMs
    requires Accepted(w, 2 * i + 3) && w.clock(2 * i + 3).value < At(w, 0) + request.timeoutMs
    requires !w.outcome(i + 1).SignalBroken?
    ensures |fetches| > i + 1
  {
    assert fetches[i] == FetchAt(request, w, i);
    assert i < repeated ==> Repeats(request, w, i);
    assert Begins(request, w, i);
    assert Repeats(request, w, i);
    assert 2 * (i + 1) + 1 == 2 * i + 3;
    assert Begins(request, w, i + 1);
  }

  /** The limit of a fetch is what is left of the timeout or the attempt limit, whichever is less, rounded
      up to a whole millisecond. */
  lemma LimitRoundsUp(request: Request, w: World, repeated: nat, fetches: seq<Fetch>, sleeps: seq<Sleep>,
                      result: Result, i: nat)
    requires IsRun(request, w, repeated, fetches, sleeps, result) && i < |fetches| && request.attemptTimeoutMs > 0.0
    ensures var left := fetches[i].remainingMs;
            var limit := if left <= request.attemptTimeoutMs then left else request.attemptTimeoutMs;
            fetches[i].timeoutMs >= 1 && (fetches[i].timeoutMs - 1) as real < limit <= fetches[i].timeoutMs as real
  {
    assert fetches[i] == FetchAt(request, w, i);
    assert i < repeated ==> Repeats(request, w, i);
    assert Begins(request, w, i);
  }

  lemma {:induction false} ClockAdvances(request: Request, w: World, i: nat, j: nat)
    requires i <= j && AllRepeat(request, w, j) && Accepted(w, 2 * j + 1)
    ensures At(w, 0) <= At(w, 2 * i + 1) <= At(w, 2 * j + 1)
  {
    if j > 0 {
      assert Repeats(request, w, j - 1);
      assert Accepted(w, 2 * (j - 1) + 2) && Accepted(w, 2 * (j - 1) + 1);
      ClockAdvances(request, w, if i < j then i else j - 1, j - 1);
    }
  }

  /** The budget of an attempt is what the deadline leaves at its own reading of the clock: positive,
      never more than the timeout, and never more than an earlier attempt had. The limit of the fetch
      is that budget or the attempt limit, rounded up to a whole millisecond, at least one. */
  lemma BudgetShrinks(request: Request, w: World, repeated: nat, fetches: seq<Fetch>, sleeps: seq<Sleep>,
                      result: Result, i: nat, j: nat)
    requires IsRun(request, w, repeated, fetches, sleeps, result) && i <= j < |fetches|
    ensures fetches[j].reading == 2 * j + 1 && Accepted(w, fetches[j].reading)
    ensures fetches[j].remainingMs == At(w, 0) + request.timeoutMs - w.clock(fetches[j].reading).value
    ensures 0.0 < fetches[j].remainingMs <= fetches[i].remainingMs <= request.timeoutMs
    ensures fetches[j].timeoutMs == AttemptTimeout(request, fetches[j].remainingMs)
  {
    assert j < repeated ==> Repeats(request, w, j);
    assert Begins(request, w, j);
    ClockAdvances(request, w, i, j);
  }

  // ---- the sleeps ----

  function TotalDelay(sleeps: seq<Sleep>): real {
    if sleeps == [] then 0.0 else TotalDelay(sleeps[..|sleeps| - 1]) + sleeps[|sleeps| - 1].delayMs
  }

  /** Sleeping after this many failed attempts advances the clock by at least the delay. */
  predicate SleepAdvances(w: World, s: Sleep) {
    w.clock(s.reading + 1).Value? ==> At(w, s.reading + 1) >= At(w, s.reading) + s.delayMs
  }

  ghost predicate SleepsAdvance(w: World, sleeps: seq<Sleep>) {
    forall i :: 0 <= i < |sleeps| ==> SleepAdvances(w, sleeps[i])
  }

  /** The delays after the first n attempts, added up. */
  function Waited(w: World, n: nat): real {
    if n == 0 then 0.0 else Waited(w, n - 1) + (if DelayAfter(w, n - 1).Wait? then DelayAfter(w, n - 1).ms else 0.0)
  }

  /** The clock shows the delay after attempt i, if there was one. */
  predicate AdvancesAfter(w: World, i: nat) {
    DelayAfter(w, i).Wait? && DelayAfter(w, i).ms > 0.0 && w.clock(2 * i + 3).Value? ==>
      At(w, 2 * i + 3) >= At(w, 2 * i + 2) + DelayAfter(w, i).ms
  }

  lemma NextTotal(w: World, m: nat)
    requires DelayAfter(w, m).Wait? && DelayAfter(w, m).ms >= 0.0
    ensures TotalDelay(SleepsOf(w, m + 1)) == TotalDelay(SleepsOf(w, m)) + DelayAfter(w, m).ms
    ensures SleepsAdvance(w, SleepsOf(w, m + 1)) ==> SleepsAdvance(w, SleepsOf(w, m)) && AdvancesAfter(w, m)
  {
    NextSleep(w, m);
    LongerBy(w, SleepsOf(w, m), SleepsOf(w, m + 1), Sleep(m + 1, DelayAfter(w, m).ms, 2 * m + 2));
  }

  lemma WaitsAfter(request: Request, w: World, n: nat, i: nat)
    requires AllRepeat(request, w, n) && i < n
    ensures DelayAfter(w, i).Wait? && DelayAfter(w, i).ms >= 0.0
  {
    assert Repeats(request, w, i);
  }

  lemma SleepsTotal(request: Request, w: World, n: nat)
    requires AllRepeat(request, w, n)
    ensures TotalDelay(SleepsOf(w, n)) == Waited(w, n)
  {
    for k := 0 to n
      invariant TotalDelay(SleepsOf(w, k)) == Waited(w, k)
    {
      WaitsAfter(request, w, n, k);
      NextTotal(w, k);
    }
  }

  lemma EachDelayAdvances(request: Request, w: World, n: nat, i: nat)
    requires AllRepeat(request, w, n) && SleepsAdvance(w, SleepsOf(w, n)) && i < n
    ensures AdvancesAfter(w, i)
  {
    for m: nat := n downto i + 1
      invariant SleepsAdvance(w, SleepsOf(w, m))
    {
      WaitsAfter(request, w, n, m);
      NextTotal(w, m);
    }
    WaitsAfter(request, w, n, i);
    NextTotal(w, i);
  }

  /** The sleeps are exactly the positive delays of the repeated attempts, in order: each is the policy's
      answer to the failure of its attempt, counted from the reading that judged it. */
  lemma {:induction false} SleepsExact(request: Request, w: World, n: nat)
    requires AllRepeat(request, w, n)
    ensures forall i :: 0 <= i < |SleepsOf(w, n)| ==> IsSleepAfter(w, n, SleepsOf(w, n)[i])
    ensures forall i, j :: 0 <= i < j < |SleepsOf(w, n)| ==>
              SleepsOf(w, n)[i].failedAttempts < SleepsOf(w, n)[j].failedAttempts
    ensures forall k :: 0 <= k < n && DelayAfter(w, k).Wait? && DelayAfter(w, k).ms > 0.0 ==>
              Sleep(k + 1, DelayAfter(w, k).ms, 2 * k + 2) in SleepsOf(w, n)
  {
    if n > 0 {
      SleepsExact(request, w, n - 1);
      var before := SleepsOf(w, n - 1);
      NextSleepOf(w, n);
      if DelayAfter(w, n - 1).Wait? && DelayAfter(w, n - 1).ms > 0.0 {
        assert SleepsOf(w, n)[|before|] == Sleep(n, DelayAfter(w, n - 1).ms, 2 * n);
      }
      assert forall i :: 0 <= i < |before| ==> SleepsOf(w, n)[i] == before[i];
    }
  }

  lemma NextSleepOf(w: World, n: nat)
    requires n > 0
    ensures var delay := DelayAfter(w, n - 1);
            SleepsOf(w, n) == if delay.Wait? && delay.ms > 0.0 then SleepsOf(w, n - 1) + [Sleep(n, delay.ms, 2 * n)]
                              else SleepsOf(w, n - 1)
  {
    assert SleepsOf(w, n - 1) + [] == SleepsOf(w, n - 1);
  }

  /** After so many failed attempts, up to n, the request waits for what the policy answered. */
  predicate IsSleepAfter(w: World, n: nat, s: Sleep) {
    && 1 <= s.failedAttempts <= n && s.reading == 2 * s.failedAttempts && s.delayMs > 0.0
    && w.delay(s.failedAttempts, FailureOf(w.outcome(s.failedAttempts - 1))) == Wait(s.delayMs)
  }

  lemma LongerBy(w: World, shorter: seq<Sleep>, longer: seq<Sleep>, s: Sleep)
    requires s.delayMs >= 0.0 && longer == if s.delayMs > 0.0 then shorter + [s] else shorter
    ensures TotalDelay(longer) == TotalDelay(shorter) + s.delayMs
    ensures SleepsAdvance(w, longer) ==> SleepsAdvance(w, shorter) && (s.delayMs > 0.0 ==> SleepAdvances(w, s))
  {
    OneMoreSleep(w, shorter, s);
  }

  lemma {:induction false} WaitedSoFar(request: Request, w: World, n: nat)
    requires AllRepeat(request, w, n) && request.timeoutMs > 0.0 && forall i :: 0 <= i < n ==> AdvancesAfter(w, i)
    ensures Waited(w, n) < request.timeoutMs
    ensures Accepted(w, 2 * n + 1) ==> At(w, 2 * n + 1) >= At(w, 0) + Waited(w, n)
  {
    if n > 0 {
      var m := n - 1;
      WaitedSoFar(request, w, m);
      assert Repeats(request, w, m) && AdvancesAfter(w, m);
      assert 2 * m + 2 == 2 * n && 2 * m + 3 == 2 * n + 1;
    }
  }

  lemma OneMoreSleep(w: World, sleeps: seq<Sleep>, s: Sleep)
    ensures TotalDelay(sleeps + [s]) == TotalDelay(sleeps) + s.delayMs
    ensures SleepsAdvance(w, sleeps + [s]) ==> SleepsAdvance(w, sleeps) && SleepAdvances(w, s)
  {
    var longer := sleeps + [s];
    assert longer[..|sleeps|] == sleeps && longer[|sleeps|] == s;
    assert forall i :: 0 <= i < |sleeps| ==> longer[i] == sleeps[i];
  }

  /** While each sleep advances the clock by its delay, all sleeps together stay below the timeout. */
  lemma SleepsWithinTimeout(request: Request, w: World, repeated: nat, fetches: seq<Fetch>, sleeps: seq<Sleep>,
                            result: Result)
    requires IsRun(request, w, repeated, fetches, sleeps, result) && Accepted(w, 0) && request.timeoutMs > 0.0
    requires SleepsAdvance(w, sleeps)
    ensures TotalDelay(sleeps) < request.timeoutMs
  {
    SleepsTotal(request, w, repeated);
    forall i | 0 <= i < repeated
      ensures AdvancesAfter(w, i)
    {
      EachDelayAdvances(request, w, repeated, i);
    }
    WaitedSoFar(request, w, repeated);
  }

  // ---- local errors ----

  predicate SoundAt(w: World, k: nat) {
    && w.hooks(k).random.Value? && w.hooks(k).now.Value? && w.sleepWorks(k)
    && !w.outcome(k).SignalBroken? && !w.outcome(k).InvalidResponse?
  }

  /** No hook fails, each attempt gets its signal, each response is a response object, and the clock
      never fails or goes back. */
  ghost predicate Sound(w: World) {
    forall k: nat :: SoundAt(w, k) && Accepted(w, k)
  }

  /** A local error means that something local did fail. */
  lemma NoLocalError(policy: Policy, request: Request, w: World, repeated: nat, fetches: seq<Fetch>,
                     sleeps: seq<Sleep>, result: Result)
    requires ValidPolicy(policy) && PolicyAnswers(policy, request, w) && Sound(w)
    requires IsRun(request, w, repeated, fetches, sleeps, result)
    ensures result != LocalError
  {
    assert SoundAt(w, repeated) && SoundAt(w, repeated + 1);
    assert Accepted(w, 2 * repeated + 1) && Accepted(w, 2 * repeated + 2);
    assert AsksPolicy(policy, request, w, repeated + 1);
    var hooks := w.hooks(repeated + 1);
    BackoffBound(policy, repeated + 1, hooks);
    assert repeated > 0 ==> repeated - 1 + 1 == repeated;
  }
}
