/** The transaction manager that repeats whole transactions
    (src/infrastructure/database/drizzle-transaction-manager.ts). Attempts are numbered from 1. */
module TransactionRetry {
  import opened Arith
  import opened JsText
  import opened Digits
  import opened ErrorChain
  import opened RetryPolicy

  /** What the database makes of one attempt. An error may reach the caller although the commit took
      effect, as when the connection is lost before the answer. */
  datatype Attempt<R> = Returned(value: R) | Threw(thrown: Graph, committed: bool)

  predicate Commits<R>(a: Attempt<R>) {
    a.Returned? || a.committed
  }

  /** What was committed: the effect of one attempt, or a transaction of another client. */
  datatype Entry = Own(attempt: nat) | Foreign(client: nat)

  /** What attempts, other clients and hooks do, by attempt. */
  datatype World<R> = World(
    attempts: nat -> Attempt<R>,
    others: nat -> seq<Entry>,
    random: nat -> Hook,
    sleepWorks: nat -> bool)

  predicate OnlyOthers<R>(w: World<R>, k: nat) {
    forall i :: 0 <= i < |w.others(k)| ==> w.others(k)[i].Foreign?
  }

  datatype Options = Options(maxAttempts: nat, baseDelayMs: nat, maxDelayMs: nat)

  predicate ValidOptions(o: Options) {
    1 <= o.maxAttempts <= 10 && o.baseDelayMs <= o.maxDelayMs <= 60_000
  }

  /** The delay cap after the given failed attempt. */
  function DelayCap(o: Options, failedAttempt: nat): (cap: nat)
    requires failedAttempt >= 1
    ensures cap <= o.maxDelayMs && cap <= o.baseDelayMs * Power(2, failedAttempt - 1)
  {
    MulNonNegative(o.baseDelayMs, Power(2, failedAttempt - 1));
    var doubled := o.baseDelayMs * Power(2, failedAttempt - 1);
    if o.maxDelayMs <= doubled then o.maxDelayMs else doubled
  }

  /** retryDelayMs; None when the random hook fails. */
  function RetryDelayMs(o: Options, failedAttempt: nat, random: Hook): (r: Option<int>)
    requires failedAttempt >= 1
    ensures r.None? <==> random.Broken?
    ensures r.Some? ==> 0 <= r.value <= o.maxDelayMs && r.value <= o.baseDelayMs * Power(2, failedAttempt - 1)
  {
    if random.Broken? then None else Some(Jittered(DelayCap(o, failedAttempt), random.value))
  }

  function Jittered(cap: nat, sample: real): (delayMs: int)
    ensures 0 <= delayMs <= cap
  {
    var ratio := MinR(1.0, MaxR(0.0, sample));
    Scaled(cap as real, ratio);
    (cap as real * ratio).Floor
  }

  /** The delay after a failed attempt is a random share of the base, doubled with each attempt before
      and capped: the whole milliseconds of that share, the sample held between 0 and 1. */
  lemma DelayIsShare(o: Options, failedAttempt: nat, sample: real)
    requires failedAttempt >= 1
    ensures var grown: nat := o.baseDelayMs * Power(2, failedAttempt - 1);
            var delay := RetryDelayMs(o, failedAttempt, Value(sample));
            delay.Some? && IsShare(delay.value as real, (if grown <= o.maxDelayMs then grown else o.maxDelayMs) as real,
                                   sample)
  {
    MulNonNegative(o.baseDelayMs, Power(2, failedAttempt - 1));
    JitteredIsShare(DelayCap(o, failedAttempt), sample);
  }

  lemma JitteredIsShare(cap: nat, sample: real)
    ensures IsShare(Jittered(cap, sample) as real, cap as real, sample)
  {
    FloorIsShare(cap as real, sample);
  }

  datatype RunResult<R> = Success(value: R) | Failed(thrown: Graph) | RetryHookFailed

  /** The failure of attempt k asks for another attempt. */
  predicate Repeats<R>(w: World<R>, k: nat) {
    w.attempts(k).Threw? && RetryableTransactionFailureReason(w.attempts(k).thrown).Some?
  }

  predicate HooksWork<R>(w: World<R>, k: nat) {
    w.random(k).Value? && w.sleepWorks(k)
  }

  /** Every attempt before this one failed, asked for another and got it. */
  ghost predicate GotTo<R(!new)>(w: World<R>, attempt: nat) {
    forall k :: 1 <= k < attempt ==> Repeats(w, k) && HooksWork(w, k)
  }

  lemma GoesOn<R(!new)>(w: World<R>, attempt: nat)
    requires GotTo(w, attempt) && Repeats(w, attempt) && HooksWork(w, attempt)
    ensures GotTo(w, attempt + 1)
  {
  }

  /** A run in safe mode makes `made` attempts; no word of it depends on the observer. */
  ghost predicate IsRun<R(!new)>(o: Options, w: World<R>, made: nat) {
    && 1 <= made <= o.maxAttempts
    && GotTo(w, made)
    && (Repeats(w, made) && made < o.maxAttempts ==> !HooksWork(w, made))
  }

  /** Attempt n is made if and only if there may be so many and each one before it threw an error whose
      causes carry a retryable code, and got its random number and its sleep. */
  lemma AttemptIsMade<R(!new)>(o: Options, w: World<R>, made: nat, n: nat)
    requires IsRun(o, w, made) && n >= 1
    ensures n <= made <==>
            && n <= o.maxAttempts
            && forall k :: 1 <= k < n ==>
                 && w.attempts(k).Threw? && RetryableTransactionFailureReason(w.attempts(k).thrown) != None
                 && w.random(k).Value? && w.sleepWorks(k)
  {
    if n > made {
      assert 1 <= made < n;
      assert Repeats(w, made) && HooksWork(w, made) ==> made == o.maxAttempts;
    }
    forall k | 1 <= k < n && n <= made
      ensures w.attempts(k).Threw? && RetryableTransactionFailureReason(w.attempts(k).thrown) != None
      ensures w.random(k).Value? && w.sleepWorks(k)
    {
      assert Repeats(w, k) && HooksWork(w, k);
    }
  }

  lemma RunUnique<R(!new)>(o: Options, w: World<R>, m: nat, n: nat)
    requires IsRun(o, w, m) && IsRun(o, w, n)
    ensures m == n
  {
    assert m < n ==> Repeats(w, m) && HooksWork(w, m);
    assert n < m ==> Repeats(w, n) && HooksWork(w, n);
  }

  /** What the first `made` attempts add to the history. */
  function Added<R>(w: World<R>, made: nat): seq<Entry> {
    if made == 0 then []
    else Added(w, made - 1) + w.others(made) + (if Commits(w.attempts(made)) then [Own(made)] else [])
  }

  function OwnEntries(history: seq<Entry>): seq<Entry> {
    if history == [] then []
    else (if history[0].Own? then [history[0]] else []) + OwnEntries(history[1..])
  }

  lemma {:induction false} OwnEntriesConcat(a: seq<Entry>, b: seq<Entry>)
    ensures OwnEntries(a + b) == OwnEntries(a) + OwnEntries(b)
  {
    if a == [] {
      assert a + b == b;
    } else {
      var rest := a[1..];
      assert (a + b)[1..] == rest + b && (a + b)[0] == a[0];
      OwnEntriesConcat(rest, b);
      assert OwnEntries(a) == (if a[0].Own? then [a[0]] else []) + OwnEntries(rest);
    }
  }

  lemma {:induction false} OthersAreNotOwn(entries: seq<Entry>)
    requires forall i :: 0 <= i < |entries| ==> entries[i].Foreign?
    ensures OwnEntries(entries) == []
  {
    if entries != [] {
      OthersAreNotOwn(entries[1..]);
    }
  }

  /** The database reports a serialization failure or a deadlock only for a transaction it aborted. */
  ghost predicate RetryableIsAborted<R(!new)>(w: World<R>) {
    forall k: nat :: Repeats(w, k) ==> !Commits(w.attempts(k))
  }

  lemma {:induction false} RepeatedLeaveNothing<R(!new)>(w: World<R>, n: nat)
    requires RetryableIsAborted(w) && (forall k :: 1 <= k <= n ==> Repeats(w, k))
    requires forall k: nat :: OnlyOthers(w, k)
    ensures OwnEntries(Added(w, n)) == []
  {
    if n > 0 {
      RepeatedLeaveNothing(w, n - 1);
      assert OnlyOthers(w, n) && Repeats(w, n);
      OthersAreNotOwn(w.others(n));
      OwnEntriesConcat(Added(w, n - 1), w.others(n));
      assert Added(w, n) == Added(w, n - 1) + w.others(n);
    }
  }

  /** A run commits its effect once or not at all: just when its last attempt did. */
  lemma ExactlyOnceOrNotAtAll<R(!new)>(o: Options, w: World<R>, made: nat)
    requires IsRun(o, w, made) && RetryableIsAborted(w)
    requires forall k: nat :: OnlyOthers(w, k)
    ensures OwnEntries(Added(w, made)) == if Commits(w.attempts(made)) then [Own(made)] else []
  {
    RepeatedLeaveNothing(w, made - 1);
    assert OnlyOthers(w, made);
    OthersAreNotOwn(w.others(made));
    OwnEntriesConcat(Added(w, made - 1), w.others(made));
    OwnEntriesConcat(Added(w, made - 1) + w.others(made), if Commits(w.attempts(made)) then [Own(made)] else []);
    assert OwnEntries([Own(made)]) == [Own(made)] + OwnEntries([]);
  }

  /** The promise of the database is needed: a retryable error after a commit doubles the effect. */
  lemma LateRetryableErrorDoubles()
    ensures exists w: World<int> ::
      IsRun(Options(3, 10, 100), w, 2) && (forall k: nat :: OnlyOthers(w, k))
          && OwnEntries(Added(w, 2)) == [Own(1), Own(2)]
  {
    var t: Graph := Thrown([Node(Some("40001"), None, Other, false)], Object(0));
    assert NthCause(t, 0) == Object(0);
    assert Reachable(t, 0);
    ReasonIsNearest(t);
    var w: World<int> := World(
      k => if k == 1 then Threw(t, true) else Returned(7),
      k => [],
      k => Value(0.5),
      k => true);
    assert Repeats(w, 1) && HooksWork(w, 1);
    assert Added(w, 0) == [];
    assert Added(w, 1) == [Own(1)];
    assert Added(w, 2) == [Own(1), Own(2)];
    assert OwnEntries([Own(1), Own(2)][1..]) == [Own(2)] + OwnEntries([]);
  }

  function Sum(delays: seq<int>): int {
    if delays == [] then 0 else Sum(delays[..|delays| - 1]) + delays[|delays| - 1]
  }

  /** The delays are those of the policy, one a failed attempt. */
  ghost predicate DelaysOk<R(!new)>(o: Options, w: World<R>, delays: seq<int>) {
    forall k :: 1 <= k <= |delays| ==> Some(delays[k - 1]) == RetryDelayMs(o, k, w.random(k))
  }

  lemma OneMoreDrawn<R(!new)>(o: Options, w: World<R>, delays: seq<int>, delayMs: int)
    requires DelaysOk(o, w, delays) && Some(delayMs) == RetryDelayMs(o, |delays| + 1, w.random(|delays| + 1))
    ensures DelaysOk(o, w, delays + [delayMs])
  {
  }

  /** All the waiting of a run is bounded, whatever its hooks return. */
  lemma {:induction false} TotalWait<R(!new)>(o: Options, w: World<R>, delays: seq<int>)
    requires DelaysOk(o, w, delays)
    ensures 0 <= Sum(delays) <= |delays| * o.maxDelayMs
    ensures Sum(delays) <= o.baseDelayMs * (Power(2, |delays|) - 1)
  {
    var n := |delays|;
    if n > 0 {
      forall k | 1 <= k <= n - 1
        ensures Some(delays[..n - 1][k - 1]) == RetryDelayMs(o, k, w.random(k))
      {
        assert delays[..n - 1][k - 1] == delays[k - 1];
      }
      TotalWait(o, w, delays[..n - 1]);
      assert Some(delays[n - 1]) == RetryDelayMs(o, n, w.random(n));
      OneMoreDelay(n, o.maxDelayMs, o.baseDelayMs, Power(2, n - 1));
    }
  }

  lemma OneMoreDelay(n: nat, most: nat, base: nat, half: int)
    requires n > 0
    ensures n * most == (n - 1) * most + most
    ensures base as int * (2 * half - 1) == base * (half - 1) + base * half
  {
  }

  /** The error as the run reports it: through the observer, if there is one. */
  function Reported(observed: bool, t: Graph): Graph {
    if observed then NormalizeDatabaseError(t) else t
  }

  datatype Verdict = TryAgain | GiveUp | HookFails

  class Database<R> {
    var history: seq<Entry>

    constructor ()
      ensures history == []
    {
      history := [];
    }

    /** One transaction: others commit meanwhile, and its own effect commits or leaves no trace. */
    method Transaction(w: World<R>, k: nat) returns (a: Attempt<R>)
      modifies this
      ensures a == w.attempts(k)
      ensures history == old(history) + w.others(k) + (if Commits(a) then [Own(k)] else [])
    {
      a := w.attempts(k);
      history := history + w.others(k);
      if Commits(a) {
        history := history + [Own(k)];
      }
    }
  }

  class TransactionManager<R(!new)> {
    const database: Database<R>
    const options: Options
    const observed: bool

    constructor (database: Database<R>, options: Options, observed: bool)
      requires ValidOptions(options)
      ensures this.database == database && this.options == options && this.observed == observed
    {
      this.database, this.options, this.observed := database, options, observed;
    }

    method ExecuteAttempt(w: World<R>, k: nat) returns (a: Attempt<R>)
      modifies database
      ensures a == match w.attempts(k) {
                     case Returned(value) => Returned(value)
                     case Threw(t, committed) => Threw(Reported(observed, t), committed)
                   }
      ensures database.history == old(database.history) + w.others(k)
              + (if Commits(w.attempts(k)) then [Own(k)] else [])
    {
      a := database.Transaction(w, k);
      if a.Threw? && observed {
        a := Threw(NormalizeDatabaseError(a.thrown), a.committed);
      }
    }

    /** run without retry: the one attempt and its answer. */
    method RunOnce(w: World<R>) returns (result: RunResult<R>)
      modifies database
      ensures database.history == old(database.history) + Added(w, 1)
      ensures result == match w.attempts(1) {
                          case Returned(value) => Success(value)
                          case Threw(t, _) => Failed(Reported(observed, t))
                        }
    {
      assert Added(w, 1) == Added(w, 0) + w.others(1) + (if Commits(w.attempts(1)) then [Own(1)] else []);
      assert Added(w, 0) == [];
      var a := ExecuteAttempt(w, 1);
      match a
      case Returned(value) => return Success(value);
      case Threw(t, _) => return Failed(t);
    }

    /** The catch block: the delay before another attempt, unless the attempts or the hooks are at
        an end. A delay that was drawn is reported even if sleeping fails. */
    method JudgeFailure(w: World<R>, attempt: nat, thrown: Graph) returns (verdict: Verdict, drawn: Option<int>)
      requires 1 <= attempt <= options.maxAttempts && w.attempts(attempt).Threw?
      requires RetryableTransactionFailureReason(thrown)
               == RetryableTransactionFailureReason(w.attempts(attempt).thrown)
      ensures verdict == if !Repeats(w, attempt) || attempt >= options.maxAttempts then GiveUp
                         else if HooksWork(w, attempt) then TryAgain else HookFails
      ensures drawn == if verdict == GiveUp then None else RetryDelayMs(options, attempt, w.random(attempt))
    {
      if RetryableTransactionFailureReason(thrown).None? || attempt >= options.maxAttempts {
        return GiveUp, None;
      }
      drawn := RetryDelayMs(options, attempt, w.random(attempt));
      verdict := if drawn.Some? && w.sleepWorks(attempt) then TryAgain else HookFails;
    }

    /** run with retry: "safe". With or without the observer the same attempts are made; only the
        reported error differs. */
    method RunSafe(w: World<R>) returns (result: RunResult<R>, ghost made: nat, ghost delays: seq<int>)
      requires ValidOptions(options)
      modifies database
      ensures IsRun(options, w, made)
      ensures database.history == old(database.history) + Added(w, made)
      ensures DelaysOk(options, w, delays) && made - 1 <= |delays| <= made
      ensures w.attempts(made).Returned? ==> result == Success(w.attempts(made).value)
      ensures w.attempts(made).Threw? ==>
        result == if Repeats(w, made) && made < options.maxAttempts then RetryHookFailed
                  else Failed(Reported(observed, w.attempts(made).thrown))
    {
      var attempt := 1;
      delays := [];
      assert Added(w, 0) == [];
      while true
        invariant 1 <= attempt <= options.maxAttempts
        invariant GotTo(w, attempt)
        invariant database.history == old(database.history) + Added(w, attempt - 1)
        invariant DelaysOk(options, w, delays) && |delays| == attempt - 1
        decreases options.maxAttempts - attempt
      {
        made := attempt;
        var a := ExecuteAttempt(w, attempt);
        assert database.history == old(database.history) + Added(w, attempt);
        if a.Returned? {
          result := Success(a.value);
          break;
        }
        NormalizationKeepsReason(w.attempts(attempt).thrown);
        var verdict, drawn := JudgeFailure(w, attempt, a.thrown);
        if drawn.Some? {
          OneMoreDrawn(options, w, delays, drawn.value);
          delays := delays + [drawn.value];
        }
        if verdict != TryAgain {
          result := if verdict == GiveUp then Failed(a.thrown) else RetryHookFailed;
          break;
        }
        GoesOn(w, attempt);
        attempt := attempt + 1;
      }
    }
  }
}
