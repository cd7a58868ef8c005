/** The fixed-window limiter (src/infrastructure/rate-limit/postgres-fixed-window-rate-limiter.ts).
    Time is in microseconds; upserts take effect in the order of their now(). */
module FixedWindow {
  import opened JsText
  import opened RateLimit

  function Window(p: Policy): nat { p.windowSeconds * 1_000_000 }

  datatype Row = Row(windowStartedAt: int, requestCount: nat, expiresAt: int)

  /** INSERT ... ON CONFLICT DO UPDATE. */
  function Upsert(window: nat, row: Option<Row>, now: int): Row {
    match row
    case None => Row(now, 1, now + window)
    case Some(r) =>
      var expired := r.expiresAt <= now;
      Row(if expired then now else r.windowStartedAt,
          if expired then 1 else r.requestCount + 1,
          if expired then now + window else r.expiresAt)
  }

  /** The answers of a run: allowed when the count is within the limit. */
  function Answers(p: Policy, row: Option<Row>, events: seq<Event>): seq<bool>
    decreases events
  {
    if events == [] then []
    else match events[0]
      case Request(at) =>
        var next := Upsert(Window(p), row, at);
        [next.requestCount <= p.limit] + Answers(p, Some(next), events[1..])
      case Sweep(now, taken) => Answers(p, Swept(row, (r: Row) => r.expiresAt <= now, taken), events[1..])
  }

  function Times(events: seq<Event>): seq<int> {
    if events == [] then []
    else (if events[0].Request? then [events[0].at] else []) + Times(events[1..])
  }

  // ---- the reference: windows and ranks, without a row ----

  /** The start of the window of the j-th request: a request opens a new window when the last one
      is over. */
  function StartOf(window: nat, times: seq<int>, j: nat): int
    requires j < |times|
  {
    if j == 0 then times[0]
    else
      var s := StartOf(window, times, j - 1);
      if times[j] >= s + window then times[j] else s
  }

  /** Its place in that window, counted from one. */
  function RankOf(window: nat, times: seq<int>, j: nat): (rank: nat)
    requires j < |times|
    ensures rank >= 1
  {
    if j == 0 || StartOf(window, times, j) != StartOf(window, times, j - 1) then 1
    else RankOf(window, times, j - 1) + 1
  }

  ghost predicate Ascending(times: seq<int>) {
    forall i, j :: 0 <= i <= j < |times| ==> times[i] <= times[j]
  }

  function Reference(p: Policy, times: seq<int>): (answers: seq<bool>)
    ensures |answers| == |times|
  {
    seq(|times|, j requires 0 <= j < |times| => RankOf(Window(p), times, j) <= p.limit)
  }

  lemma {:induction false} StartBounds(window: nat, times: seq<int>, j: nat)
    requires window >= 1 && Ascending(times) && j < |times|
    ensures StartOf(window, times, j) <= times[j] < StartOf(window, times, j) + window
  {
    if j > 0 {
      StartBounds(window, times, j - 1);
    }
  }

  /** Windows never overlap: a later request is in the same window or in one that starts after
      the earlier window is over; every request is inside its window. */
  lemma {:induction false} WindowsDisjoint(window: nat, times: seq<int>, i: nat, j: nat)
    requires window >= 1 && Ascending(times) && i <= j < |times|
    ensures StartOf(window, times, j) == StartOf(window, times, i)
            || StartOf(window, times, j) >= StartOf(window, times, i) + window
    ensures StartOf(window, times, j) <= times[j] < StartOf(window, times, j) + window
  {
    StartBounds(window, times, j);
    if i < j {
      WindowsDisjoint(window, times, i, j - 1);
    }
  }

  lemma {:induction false} PrefixStable(window: nat, times: seq<int>, more: seq<int>, j: nat)
    requires j < |times|
    ensures StartOf(window, times + more, j) == StartOf(window, times, j)
    ensures RankOf(window, times + more, j) == RankOf(window, times, j)
  {
    if j > 0 {
      PrefixStable(window, times, more, j - 1);
    }
  }

  /** The row that a history of requests leaves, or one that a sweep has removed since. */
  ghost predicate Holds(window: nat, row: Option<Row>, past: seq<int>, clock: int) {
    if past == [] then row == None
    else
      var last := |past| - 1;
      var s := StartOf(window, past, last);
      row == Some(Row(s, RankOf(window, past, last), s + window)) || (row == None && s + window <= clock)
  }

  lemma StartSnoc(window: nat, past: seq<int>, at: int)
    ensures var times := past + [at];
            if past == [] then StartOf(window, times, 0) == at && RankOf(window, times, 0) == 1
            else
              var s := StartOf(window, past, |past| - 1);
              && StartOf(window, times, |past|) == (if at >= s + window then at else s)
              && RankOf(window, times, |past|) ==
                   (if StartOf(window, times, |past|) != s then 1 else RankOf(window, past, |past| - 1) + 1)
  {
    if past != [] {
      PrefixStable(window, past, [at], |past| - 1);
    }
  }

  lemma UpsertIsNextRank(p: Policy, row: Option<Row>, past: seq<int>, clock: int, at: int)
    requires ValidPolicy(p) && Holds(Window(p), row, past, clock) && clock <= at
    ensures Holds(Window(p), Some(Upsert(Window(p), row, at)), past + [at], at)
    ensures Upsert(Window(p), row, at).requestCount == RankOf(Window(p), past + [at], |past|)
  {
    var window := Window(p);
    StartSnoc(window, past, at);
    var next := Upsert(window, row, at);
    assert next == Row(StartOf(window, past + [at], |past|), RankOf(window, past + [at], |past|),
                       StartOf(window, past + [at], |past|) + window);
    HoldsIfEqual(window, next, past + [at], at);
  }

  /** The decision on a request is its rank in its window: the first `limit` requests of a window
      are allowed, and no other; what remains is what is left of the limit. */
  lemma AllowedIsTheRank(p: Policy, row: Option<Row>, past: seq<int>, clock: int, at: int, observed: int)
    requires ValidPolicy(p) && Holds(Window(p), row, past, clock) && clock <= at
    ensures var rank := RankOf(Window(p), past + [at], |past|);
            var decision := Decide(p, Upsert(Window(p), row, at), observed);
            && (decision.allowed <==> rank <= p.limit)
            && (decision.retryAfterSeconds.None? <==> decision.allowed)
            && (rank <= p.limit ==> decision.remaining == p.limit - rank)
            && (rank > p.limit ==> decision.remaining == 0)
  {
    UpsertIsNextRank(p, row, past, clock, at);
  }

  /** The windows in real time: a request opens a new one if and only if `windowSeconds` seconds have
      passed since the last one opened, and the row expires that long after its window opened. */
  lemma WindowInSeconds(p: Policy, row: Option<Row>, past: seq<int>, clock: int, at: int)
    requires ValidPolicy(p) && Holds(Window(p), row, past, clock) && past != [] && clock <= at
    ensures var since := StartOf(Window(p), past, |past| - 1);
            var opens := at >= since + p.windowSeconds * 1_000_000;
            && StartOf(Window(p), past + [at], |past|) == (if opens then at else since)
            && Upsert(Window(p), row, at).expiresAt == (if opens then at else since) + p.windowSeconds * 1_000_000
            && Upsert(Window(p), row, at).windowStartedAt == (if opens then at else since)
  {
    StartSnoc(Window(p), past, at);
  }

  /** The requests among the first n whose window starts here. */
  function InWindow(window: nat, times: seq<int>, n: nat, start: int): nat
    requires n <= |times|
  {
    if n == 0 then 0
    else InWindow(window, times, n - 1, start) + (if StartOf(window, times, n - 1) == start then 1 else 0)
  }

  lemma {:induction false} NoneSoLate(window: nat, times: seq<int>, n: nat, start: int)
    requires window >= 1 && Ascending(times) && n <= |times|
    requires n > 0 ==> StartOf(window, times, n - 1) < start
    ensures InWindow(window, times, n, start) == 0
  {
    if n > 1 {
      WindowsDisjoint(window, times, n - 2, n - 1);
    }
    if n > 0 {
      NoneSoLate(window, times, n - 1, start);
    }
  }

  /** The rank of a request counts the requests of its window up to it. */
  lemma {:induction false} RankCounts(window: nat, times: seq<int>, j: nat)
    requires window >= 1 && Ascending(times) && j < |times|
    ensures RankOf(window, times, j) == InWindow(window, times, j + 1, StartOf(window, times, j))
  {
    if j == 0 {
      assert InWindow(window, times, 0, times[0]) == 0;
    } else {
      WindowsDisjoint(window, times, j - 1, j);
      if StartOf(window, times, j) == StartOf(window, times, j - 1) {
        RankCounts(window, times, j - 1);
      } else {
        NoneSoLate(window, times, j, StartOf(window, times, j));
      }
    }
  }

  lemma HoldsIfEqual(window: nat, row: Row, past: seq<int>, clock: int)
    requires past != []
    requires row == Row(StartOf(window, past, |past| - 1), RankOf(window, past, |past| - 1),
                        StartOf(window, past, |past| - 1) + window)
    ensures Holds(window, Some(row), past, clock)
  {
  }

  lemma AnswerStable(p: Policy, past: seq<int>, at: int, j: nat)
    requires j < |past|
    ensures Reference(p, past + [at])[j] == Reference(p, past)[j]
  {
    PrefixStable(Window(p), past, [at], j);
  }

  lemma LastAnswer(p: Policy, past: seq<int>, at: int)
    ensures Reference(p, past + [at])[|past|] == (RankOf(Window(p), past + [at], |past|) <= p.limit)
  {
  }

  lemma ReferenceSnoc(p: Policy, past: seq<int>, at: int)
    ensures Reference(p, past + [at]) == Reference(p, past) + [RankOf(Window(p), past + [at], |past|) <= p.limit]
  {
    LastAnswer(p, past, at);
    var longer, shorter := Reference(p, past + [at]), Reference(p, past);
    forall j | 0 <= j < |past|
      ensures longer[j] == shorter[j]
    {
      AnswerStable(p, past, at, j);
    }
    SnocByElements(longer, shorter);
  }

  lemma SnocByElements(longer: seq<bool>, shorter: seq<bool>)
    requires |longer| == |shorter| + 1 && forall j :: 0 <= j < |shorter| ==> longer[j] == shorter[j]
    ensures longer == shorter + [longer[|shorter|]]
  {
  }

  lemma Reassociate<T>(a: seq<T>, b: seq<T>, c: seq<T>)
    ensures (a + b) + c == a + (b + c)
  {
  }

  /** The i-th request of a window is allowed exactly when i is at most the limit, wherever
      expired rows are swept: a run answers as the reference does. */
  lemma {:induction false} AnswersAreRanks(p: Policy, row: Option<Row>, past: seq<int>, events: seq<Event>, clock: int)
    requires ValidPolicy(p) && Holds(Window(p), row, past, clock)
    requires InClockOrder(events, clock)
    ensures Reference(p, past + Times(events)) == Reference(p, past) + Answers(p, row, events)
    decreases events
  {
    if events == [] {
      assert past + Times(events) == past;
    } else {
      match events[0]
      case Request(at) =>
        var next := Upsert(Window(p), row, at);
        UpsertIsNextRank(p, row, past, clock, at);
        ReferenceSnoc(p, past, at);
        AnswersAreRanks(p, Some(next), past + [at], events[1..], at);
        Reassociate(past, [at], Times(events[1..]));
        Reassociate(Reference(p, past), [next.requestCount <= p.limit], Answers(p, Some(next), events[1..]));
      case Sweep(now, taken) =>
        assert Times(events) == Times(events[1..]);
        var swept := Swept(row, (r: Row) => r.expiresAt <= now, taken);
        AnswersAreRanks(p, swept, past, events[1..], if now > clock then now else clock);
    }
  }

  /** Sweeps change no answer. */
  lemma SweepsChangeNoAnswer(p: Policy, events: seq<Event>, clock: int)
    requires ValidPolicy(p) && InClockOrder(events, clock)
    ensures Answers(p, None, events) == Reference(p, Times(events))
  {
    AnswersAreRanks(p, None, [], events, clock);
    assert [] + Times(events) == Times(events);
    assert Reference(p, []) == [];
  }

  lemma {:induction false} TimesAscend(events: seq<Event>, clock: int)
    requires InClockOrder(events, clock)
    ensures Ascending(Times(events)) && forall i :: 0 <= i < |Times(events)| ==> clock <= Times(events)[i]
    decreases events
  {
    if events != [] {
      match events[0]
      case Request(at) => TimesAscend(events[1..], at);
      case Sweep(now, _) => TimesAscend(events[1..], if now > clock then now else clock);
    }
  }

  // ---- throughput ----

  /** The requests among the first n that were allowed at an instant in [a, b). */
  function AllowedWithin(p: Policy, times: seq<int>, n: nat, a: int, b: int): nat
    requires n <= |times|
  {
    if n == 0 then 0
    else AllowedWithin(p, times, n - 1, a, b) +
         if a <= times[n - 1] < b && Reference(p, times)[n - 1] then 1 else 0
  }

  function AtMost(x: nat, limit: nat): nat { if x <= limit then x else limit }

  lemma {:induction false} AllowedByWindow(p: Policy, times: seq<int>, n: nat, a: int)
    requires ValidPolicy(p) && Ascending(times) && 1 <= n <= |times|
    ensures var count := AllowedWithin(p, times, n, a, a + Window(p));
            var s := StartOf(Window(p), times, n - 1);
            var rank := RankOf(Window(p), times, n - 1);
            && (times[n - 1] < a ==> count == 0)
            && (s < a ==> count <= AtMost(rank, p.limit))
            && (a <= s < a + Window(p) ==> count <= p.limit + AtMost(rank, p.limit))
            && count <= 2 * p.limit
  {
    StartBounds(Window(p), times, n - 1);
    if n > 1 {
      AllowedByWindow(p, times, n - 1, a);
      StartBounds(Window(p), times, n - 2);
    } else {
      assert AllowedWithin(p, times, 0, a, a + Window(p)) == 0;
    }
  }

  /** Any half-open interval of one window length sees at most twice the limit. */
  lemma TwiceTheLimit(p: Policy, events: seq<Event>, clock: int, a: int)
    requires ValidPolicy(p) && InClockOrder(events, clock)
    ensures var times := Times(events);
            && Answers(p, None, events) == Reference(p, times)
            && AllowedWithin(p, times, |times|, a, a + Window(p)) <= 2 * p.limit
  {
    SweepsChangeNoAnswer(p, events, clock);
    TimesAscend(events, clock);
    if Times(events) != [] {
      AllowedByWindow(p, Times(events), |Times(events)|, a);
    }
  }

  // ---- the limiter object ----

  type Table = map<Key, Row>

  function Lookup(table: Table, k: Key): Option<Row> {
    if k in table then Some(table[k]) else None
  }

  datatype Decision = Decision(allowed: bool, retryAfterSeconds: Option<int>, remaining: nat, resetAfterSeconds: int)

  /** Seconds until the row expires, rounded up from timestamps cut to milliseconds. */
  function ResetAfter(expiresAt: int, observed: int): (s: int)
    ensures s >= 1
  {
    var ms := expiresAt / 1_000 - observed / 1_000;
    var seconds := -((-ms) / 1_000);
    if seconds >= 1 then seconds else 1
  }

  function Decide(p: Policy, row: Row, observed: int): Decision {
    var reset := ResetAfter(row.expiresAt, observed);
    Decision(row.requestCount <= p.limit,
             if row.requestCount <= p.limit then None else Some(reset),
             if row.requestCount <= p.limit then p.limit - row.requestCount else 0,
             reset)
  }

  class PostgresFixedWindowRateLimiter {
    var table: Table
    var nextCleanupAt: int
    const policies: Policies
    const cleanupIntervalMs: nat

    constructor (policies: Policies, cleanupIntervalMs: nat)
      requires policies.Valid()
      ensures table == map[] && nextCleanupAt == 0
      ensures this.policies == policies && this.cleanupIntervalMs == cleanupIntervalMs
    {
      this.policies, this.cleanupIntervalMs := policies, cleanupIntervalMs;
      table, nextCleanupAt := map[], 0;
    }

    /** A sweep if the gate lets one pass, and only expired rows go. */
    method CleanupExpiredIfDue(hostNow: int, now: int, picked: set<Key>)
      requires forall k :: k in picked ==> k in table && table[k].expiresAt <= now
      modifies this
      ensures table == old(table) - (if SweepIsDue(old(nextCleanupAt), hostNow) then picked else {})
      ensures nextCleanupAt == GateAfter(old(nextCleanupAt), hostNow, cleanupIntervalMs)
    {
      if hostNow < nextCleanupAt {
        return;
      }
      nextCleanupAt := hostNow + cleanupIntervalMs;
      table := table - picked;
    }

    /** consumeFixedWindow on the table that the upsert finds. */
    method Consume(k: Key, hostNow: int, sweepNow: int, picked: set<Key>, found: Table, now: int, observed: int)
      returns (r: Decision)
      requires policies.Valid() && forall j :: j in picked ==> j in table && table[j].expiresAt <= sweepNow
      modifies this
      ensures table == found[k := Upsert(Window(policies.For(k.scope)), Lookup(found, k), now)]
      ensures r == Decide(policies.For(k.scope), table[k], observed)
      ensures nextCleanupAt == GateAfter(old(nextCleanupAt), hostNow, cleanupIntervalMs)
    {
      CleanupExpiredIfDue(hostNow, sweepNow, picked);
      table := found;
      var policy := policies.For(k.scope);
      var window := Window(policy);
      var row: Row;
      if k !in table {
        row := Row(now, 1, now + window);
      } else if table[k].expiresAt <= now {
        row := Row(now, 1, now + window);
      } else {
        row := table[k].(requestCount := table[k].requestCount + 1);
      }
      table := table[k := row];
      return Decide(policy, row, observed);
    }
  }

  function AllowedCount(answers: seq<bool>): nat {
    if answers == [] then 0 else (if answers[0] then 1 else 0) + AllowedCount(answers[1..])
  }

  ghost predicate RequestsBefore(events: seq<Event>, end: int) {
    forall i :: 0 <= i < |events| ==> events[i].Request? && events[i].at < end
  }

  /** The reported remaining quota is exact: of further requests before the window ends, that
      many are allowed and no more. */
  lemma {:induction false} RemainingIsExact(p: Policy, row: Row, events: seq<Event>, observed: int)
    requires ValidPolicy(p) && RequestsBefore(events, row.expiresAt)
    ensures AllowedCount(Answers(p, Some(row), events)) == AtMost(|events|, Decide(p, row, observed).remaining)
    decreases events
  {
    if events != [] {
      var next := Upsert(Window(p), Some(row), events[0].at);
      assert Answers(p, Some(row), events)[1..] == Answers(p, Some(next), events[1..]);
      RemainingIsExact(p, next, events[1..], observed);
    }
  }

  /** A further request at this instant is allowed. */
  predicate AllowedAt(p: Policy, row: Row, at: int) {
    Upsert(Window(p), Some(row), at).requestCount <= p.limit
  }

  /** What cutting to milliseconds takes from the time left. */
  function Lost(row: Row, observed: int): int {
    row.expiresAt % 1_000 - observed % 1_000
  }

  /** By how much so many seconds exceed the time left, as the cut timestamps tell it. */
  function Slack(row: Row, observed: int, seconds: int): int {
    seconds * 1_000_000 - (row.expiresAt / 1_000 - observed / 1_000) * 1_000
  }

  /** The reset time of every decision: counted from the observed instant, the row has expired after
      it if and only if the milliseconds agree or the cut took no more than the slack of its rounding
      up; after a smaller number of seconds if and only if the cut had added enough; and one more
      millisecond always suffices. */
  lemma ResetIsExact(p: Policy, row: Row, observed: int)
    ensures var decision := Decide(p, row, observed);
            var wait := decision.resetAfterSeconds;
            && wait >= 1 && (decision.retryAfterSeconds.Some? ==> decision.retryAfterSeconds == Some(wait))
            && (row.expiresAt <= observed + wait * 1_000_000 <==>
                  row.expiresAt / 1_000 <= observed / 1_000 || Lost(row, observed) <= Slack(row, observed, wait))
            && (forall s: int :: 1 <= s < wait ==>
                  (row.expiresAt <= observed + s * 1_000_000 <==> Lost(row, observed) <= Slack(row, observed, s)))
            && row.expiresAt <= observed + wait * 1_000_000 + 1_000
            && (wait > 1 ==> row.expiresAt > observed + (wait - 1) * 1_000_000 - 1_000)
  {
    assert row.expiresAt == row.expiresAt / 1_000 * 1_000 + row.expiresAt % 1_000;
    assert observed == observed / 1_000 * 1_000 + observed % 1_000;
  }

  /** After a denial the advised wait, counted from the observed instant, suffices if and only if the
      milliseconds agree or the cut took no more than the slack of its rounding up; a smaller number
      of seconds suffices if and only if the cut had added enough. */
  lemma RetryAfterIsExact(p: Policy, row: Row, observed: int)
    requires ValidPolicy(p) && row.requestCount > p.limit
    ensures var wait := Decide(p, row, observed).retryAfterSeconds.value;
            && (AllowedAt(p, row, observed + wait * 1_000_000) <==>
                  row.expiresAt / 1_000 <= observed / 1_000 || Lost(row, observed) <= Slack(row, observed, wait))
            && (forall s: int :: 1 <= s < wait ==>
                  (AllowedAt(p, row, observed + s * 1_000_000) <==> Lost(row, observed) <= Slack(row, observed, s)))
  {
    assert row.expiresAt == row.expiresAt / 1_000 * 1_000 + row.expiresAt % 1_000;
    assert observed == observed / 1_000 * 1_000 + observed % 1_000;
  }

  /** A denied caller that waits the advised time, and a millisecond for the cut timestamps, meets
      an expired row and is allowed. */
  lemma RetryAfterSuffices(p: Policy, row: Row, observed: int)
    requires ValidPolicy(p) && row.requestCount > p.limit
    ensures var wait := Decide(p, row, observed).retryAfterSeconds.value;
            Upsert(Window(p), Some(row), observed + wait * 1_000_000 + 1_000).requestCount == 1
  {
    var ms := row.expiresAt / 1_000 - observed / 1_000;
    var wait := Decide(p, row, observed).retryAfterSeconds.value;
    assert wait * 1_000 >= ms;
  }
}
