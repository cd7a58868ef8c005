/** What both PostgreSQL rate limiters share: policies, keys, the bounded DELETE of expired rows and
    the gate in front of it (src/infrastructure/rate-limit/). */
module RateLimit {
  import opened JsText

  datatype Policy = Policy(limit: nat, windowSeconds: nat)

  predicate ValidPolicy(p: Policy) {
    1 <= p.limit <= 1_000_000 && 1 <= p.windowSeconds <= 86_400
  }

  /** The policies of the scopes that have one of their own, and the policy of all others. */
  datatype Policies = Policies(byDefault: Policy, byScope: map<string, Policy>) {
    ghost predicate Valid() {
      ValidPolicy(byDefault) && forall scope :: scope in byScope ==> ValidPolicy(byScope[scope])
    }

    function For(scope: string): (p: Policy)
      requires Valid()
      ensures ValidPolicy(p)
      ensures scope in byScope ==> p == byScope[scope]
      ensures scope !in byScope ==> p == byDefault
    {
      if scope in byScope then byScope[scope] else byDefault
    }
  }

  datatype Key = Key(scope: string, identityHash: string)

  // ---- requests and sweeps on one row ----

  /** A whole request at one instant, or a sweep with its now() and whether its batch took the row. */
  datatype Event = Request(at: int) | Sweep(now: int, taken: bool)

  /** Requests come in the order of their clock; a sweep's now() may be older. */
  ghost predicate InClockOrder(events: seq<Event>, clock: int)
    decreases events
  {
    events == [] ||
    match events[0]
    case Request(at) => clock <= at && InClockOrder(events[1..], at)
    case Sweep(now, _) => InClockOrder(events[1..], if now > clock then now else clock)
  }

  function Swept<R>(row: Option<R>, expired: R -> bool, taken: bool): Option<R> {
    if row.Some? && taken && expired(row.value) then None else row
  }

  // ---- the bounded DELETE ----

  const CLEANUP_BATCH_SIZE := 1_000

  /** The rows one statement may pick: expired and not locked, the oldest first, a full batch or
      all there are. */
  ghost predicate IsBatch<K(!new)>(expiry: map<K, int>, now: int, locked: set<K>, picked: set<K>) {
    && |picked| <= CLEANUP_BATCH_SIZE
    && (forall k :: k in picked ==> k in expiry && expiry[k] <= now && k !in locked)
    && (forall k, j :: k in picked && j in expiry && j !in picked && j !in locked && expiry[j] <= now ==>
          expiry[k] <= expiry[j])
    && (|picked| < CLEANUP_BATCH_SIZE ==> forall j :: j in expiry && j !in locked && expiry[j] <= now ==> j in picked)
  }

  // ---- the gate in front of it ----

  predicate SweepIsDue(nextCleanupAt: int, hostNow: int) {
    hostNow >= nextCleanupAt
  }

  function GateAfter(nextCleanupAt: int, hostNow: int, intervalMs: nat): int {
    if SweepIsDue(nextCleanupAt, hostNow) then hostNow + intervalMs else nextCleanupAt
  }

  /** The gate as it stands before the k-th of the requests made at these host times. */
  function GateBefore(hostTimes: seq<int>, intervalMs: nat, k: nat): int
    requires k <= |hostTimes|
  {
    if k == 0 then 0 else GateAfter(GateBefore(hostTimes, intervalMs, k - 1), hostTimes[k - 1], intervalMs)
  }

  /** Over any requests, even on a host clock that goes back, two sweeps are an interval apart. */
  lemma {:induction false} SweepsAreSpaced(hostTimes: seq<int>, intervalMs: nat, i: nat, j: nat)
    requires i < j < |hostTimes|
    requires SweepIsDue(GateBefore(hostTimes, intervalMs, i), hostTimes[i])
    ensures GateBefore(hostTimes, intervalMs, j) >= hostTimes[i] + intervalMs
    ensures SweepIsDue(GateBefore(hostTimes, intervalMs, j), hostTimes[j]) ==> hostTimes[j] >= hostTimes[i] + intervalMs
  {
    if i + 1 < j {
      SweepsAreSpaced(hostTimes, intervalMs, i, j - 1);
    }
  }

  lemma {:induction false} GateIsLastSweep(hostTimes: seq<int>, intervalMs: nat, k: nat)
    requires k <= |hostTimes|
    ensures GateBefore(hostTimes, intervalMs, k) >= 0
    ensures GateBefore(hostTimes, intervalMs, k) == 0 || exists i ::
              && 0 <= i < k && SweepIsDue(GateBefore(hostTimes, intervalMs, i), hostTimes[i])
              && GateBefore(hostTimes, intervalMs, k) == hostTimes[i] + intervalMs
  {
    if k > 0 {
      GateIsLastSweep(hostTimes, intervalMs, k - 1);
      assert SweepIsDue(GateBefore(hostTimes, intervalMs, k - 1), hostTimes[k - 1]) ==>
          GateBefore(hostTimes, intervalMs, k) == hostTimes[k - 1] + intervalMs;
    }
  }

  /** No sweep is left out: a request sweeps if and only if each earlier one that swept lies an
      interval back on the host clock. */
  lemma SweepsWhenDue(hostTimes: seq<int>, intervalMs: nat, k: nat)
    requires k < |hostTimes|
    ensures SweepIsDue(GateBefore(hostTimes, intervalMs, k), hostTimes[k]) <==>
            && hostTimes[k] >= 0
            && forall i :: 0 <= i < k && SweepIsDue(GateBefore(hostTimes, intervalMs, i), hostTimes[i]) ==>
                 hostTimes[k] >= hostTimes[i] + intervalMs
  {
    GateIsLastSweep(hostTimes, intervalMs, k);
    forall i | 0 <= i < k && SweepIsDue(GateBefore(hostTimes, intervalMs, i), hostTimes[i])
      ensures GateBefore(hostTimes, intervalMs, k) >= hostTimes[i] + intervalMs
    {
      SweepsAreSpaced(hostTimes, intervalMs, i, k);
    }
  }
}
