/** The GCRA limiter as an object over a shared table
    (src/infrastructure/rate-limit/postgres-gcra-rate-limiter.ts). */
module GcraLimiter {
  import opened JsText
  import opened Gcra
  import opened GcraQuota
  import Runs = GcraRuns
  import opened RateLimit

  type Table = map<Key, Row>

  function Lookup(table: Table, k: Key): Option<Row> {
    if k in table then Some(table[k]) else None
  }

  function Expiry(table: Table): map<Key, int> {
    map k | k in table :: table[k].expiresAt
  }

  /** What happens around one request: the host clock, the sweep's now() and the batch it picks,
      the table that each of the three statements finds (other clients act in between), and the
      clock readings of each statement. */
  datatype World = World(hostNow: int, sweepNow: int, picked: set<Key>, found: seq<Table>, times: seq<Reads>)

  ghost predicate ValidWorld(w: World) {
    |w.found| == 3 && |w.times| == 3
  }

  datatype Outcome = Decided(decision: Decision) | StateDisappeared

  /** One client alone on the bucket, about to execute one statement. */
  function Alone(row: Option<Row>, pc: Runs.Pc): Runs.State {
    Runs.State(row, 0, map[0 := pc], 0, [])
  }

  function StatementOn(rate: Rate, table: Table, k: Key, pc: Runs.Pc, times: Reads): (Runs.State, Runs.Response) {
    Runs.Step(rate, Alone(Lookup(table, k), pc), Runs.Statement(0, times))
  }

  function Written(table: Table, k: Key, after: Runs.State): Table {
    if after.row.Some? then table[k := after.row.value] else table
  }

  class PostgresGcraRateLimiter {
    var table: Table
    var nextCleanupAt: int
    const policies: Policies
    const cleanupIntervalMs: nat

    constructor (policies: Policies, cleanupIntervalMs: nat)
      requires policies.Valid()
      ensures table == map[] && nextCleanupAt == 0
      ensures this.policies == policies && this.cleanupIntervalMs == cleanupIntervalMs
    {
      this.policies, this.cleanupIntervalMs := policies, cleanupIntervalMs;
      table, nextCleanupAt := map[], 0;
    }

    /** A sweep if the gate lets one pass, and only expired rows go. */
    method CleanupExpiredIfDue(hostNow: int, now: int, picked: set<Key>)
      requires forall k :: k in picked ==> k in table && Expired(table[k], now)
      modifies this
      ensures table == old(table) - (if SweepIsDue(old(nextCleanupAt), hostNow) then picked else {})
      ensures nextCleanupAt == GateAfter(old(nextCleanupAt), hostNow, cleanupIntervalMs)
    {
      if hostNow < nextCleanupAt {
        return;
      }
      nextCleanupAt := hostNow + cleanupIntervalMs;
      table := table - picked;
    }

    method InsertBucket(k: Key, rate: Rate, times: Reads) returns (created: Option<Row>)
      modifies this`table
      ensures var step := StatementOn(rate, old(table), k, Runs.AtInsert, times);
              && table == Written(old(table), k, step.0)
              && created == (if step.1.Accepted? then step.0.row else None)
    {
      if k in table {
        created := None;
        assert table == table[k := table[k]];
      } else {
        table := table[k := Row(times.tat + rate.interval, times.expires + rate.interval)];
        created := Some(table[k]);
      }
    }

    method UpdateBucket(k: Key, rate: Rate, times: Reads) returns (accepted: Option<Row>)
      modifies this`table
      ensures var step := StatementOn(rate, old(table), k, Runs.AtUpdate(0), times);
              && table == Written(old(table), k, step.0)
              && accepted == (if step.1.Accepted? then step.0.row else None)
    {
      accepted := None;
      if k in table {
        assert table == table[k := table[k]];
        if table[k].tat <= times.checked + rate.tolerance {
          table := table[k := Row(Max(table[k].tat, times.tat) + rate.interval,
                                  Max(table[k].tat, times.expires) + rate.interval)];
          accepted := Some(table[k]);
        }
      }
    }

    /** consumeGcra. Whatever table each statement finds, it does what the statement-level machine
        does, and the decision is read off the row it returned. */
    method Consume(k: Key, w: World) returns (r: Outcome)
      requires policies.Valid() && ValidWorld(w)
      requires forall j :: j in w.picked ==> j in table && Expired(table[j], w.sweepNow)
      modifies this
      ensures nextCleanupAt == GateAfter(old(nextCleanupAt), w.hostNow, cleanupIntervalMs)
      ensures var p := policies.For(k.scope);
              var insert := StatementOn(RateOf(p), w.found[0], k, Runs.AtInsert, w.times[0]);
              var update := StatementOn(RateOf(p), w.found[1], k, Runs.PcOf(insert.0, 0), w.times[1]);
              var select := StatementOn(RateOf(p), w.found[2], k, Runs.PcOf(update.0, 0), w.times[2]);
              if insert.1.Accepted? then
                && table == Written(w.found[0], k, insert.0)
                && r == Decided(AllowedDecision(p, insert.1.tat, insert.1.observed))
              else if update.1.Accepted? then
                && table == Written(w.found[1], k, update.0)
                && r == Decided(AllowedDecision(p, update.1.tat, update.1.observed))
              else
                && table == w.found[2]
                && r == (if select.1.Disappeared? then StateDisappeared
                         else Decided(DeniedDecision(p, select.1.tat, select.1.observed)))
    {
      CleanupExpiredIfDue(w.hostNow, w.sweepNow, w.picked);
      var policy := policies.For(k.scope);
      var rate := RateOf(policy);

      table := w.found[0];
      var created := InsertBucket(k, rate, w.times[0]);
      if created.Some? {
        return Decided(AllowedDecision(policy, created.value.tat, w.times[0].observed));
      }

      table := w.found[1];
      var accepted := UpdateBucket(k, rate, w.times[1]);
      if accepted.Some? {
        return Decided(AllowedDecision(policy, accepted.value.tat, w.times[1].observed));
      }

      table := w.found[2];
      if k !in table {
        return StateDisappeared;
      }
      return Decided(DeniedDecision(policy, table[k].tat, w.times[2].observed));
    }
  }

  /** A row written by an accepting statement satisfies the premise under which the reported
      remaining quota is exact, and its expiry is never before its theoretical arrival time. */
  lemma AcceptedRowsAreQuotable(p: Policy, table: Table, k: Key, pc: Runs.Pc, times: Reads)
    requires ValidPolicy(p) && Ordered(times) && (pc.AtInsert? || pc.AtUpdate?)
    requires StatementOn(RateOf(p), table, k, pc, times).1.Accepted?
    ensures var step := StatementOn(RateOf(p), table, k, pc, times);
            && step.0.row.Some? && step.0.row.value.tat == step.1.tat && step.1.observed == times.observed
            && step.1.tat <= times.observed + RateOf(p).tolerance + RateOf(p).interval
            && step.0.row.value.tat <= step.0.row.value.expiresAt <= step.0.row.value.tat + (times.expires - times.tat)
  {
  }

  /** A sweep's batch removes nothing that a request could still feel. */
  lemma BatchIsHarmless(table: Table, now: int, locked: set<Key>, picked: set<Key>, k: Key, t: int)
    requires IsBatch(Expiry(table), now, locked, picked) && now <= t
    requires forall j :: j in table ==> table[j].tat <= table[j].expiresAt
    ensures Effective(Lookup(table - picked, k), t) == Effective(Lookup(table, k), t)
    ensures |picked| <= 1_000
  {
    if k in picked {
      assert Expiry(table)[k] <= now;
    }
  }
}
