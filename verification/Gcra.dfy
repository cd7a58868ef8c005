/** The Generic Cell Rate Algorithm over one bucket row
    (src/infrastructure/rate-limit/postgres-gcra-rate-limiter.ts).

    Time is counted in ticks of 1/limit microsecond, so that the emission interval and the
    burst tolerance of a policy are whole numbers. */
module Gcra {
  import opened Arith
  import opened JsText
  import opened RateLimit

  /** An emission interval and a burst tolerance, in ticks. */
  datatype Rate = Rate(interval: int, tolerance: int)

  predicate ValidRate(rate: Rate) {
    rate.interval > 0 && rate.tolerance >= 0
  }

  /** windowSeconds / limit seconds, and limit - 1 times that. */
  function RateOf(p: Policy): (rate: Rate)
    requires ValidPolicy(p)
    ensures ValidRate(rate)
  {
    var interval := p.windowSeconds * 1_000_000;
    MulNonNegative(interval, p.limit - 1);
    Rate(interval, interval * (p.limit - 1))
  }

  function Max(a: int, b: int): int { if a >= b then a else b }

  function Min(a: int, b: int): int { if a <= b then a else b }

  // ---- the row and the three statements ----

  datatype Row = Row(tat: int, expiresAt: int)

  /** The readings of clock_timestamp() inside one statement, in evaluation order: the WHERE
      clause, the two SET (or VALUES) columns, and the RETURNING list. */
  datatype Reads = Reads(checked: int, tat: int, expires: int, observed: int)

  predicate Ordered(r: Reads) {
    r.checked <= r.tat <= r.expires <= r.observed
  }

  /** INSERT ... ON CONFLICT DO NOTHING, on a bucket without a row. */
  function Inserted(rate: Rate, r: Reads): Row {
    Row(r.tat + rate.interval, r.expires + rate.interval)
  }

  /** The WHERE clause of the UPDATE. */
  predicate Conforms(rate: Rate, row: Row, checked: int) {
    row.tat <= checked + rate.tolerance
  }

  /** The SET clause of the UPDATE. */
  function Updated(rate: Rate, row: Row, r: Reads): Row {
    Row(Max(row.tat, r.tat) + rate.interval, Max(row.tat, r.expires) + rate.interval)
  }

  /** Cleanup deletes a row only when this holds of the statement's now(). */
  predicate Expired(row: Row, now: int) {
    row.expiresAt <= now
  }

  // ---- a whole request whose statements share one instant ----

  function Consume(rate: Rate, row: Option<Row>, t: int): (Option<Row>, bool) {
    var r := Reads(t, t, t, t);
    match row
    case None => (Some(Inserted(rate, r)), true)
    case Some(held) => if Conforms(rate, held, t) then (Some(Updated(rate, held, r)), true) else (row, false)
  }

  /** The theoretical arrival time that matters from an instant on: an absent row, like one in
      the past, means a full burst. */
  function Effective(row: Option<Row>, clock: int): int {
    match row
    case None => clock
    case Some(r) => Max(r.tat, clock)
  }

  lemma ConsumeByEffective(rate: Rate, row: Option<Row>, t: int)
    requires ValidRate(rate)
    ensures Consume(rate, row, t).1 <==> Effective(row, t) <= t + rate.tolerance
    ensures Consume(rate, row, t).0.Some? || row.None?
    ensures Effective(Consume(rate, row, t).0, t) ==
            if Consume(rate, row, t).1 then Effective(row, t) + rate.interval else Effective(row, t)
  {
  }

  function Decisions(rate: Rate, row: Option<Row>, events: seq<Event>): seq<bool>
    decreases events
  {
    if events == [] then []
    else match events[0]
      case Request(at) => [Consume(rate, row, at).1] + Decisions(rate, Consume(rate, row, at).0, events[1..])
      case Sweep(now, taken) => Decisions(rate, Swept(row, r => Expired(r, now), taken), events[1..])
  }

  function Requests(events: seq<Event>): seq<Event> {
    if events == [] then []
    else (if events[0].Request? then [events[0]] else []) + Requests(events[1..])
  }

  ghost predicate Sound(row: Option<Row>) {
    row.Some? ==> row.value.tat <= row.value.expiresAt
  }

  /** Sweeping expired rows anywhere between requests changes no decision. */
  lemma {:induction false} SweepsChangeNoDecision(rate: Rate, row: Option<Row>, bare: Option<Row>, events: seq<Event>,
                                                  clock: int)
    requires ValidRate(rate) && InClockOrder(events, clock)
    requires Sound(row) && Effective(row, clock) == Effective(bare, clock)
    ensures Decisions(rate, row, events) == Decisions(rate, bare, Requests(events))
    decreases events
  {
    if events != [] {
      match events[0]
      case Request(at) =>
        ConsumeByEffective(rate, row, at);
        ConsumeByEffective(rate, bare, at);
        SweepsChangeNoDecision(rate, Consume(rate, row, at).0, Consume(rate, bare, at).0, events[1..], at);
        assert Requests(events)[0] == events[0] && Requests(events)[1..] == Requests(events[1..]);
      case Sweep(now, taken) =>
        SweepsChangeNoDecision(rate, Swept(row, r => Expired(r, now), taken), bare, events[1..], Max(now, clock));
        assert Requests(events) == Requests(events[1..]);
    }
  }

  // ---- how many requests one instant still admits ----

  /** The number of requests accepted among the next n, all at one instant. */
  function Accepted(rate: Rate, row: Option<Row>, t: int, n: nat): nat
    decreases n
  {
    if n == 0 then 0
    else (if Consume(rate, row, t).1 then 1 else 0) + Accepted(rate, Consume(rate, row, t).0, t, n - 1)
  }

  function Debt(tat: int, t: int): (d: int)
    ensures d >= 0
  {
    Max(0, tat - t)
  }

  /** (tolerance - debt) / interval rounded down, plus one. */
  function Slots(rate: Rate, debt: int): int
    requires ValidRate(rate)
  {
    (rate.tolerance - debt) / rate.interval + 1
  }

  /** Exactly Slots requests are accepted at an instant, then none. */
  lemma {:induction false} AcceptedAtInstant(rate: Rate, row: Option<Row>, t: int, n: nat)
    requires ValidRate(rate)
    ensures Accepted(rate, row, t, n) == Min(n, Max(0, Slots(rate, Effective(row, t) - t)))
    decreases n
  {
    var debt := Effective(row, t) - t;
    ConsumeByEffective(rate, row, t);
    DivStep(rate.tolerance - debt, rate.interval);
    if n > 0 {
      AcceptedAtInstant(rate, Consume(rate, row, t).0, t, n - 1);
      assert Slots(rate, debt + rate.interval) == Slots(rate, debt) - 1;
    }
  }
}

/** The quota metadata of a decision, and what it promises. */
module GcraQuota {
  import opened Arith
  import opened JsText
  import opened RateLimit
  import opened Gcra

  function Second(p: Policy): int { 1_000_000 * p.limit }

  function Millisecond(p: Policy): int { 1_000 * p.limit }

  function CeilDiv(a: int, d: int): int
    requires d > 0
  {
    -((-a) / d)
  }

  /** JavaScript reads a database timestamp in whole milliseconds. */
  function ToJs(p: Policy, t: int): int
    requires ValidPolicy(p)
  {
    t / Millisecond(p) * Millisecond(p)
  }

  datatype Decision =
    | Allowed(remaining: int, resetAfterSeconds: int)
    | Denied(retryAfterSeconds: int, resetAfterSeconds: int)

  /** The metadata for exact timestamps. */
  function ExactAllowed(p: Policy, tat: int, observed: int): Decision
    requires ValidPolicy(p)
  {
    var debt := Debt(tat, observed);
    Allowed(Max(0, Min(p.limit, Slots(RateOf(p), debt))), Max(1, CeilDiv(debt, Second(p))))
  }

  function ExactDenied(p: Policy, tat: int, observed: int): Decision
    requires ValidPolicy(p)
  {
    var debt := Debt(tat, observed);
    Denied(Max(1, CeilDiv(debt - RateOf(p).tolerance, Second(p))), Max(1, CeilDiv(debt, Second(p))))
  }

  /** allowedDecision and the denial at the end of consumeGcra, as the code computes them: from
      timestamps cut to milliseconds. */
  function AllowedDecision(p: Policy, tat: int, observed: int): Decision
    requires ValidPolicy(p)
  {
    ExactAllowed(p, ToJs(p, tat), ToJs(p, observed))
  }

  function DeniedDecision(p: Policy, tat: int, observed: int): Decision
    requires ValidPolicy(p)
  {
    ExactDenied(p, ToJs(p, tat), ToJs(p, observed))
  }

  lemma ToJsBelow(p: Policy, t: int)
    requires ValidPolicy(p)
    ensures ToJs(p, t) <= t < ToJs(p, t) + Millisecond(p)
  {
    var m := Millisecond(p);
    assert t == m * (t / m) + t % m;
  }

  /** The instant, within a millisecond of the one observed, for which the cut timestamps give
      the exact debt. */
  function Instant(p: Policy, tat: int, observed: int): int
    requires ValidPolicy(p)
  {
    var debt := ToJs(p, tat) - ToJs(p, observed);
    if debt > 0 then tat - debt else Max(tat, observed)
  }

  /** Cutting to milliseconds moves the answer by less than a millisecond: the code's decision is
      the exact one for an instant that near to the observed one. */
  lemma WithinAMillisecond(p: Policy, tat: int, observed: int)
    requires ValidPolicy(p)
    ensures var t := Instant(p, tat, observed);
            && observed - Millisecond(p) < t < observed + Millisecond(p)
            && AllowedDecision(p, tat, observed) == ExactAllowed(p, tat, t)
            && DeniedDecision(p, tat, observed) == ExactDenied(p, tat, t)
  {
    ToJsBelow(p, tat);
    ToJsBelow(p, observed);
  }

  /** When both timestamps lie on one millisecond grid nothing is lost. */
  lemma ExactOnTheGrid(p: Policy, tat: int, observed: int)
    requires ValidPolicy(p) && tat % Millisecond(p) == observed % Millisecond(p)
    ensures AllowedDecision(p, tat, observed) == ExactAllowed(p, tat, observed)
    ensures DeniedDecision(p, tat, observed) == ExactDenied(p, tat, observed)
  {
    var m := Millisecond(p);
    assert tat == m * (tat / m) + tat % m && observed == m * (observed / m) + observed % m;
    assert ToJs(p, tat) - ToJs(p, observed) == tat - observed;
  }

  lemma CeilBounds(a: int, d: int)
    requires d > 0
    ensures CeilDiv(a, d) * d >= a
    ensures (CeilDiv(a, d) - 1) * d < a
  {
    var q := (-a) / d;
    assert -a == d * q + (-a) % d;
    assert CeilDiv(a, d) * d == -(d * q);
    assert (CeilDiv(a, d) - 1) * d == -(d * q) - d;
  }

  lemma MulLess(a: int, b: int, d: int)
    requires d > 0 && a <= b
    ensures a * d <= b * d
  {
  }

  /** After an accepted request the clamps to 0 and to the limit never act, cut timestamps
      included. The premise is what the INSERT and the UPDATE leave behind. */
  lemma ClampsNeverAct(p: Policy, tat: int, observed: int)
    requires ValidPolicy(p)
    requires tat <= observed + RateOf(p).tolerance + RateOf(p).interval
    ensures 0 <= Slots(RateOf(p), Debt(ToJs(p, tat), ToJs(p, observed))) <= p.limit
  {
    var rate := RateOf(p);
    var m := Millisecond(p);
    var span := rate.tolerance + rate.interval;
    assert span == m * (p.windowSeconds * 1_000) by {
      assert span == rate.interval * p.limit;
    }
    assert (observed + span) / m == observed / m + p.windowSeconds * 1_000 by {
      DivUnique(observed + span, m, observed / m + p.windowSeconds * 1_000, observed % m);
    }
    DivMono(tat, observed + span, m);
    MulLess(tat / m, (observed + span) / m, m);
    var debt := Debt(ToJs(p, tat), ToJs(p, observed));
    assert 0 <= debt <= span;
    DivUnique(-rate.interval, rate.interval, -1, 0);
    DivMono(-rate.interval, rate.tolerance - debt, rate.interval);
    DivUnique(rate.tolerance, rate.interval, p.limit - 1, 0);
    DivMono(rate.tolerance - debt, rate.tolerance, rate.interval);
  }

  /** The reported remaining quota is exact: of any number of further requests at the instant
      the decision speaks of, precisely that many are accepted. */
  lemma RemainingIsExact(p: Policy, row: Row, observed: int, n: nat)
    requires ValidPolicy(p)
    requires row.tat <= observed + RateOf(p).tolerance + RateOf(p).interval
    ensures var t := Instant(p, row.tat, observed);
            Accepted(RateOf(p), Some(row), t, n) == Min(n, AllowedDecision(p, row.tat, observed).remaining)
  {
    var t := Instant(p, row.tat, observed);
    WithinAMillisecond(p, row.tat, observed);
    ToJsBelow(p, row.tat);
    ToJsBelow(p, observed);
    ClampsNeverAct(p, row.tat, observed);
    assert Debt(row.tat, t) == Debt(ToJs(p, row.tat), ToJs(p, observed));
    AcceptedAtInstant(RateOf(p), Some(row), t, n);
  }

  /** Waiting the advised time suffices, and no smaller positive whole number of seconds does. */
  lemma RetryAfterIsExact(p: Policy, row: Row, observed: int)
    requires ValidPolicy(p)
    ensures var t := Instant(p, row.tat, observed);
            var wait := DeniedDecision(p, row.tat, observed).retryAfterSeconds;
            && wait >= 1
            && Consume(RateOf(p), Some(row), t + wait * Second(p)).1
            && forall s: int :: 1 <= s < wait ==> !Consume(RateOf(p), Some(row), t + s * Second(p)).1
  {
    WithinAMillisecond(p, row.tat, observed);
    LeastWait(p, row, Instant(p, row.tat, observed));
  }

  lemma LeastWait(p: Policy, row: Row, t: int)
    requires ValidPolicy(p)
    ensures var wait := Max(1, CeilDiv(Debt(row.tat, t) - RateOf(p).tolerance, Second(p)));
            && Consume(RateOf(p), Some(row), t + wait * Second(p)).1
            && forall s: int :: 1 <= s < wait ==> !Consume(RateOf(p), Some(row), t + s * Second(p)).1
  {
    var need := Debt(row.tat, t) - RateOf(p).tolerance;
    var wait := Max(1, CeilDiv(need, Second(p)));
    CeilBounds(need, Second(p));
    MulLess(CeilDiv(need, Second(p)), wait, Second(p));
    forall s: int | 1 <= s < wait
      ensures !Consume(RateOf(p), Some(row), t + s * Second(p)).1
    {
      MulLess(s, CeilDiv(need, Second(p)) - 1, Second(p));
      MulLess(1, s, Second(p));
    }
  }

  /** After the reset time without requests a full burst of the limit is accepted; after fewer
      whole seconds it is not. */
  lemma ResetRestoresTheBurst(p: Policy, row: Row, observed: int)
    requires ValidPolicy(p)
    ensures var t := Instant(p, row.tat, observed);
            var wait := DeniedDecision(p, row.tat, observed).resetAfterSeconds;
            && wait == AllowedDecision(p, row.tat, observed).resetAfterSeconds >= 1
            && Accepted(RateOf(p), Some(row), t + wait * Second(p), p.limit) == p.limit
            && forall s: int :: 1 <= s < wait ==> Accepted(RateOf(p), Some(row), t + s * Second(p), p.limit) < p.limit
  {
    var t := Instant(p, row.tat, observed);
    WithinAMillisecond(p, row.tat, observed);
    WholeBurstAfter(p, row, t);
  }

  lemma WholeBurstAfter(p: Policy, row: Row, t: int)
    requires ValidPolicy(p)
    ensures var wait := Max(1, CeilDiv(Debt(row.tat, t), Second(p)));
            && Accepted(RateOf(p), Some(row), t + wait * Second(p), p.limit) == p.limit
            && forall s: int :: 1 <= s < wait ==> Accepted(RateOf(p), Some(row), t + s * Second(p), p.limit) < p.limit
  {
    var debt := Debt(row.tat, t);
    var wait := Max(1, CeilDiv(debt, Second(p)));
    CeilBounds(debt, Second(p));
    MulLess(CeilDiv(debt, Second(p)), wait, Second(p));
    BurstInTime(p, row, t + wait * Second(p));
    forall s: int | 1 <= s < wait
      ensures Accepted(RateOf(p), Some(row), t + s * Second(p), p.limit) < p.limit
    {
      MulLess(s, CeilDiv(debt, Second(p)) - 1, Second(p));
      MulLess(1, s, Second(p));
      BurstTooSoon(p, row, t + s * Second(p));
    }
  }

  lemma BurstInTime(p: Policy, row: Row, at: int)
    requires ValidPolicy(p) && row.tat <= at
    ensures Accepted(RateOf(p), Some(row), at, p.limit) == p.limit
  {
    AcceptedAtInstant(RateOf(p), Some(row), at, p.limit);
    DivUnique(RateOf(p).tolerance, RateOf(p).interval, p.limit - 1, 0);
  }

  lemma BurstTooSoon(p: Policy, row: Row, at: int)
    requires ValidPolicy(p) && row.tat > at
    ensures Accepted(RateOf(p), Some(row), at, p.limit) < p.limit
  {
    AcceptedAtInstant(RateOf(p), Some(row), at, p.limit);
    BelowTolerance(p, row.tat - at);
  }

  lemma BelowTolerance(p: Policy, debt: int)
    requires ValidPolicy(p) && debt > 0
    ensures Slots(RateOf(p), debt) < p.limit
  {
    var rate := RateOf(p);
    DivMono(rate.tolerance - debt, rate.tolerance - 1, rate.interval);
    DivUnique(rate.tolerance - 1, rate.interval, p.limit - 2, rate.interval - 1);
  }

  // ---- the same, counted from the observed instant itself ----

  /** What the cut takes from the distance between two timestamps: less than a millisecond, either way. */
  function Lost(p: Policy, tat: int, observed: int): (lost: int)
    requires ValidPolicy(p)
    ensures -Millisecond(p) < lost < Millisecond(p)
    ensures tat - observed == ToJs(p, tat) - ToJs(p, observed) + lost
  {
    ToJsBelow(p, tat);
    ToJsBelow(p, observed);
    tat % Millisecond(p) - observed % Millisecond(p)
  }

  /** By how much so many seconds exceed what is left to wait for, as the cut timestamps tell it. */
  function Slack(p: Policy, tat: int, observed: int, tolerance: int, seconds: int): int
    requires ValidPolicy(p)
  {
    seconds * Second(p) - (ToJs(p, tat) - ToJs(p, observed) - tolerance)
  }

  /** When an advised wait, counted from the observed instant, reaches a debt within the tolerance. */
  lemma CutWait(p: Policy, tat: int, observed: int, tolerance: int, wait: int)
    requires ValidPolicy(p) && tolerance >= 0
    requires wait == Max(1, CeilDiv(Debt(ToJs(p, tat), ToJs(p, observed)) - tolerance, Second(p)))
    ensures tat <= observed + wait * Second(p) + tolerance <==>
            ToJs(p, tat) <= ToJs(p, observed) || Lost(p, tat, observed) <= Slack(p, tat, observed, tolerance, wait)
    ensures forall s: int :: 1 <= s < wait ==>
              (tat <= observed + s * Second(p) + tolerance
               <==> Lost(p, tat, observed) <= Slack(p, tat, observed, tolerance, s))
    ensures tat <= observed + wait * Second(p) + Millisecond(p) + tolerance
  {
    var need := Debt(ToJs(p, tat), ToJs(p, observed)) - tolerance;
    CeilBounds(need, Second(p));
    MulLess(CeilDiv(need, Second(p)), wait, Second(p));
    MulLess(1, wait, Second(p));
    var lost := Lost(p, tat, observed);
  }

  /** Counted from the observed instant the advised wait suffices if and only if the milliseconds
      agree or the cut took no more than the slack of its rounding up; a smaller number of seconds
      suffices if and only if the cut had added enough; and one more millisecond always suffices. */
  lemma RetryAfterFromObserved(p: Policy, row: Row, observed: int)
    requires ValidPolicy(p)
    ensures var wait := DeniedDecision(p, row.tat, observed).retryAfterSeconds;
            var tolerance := RateOf(p).tolerance;
            && (Consume(RateOf(p), Some(row), observed + wait * Second(p)).1 <==>
                  || ToJs(p, row.tat) <= ToJs(p, observed)
                  || Lost(p, row.tat, observed) <= Slack(p, row.tat, observed, tolerance, wait))
            && (forall s: int :: 1 <= s < wait ==>
                  (Consume(RateOf(p), Some(row), observed + s * Second(p)).1 <==>
                   Lost(p, row.tat, observed) <= Slack(p, row.tat, observed, tolerance, s)))
            && Consume(RateOf(p), Some(row), observed + wait * Second(p) + Millisecond(p)).1
  {
    CutWait(p, row.tat, observed, RateOf(p).tolerance, DeniedDecision(p, row.tat, observed).retryAfterSeconds);
  }

  /** The reset time, counted from the observed instant, likewise. */
  lemma ResetFromObserved(p: Policy, row: Row, observed: int)
    requires ValidPolicy(p)
    ensures var wait := DeniedDecision(p, row.tat, observed).resetAfterSeconds;
            && (WholeBurst(p, row, observed + wait * Second(p)) <==>
                  || ToJs(p, row.tat) <= ToJs(p, observed)
                  || Lost(p, row.tat, observed) <= Slack(p, row.tat, observed, 0, wait))
            && (forall s: int :: 1 <= s < wait ==>
                  (WholeBurst(p, row, observed + s * Second(p)) <==>
                   Lost(p, row.tat, observed) <= Slack(p, row.tat, observed, 0, s)))
            && WholeBurst(p, row, observed + wait * Second(p) + Millisecond(p))
  {
    var wait := DeniedDecision(p, row.tat, observed).resetAfterSeconds;
    CutWait(p, row.tat, observed, 0, wait);
    WholeBurstExactly(p, row, observed + wait * Second(p));
    WholeBurstExactly(p, row, observed + wait * Second(p) + Millisecond(p));
    forall s: int | 1 <= s < wait
      ensures WholeBurst(p, row, observed + s * Second(p))
              <==> Lost(p, row.tat, observed) <= Slack(p, row.tat, observed, 0, s)
    {
      WholeBurstExactly(p, row, observed + s * Second(p));
    }
  }

  /** A burst of the whole limit is accepted at this instant. */
  predicate WholeBurst(p: Policy, row: Row, at: int)
    requires ValidPolicy(p)
  {
    Accepted(RateOf(p), Some(row), at, p.limit) == p.limit
  }

  lemma WholeBurstExactly(p: Policy, row: Row, at: int)
    requires ValidPolicy(p)
    ensures WholeBurst(p, row, at) <==> row.tat <= at
  {
    if row.tat <= at {
      BurstInTime(p, row, at);
    } else {
      BurstTooSoon(p, row, at);
    }
  }

  // ---- the policy in real time ----

  /** The row that so many requests at one instant leave. */
  function After(rate: Rate, row: Option<Row>, t: int, n: nat): Option<Row>
    decreases n
  {
    if n == 0 then row else After(rate, Consume(rate, row, t).0, t, n - 1)
  }

  lemma {:induction false} AfterAccepted(p: Policy, row: Row, t: int, n: nat)
    requires ValidPolicy(p) && t <= row.tat
    requires n == 0 || row.tat + (n - 1) * RateOf(p).interval <= t + RateOf(p).tolerance
    ensures var left := After(RateOf(p), Some(row), t, n);
            left.Some? && left.value.tat == row.tat + n * RateOf(p).interval
    decreases n
  {
    var rate := RateOf(p);
    if n > 0 {
      var next := Consume(rate, Some(row), t).0.value;
      assert row.tat + (n - 1) * rate.interval == next.tat + (n - 2) * rate.interval by {
        assert (n - 1) * rate.interval == rate.interval + (n - 2) * rate.interval;
      }
      MulNonNegative(n - 1, rate.interval);
      assert next.tat == row.tat + rate.interval;
      AfterAccepted(p, next, t, n - 1);
      assert n * rate.interval == rate.interval + (n - 1) * rate.interval;
    }
  }

  /** An unused bucket accepts a burst of the limit and no more, and is then spent: its arrival
      time lies the whole window ahead. A second is 1_000_000 * limit ticks. */
  lemma BurstIsTheLimit(p: Policy, t: int, n: nat)
    requires ValidPolicy(p)
    ensures Accepted(RateOf(p), None, t, n) == Min(n, p.limit)
    ensures var spent := After(RateOf(p), None, t, p.limit);
            spent.Some? && spent.value.tat == t + p.windowSeconds * (1_000_000 * p.limit)
  {
    AcceptedAtInstant(RateOf(p), None, t, n);
    DivUnique(RateOf(p).tolerance, RateOf(p).interval, p.limit - 1, 0);
    BurstSpends(p, t);
  }

  lemma BurstSpends(p: Policy, t: int)
    requires ValidPolicy(p)
    ensures var spent := After(RateOf(p), None, t, p.limit);
            spent.Some? && spent.value.tat == t + p.windowSeconds * (1_000_000 * p.limit)
  {
    var interval, n := p.windowSeconds * 1_000_000, p.limit - 1;
    var first := Consume(RateOf(p), None, t).0.value;
    assert first.tat == t + interval;
    assert interval + (n - 1) * interval == interval * n;
    AfterAccepted(p, first, t, n);
    assert interval + n * interval == p.windowSeconds * (1_000_000 * p.limit);
  }

  /** A spent bucket regains one request every windowSeconds / limit seconds, which are
      windowSeconds * 1_000_000 ticks, and never holds more than the limit: exactly so many of any
      number of requests are accepted when nothing was asked for this long. */
  lemma RefillIsExact(p: Policy, row: Row, t: int, idle: nat, n: nat)
    requires ValidPolicy(p) && row.tat == t + p.windowSeconds * (1_000_000 * p.limit)
    ensures Accepted(RateOf(p), Some(row), t + idle, n)
            == Min(n, Min(p.limit, idle / (p.windowSeconds * 1_000_000)))
  {
    var rate := RateOf(p);
    var interval := p.windowSeconds * 1_000_000;
    var debt := Max(row.tat, t + idle) - (t + idle);
    AcceptedAtInstant(rate, Some(row), t + idle, n);
    assert row.tat == t + p.limit * interval;
    assert rate.tolerance == p.limit * interval - interval;
    if idle <= p.limit * interval {
      assert rate.tolerance - debt == idle - interval;
      DivStep(idle, interval);
      DivMono(idle, p.limit * interval, interval);
      DivUnique(p.limit * interval, interval, p.limit, 0);
    } else {
      DivMono(p.limit * interval, idle, interval);
      DivUnique(p.limit * interval, interval, p.limit, 0);
      DivUnique(rate.tolerance, interval, p.limit - 1, 0);
    }
  }

  /** Whatever an accepted request left, the next one passes windowSeconds / limit seconds later,
      and windowSeconds later a burst of the limit does. */
  lemma RefillsInTime(p: Policy, row: Row, t: int)
    requires ValidPolicy(p) && row.tat <= t + RateOf(p).tolerance + RateOf(p).interval
    ensures Consume(RateOf(p), Some(row), t + p.windowSeconds * 1_000_000).1
    ensures Accepted(RateOf(p), Some(row), t + p.windowSeconds * (1_000_000 * p.limit), p.limit) == p.limit
  {
    assert RateOf(p).tolerance + RateOf(p).interval == p.windowSeconds * (1_000_000 * p.limit);
    BurstInTime(p, row, t + p.windowSeconds * (1_000_000 * p.limit));
  }

  lemma SameQuotient(x: int, y: int, d: int)
    requires d > 0
    ensures x / d == (x - y) / d <==> 0 <= x % d - y < d
  {
    assert x == d * (x / d) + x % d && x - y == d * ((x - y) / d) + (x - y) % d;
    if 0 <= x % d - y < d {
      DivUnique(x - y, d, x / d, x % d - y);
    }
  }

  /** At the observed instant itself the reported remaining quota is exact if and only if the cut
      moves the debt across no multiple of the interval. */
  lemma RemainingAtObserved(p: Policy, row: Row, observed: int)
    requires ValidPolicy(p)
    requires row.tat <= observed + RateOf(p).tolerance + RateOf(p).interval
    ensures var rate := RateOf(p);
            var cut, exact := Debt(ToJs(p, row.tat), ToJs(p, observed)), Debt(row.tat, observed);
            var remaining := AllowedDecision(p, row.tat, observed).remaining;
            (forall n: nat :: Accepted(rate, Some(row), observed, n) == Min(n, remaining))
            <==> 0 <= (rate.tolerance - cut) % rate.interval - (exact - cut) < rate.interval
  {
    var rate := RateOf(p);
    var cut, exact := Debt(ToJs(p, row.tat), ToJs(p, observed)), Debt(row.tat, observed);
    ClampsNeverAct(p, row.tat, observed);
    SlotsNonNegative(rate, exact);
    SameQuotient(rate.tolerance - cut, exact - cut, rate.interval);
    assert rate.tolerance - cut - (exact - cut) == rate.tolerance - exact;
    var slots, remaining := Slots(rate, exact), AllowedDecision(p, row.tat, observed).remaining;
    forall n: nat
      ensures Accepted(rate, Some(row), observed, n) == Min(n, slots)
    {
      AcceptedAtInstant(rate, Some(row), observed, n);
    }
    if slots != remaining {
      var n: nat := Max(slots, remaining);
      assert Accepted(rate, Some(row), observed, n) == Min(n, slots) != Min(n, remaining);
    }
  }

  lemma SlotsNonNegative(rate: Rate, debt: int)
    requires ValidRate(rate) && debt <= rate.tolerance + rate.interval
    ensures Slots(rate, debt) >= 0
  {
    DivUnique(-rate.interval, rate.interval, -1, 0);
    DivMono(-rate.interval, rate.tolerance - debt, rate.interval);
  }

  /** The cut can shorten the advised wait: for one request every two seconds, accepted 999
      microseconds into a second, a denial read a second later advises one second, and waiting
      that long from the observed instant itself is not enough. */
  lemma CutWaitFallsShort()
    ensures var p, observed := Policy(1, 2), 1_000_000;
            var row := Inserted(RateOf(p), Reads(999, 999, 999, 999));
            && !Consume(RateOf(p), Some(row), observed).1
            && DeniedDecision(p, row.tat, observed).retryAfterSeconds == 1
            && !Consume(RateOf(p), Some(row), observed + 1 * Second(p)).1
  {
    var p := Policy(1, 2);
    assert RateOf(p) == Rate(2_000_000, 0);
    assert ToJs(p, 2_000_999) == 2_000_000 && ToJs(p, 1_000_000) == 1_000_000;
    assert CeilDiv(1_000_000, Second(p)) == 1;
  }
}
