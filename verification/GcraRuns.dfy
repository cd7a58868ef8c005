/** Any number of clients on one bucket, interleaved statement by statement with each other and
    with the cleanup DELETE (src/infrastructure/rate-limit/postgres-gcra-rate-limiter.ts). */
module GcraRuns {
  import opened Arith
  import opened JsText
  import opened RateLimit
  import opened Gcra

  /** What the UPDATE of a request that is not accepted did: it was denied, as the attempt logged at
      this place, or it met no row, at this time and after so many logged attempts. */
  datatype Verdict = DeniedAs(attempt: nat) | Unchecked(logged: nat, at: int)

  /** The next statement of a client's request. The number is how many times the row had been
      deleted when the request's own INSERT met a row. */
  datatype Pc = AtInsert | AtUpdate(deletions: nat) | AtSelect(deletions: nat, verdict: Verdict)

  /** One consultation of the bucket: by whom, when it was checked, when it was charged. */
  datatype Attempt = Attempt(client: nat, checked: int, charged: int, granted: bool)

  datatype State = State(row: Option<Row>, clock: int, pcs: map<nat, Pc>, deletions: nat, log: seq<Attempt>)

  datatype Response =
    | Pending
    | Accepted(tat: int, observed: int)
    | Refused(tat: int, observed: int)
    | Disappeared
    | Cleaned

  datatype Event = Statement(client: nat, times: Reads) | Cleanup(now: int, at: int, picked: bool)

  function PcOf(s: State, client: nat): Pc {
    if client in s.pcs then s.pcs[client] else AtInsert
  }

  /** The database clock never goes back. A cleanup's now() was read when it started, so it may
      be older than its effect; `picked` says whether its batch held this row. */
  predicate Legal(s: State, e: Event) {
    match e
    case Statement(_, times) => s.clock <= times.checked && Ordered(times)
    case Cleanup(now, at, _) => now <= at && s.clock <= at
  }

  function Step(rate: Rate, s: State, e: Event): (State, Response) {
    match e
    case Cleanup(now, at, picked) =>
      if picked && s.row.Some? && Expired(s.row.value, now)
      then (s.(row := None, deletions := s.deletions + 1, clock := at), Cleaned)
      else (s.(clock := at), Cleaned)
    case Statement(c, r) =>
      var t := s.(clock := r.observed);
      match PcOf(s, c)
      case AtInsert =>
        if s.row.None? then
          var row := Inserted(rate, r);
          (t.(row := Some(row), log := s.log + [Attempt(c, r.tat, r.tat, true)]), Accepted(row.tat, r.observed))
        else (t.(pcs := s.pcs[c := AtUpdate(s.deletions)]), Pending)
      case AtUpdate(d) =>
        if s.row.None? then (t.(pcs := s.pcs[c := AtSelect(d, Unchecked(|s.log|, r.checked))]), Pending)
        else if Conforms(rate, s.row.value, r.checked) then
          var row := Updated(rate, s.row.value, r);
          (t.(row := Some(row), pcs := s.pcs[c := AtInsert], log := s.log + [Attempt(c, r.checked, r.tat, true)]),
           Accepted(row.tat, r.observed))
        else
          (t.(pcs := s.pcs[c := AtSelect(d, DeniedAs(|s.log|))],
              log := s.log + [Attempt(c, r.checked, r.tat, false)]), Pending)
      case AtSelect(_, _) =>
        var done := t.(pcs := s.pcs[c := AtInsert]);
        if s.row.None? then (done, Disappeared) else (done, Refused(s.row.value.tat, r.observed))
  }

  ghost predicate LegalRun(rate: Rate, s: State, events: seq<Event>)
    decreases events
  {
    events == [] || (Legal(s, events[0]) && LegalRun(rate, Step(rate, s, events[0]).0, events[1..]))
  }

  function Run(rate: Rate, s: State, events: seq<Event>): State
    decreases events
  {
    if events == [] then s else Run(rate, Step(rate, s, events[0]).0, events[1..])
  }

  /** An empty table and no request under way. */
  function Initial(clock: int): State {
    State(None, clock, map[], 0, [])
  }

  // ---- the reference: a token bucket ----

  /** A bucket of `Capacity` ticks that fills by one tick a tick; a token is one interval. */
  datatype Bucket = Bucket(level: int, at: int)

  function Capacity(rate: Rate): int { rate.interval + rate.tolerance }

  function LevelAt(rate: Rate, b: Bucket, t: int): int {
    Min(Capacity(rate), b.level + (t - b.at))
  }

  predicate HasToken(rate: Rate, b: Bucket, t: int) {
    LevelAt(rate, b, t) >= rate.interval
  }

  function Spend(rate: Rate, b: Bucket, t: int): Bucket {
    Bucket(LevelAt(rate, b, t) - rate.interval, t)
  }

  function FullBucket(rate: Rate, clock: int): Bucket {
    Bucket(Capacity(rate), clock)
  }

  function Replay(rate: Rate, b: Bucket, log: seq<Attempt>): Bucket {
    if log == [] then b
    else
      var before := Replay(rate, b, log[..|log| - 1]);
      var last := log[|log| - 1];
      if last.granted then Spend(rate, before, last.charged) else before
  }

  /** Every attempt was granted exactly when the bucket had a token at its check. */
  ghost predicate Explained(rate: Rate, b: Bucket, log: seq<Attempt>) {
    log == [] ||
    var front, last := log[..|log| - 1], log[|log| - 1];
    && Explained(rate, b, front)
    && last.checked <= last.charged
    && (last.granted <==> HasToken(rate, Replay(rate, b, front), last.checked))
  }

  /** When an untouched bucket is full again. */
  function FullAgain(rate: Rate, b: Bucket): int {
    b.at + Capacity(rate) - b.level
  }

  /** The row holds the time at which the bucket is full again; an absent row stands for a full
      bucket. */
  ghost predicate Represents(rate: Rate, row: Option<Row>, clock: int, b: Bucket) {
    && b.at <= clock
    && match row
       case None => LevelAt(rate, b, clock) == Capacity(rate)
       case Some(r) => r.tat == FullAgain(rate, b) && r.tat <= r.expiresAt
  }

  /** What every reachable state satisfies. */
  ghost predicate Inv(rate: Rate, start: Bucket, s: State) {
    && Represents(rate, s.row, s.clock, Replay(rate, start, s.log))
    && Explained(rate, start, s.log)
    && forall c :: c in s.pcs ==> CountersOk(s, s.pcs[c]) && VerdictOk(rate, start, s.log, c, s.pcs[c])
  }

  ghost predicate CountersOk(s: State, pc: Pc) {
    match pc
    case AtInsert => true
    case AtUpdate(d) => d <= s.deletions && (s.row.None? ==> d < s.deletions)
    case AtSelect(d, verdict) => d <= s.deletions && (s.row.None? || verdict.Unchecked? ==> d < s.deletions)
  }

  /** The bucket as the first n attempts left it. */
  function After(rate: Rate, start: Bucket, log: seq<Attempt>, n: nat): Bucket
    requires n <= |log|
  {
    Replay(rate, start, log[..n])
  }

  /** A denial at the UPDATE is a logged attempt of this client that found no token; an UPDATE that
      met no row would have found one. */
  ghost predicate VerdictOk(rate: Rate, start: Bucket, log: seq<Attempt>, c: nat, pc: Pc) {
    pc.AtSelect? ==>
      match pc.verdict
      case DeniedAs(n) =>
        && n < |log| && log[n].client == c && !log[n].granted
        && !HasToken(rate, After(rate, start, log, n), log[n].checked)
      case Unchecked(n, at) => n <= |log| && HasToken(rate, After(rate, start, log, n), at)
  }

  lemma VerdictStays(rate: Rate, start: Bucket, log: seq<Attempt>, a: Attempt, c: nat, pc: Pc)
    requires VerdictOk(rate, start, log, c, pc)
    ensures VerdictOk(rate, start, log + [a], c, pc)
  {
    if pc.AtSelect? {
      var n := if pc.verdict.DeniedAs? then pc.verdict.attempt else pc.verdict.logged;
      assert (log + [a])[..n] == log[..n];
    }
  }

  lemma LogSnoc(rate: Rate, start: Bucket, log: seq<Attempt>, a: Attempt)
    requires Explained(rate, start, log) && a.checked <= a.charged
    requires a.granted <==> HasToken(rate, Replay(rate, start, log), a.checked)
    ensures Explained(rate, start, log + [a])
    ensures Replay(rate, start, log + [a]) ==
            if a.granted then Spend(rate, Replay(rate, start, log), a.charged) else Replay(rate, start, log)
  {
    assert (log + [a])[..|log|] == log;
  }

  lemma StepKeepsInv(rate: Rate, start: Bucket, s: State, e: Event)
    requires ValidRate(rate) && Inv(rate, start, s) && Legal(s, e)
    ensures Inv(rate, start, Step(rate, s, e).0)
  {
    match e
    case Cleanup(now, at, picked) =>
    case Statement(c, r) =>
      match PcOf(s, c)
      case AtInsert =>
        if s.row.None? {
          Logged(rate, start, s, Attempt(c, r.tat, r.tat, true));
        }
      case AtUpdate(d) => UpdateKeepsInv(rate, start, s, c, r);
      case AtSelect(_, _) =>
  }

  lemma UpdateKeepsInv(rate: Rate, start: Bucket, s: State, c: nat, r: Reads)
    requires ValidRate(rate) && Inv(rate, start, s) && Legal(s, Statement(c, r)) && PcOf(s, c).AtUpdate?
    ensures Inv(rate, start, Step(rate, s, Statement(c, r)).0)
  {
    if s.row.None? {
      assert s.log[..|s.log|] == s.log;
    } else if Conforms(rate, s.row.value, r.checked) {
      Logged(rate, start, s, Attempt(c, r.checked, r.tat, true));
    } else {
      DeniedKeepsInv(rate, start, s, c, r);
    }
  }

  lemma DeniedKeepsInv(rate: Rate, start: Bucket, s: State, c: nat, r: Reads)
    requires ValidRate(rate) && Inv(rate, start, s) && Legal(s, Statement(c, r)) && PcOf(s, c).AtUpdate?
    requires s.row.Some? && !Conforms(rate, s.row.value, r.checked)
    ensures Inv(rate, start, Step(rate, s, Statement(c, r)).0)
  {
    var denied := Attempt(c, r.checked, r.tat, false);
    Logged(rate, start, s, denied);
    assert (s.log + [denied])[..|s.log|] == s.log;
  }

  /** One more attempt, rightly answered, keeps the log explained and every verdict as it was. */
  lemma Logged(rate: Rate, start: Bucket, s: State, a: Attempt)
    requires Inv(rate, start, s) && a.checked <= a.charged
    requires a.granted <==> HasToken(rate, Replay(rate, start, s.log), a.checked)
    ensures Explained(rate, start, s.log + [a])
    ensures Replay(rate, start, s.log + [a]) ==
            if a.granted then Spend(rate, Replay(rate, start, s.log), a.charged) else Replay(rate, start, s.log)
    ensures forall c :: c in s.pcs ==> VerdictOk(rate, start, s.log + [a], c, s.pcs[c])
  {
    LogSnoc(rate, start, s.log, a);
    forall c | c in s.pcs
      ensures VerdictOk(rate, start, s.log + [a], c, s.pcs[c])
    {
      VerdictStays(rate, start, s.log, a, c, s.pcs[c]);
    }
  }

  lemma {:induction false} RunKeepsInv(rate: Rate, start: Bucket, s: State, events: seq<Event>)
    requires ValidRate(rate) && Inv(rate, start, s) && LegalRun(rate, s, events)
    ensures Inv(rate, start, Run(rate, s, events))
    decreases events
  {
    if events != [] {
      StepKeepsInv(rate, start, s, events[0]);
      RunKeepsInv(rate, start, Step(rate, s, events[0]).0, events[1..]);
    }
  }

  /** The refinement: whatever the interleaving, and wherever rows were deleted, every attempt a
      run has made was answered as the token bucket answers it, and the row is the bucket. */
  lemma RefinesTokenBucket(rate: Rate, clock: int, events: seq<Event>)
    requires ValidRate(rate) && LegalRun(rate, Initial(clock), events)
    ensures var s := Run(rate, Initial(clock), events);
            && Explained(rate, FullBucket(rate, clock), s.log)
            && Represents(rate, s.row, s.clock, Replay(rate, FullBucket(rate, clock), s.log))
  {
    assert Inv(rate, FullBucket(rate, clock), Initial(clock));
    RunKeepsInv(rate, FullBucket(rate, clock), Initial(clock), events);
  }

  /** An INSERT, seen by its client: without a row it is accepted, and the bucket has a token. */
  lemma InsertView(rate: Rate, start: Bucket, s: State, c: nat, r: Reads)
    requires ValidRate(rate) && Inv(rate, start, s) && Legal(s, Statement(c, r)) && PcOf(s, c).AtInsert?
    ensures var (t, response) := Step(rate, s, Statement(c, r));
            && (response.Accepted? <==> s.row.None?)
            && (response.Accepted? ==> HasToken(rate, Replay(rate, start, s.log), r.checked))
            && (response.Accepted? ==> t.log == s.log + [Attempt(c, r.tat, r.tat, true)])
            && (!response.Accepted? ==> response == Pending && t.log == s.log)
  {
  }

  /** An UPDATE, seen by its client: it answers as the token bucket does if and only if it meets a
      row, and it can only fail to meet one after a deletion since the request's own INSERT. */
  lemma UpdateView(rate: Rate, start: Bucket, s: State, c: nat, r: Reads)
    requires ValidRate(rate) && Inv(rate, start, s) && Legal(s, Statement(c, r)) && PcOf(s, c).AtUpdate?
    ensures var response := Step(rate, s, Statement(c, r)).1;
            var bucket := Replay(rate, start, s.log);
            && ((response.Accepted? <==> HasToken(rate, bucket, r.checked)) <==> s.row.Some?)
            && (s.row.None? ==> s.deletions > PcOf(s, c).deletions)
            && (response.Accepted? ==> HasToken(rate, bucket, r.tat))
  {
    assert CountersOk(s, s.pcs[c]);
  }

  /** A SELECT, seen by its client. It never accepts. It follows either a denial that the token
      bucket shares, logged for this client, or an UPDATE that met no row while a token was left;
      then the row had been deleted since the request's own INSERT. Whether the client is refused
      or told that the state disappeared depends on the row alone. */
  lemma SelectView(rate: Rate, start: Bucket, s: State, c: nat, r: Reads)
    requires ValidRate(rate) && Inv(rate, start, s) && Legal(s, Statement(c, r)) && PcOf(s, c).AtSelect?
    ensures var response := Step(rate, s, Statement(c, r)).1;
            && (response.Refused? <==> s.row.Some?) && (response.Disappeared? <==> s.row.None?)
            && (response.Disappeared? ==> s.deletions > PcOf(s, c).deletions)
    ensures var log := s.log;
            match PcOf(s, c).verdict
            case DeniedAs(n) =>
              && n < |log| && log[n].client == c && !log[n].granted
              && !HasToken(rate, After(rate, start, log, n), log[n].checked)
            case Unchecked(n, at) =>
              && n <= |log| && HasToken(rate, After(rate, start, log, n), at)
              && s.deletions > PcOf(s, c).deletions
  {
    assert CountersOk(s, s.pcs[c]) && VerdictOk(rate, start, s.log, c, s.pcs[c]);
  }

  /** A request that is refused though its row was not deleted since its own INSERT was denied by
      the token bucket: there was no token at the check of its UPDATE. */
  lemma RefusedRightly(rate: Rate, clock: int, events: seq<Event>, c: nat, r: Reads)
    requires ValidRate(rate) && LegalRun(rate, Initial(clock), events)
    requires var s := Run(rate, Initial(clock), events);
             && Legal(s, Statement(c, r)) && Step(rate, s, Statement(c, r)).1.Refused?
             && s.deletions == PcOf(s, c).deletions
    ensures var s := Run(rate, Initial(clock), events);
            exists n: nat ::
              && PcOf(s, c).verdict == DeniedAs(n) && n < |s.log| && s.log[n].client == c && !s.log[n].granted
              && !HasToken(rate, After(rate, FullBucket(rate, clock), s.log, n), s.log[n].checked)
  {
    var s := Run(rate, Initial(clock), events);
    assert Inv(rate, FullBucket(rate, clock), Initial(clock));
    RunKeepsInv(rate, FullBucket(rate, clock), Initial(clock), events);
    SelectView(rate, FullBucket(rate, clock), s, c, r);
  }

  lemma RunCons(rate: Rate, s: State, e: Event, rest: seq<Event>)
    ensures Run(rate, s, [e] + rest) == Run(rate, Step(rate, s, e).0, rest)
    ensures LegalRun(rate, s, [e] + rest) <==> Legal(s, e) && LegalRun(rate, Step(rate, s, e).0, rest)
  {
    assert ([e] + rest)[1..] == rest;
  }

  function AllAt(t: int): Reads {
    Reads(t, t, t, t)
  }

  /** The premise about deletions is needed, whatever the policy: a cleanup between a request's own INSERT
      and UPDATE makes the request fail although the bucket is full, and nothing was ever charged twice. */
  lemma CleanupInsideRequest(p: Policy)
    requires ValidPolicy(p)
    ensures DisappearsWithFullBucket(RateOf(p))
  {
    CleanupInsideBucket(RateOf(p));
  }

  ghost predicate DisappearsWithFullBucket(rate: Rate) {
    var t := rate.interval;
    var events := [Statement(0, AllAt(0)), Statement(1, AllAt(0)), Cleanup(t, t, true), Statement(1, AllAt(t))];
    var s := Run(rate, Initial(0), events);
    && LegalRun(rate, Initial(0), events)
    && LevelAt(rate, Replay(rate, FullBucket(rate, 0), s.log), t) == Capacity(rate)
    && Step(rate, s, Statement(1, AllAt(t))).1 == Disappeared
  }

  ghost predicate Leads(rate: Rate, s: State, e: Event, next: State) {
    Legal(s, e) && next == Step(rate, s, e).0
  }

  /** A row is inserted, met by another INSERT, deleted by a cleanup, and missed by the UPDATE. */
  lemma MissedRow(rate: Rate) returns (s1: State, s2: State, s3: State, s4: State)
    requires ValidRate(rate)
    ensures var t := rate.interval;
            && Leads(rate, Initial(0), Statement(0, AllAt(0)), s1) && Leads(rate, s1, Statement(1, AllAt(0)), s2)
            && Leads(rate, s2, Cleanup(t, t, true), s3) && Leads(rate, s3, Statement(1, AllAt(t)), s4)
            && s4.log == [] + [Attempt(0, 0, 0, true)]
            && s4 == State(None, t, map[1 := AtSelect(0, Unchecked(1, t))], 1, s4.log)
  {
    var t := rate.interval;
    var log := [] + [Attempt(0, 0, 0, true)];
    s1 := State(Some(Row(t, t)), 0, map[], 0, log);
    s2 := State(Some(Row(t, t)), 0, map[1 := AtUpdate(0)], 0, log);
    s3 := State(None, t, map[1 := AtUpdate(0)], 1, log);
    s4 := State(None, t, map[1 := AtSelect(0, Unchecked(1, t))], 1, log);
  }

  lemma CleanupInsideBucket(rate: Rate)
    requires ValidRate(rate)
    ensures DisappearsWithFullBucket(rate)
  {
    var t := rate.interval;
    var e0, e1, e2, e3 := Statement(0, AllAt(0)), Statement(1, AllAt(0)), Cleanup(t, t, true), Statement(1, AllAt(t));
    var s1, s2, s3, s4 := MissedRow(rate);
    RunCons(rate, s3, e3, []);
    RunCons(rate, s2, e2, [e3]);
    RunCons(rate, s1, e1, [e2, e3]);
    RunCons(rate, Initial(0), e0, [e1, e2, e3]);
    NothingThere(rate, s4);
  }

  lemma NothingThere(rate: Rate, s: State)
    requires ValidRate(rate) && s.log == [] + [Attempt(0, 0, 0, true)]
    requires var t := rate.interval; s == State(None, t, map[1 := AtSelect(0, Unchecked(1, t))], 1, s.log)
    ensures var t := rate.interval;
            && LevelAt(rate, Replay(rate, FullBucket(rate, 0), s.log), t) == Capacity(rate)
            && Step(rate, s, Statement(1, AllAt(t))).1 == Disappeared
  {
    LogSnoc(rate, FullBucket(rate, 0), [], Attempt(0, 0, 0, true));
  }

  /** Nor is "state disappeared" the only wrong answer: if another client inserts the row again in
      time, the request is refused with a retry time, although it was never checked. Whatever the policy
      with a limit of two or more, the bucket has had a token all along. */
  lemma RefusedUnchecked(p: Policy)
    requires ValidPolicy(p) && p.limit >= 2
    ensures RefusesWithToken(RateOf(p))
  {
    MulMono(1, p.limit - 1, RateOf(p).interval);
    RefusalUnchecked(RateOf(p));
  }

  ghost predicate RefusesWithToken(rate: Rate) {
    var t := rate.interval;
    var events := [Statement(0, AllAt(0)), Statement(1, AllAt(0)), Cleanup(t, t, true), Statement(1, AllAt(t)),
                   Statement(2, AllAt(t))];
    var s := Run(rate, Initial(0), events);
    && LegalRun(rate, Initial(0), events)
    && Step(rate, s, Statement(1, AllAt(t))).1.Refused?
    && HasToken(rate, Replay(rate, FullBucket(rate, 0), s.log), t)
    && forall i :: 0 <= i < |s.log| ==> s.log[i].granted && s.log[i].client != 1
  }

  lemma RefusalUnchecked(rate: Rate)
    requires ValidRate(rate) && rate.tolerance >= rate.interval
    ensures RefusesWithToken(rate)
  {
    var t := rate.interval;
    var e0, e1, e2 := Statement(0, AllAt(0)), Statement(1, AllAt(0)), Cleanup(t, t, true);
    var e3, e4 := Statement(1, AllAt(t)), Statement(2, AllAt(t));
    var s1, s2, s3, s4 := MissedRow(rate);
    RunCons(rate, s4, e4, []);
    RunCons(rate, s3, e3, [e4]);
    RunCons(rate, s2, e2, [e3, e4]);
    RunCons(rate, s1, e1, [e2, e3, e4]);
    RunCons(rate, Initial(0), e0, [e1, e2, e3, e4]);
    InsertedAgain(rate, s4);
  }

  lemma InsertedAgain(rate: Rate, s: State)
    requires ValidRate(rate) && rate.tolerance >= rate.interval
    requires s.log == [] + [Attempt(0, 0, 0, true)]
    requires var t := rate.interval; s == State(None, t, map[1 := AtSelect(0, Unchecked(1, t))], 1, s.log)
    ensures var t := rate.interval;
            var next := Step(rate, s, Statement(2, AllAt(t))).0;
            && Legal(s, Statement(2, AllAt(t))) && Step(rate, next, Statement(1, AllAt(t))).1.Refused?
            && HasToken(rate, Replay(rate, FullBucket(rate, 0), next.log), t)
            && forall i :: 0 <= i < |next.log| ==> next.log[i].granted && next.log[i].client != 1
  {
    var a, b := Attempt(0, 0, 0, true), Attempt(2, rate.interval, rate.interval, true);
    LogSnoc(rate, FullBucket(rate, 0), [], a);
    LogSnoc(rate, FullBucket(rate, 0), [] + [a], b);
  }

  // ---- throughput ----

  /** The granted attempts that may be dated within [a, b]: charged no earlier than a and checked
      no later than b. Any dating of a grant between its check and its charge counts fewer. */
  function GrantedWithin(log: seq<Attempt>, a: int, b: int): nat {
    if log == [] then 0
    else
      var last := log[|log| - 1];
      GrantedWithin(log[..|log| - 1], a, b) + if last.granted && a <= last.charged && last.checked <= b then 1 else 0
  }

  /** Each grant in the interval pushes the time of fullness one interval beyond its start. */
  lemma {:induction false} GrantsPushFullness(rate: Rate, start: Bucket, log: seq<Attempt>, a: int, b: int)
    requires ValidRate(rate) && a <= b && Explained(rate, start, log)
    ensures var n := GrantedWithin(log, a, b);
            && (n >= 1 ==> FullAgain(rate, Replay(rate, start, log)) >= a + n * rate.interval)
            && (n >= 1 ==> (n - 1) * rate.interval <= b - a + rate.tolerance)
  {
    if log != [] {
      var front, last := log[..|log| - 1], log[|log| - 1];
      GrantsPushFullness(rate, start, front, a, b);
      var before := Replay(rate, start, front);
      var m := GrantedWithin(front, a, b);
      assert (m + 1) * rate.interval == m * rate.interval + rate.interval;
      if last.granted {
        assert FullAgain(rate, Spend(rate, before, last.charged))
            == Max(FullAgain(rate, before), last.charged) + rate.interval;
      }
    }
  }

  lemma CountFromProduct(n: nat, span: int, interval: int)
    requires interval > 0 && span >= 0 && (n >= 1 ==> (n - 1) * interval <= span)
    ensures n <= 1 + span / interval
  {
    DivMono((n - 1) * interval, span, interval);
    DivUnique((n - 1) * interval, interval, n - 1, 0);
  }

  /** However the statements of all clients and the cleanups interleave, an interval [a, b] sees
      at most 1 + floor((b - a + tolerance) / interval) accepted requests. */
  lemma ThroughputBound(rate: Rate, clock: int, events: seq<Event>, a: int, b: int)
    requires ValidRate(rate) && LegalRun(rate, Initial(clock), events) && a <= b
    ensures GrantedWithin(Run(rate, Initial(clock), events).log, a, b) <= 1 + (b - a + rate.tolerance) / rate.interval
  {
    RefinesTokenBucket(rate, clock, events);
    var log := Run(rate, Initial(clock), events).log;
    GrantsPushFullness(rate, FullBucket(rate, clock), log, a, b);
    CountFromProduct(GrantedWithin(log, a, b), b - a + rate.tolerance, rate.interval);
  }

  /** For a policy that is at most limit + floor(T * limit / window) in any T microseconds. */
  lemma PolicyThroughput(p: Policy, clock: int, events: seq<Event>, a: int, micros: nat)
    requires ValidPolicy(p) && LegalRun(RateOf(p), Initial(clock), events)
    ensures GrantedWithin(Run(RateOf(p), Initial(clock), events).log, a, a + micros * p.limit)
            <= p.limit + micros * p.limit / (p.windowSeconds * 1_000_000)
  {
    var rate := RateOf(p);
    var span := micros * p.limit;
    MulNonNegative(micros, p.limit);
    ThroughputBound(rate, clock, events, a, a + span);
    assert span == rate.interval * (span / rate.interval) + span % rate.interval;
    var q := span / rate.interval + (p.limit - 1);
    assert rate.interval * q == rate.interval * (span / rate.interval) + rate.interval * (p.limit - 1);
    DivUnique(span + rate.tolerance, rate.interval, q, span % rate.interval);
  }

  /** The log is the answers: a run logs a grant exactly when it answers a client Accepted. */
  function AcceptedAnswers(rate: Rate, s: State, events: seq<Event>): nat
    decreases events
  {
    if events == [] then 0
    else
      var (next, response) := Step(rate, s, events[0]);
      (if response.Accepted? then 1 else 0) + AcceptedAnswers(rate, next, events[1..])
  }

  function Grants(log: seq<Attempt>): nat {
    if log == [] then 0 else Grants(log[..|log| - 1]) + if log[|log| - 1].granted then 1 else 0
  }

  lemma {:induction false} LogIsTheAnswers(rate: Rate, s: State, events: seq<Event>)
    ensures Grants(Run(rate, s, events).log) == Grants(s.log) + AcceptedAnswers(rate, s, events)
    decreases events
  {
    if events != [] {
      StepLogsItsAnswer(rate, s, events[0]);
      LogIsTheAnswers(rate, Step(rate, s, events[0]).0, events[1..]);
    }
  }

  lemma StepLogsItsAnswer(rate: Rate, s: State, e: Event)
    ensures Grants(Step(rate, s, e).0.log) == Grants(s.log) + (if Step(rate, s, e).1.Accepted? then 1 else 0)
  {
    var log := Step(rate, s, e).0.log;
    if |log| > |s.log| {
      assert log[..|log| - 1] == s.log;
    }
  }
}
