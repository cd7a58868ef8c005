/** What it takes to exhaust the three attempts of the claim loop
    (drizzle-user-creation-idempotency.repository.ts). */
module ClaimExhaustion {
  import opened JsText
  import opened Users
  import opened LedgerClaim
  import UserRuns

  // ---- the moves are the transactions of the service ----

  function RowOf(w: UserRuns.World, k: LedgerKey): Option<LedgerRow> {
    if k in w.db.ledger then Some(w.db.ledger[k]) else None
  }

  /** The move that a committed request or sweep amounts to on any ledger row it touches. */
  function MoveOf(op: UserRuns.Op): Option<Move> {
    match op
    case CreateOnce(_, _, email, name, now, id) => Some(ClaimedBy(Fingerprint(email, name), id, now))
    case Remove(_, id, _) => Some(Cascaded(id))
    case Sweep(now, _) => Some(SweptBy(now))
    case _ => None
  }

  /** Every request and every sweep leaves a ledger row as it was or moves it so. */
  lemma EveryTransactionIsAMove(w: UserRuns.World, op: UserRuns.Op, k: LedgerKey)
    requires UserRuns.WInv(w) && UserRuns.Legal(w, op)
    ensures var before, after := RowOf(w, k), RowOf(UserRuns.Step(w, op).0, k);
            after == before || (MoveOf(op).Some? && after == Apply(before, MoveOf(op).value))
  {
    if op.CreateOnce? {
      CreationIsAMove(w, op, k);
    }
  }

  lemma CreationIsAMove(w: UserRuns.World, op: UserRuns.Op, k: LedgerKey)
    requires UserRuns.WInv(w) && op.CreateOnce? && UserRuns.Legal(w, op)
    ensures var before, after := RowOf(w, k), RowOf(UserRuns.Step(w, op).0, k);
            after == before || after == Apply(before, ClaimedBy(Fingerprint(op.email, op.name), op.id, op.now))
  {
    CreateIdempotentlyKeepsInv(w.db, op.tenant, op.key, op.email, op.name, op.now, op.id);
  }

  // ---- counting ----

  /** How often others deleted the row. */
  function Deletions(row: Option<LedgerRow>, moves: seq<Move>): nat {
    if moves == [] then 0
    else
      var before := moves[..|moves| - 1];
      Deletions(row, before) + if Deletes(After(row, before), moves[|moves| - 1]) then 1 else 0
  }

  /** How often others inserted a row where there was none. */
  function Insertions(row: Option<LedgerRow>, moves: seq<Move>): nat {
    if moves == [] then 0
    else
      var before := moves[..|moves| - 1];
      Insertions(row, before) +
        if After(row, before).None? && Writes(After(row, before), moves[|moves| - 1]) then 1 else 0
  }

  function Present(row: Option<LedgerRow>): nat {
    if row.Some? then 1 else 0
  }

  predicate IsLive(row: Option<LedgerRow>, now: int) {
    row.Some? && row.value.expiresAt > now
  }

  /** Rows come by insertions and go by deletions. */
  lemma {:induction false} Balance(row: Option<LedgerRow>, moves: seq<Move>)
    ensures Insertions(row, moves) + Present(row) == Deletions(row, moves) + Present(After(row, moves))
  {
    if moves != [] {
      Balance(row, moves[..|moves| - 1]);
    }
  }

  lemma {:induction false} CountsCompose(row: Option<LedgerRow>, a: seq<Move>, b: seq<Move>)
    ensures Deletions(row, a + b) == Deletions(row, a) + Deletions(After(row, a), b)
    ensures Insertions(row, a + b) == Insertions(row, a) + Insertions(After(row, a), b)
  {
    if b == [] {
      assert a + b == a;
    } else {
      var front := b[..|b| - 1];
      assert (a + b)[..|a + b| - 1] == a + front;
      CountsCompose(row, a, front);
      MovesCompose(row, a, front);
    }
  }

  /** While a row is there its expiry never goes back. */
  lemma {:induction false} ExpiryNeverGoesBack(row: Option<LedgerRow>, moves: seq<Move>)
    requires row.Some? && Deletions(row, moves) == 0
    ensures After(row, moves).Some? && After(row, moves).value.expiresAt >= row.value.expiresAt
  {
    if moves != [] {
      ExpiryNeverGoesBack(row, moves[..|moves| - 1]);
    }
  }

  // ---- the row and the deletions, statement by statement ----

  function RowAt(start: Option<LedgerRow>, env: seq<seq<Move>>, k: nat): Option<LedgerRow>
    requires k <= |env|
  {
    After(start, Flatten(env[..k]))
  }

  function DeletedBy(start: Option<LedgerRow>, env: seq<seq<Move>>, k: nat): nat
    requires k <= |env|
  {
    Deletions(start, Flatten(env[..k]))
  }

  function InsertedBy(start: Option<LedgerRow>, env: seq<seq<Move>>, k: nat): nat
    requires k <= |env|
  {
    Insertions(start, Flatten(env[..k]))
  }

  /** From one row and count of deletions to the next. */
  predicate Linked(a: Option<LedgerRow>, b: Option<LedgerRow>, da: nat, db: nat) {
    && db >= da
    && (a.Some? && db == da ==> b.Some? && b.value.expiresAt >= a.value.expiresAt)
  }

  lemma NextLink(start: Option<LedgerRow>, env: seq<seq<Move>>, k: nat)
    requires k < |env|
    ensures Linked(RowAt(start, env, k), RowAt(start, env, k + 1),
                   DeletedBy(start, env, k), DeletedBy(start, env, k + 1))
  {
    var past, row := Flatten(env[..k]), RowAt(start, env, k);
    FlattenNext(env, k);
    MovesCompose(start, past, env[k]);
    CountsCompose(start, past, env[k]);
    if row.Some? && Deletions(row, env[k]) == 0 {
      ExpiryNeverGoesBack(row, env[k]);
    }
  }

  /** The rows that nine undeciding statements meet, after the one at first, and the deletions so far. */
  ghost predicate Trace(rows: seq<Option<LedgerRow>>, dels: seq<nat>, now: int) {
    |rows| == |dels| == 10 && dels[0] == 0 && forall k :: 0 <= k < 9 ==> PassesBy(rows, dels, now, k)
  }

  /** The k-th statement decides nothing. */
  predicate PassesBy(rows: seq<Option<LedgerRow>>, dels: seq<nat>, now: int, k: nat)
    requires |rows| == |dels| == 10 && k < 9
  {
    Linked(rows[k], rows[k + 1], dels[k], dels[k + 1]) && !Decides(rows[k + 1], k, now)
  }

  lemma TraceOf(start: Option<LedgerRow>, env: seq<seq<Move>>, now: int)
    returns (rows: seq<Option<LedgerRow>>, dels: seq<nat>)
    requires |env| == 9 && Undecided(start, env, now, 9)
    ensures Trace(rows, dels, now) && rows[0] == start
    ensures forall k :: 0 <= k <= 9 ==> rows[k] == RowAt(start, env, k)
    ensures dels[9] == Deletions(start, Flatten(env))
    ensures Insertions(start, Flatten(env)) + Present(start) == dels[9] + Present(rows[9])
  {
    rows := seq(10, k requires 0 <= k < 10 => RowAt(start, env, k));
    dels := seq(10, k requires 0 <= k < 10 => DeletedBy(start, env, k));
    assert env[..9] == env && env[..0] == [];
    forall k | 0 <= k < 9
      ensures PassesBy(rows, dels, now, k)
    {
      NextLink(start, env, k);
      assert rows[k + 1] == HeldAt(start, env, k);
    }
    Balance(start, Flatten(env));
  }

  /** From an INSERT to the SELECT of the next attempt a row is deleted: it is there, so the first SELECT
      finds it expired, so the UPDATE finds it live, and then it would be live for the second SELECT. */
  lemma InsertToSelect(r1: Option<LedgerRow>, r2: Option<LedgerRow>, r3: Option<LedgerRow>, r4: Option<LedgerRow>,
                       r5: Option<LedgerRow>, d1: nat, d2: nat, d3: nat, d4: nat, d5: nat, now: int)
    requires Linked(r1, r2, d1, d2) && Linked(r2, r3, d2, d3) && Linked(r3, r4, d3, d4) && Linked(r4, r5, d4, d5)
    requires !Decides(r1, 1, now) && !Decides(r2, 2, now) && !Decides(r3, 0, now)
    requires !Decides(r4, 1, now) && !Decides(r5, 2, now)
    ensures d5 >= d1 + 1
  {
  }

  /** Whatever others do, and whenever they began: the error needs them to delete the row, twice if it was
      there at first, and to insert it, twice if it was not. */
  lemma ExhaustionCostsAnyway(start: Option<LedgerRow>, env: seq<seq<Move>>, now: int)
    requires |env| == 9 && Undecided(start, env, now, 9)
    ensures Deletions(start, Flatten(env)) >= (if start.Some? then 2 else 1)
    ensures Insertions(start, Flatten(env)) >= (if start.Some? then 1 else 2)
  {
    var r, d := TraceOf(start, env, now);
    TraceCosts(r, d, now);
  }

  lemma TraceCosts(r: seq<Option<LedgerRow>>, d: seq<nat>, now: int)
    requires Trace(r, d, now)
    ensures d[9] >= (if r[0].Some? then 2 else 1)
    ensures d[9] + Present(r[9]) >= 2
  {
    EachPasses(r, d, now);
    InsertToSelect(r[2], r[3], r[4], r[5], r[6], d[2], d[3], d[4], d[5], d[6], now);
    InsertToSelect(r[5], r[6], r[7], r[8], r[9], d[5], d[6], d[7], d[8], d[9], now);
  }

  lemma EachPasses(r: seq<Option<LedgerRow>>, d: seq<nat>, now: int)
    requires Trace(r, d, now)
    ensures Linked(r[0], r[1], d[0], d[1]) && Linked(r[1], r[2], d[1], d[2]) && Linked(r[2], r[3], d[2], d[3])
    ensures Linked(r[3], r[4], d[3], d[4]) && Linked(r[4], r[5], d[4], d[5]) && Linked(r[5], r[6], d[5], d[6])
    ensures Linked(r[6], r[7], d[6], d[7]) && Linked(r[7], r[8], d[7], d[8]) && Linked(r[8], r[9], d[8], d[9])
    ensures !Decides(r[1], 0, now) && !Decides(r[2], 1, now) && !Decides(r[3], 2, now)
    ensures !Decides(r[4], 0, now) && !Decides(r[5], 1, now) && !Decides(r[6], 2, now)
    ensures !Decides(r[7], 0, now) && !Decides(r[8], 1, now) && !Decides(r[9], 2, now)
  {
    assert PassesBy(r, d, now, 0) && PassesBy(r, d, now, 1) && PassesBy(r, d, now, 2);
    assert PassesBy(r, d, now, 3) && PassesBy(r, d, now, 4) && PassesBy(r, d, now, 5);
    assert PassesBy(r, d, now, 6) && PassesBy(r, d, now, 7) && PassesBy(r, d, now, 8);
  }

  // ---- when all others began less than a day before ----

  /** The claims that others commit began less than a day before this one. */
  ghost predicate Young(moves: seq<Move>, now: int) {
    forall m :: m in moves && m.ClaimedBy? ==> m.at > now - TTL
  }

  lemma {:induction false} NoneOrLive(row: Option<LedgerRow>, moves: seq<Move>, now: int)
    requires Young(moves, now) && (row.None? || IsLive(row, now))
    ensures After(row, moves).None? || IsLive(After(row, moves), now)
  {
    if moves != [] {
      assert moves[|moves| - 1] in moves;
      NoneOrLive(row, moves[..|moves| - 1], now);
    }
  }

  lemma {:induction false} MoveInWhole(env: seq<seq<Move>>, i: nat)
    requires i < |env|
    ensures forall m :: m in env[i] ==> m in Flatten(env)
  {
    var last := |env| - 1;
    if i < last {
      MoveInWhole(env[..last], i);
      assert env[..last][i] == env[i];
    }
  }

  lemma NextNoneOrLive(start: Option<LedgerRow>, env: seq<seq<Move>>, now: int, k: nat)
    requires k < |env| && Young(Flatten(env), now)
    requires RowAt(start, env, k).None? || IsLive(RowAt(start, env, k), now)
    ensures RowAt(start, env, k + 1).None? || IsLive(RowAt(start, env, k + 1), now)
  {
    FlattenNext(env, k);
    MovesCompose(start, Flatten(env[..k]), env[k]);
    MoveInWhole(env, k);
    NoneOrLive(RowAt(start, env, k), env[k], now);
  }

  /** An attempt without a decision then ends with the row deleted. */
  lemma YoungAttempt(r0: Option<LedgerRow>, r1: Option<LedgerRow>, r2: Option<LedgerRow>, r3: Option<LedgerRow>,
                     d0: nat, d1: nat, d2: nat, d3: nat, now: int)
    requires Linked(r0, r1, d0, d1) && Linked(r1, r2, d1, d2) && Linked(r2, r3, d2, d3)
    requires !Decides(r1, 0, now) && !Decides(r2, 1, now) && !Decides(r3, 2, now)
    requires r1.None? || IsLive(r1, now) ==> r2.None? || IsLive(r2, now)
    requires r2.None? || IsLive(r2, now) ==> r3.None? || IsLive(r3, now)
    ensures r3 == None && d3 >= d0 + 1
  {
  }

  /** If the claims that others commit began less than a day before this one, the error needs three
      deletions and two insertions, three if there was no row at first. */
  lemma ExhaustionCost(start: Option<LedgerRow>, env: seq<seq<Move>>, now: int)
    requires |env| == 9 && Young(Flatten(env), now) && Undecided(start, env, now, 9)
    ensures Deletions(start, Flatten(env)) >= 3
    ensures Insertions(start, Flatten(env)) >= (if start.Some? then 2 else 3)
  {
    var r, d := TraceOf(start, env, now);
    forall k | 0 <= k < 9 && (r[k].None? || IsLive(r[k], now))
      ensures r[k + 1].None? || IsLive(r[k + 1], now)
    {
      NextNoneOrLive(start, env, now, k);
    }
    YoungTrace(r, d, now);
  }

  lemma YoungTrace(r: seq<Option<LedgerRow>>, d: seq<nat>, now: int)
    requires Trace(r, d, now)
    requires forall k :: 0 <= k < 9 && (r[k].None? || IsLive(r[k], now)) ==> r[k + 1].None? || IsLive(r[k + 1], now)
    ensures r[9] == None && d[9] >= 3
  {
    EachPasses(r, d, now);
    YoungAttempt(r[0], r[1], r[2], r[3], d[0], d[1], d[2], d[3], now);
    YoungAttempt(r[3], r[4], r[5], r[6], d[3], d[4], d[5], d[6], now);
    YoungAttempt(r[6], r[7], r[8], r[9], d[6], d[7], d[8], d[9], now);
  }

  // ---- these costs are enough ----

  /** What others do when each statement is preceded by at most one move. */
  function EnvOf(moves: seq<Option<Move>>): (env: seq<seq<Move>>)
    ensures |env| == |moves|
  {
    seq(|moves|, k requires 0 <= k < |moves| => if moves[k].Some? then [moves[k].value] else [])
  }

  function Do(row: Option<LedgerRow>, m: Option<Move>): Option<LedgerRow> {
    if m.Some? then Apply(row, m.value) else row
  }

  /** Nothing is decided before the i-th statement, and this is how things stand. */
  ghost predicate Stands(start: Option<LedgerRow>, moves: seq<Option<Move>>, now: int, i: nat,
                         row: Option<LedgerRow>, deletions: nat, insertions: nat)
    requires i <= |moves|
  {
    var env := EnvOf(moves);
    && Undecided(start, env, now, i)
    && RowAt(start, env, i) == row && DeletedBy(start, env, i) == deletions && InsertedBy(start, env, i) == insertions
  }

  lemma Next(start: Option<LedgerRow>, moves: seq<Option<Move>>, now: int, i: nat, row: Option<LedgerRow>,
             deletions: nat, insertions: nat, next: Option<LedgerRow>, deleted: nat, inserted: nat)
    requires i < |moves| && Stands(start, moves, now, i, row, deletions, insertions)
    requires next == Do(row, moves[i]) && !Decides(next, i, now)
    requires deleted == deletions + (if row.Some? && next.None? then 1 else 0)
    requires inserted == insertions + (if row.None? && next.Some? then 1 else 0)
    ensures Stands(start, moves, now, i + 1, next, deleted, inserted)
  {
    var env := EnvOf(moves);
    FlattenNext(env, i);
    NextHeld(start, env, now, i);
    if moves[i].Some? {
      LastMove(start, Flatten(env[..i]), moves[i].value);
    } else {
      assert Flatten(env[..i]) + [] == Flatten(env[..i]);
    }
  }

  lemma LastMove(start: Option<LedgerRow>, past: seq<Move>, m: Move)
    ensures var row, next := After(start, past), After(start, past + [m]);
            && next == Apply(row, m)
            && Deletions(start, past + [m]) == Deletions(start, past) + (if row.Some? && next.None? then 1 else 0)
            && Insertions(start, past + [m]) == Insertions(start, past) + (if row.None? && next.Some? then 1 else 0)
  {
    assert (past + [m])[..|past|] == past;
  }

  lemma Started(start: Option<LedgerRow>, moves: seq<Option<Move>>, now: int)
    ensures Stands(start, moves, now, 0, start, 0, 0)
  {
    assert EnvOf(moves)[..0] == [];
  }

  lemma Exhausted(start: Option<LedgerRow>, moves: seq<Option<Move>>, now: int, row: Option<LedgerRow>,
                  deletions: nat, insertions: nat)
    requires |moves| == 9 && Stands(start, moves, now, 9, row, deletions, insertions)
    ensures var env := EnvOf(moves);
            Undecided(start, env, now, 9) && Deletions(start, Flatten(env)) == deletions
            && Insertions(start, Flatten(env)) == insertions
  {
    assert EnvOf(moves)[..9] == EnvOf(moves);
  }

  /** The row that a claim writes. */
  function Written(m: Move): Option<LedgerRow>
    requires m.ClaimedBy?
  {
    Some(LedgerRow(m.fingerprint, Some(m.userId), m.at, m.at + TTL))
  }

  predicate IsYoung(m: Move, now: int) { m.ClaimedBy? && m.at > now - TTL }

  predicate IsOld(m: Move, now: int) { m.ClaimedBy? && m.at <= now - TTL }

  /** The moves before each of the nine statements. */
  predicate Are(moves: seq<Option<Move>>, m0: Option<Move>, m1: Option<Move>, m2: Option<Move>, m3: Option<Move>,
                m4: Option<Move>, m5: Option<Move>, m6: Option<Move>, m7: Option<Move>, m8: Option<Move>)
  {
    && |moves| == 9 && moves[0] == m0 && moves[1] == m1 && moves[2] == m2 && moves[3] == m3 && moves[4] == m4
    && moves[5] == m5 && moves[6] == m6 && moves[7] == m7 && moves[8] == m8
  }

  /** A live row whose user is deleted before each SELECT, while young claims insert it again before the
      next UPDATE: three deletions and two insertions. */
  lemma {:induction false} ExhaustionNeedsNoMore(row: LedgerRow, id: Id, a: Move, b: Move, moves: seq<Option<Move>>,
                                                 now: int)
    requires row.expiresAt > now && row.userId == Some(id) && IsYoung(a, now) && IsYoung(b, now)
    requires Are(moves, None, None, Some(Cascaded(id)), Some(a), None, Some(Cascaded(a.userId)),
                 Some(b), None, Some(Cascaded(b.userId)))
    ensures var env := EnvOf(moves);
            && Undecided(Some(row), env, now, 9) && Young(Flatten(env), now)
            && Deletions(Some(row), Flatten(env)) == 3 && Insertions(Some(row), Flatten(env)) == 2
  {
    YoungSingles(moves, now);
    ThreeDeletionsExhaust(row, id, a, b, moves, now);
  }

  lemma {:induction false} ThreeDeletionsExhaust(row: LedgerRow, id: Id, a: Move, b: Move, moves: seq<Option<Move>>,
                                                 now: int)
    requires row.expiresAt > now && row.userId == Some(id) && IsYoung(a, now) && IsYoung(b, now)
    requires Are(moves, None, None, Some(Cascaded(id)), Some(a), None, Some(Cascaded(a.userId)),
                 Some(b), None, Some(Cascaded(b.userId)))
    ensures var env := EnvOf(moves);
            && Undecided(Some(row), env, now, 9)
            && Deletions(Some(row), Flatten(env)) == 3 && Insertions(Some(row), Flatten(env)) == 2
  {
    var start, wb := Some(row), Written(b);
    TwoDeletions(row, id, a, moves, now);
    Next(start, moves, now, 6, None, 2, 1, wb, 2, 2);
    Next(start, moves, now, 7, wb, 2, 2, wb, 2, 2);
    Next(start, moves, now, 8, wb, 2, 2, None, 3, 2);
    Exhausted(start, moves, now, None, 3, 2);
  }

  lemma {:induction false} TwoDeletions(row: LedgerRow, id: Id, a: Move, moves: seq<Option<Move>>, now: int)
    requires row.expiresAt > now && row.userId == Some(id) && IsYoung(a, now) && |moves| == 9
    requires moves[0] == None && moves[1] == None && moves[2] == Some(Cascaded(id))
    requires moves[3] == Some(a) && moves[4] == None && moves[5] == Some(Cascaded(a.userId))
    ensures Stands(Some(row), moves, now, 6, None, 2, 1)
  {
    var start, wa := Some(row), Written(a);
    Started(start, moves, now);
    Next(start, moves, now, 0, start, 0, 0, start, 0, 0);
    Next(start, moves, now, 1, start, 0, 0, start, 0, 0);
    Next(start, moves, now, 2, start, 0, 0, None, 1, 0);
    Next(start, moves, now, 3, None, 1, 0, wa, 1, 1);
    Next(start, moves, now, 4, wa, 1, 1, wa, 1, 1);
    Next(start, moves, now, 5, wa, 1, 1, None, 2, 1);
  }

  lemma YoungSingles(moves: seq<Option<Move>>, now: int)
    requires forall k :: 0 <= k < |moves| && moves[k].Some? && moves[k].value.ClaimedBy? ==>
               IsYoung(moves[k].value, now)
    ensures Young(Flatten(EnvOf(moves)), now)
  {
    YoungParts(EnvOf(moves), now);
  }

  lemma {:induction false} YoungParts(env: seq<seq<Move>>, now: int)
    requires forall k :: 0 <= k < |env| ==> Young(env[k], now)
    ensures Young(Flatten(env), now)
  {
    if env != [] {
      YoungParts(env[..|env| - 1], now);
    }
  }

  /** With old claims less is enough. No row at first: an old claim inserts one that has expired, a young
      one takes it over, its user is deleted, and an old claim inserts again: one deletion and two
      insertions. */
  lemma {:induction false} OldClaimsExhaust(a: Move, b: Move, c: Move, moves: seq<Option<Move>>, now: int)
    requires IsOld(a, now) && IsYoung(b, now) && IsOld(c, now) && b.at >= a.at + TTL
    requires Are(moves, None, Some(a), None, Some(b), None, Some(Cascaded(b.userId)), None, Some(c), None)
    ensures var env := EnvOf(moves);
            && Undecided(None, env, now, 9)
            && Deletions(None, Flatten(env)) == 1 && Insertions(None, Flatten(env)) == 2
  {
    var wa, wb, wc := Written(a), Written(b), Written(c);
    Started(None, moves, now);
    Next(None, moves, now, 0, None, 0, 0, None, 0, 0);
    Next(None, moves, now, 1, None, 0, 0, wa, 0, 1);
    Next(None, moves, now, 2, wa, 0, 1, wa, 0, 1);
    Next(None, moves, now, 3, wa, 0, 1, wb, 0, 1);
    Next(None, moves, now, 4, wb, 0, 1, wb, 0, 1);
    Next(None, moves, now, 5, wb, 0, 1, None, 1, 1);
    Next(None, moves, now, 6, None, 1, 1, None, 1, 1);
    Next(None, moves, now, 7, None, 1, 1, wc, 1, 2);
    Next(None, moves, now, 8, wc, 1, 2, wc, 1, 2);
    Exhausted(None, moves, now, wc, 1, 2);
  }

  /** A live row at first: two deletions and one insertion. */
  lemma {:induction false} OldClaimsExhaustLive(row: LedgerRow, id: Id, a: Move, b: Move, moves: seq<Option<Move>>,
                                                now: int)
    requires row.expiresAt > now && row.userId == Some(id)
    requires IsOld(a, now) && IsYoung(b, now) && b.at >= a.at + TTL
    requires Are(moves, None, None, Some(Cascaded(id)), None, Some(a), None, Some(b), None, Some(Cascaded(b.userId)))
    ensures var env := EnvOf(moves);
            && Undecided(Some(row), env, now, 9)
            && Deletions(Some(row), Flatten(env)) == 2 && Insertions(Some(row), Flatten(env)) == 1
  {
    var start, wa, wb := Some(row), Written(a), Written(b);
    Started(start, moves, now);
    Next(start, moves, now, 0, start, 0, 0, start, 0, 0);
    Next(start, moves, now, 1, start, 0, 0, start, 0, 0);
    Next(start, moves, now, 2, start, 0, 0, None, 1, 0);
    Next(start, moves, now, 3, None, 1, 0, None, 1, 0);
    Next(start, moves, now, 4, None, 1, 0, wa, 1, 1);
    Next(start, moves, now, 5, wa, 1, 1, wa, 1, 1);
    Next(start, moves, now, 6, wa, 1, 1, wb, 1, 1);
    Next(start, moves, now, 7, wb, 1, 1, wb, 1, 1);
    Next(start, moves, now, 8, wb, 1, 1, None, 2, 1);
    Exhausted(start, moves, now, None, 2, 1);
  }
}
