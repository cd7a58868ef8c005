/** The claim loop at statement granularity, with other transactions acting on the ledger row
    between its statements (drizzle-user-creation-idempotency.repository.ts). */
module LedgerClaim {
  import opened JsText
  import opened Users

  /** What another transaction does to the row of one (tenant, key) when it commits, at its own now():
      a claim, completed with its user, inserts the row or takes over an expired one; a sweep deletes an
      expired row; deleting a user takes the row that points to it along. A transaction may commit long
      after its now(), so `at` may be any time. */
  datatype Move = ClaimedBy(fingerprint: Digest, userId: Id, at: int) | SweptBy(at: int) | Cascaded(userId: Id)

  predicate Writes(row: Option<LedgerRow>, m: Move) {
    m.ClaimedBy? && (row.Some? ==> row.value.expiresAt <= m.at)
  }

  predicate Deletes(row: Option<LedgerRow>, m: Move) {
    && row.Some?
    && ((m.SweptBy? && row.value.expiresAt <= m.at) || (m.Cascaded? && row.value.userId == Some(m.userId)))
  }

  function Apply(row: Option<LedgerRow>, m: Move): Option<LedgerRow> {
    if Writes(row, m) then Some(LedgerRow(m.fingerprint, Some(m.userId), m.at, m.at + TTL))
    else if Deletes(row, m) then None
    else row
  }

  function After(row: Option<LedgerRow>, moves: seq<Move>): Option<LedgerRow> {
    if moves == [] then row else Apply(After(row, moves[..|moves| - 1]), moves[|moves| - 1])
  }

  function Flatten(env: seq<seq<Move>>): seq<Move> {
    if env == [] then [] else Flatten(env[..|env| - 1]) + env[|env| - 1]
  }

  lemma {:induction false} MovesCompose(row: Option<LedgerRow>, a: seq<Move>, b: seq<Move>)
    ensures After(row, a + b) == After(After(row, a), b)
  {
    if b == [] {
      assert a + b == a;
    } else {
      var front := b[..|b| - 1];
      assert (a + b)[..|a + b| - 1] == a + front;
      MovesCompose(row, a, front);
    }
  }

  datatype ClaimOutcome = Answered(claim: Claim) | StateInconsistent

  /** The claim of Users.ClaimRow, on the row alone. */
  function AtomicClaim(row: Option<LedgerRow>, fingerprint: Digest, now: int): (Option<LedgerRow>, Claim) {
    if row.Some? && row.value.expiresAt > now then (row, Existing(row.value.fingerprint, row.value.userId))
    else (Some(LedgerRow(fingerprint, None, now, now + TTL)), Claimed)
  }

  lemma AtomicClaimIsClaimRow(db: Db, k: LedgerKey, fingerprint: Digest, now: int)
    ensures var row := if k in db.ledger then Some(db.ledger[k]) else None;
            var (next, claim) := ClaimRow(db, k, fingerprint, now);
            && claim == AtomicClaim(row, fingerprint, now).1
            && k in next.ledger && Some(next.ledger[k]) == AtomicClaim(row, fingerprint, now).0
            && (forall j :: j != k ==>
                  (j in next.ledger <==> j in db.ledger) && (j in db.ledger ==> next.ledger[j] == db.ledger[j]))
            && next.users == db.users
  {
  }

  /** The row as the i-th statement meets it, while no statement before it has written. */
  function HeldAt(start: Option<LedgerRow>, env: seq<seq<Move>>, i: nat): Option<LedgerRow>
    requires i < |env|
  {
    After(start, Flatten(env[..i + 1]))
  }

  /** The i-th statement ends the loop: an UPDATE that meets an expired row, an INSERT that meets
      none, a SELECT that meets a live one. */
  predicate Decides(held: Option<LedgerRow>, i: nat, now: int) {
    if i % 3 == 0 then held.Some? && held.value.expiresAt <= now
    else if i % 3 == 1 then held.None?
    else held.Some? && held.value.expiresAt > now
  }

  ghost predicate Undecided(start: Option<LedgerRow>, env: seq<seq<Move>>, now: int, n: nat)
    requires n <= |env|
  {
    forall i :: 0 <= i < n ==> !Decides(HeldAt(start, env, i), i, now)
  }

  ghost predicate DecidedAt(start: Option<LedgerRow>, env: seq<seq<Move>>, now: int, i: nat)
    requires i < |env|
  {
    Undecided(start, env, now, i) && Decides(HeldAt(start, env, i), i, now)
  }

  /** The i-th statement comes up, and others have left the row so. */
  ghost predicate Reaches(start: Option<LedgerRow>, env: seq<seq<Move>>, now: int, i: nat, row: Option<LedgerRow>)
    requires i <= |env|
  {
    Undecided(start, env, now, i) && row == After(start, Flatten(env[..i]))
  }

  /** The i-th statement is the first that decides, and this is the row it meets. */
  ghost predicate Meets(start: Option<LedgerRow>, env: seq<seq<Move>>, now: int, i: nat, held: Option<LedgerRow>) {
    i < |env| && DecidedAt(start, env, now, i) && held == HeldAt(start, env, i)
  }

  class ClaimRepository {
    /** The row of the claimed key. */
    var row: Option<LedgerRow>

    constructor (row: Option<LedgerRow>)
      ensures this.row == row
    {
      this.row := row;
    }

    /** A statement found its answer at `at`, and has done what the atomic claim does there. */
    ghost predicate Answers(start: Option<LedgerRow>, env: seq<seq<Move>>, now: int, at: nat, fingerprint: Digest,
                            claim: Claim)
      reads this
    {
      exists held :: Meets(start, env, now, at, held) && (row, claim) == AtomicClaim(held, fingerprint, now)
    }

    /** UPDATE, after what others do: takes over an expired row. */
    method ReclaimRow(fingerprint: Digest, now: int, env: seq<seq<Move>>, i: nat, ghost start: Option<LedgerRow>)
      returns (r: Option<Claim>)
      requires i % 3 == 0 && i < |env| && Reaches(start, env, now, i, row)
      modifies this
      ensures if r.Some? then Answers(start, env, now, i, fingerprint, r.value)
              else Reaches(start, env, now, i + 1, row)
    {
      NextRow(start, env, now, i, row);
      row := After(row, env[i]);
      r := None;
      if row.Some? && row.value.expiresAt <= now {
        row, r := Some(LedgerRow(fingerprint, None, now, now + TTL)), Some(Claimed);
      }
    }

    /** INSERT, after what others do: nothing on a row that is there. */
    method InsertRow(fingerprint: Digest, now: int, env: seq<seq<Move>>, i: nat, ghost start: Option<LedgerRow>)
      returns (r: Option<Claim>)
      requires i % 3 == 1 && i < |env| && Reaches(start, env, now, i, row)
      modifies this
      ensures if r.Some? then Answers(start, env, now, i, fingerprint, r.value)
              else Reaches(start, env, now, i + 1, row)
    {
      NextRow(start, env, now, i, row);
      row := After(row, env[i]);
      r := None;
      if row.None? {
        row, r := Some(LedgerRow(fingerprint, None, now, now + TTL)), Some(Claimed);
      }
    }

    /** SELECT, after what others do: reports a live row. */
    method SelectRow(fingerprint: Digest, now: int, env: seq<seq<Move>>, i: nat, ghost start: Option<LedgerRow>)
      returns (r: Option<Claim>)
      requires i % 3 == 2 && i < |env| && Reaches(start, env, now, i, row)
      modifies this
      ensures if r.Some? then Answers(start, env, now, i, fingerprint, r.value)
              else Reaches(start, env, now, i + 1, row)
    {
      NextRow(start, env, now, i, row);
      row := After(row, env[i]);
      r := None;
      if row.Some? && row.value.expiresAt > now {
        r := Some(Existing(row.value.fingerprint, row.value.userId));
      }
    }

    /** One round of UPDATE, INSERT and SELECT; None to start over. A row that a statement wrote
        stays locked until commit. */
    method Round(fingerprint: Digest, now: int, env: seq<seq<Move>>, i: nat, ghost start: Option<LedgerRow>)
      returns (r: Option<Claim>, ghost at: nat)
      requires i % 3 == 0 && i + 3 <= |env| && Reaches(start, env, now, i, row)
      modifies this
      ensures r.Some? ==> Answers(start, env, now, at, fingerprint, r.value)
      ensures r.None? ==> Reaches(start, env, now, i + 3, row)
    {
      at := i;
      r := ReclaimRow(fingerprint, now, env, i, start);
      if r.None? {
        at := i + 1;
        r := InsertRow(fingerprint, now, env, i + 1, start);
      }
      if r.None? {
        at := i + 2;
        r := SelectRow(fingerprint, now, env, i + 2, start);
      }
    }

    /** claim: at most three rounds; env[i] is what others do right before the i-th statement. It
        acts and answers as the atomic claim does on the row that the first deciding statement
        meets, and throws only if none of the nine decides. */
    method ClaimLoop(fingerprint: Digest, now: int, env: seq<seq<Move>>) returns (r: ClaimOutcome, ghost at: nat)
      requires |env| == 9
      modifies this
      ensures r.Answered? ==>
        && at < 9 && DecidedAt(old(row), env, now, at)
        && (row, r.claim) == AtomicClaim(HeldAt(old(row), env, at), fingerprint, now)
      ensures r.StateInconsistent? ==> Undecided(old(row), env, now, 9) && row == HeldAt(old(row), env, 8)
    {
      ghost var start := row;
      for attempt := 0 to 3
        invariant Reaches(start, env, now, 3 * attempt, row)
      {
        var claim;
        claim, at := Round(fingerprint, now, env, 3 * attempt, start);
        if claim.Some? {
          return Answered(claim.value), at;
        }
      }
      return StateInconsistent, 9;
    }
  }

  lemma NextRow(start: Option<LedgerRow>, env: seq<seq<Move>>, now: int, i: nat, row: Option<LedgerRow>)
    requires i < |env| && Reaches(start, env, now, i, row)
    ensures if Decides(After(row, env[i]), i, now) then Meets(start, env, now, i, After(row, env[i]))
            else Reaches(start, env, now, i + 1, After(row, env[i]))
  {
    NextHeld(start, env, now, i);
  }

  lemma NextHeld(start: Option<LedgerRow>, env: seq<seq<Move>>, now: int, i: nat)
    requires i < |env|
    ensures HeldAt(start, env, i) == After(After(start, Flatten(env[..i])), env[i])
    ensures Undecided(start, env, now, i) ==>
              if Decides(HeldAt(start, env, i), i, now) then DecidedAt(start, env, now, i)
              else Undecided(start, env, now, i + 1)
  {
    FlattenNext(env, i);
    MovesCompose(start, Flatten(env[..i]), env[i]);
  }

  /** Without interference in the first round, that round decides on the row as it was. */
  lemma QuietRoundDecides(start: Option<LedgerRow>, env: seq<seq<Move>>, now: int)
    requires |env| == 9 && env[0] == [] && env[1] == [] && env[2] == []
    ensures exists i: nat :: i < 3 && DecidedAt(start, env, now, i) && HeldAt(start, env, i) == start
  {
    assert env[..0] == [];
    FlattenNext(env, 0);
    FlattenNext(env, 1);
    FlattenNext(env, 2);
    assert HeldAt(start, env, 0) == start && HeldAt(start, env, 1) == start && HeldAt(start, env, 2) == start;
    assert DecidedAt(start, env, now, if start.None? then 1 else if start.value.expiresAt <= now then 0 else 2);
  }

  lemma FlattenNext(env: seq<seq<Move>>, i: nat)
    requires i < |env|
    ensures Flatten(env[..i + 1]) == Flatten(env[..i]) + env[i]
  {
    assert env[..i + 1][..i] == env[..i];
  }
}
