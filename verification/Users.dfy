/** Tenant users and the user-creation idempotency ledger: the two tables, the repository
    statements, and the create-user transaction. A transaction is one step that commits its last
    state or restores its first. */
module Users {
  import opened JsText
  import opened EntityTag

  type Id = nat
  type Tenant = string

  /** A collision-free digest of a text. */
  datatype Digest = Sha256(text: string)

  datatype User = User(id: Id, tenant: Tenant, email: string, name: string, version: nat, createdAt: int)

  datatype LedgerKey = LedgerKey(tenant: Tenant, keyHash: Digest)

  datatype LedgerRow = LedgerRow(fingerprint: Digest, userId: Option<Id>, claimedAt: int, expiresAt: int)

  datatype Db = Db(users: map<Id, User>, ledger: map<LedgerKey, LedgerRow>)

  /** 86400 seconds, in the microseconds of the database clock. */
  const TTL: int := 86_400_000_000

  // ---- the invariant of every committed state ----

  ghost predicate UsersOk(db: Db) {
    && (forall id :: id in db.users ==> db.users[id].id == id && db.users[id].version >= 1)
    && (forall i, j :: i in db.users && j in db.users && i != j ==>
          db.users[i].tenant != db.users[j].tenant || db.users[i].email != db.users[j].email)
  }

  /** Every ledger row is complete and points to a live user of its own tenant. */
  ghost predicate LedgerOk(db: Db) {
    forall k :: k in db.ledger ==> Complete(db, k, db.ledger[k])
  }

  predicate Complete(db: Db, k: LedgerKey, row: LedgerRow) {
    row.userId.Some? && row.userId.value in db.users && db.users[row.userId.value].tenant == k.tenant
  }

  ghost predicate Inv(db: Db) {
    UsersOk(db) && LedgerOk(db)
  }

  // ---- the user repository ----

  function FindById(db: Db, tenant: Tenant, id: Id): Option<User> {
    if id in db.users && db.users[id].tenant == tenant then Some(db.users[id]) else None
  }

  /** findByEmail finds a row. */
  predicate EmailTaken(db: Db, tenant: Tenant, email: string) {
    exists id :: id in db.users && db.users[id].tenant == tenant && db.users[id].email == email
  }

  /** The id and the creation time are column defaults; the time column has millisecond precision. */
  function NewUser(tenant: Tenant, email: string, name: string, now: int, id: Id): User {
    User(id, tenant, email, name, 1, (now + 500) / 1_000)
  }

  datatype Fields = Fields(email: Option<string>, name: Option<string>)

  function Assigned(u: User, fields: Fields): User {
    u.(email := if fields.email.Some? then fields.email.value else u.email,
       name := if fields.name.Some? then fields.name.value else u.name,
       version := u.version + 1)
  }

  predicate Allows(precondition: VersionPrecondition, version: nat) {
    match precondition
    case AnyCurrent => true
    case Versions(versions) => version in versions
  }

  datatype WriteResult = Written(user: User) | NotFound | PreconditionFailed | EmailConflict

  /** The email of an update collides with another row of the tenant. */
  predicate Collides(db: Db, u: User) {
    exists j :: j in db.users && j != u.id && db.users[j].tenant == u.tenant && db.users[j].email == u.email
  }

  function Update(db: Db, tenant: Tenant, id: Id, fields: Fields, precondition: VersionPrecondition)
    : (Db, WriteResult)
  {
    match FindById(db, tenant, id)
    case None => (db, NotFound)
    case Some(u) =>
      if !Allows(precondition, u.version) then (db, PreconditionFailed)
      else if Collides(db, Assigned(u, fields)) then (db, EmailConflict)
      else (db.(users := db.users[id := Assigned(u, fields)]), Written(Assigned(u, fields)))
  }

  /** ON DELETE CASCADE: the ledger rows that point to the user go with it. */
  function Cascade(ledger: map<LedgerKey, LedgerRow>, id: Id): map<LedgerKey, LedgerRow> {
    map k | k in ledger && ledger[k].userId != Some(id) :: ledger[k]
  }

  function Delete(db: Db, tenant: Tenant, id: Id, precondition: VersionPrecondition): (Db, WriteResult) {
    match FindById(db, tenant, id)
    case None => (db, NotFound)
    case Some(u) =>
      if !Allows(precondition, u.version) then (db, PreconditionFailed)
      else (Db(db.users - {id}, Cascade(db.ledger, id)), Written(u))
  }

  // ---- the ledger, at transaction granularity ----

  datatype Claim = Claimed | Existing(fingerprint: Digest, userId: Option<Id>)

  predicate Live(db: Db, k: LedgerKey, now: int) {
    k in db.ledger && db.ledger[k].expiresAt > now
  }

  /** claim without interference: an absent or expired row is taken over, a live one is reported.
      LedgerClaim proves this of the three-statement loop. */
  function ClaimRow(db: Db, k: LedgerKey, fingerprint: Digest, now: int): (Db, Claim) {
    if Live(db, k, now) then (db, Existing(db.ledger[k].fingerprint, db.ledger[k].userId))
    else (db.(ledger := db.ledger[k := LedgerRow(fingerprint, None, now, now + TTL)]), Claimed)
  }

  /** complete; None stands for its thrown error. */
  function CompleteRow(db: Db, k: LedgerKey, fingerprint: Digest, id: Id): Option<Db> {
    if k in db.ledger && db.ledger[k].fingerprint == fingerprint && db.ledger[k].userId == None
    then Some(db.(ledger := db.ledger[k := db.ledger[k].(userId := Some(id))]))
    else None
  }

  // ---- creating a user ----

  datatype CreateResult = Created(user: User) | Replayed(user: User) | EmailExists | KeyReused | Inconsistent

  function FingerprintText(email: string, name: string): string {
    "users:create:v1\n" + email + "\n" + name
  }

  function Fingerprint(email: string, name: string): Digest {
    Sha256(FingerprintText(email, name))
  }

  function Create(db: Db, tenant: Tenant, email: string, name: string, now: int, id: Id): (Db, CreateResult) {
    if EmailTaken(db, tenant, email) then (db, EmailExists)
    else
      var user := NewUser(tenant, email, name, now, id);
      (db.(users := db.users[id := user]), Created(user))
  }

  /** createIdempotently: a failure restores the state before the claim. */
  function CreateIdempotently(db: Db, tenant: Tenant, key: string, email: string, name: string, now: int, id: Id)
    : (Db, CreateResult)
  {
    var k := LedgerKey(tenant, Sha256(key));
    var fingerprint := Fingerprint(email, name);
    var (claimed, claim) := ClaimRow(db, k, fingerprint, now);
    match claim
    case Existing(held, userId) =>
      if held != fingerprint then (db, KeyReused)
      else if userId.None? || FindById(db, tenant, userId.value).None? then (db, Inconsistent)
      else (db, Replayed(FindById(db, tenant, userId.value).value))
    case Claimed =>
      var (created, result) := Create(claimed, tenant, email, name, now, id);
      if !result.Created? then (db, result)
      else match CompleteRow(created, k, fingerprint, id)
        case None => (db, Inconsistent)
        case Some(completed) => (completed, result)
  }

  function SweepLedger(db: Db, picked: set<LedgerKey>): Db {
    db.(ledger := db.ledger - picked)
  }

  // ---- the fingerprint ----

  lemma {:induction false} FirstNewline(a1: string, b1: string, a2: string, b2: string)
    requires '\n' !in a1 && '\n' !in a2 && a1 + "\n" + b1 == a2 + "\n" + b2
    ensures a1 == a2 && b1 == b2
  {
    var s1, s2 := a1 + "\n" + b1, a2 + "\n" + b2;
    assert (a1 != "" ==> s1[0] in a1) && (a2 != "" ==> s2[0] in a2);
    assert (a1 == "" ==> s1[0] == '\n') && (a2 == "" ==> s2[0] == '\n');
    if a1 == "" || a2 == "" {
      assert s1[1..] == b1 && s2[1..] == b2;
    } else {
      assert s1[0] == a1[0] && s2[0] == a2[0];
      assert s1[1..] == a1[1..] + "\n" + b1 && s2[1..] == a2[1..] + "\n" + b2;
      FirstNewline(a1[1..], b1, a2[1..], b2);
      assert a1 == [a1[0]] + a1[1..] && a2 == [a2[0]] + a2[1..];
    }
  }

  /** Payloads whose emails hold no newline have equal fingerprints only when they are equal. */
  lemma FingerprintInjective(e1: string, n1: string, e2: string, n2: string)
    requires '\n' !in e1 && '\n' !in e2
    ensures Fingerprint(e1, n1) == Fingerprint(e2, n2) <==> e1 == e2 && n1 == n2
  {
    if Fingerprint(e1, n1) == Fingerprint(e2, n2) {
      var head := "users:create:v1\n";
      var t1, t2 := e1 + "\n" + n1, e2 + "\n" + n2;
      assert FingerprintText(e1, n1) == head + t1 && FingerprintText(e2, n2) == head + t2;
      assert (head + t1)[|head|..] == t1 && (head + t2)[|head|..] == t2;
      FirstNewline(e1, n1, e2, n2);
    }
  }

  /** The premise is needed: a newline may move from the email to the name unseen. */
  lemma FingerprintNeedsOneLine()
    ensures Fingerprint("a\nb", "c") == Fingerprint("a", "b\nc")
  {
    assert FingerprintText("a\nb", "c") == FingerprintText("a", "b\nc");
  }

  // ---- every operation keeps the invariant ----

  lemma CreateKeepsInv(db: Db, tenant: Tenant, email: string, name: string, now: int, id: Id)
    requires Inv(db) && id !in db.users
    ensures Inv(Create(db, tenant, email, name, now, id).0)
  {
  }

  /** Neither "Idempotency state is inconsistent" branch of the service is reachable, and the
      state after the transaction is consistent again. */
  lemma CreateIdempotentlyKeepsInv(db: Db, tenant: Tenant, key: string, email: string, name: string, now: int, id: Id)
    requires Inv(db) && id !in db.users
    ensures var (next, result) := CreateIdempotently(db, tenant, key, email, name, now, id);
            && Inv(next)
            && !result.Inconsistent?
            && (!result.Created? ==> next == db)
            && (result.Created? ==>
                  next == Db(db.users[id := result.user],
                             db.ledger[LedgerKey(tenant, Sha256(key)) :=
                                         LedgerRow(Fingerprint(email, name), Some(id), now, now + TTL)]))
  {
    var k := LedgerKey(tenant, Sha256(key));
    if k in db.ledger {
      assert Complete(db, k, db.ledger[k]);
    }
    if !Live(db, k, now) && !EmailTaken(db, tenant, email) {
      var row := LedgerRow(Fingerprint(email, name), Some(id), now, now + TTL);
      CreateKeepsInv(db, tenant, email, name, now, id);
      LinkKeepsInv(db, k, NewUser(tenant, email, name, now, id), row);
      assert db.ledger[k := row.(userId := None)][k := row] == db.ledger[k := row];
    }
  }

  /** A new user together with the ledger row that points to it. */
  lemma LinkKeepsInv(db: Db, k: LedgerKey, user: User, row: LedgerRow)
    requires Inv(db) && user.id !in db.users && UsersOk(db.(users := db.users[user.id := user]))
    requires user.tenant == k.tenant && row.userId == Some(user.id)
    ensures Inv(Db(db.users[user.id := user], db.ledger[k := row]))
  {
    var next := Db(db.users[user.id := user], db.ledger[k := row]);
    forall j | j in next.ledger
      ensures Complete(next, j, next.ledger[j])
    {
      if j != k {
        assert Complete(db, j, db.ledger[j]);
      }
    }
  }

  lemma UpdateKeepsInv(db: Db, tenant: Tenant, id: Id, fields: Fields, precondition: VersionPrecondition)
    requires Inv(db)
    ensures Inv(Update(db, tenant, id, fields, precondition).0)
  {
    var next := Update(db, tenant, id, fields, precondition).0;
    forall k | k in next.ledger
      ensures Complete(next, k, next.ledger[k])
    {
      assert Complete(db, k, db.ledger[k]);
    }
  }

  lemma DeleteKeepsInv(db: Db, tenant: Tenant, id: Id, precondition: VersionPrecondition)
    requires Inv(db)
    ensures Inv(Delete(db, tenant, id, precondition).0)
  {
    var next := Delete(db, tenant, id, precondition).0;
    forall k | k in next.ledger
      ensures Complete(next, k, next.ledger[k])
    {
      assert Complete(db, k, db.ledger[k]);
    }
  }

  lemma SweepKeepsInv(db: Db, picked: set<LedgerKey>)
    requires Inv(db)
    ensures Inv(SweepLedger(db, picked))
  {
    var next := SweepLedger(db, picked);
    forall k | k in next.ledger
      ensures Complete(next, k, next.ledger[k])
    {
      assert Complete(db, k, db.ledger[k]);
    }
  }

  // ---- what creating answers ----

  /** The user that a request made: its payload under the fresh id, in its tenant, at version 1,
      created at the transaction's now() to the nearest millisecond. */
  ghost predicate MadeFrom(u: User, tenant: Tenant, email: string, name: string, now: int, id: Id) {
    && u.id == id && u.tenant == tenant && u.email == email && u.name == name && u.version == 1
    && -500 <= u.createdAt * 1_000 - now <= 500
  }

  ghost predicate EmailUsed(db: Db, tenant: Tenant, email: string) {
    exists u :: u in db.users.Values && u.tenant == tenant && u.email == email
  }

  lemma EmailTakenIsUsed(db: Db, tenant: Tenant, email: string)
    ensures EmailTaken(db, tenant, email) <==> EmailUsed(db, tenant, email)
  {
    if EmailTaken(db, tenant, email) {
      var id :| id in db.users && db.users[id].tenant == tenant && db.users[id].email == email;
      assert db.users[id] in db.users.Values;
    }
  }

  /** A plain create fails if and only if the tenant has the email already, and then changes nothing;
      otherwise it stores and answers the user it was sent, and nothing else changes. */
  lemma CreateAnswers(db: Db, tenant: Tenant, email: string, name: string, now: int, id: Id)
    ensures var (next, r) := Create(db, tenant, email, name, now, id);
            && (r == EmailExists <==> EmailUsed(db, tenant, email))
            && (r.Created? <==> !EmailUsed(db, tenant, email))
            && (r.Created? ==> MadeFrom(r.user, tenant, email, name, now, id)
                               && next == Db(db.users[id := r.user], db.ledger))
            && (!r.Created? ==> next == db)
  {
    EmailTakenIsUsed(db, tenant, email);
  }

  /** An idempotent create looks at the ledger row of its tenant and key. If that has not expired, it
      answers the row's user when the payload's fingerprint is the row's, and fails when it is not; if
      there is no such row it creates as a plain create does. */
  lemma CreateOnceAnswers(db: Db, tenant: Tenant, key: string, email: string, name: string, now: int, id: Id)
    requires Inv(db) && id !in db.users
    ensures var (next, r) := CreateIdempotently(db, tenant, key, email, name, now, id);
            var k := LedgerKey(tenant, Sha256(key));
            var live := k in db.ledger && db.ledger[k].expiresAt > now;
            && (r == KeyReused <==>
                  live && db.ledger[k].fingerprint != Sha256("users:create:v1\n" + email + "\n" + name))
            && (r.Replayed? <==>
                  live && db.ledger[k].fingerprint == Sha256("users:create:v1\n" + email + "\n" + name))
            && (r.Replayed? ==> db.ledger[k].userId == Some(r.user.id) && r.user in db.users.Values)
            && (r == EmailExists <==> !live && EmailUsed(db, tenant, email))
            && (r.Created? <==> !live && !EmailUsed(db, tenant, email))
            && (r.Created? ==> MadeFrom(r.user, tenant, email, name, now, id))
  {
    CreateIdempotentlyKeepsInv(db, tenant, key, email, name, now, id);
    EmailTakenIsUsed(db, tenant, email);
    var k := LedgerKey(tenant, Sha256(key));
    if k in db.ledger {
      assert Complete(db, k, db.ledger[k]);
      assert db.users[db.ledger[k].userId.value] in db.users.Values;
    }
  }

  /** After a successful create under a key, the ledger holds the payload's fingerprint and the new
      user for 86400 seconds; after any other answer nothing has changed. */
  lemma CreateOnceStores(db: Db, tenant: Tenant, key: string, email: string, name: string, now: int, id: Id)
    requires Inv(db) && id !in db.users
    ensures var (next, r) := CreateIdempotently(db, tenant, key, email, name, now, id);
            var k := LedgerKey(tenant, Sha256(key));
            && (!r.Created? ==> next == db)
            && (r.Created? ==>
                  && next.users == db.users[id := r.user]
                  && next.ledger == db.ledger[k := LedgerRow(Sha256("users:create:v1\n" + email + "\n" + name),
                                                            Some(id), now, now + 86_400_000_000)])
  {
    CreateIdempotentlyKeepsInv(db, tenant, key, email, name, now, id);
  }

  /** A claimed row is completed once, and only under the fingerprint it was claimed with. */
  lemma CompletesOnce(db: Db, k: LedgerKey, fingerprint: Digest, other: Digest, now: int, id: Id, second: Id)
    requires ClaimRow(db, k, fingerprint, now).1 == Claimed
    ensures var claimed := ClaimRow(db, k, fingerprint, now).0;
            && (CompleteRow(claimed, k, other, id).Some? <==> other == fingerprint)
            && (other == fingerprint ==>
                  var done := CompleteRow(claimed, k, other, id).value;
                  && k in done.ledger && done.ledger[k].userId == Some(id)
                  && CompleteRow(done, k, other, second).None?)
  {
  }

  // ---- the store as an object ----

  class UserStore {
    var users: map<Id, User>
    var ledger: map<LedgerKey, LedgerRow>

    constructor ()
      ensures State() == Db(map[], map[]) && Inv(State())
    {
      users, ledger := map[], map[];
    }

    function State(): Db
      reads this
    {
      Db(users, ledger)
    }

    method ClaimKey(k: LedgerKey, fingerprint: Digest, now: int) returns (claim: Claim)
      modifies this`ledger
      ensures (State(), claim) == ClaimRow(old(State()), k, fingerprint, now)
    {
      if k in ledger && ledger[k].expiresAt > now {
        return Existing(ledger[k].fingerprint, ledger[k].userId);
      }
      ledger := ledger[k := LedgerRow(fingerprint, None, now, now + TTL)];
      return Claimed;
    }

    /** create of the repository; the unique constraint answers a duplicate email. */
    method InsertUser(tenant: Tenant, email: string, name: string, now: int, id: Id) returns (r: CreateResult)
      modifies this`users
      ensures (State(), r) == Create(old(State()), tenant, email, name, now, id)
    {
      if EmailTaken(State(), tenant, email) {
        return EmailExists;
      }
      var user := NewUser(tenant, email, name, now, id);
      users := users[id := user];
      return Created(user);
    }

    method CompleteKey(k: LedgerKey, fingerprint: Digest, id: Id) returns (ok: bool)
      modifies this`ledger
      ensures ok == CompleteRow(old(State()), k, fingerprint, id).Some?
      ensures State() == if ok then CompleteRow(old(State()), k, fingerprint, id).value else old(State())
    {
      ok := k in ledger && ledger[k].fingerprint == fingerprint && ledger[k].userId == None;
      if ok {
        ledger := ledger[k := ledger[k].(userId := Some(id))];
      }
    }

    /** The transaction of createIdempotently: ordered writes, undone together on failure. */
    method CreateOnce(tenant: Tenant, key: string, email: string, name: string, now: int, id: Id)
        returns (r: CreateResult)
      requires Inv(State()) && id !in users
      modifies this
      ensures (State(), r) == CreateIdempotently(old(State()), tenant, key, email, name, now, id)
      ensures Inv(State()) && !r.Inconsistent?
    {
      CreateIdempotentlyKeepsInv(State(), tenant, key, email, name, now, id);
      var savedUsers, savedLedger := users, ledger;
      var k := LedgerKey(tenant, Sha256(key));
      var fingerprint := Fingerprint(email, name);
      var claim := ClaimKey(k, fingerprint, now);
      if claim.Existing? {
        if claim.fingerprint != fingerprint {
          return KeyReused;
        }
        if claim.userId.None? {
          return Inconsistent;
        }
        var replay := FindById(State(), tenant, claim.userId.value);
        if replay.None? {
          return Inconsistent;
        }
        return Replayed(replay.value);
      }
      r := InsertUser(tenant, email, name, now, id);
      if r.Created? {
        var ok := CompleteKey(k, fingerprint, id);
        if !ok {
          r := Inconsistent;
        }
      }
      if !r.Created? {
        users, ledger := savedUsers, savedLedger;
      }
    }

    method UpdateUser(tenant: Tenant, id: Id, fields: Fields, precondition: VersionPrecondition)
        returns (r: WriteResult)
      requires Inv(State())
      modifies this`users
      ensures (State(), r) == Update(old(State()), tenant, id, fields, precondition)
      ensures Inv(State())
    {
      UpdateKeepsInv(State(), tenant, id, fields, precondition);
      if id !in users || users[id].tenant != tenant {
        return NotFound;
      }
      var u := users[id];
      if precondition.Versions? && u.version !in precondition.versions {
        return PreconditionFailed;
      }
      var next := u.(version := u.version + 1);
      if fields.email.Some? {
        next := next.(email := fields.email.value);
      }
      if fields.name.Some? {
        next := next.(name := fields.name.value);
      }
      if Collides(State(), next) {
        return EmailConflict;
      }
      users := users[id := next];
      return Written(next);
    }

    method DeleteById(tenant: Tenant, id: Id, precondition: VersionPrecondition) returns (r: WriteResult)
      requires Inv(State())
      modifies this
      ensures (State(), r) == Delete(old(State()), tenant, id, precondition)
      ensures Inv(State())
    {
      DeleteKeepsInv(State(), tenant, id, precondition);
      if id !in users || users[id].tenant != tenant {
        return NotFound;
      }
      var u := users[id];
      if precondition.Versions? && u.version !in precondition.versions {
        return PreconditionFailed;
      }
      users := users - {id};
      ledger := Cascade(ledger, id);
      return Written(u);
    }
  }
}
