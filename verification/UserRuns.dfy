/** Whole runs of user requests and ledger sweeps, one committed transaction after another. */
module UserRuns {
  import opened JsText
  import opened Digits
  import opened EntityTag
  import opened Users
  import opened UserPaging

  /** A request, with the readings it takes from outside: the transaction's now() and the fresh
      user id. A sweep names the expired ledger rows that its batch picked. */
  datatype Op =
    | CreatePlain(tenant: Tenant, email: string, name: string, now: int, id: Id)
    | CreateOnce(tenant: Tenant, key: string, email: string, name: string, now: int, id: Id)
    | Get(tenant: Tenant, id: Id)
    | Patch(tenant: Tenant, id: Id, fields: Fields, precondition: VersionPrecondition)
    | Remove(tenant: Tenant, id: Id, precondition: VersionPrecondition)
    | ListCursor(tenant: Tenant, after: Option<Cursor>, limit: nat)
    | ListOffset(tenant: Tenant, page: nat, perPage: nat)
    | Sweep(now: int, picked: set<LedgerKey>)

  datatype Response =
    | CreateAnswer(result: CreateResult)
    | Got(user: Option<User>)
    | Wrote(outcome: WriteResult)
    | CursorPage(page: Page)
    | NumberedPage(users: seq<User>, meta: ListMeta)
    | Swept

  /** The committed state, the database clock, and every user id handed out so far. */
  datatype World = World(db: Db, clock: int, issued: set<Id>)

  ghost predicate WInv(w: World) {
    Inv(w.db) && w.db.users.Keys <= w.issued
  }

  ghost function TenantRows(db: Db, tenant: Tenant): (rows: set<User>)
    requires UsersOk(db)
    ensures DistinctKeys(rows)
    ensures forall u :: u in rows <==> u in db.users.Values && u.tenant == tenant
  {
    set id | id in db.users && db.users[id].tenant == tenant :: db.users[id]
  }

  ghost predicate Legal(w: World, op: Op) {
    match op
    case CreatePlain(_, _, _, now, id) => w.clock <= now && id !in w.issued
    case CreateOnce(_, _, _, _, now, id) => w.clock <= now && id !in w.issued
    case Sweep(now, picked) =>
      w.clock <= now && forall k :: k in picked ==> k in w.db.ledger && w.db.ledger[k].expiresAt <= now
    case ListCursor(_, _, limit) => limit >= 1
    case ListOffset(_, page, perPage) => page >= 1 && perPage >= 1
    case _ => true
  }

  ghost function Step(w: World, op: Op): (r: (World, Response))
    requires WInv(w) && Legal(w, op)
    ensures WInv(r.0)
  {
    match op
    case CreatePlain(tenant, email, name, now, id) =>
      CreateKeepsInv(w.db, tenant, email, name, now, id);
      var (db, result) := Create(w.db, tenant, email, name, now, id);
      (World(db, now, w.issued + {id}), CreateAnswer(result))
    case CreateOnce(tenant, key, email, name, now, id) =>
      CreateIdempotentlyKeepsInv(w.db, tenant, key, email, name, now, id);
      var (db, result) := CreateIdempotently(w.db, tenant, key, email, name, now, id);
      (World(db, now, w.issued + {id}), CreateAnswer(result))
    case Get(tenant, id) => (w, Got(FindById(w.db, tenant, id)))
    case Patch(tenant, id, fields, precondition) =>
      UpdateKeepsInv(w.db, tenant, id, fields, precondition);
      var (db, result) := Update(w.db, tenant, id, fields, precondition);
      (w.(db := db), Wrote(result))
    case Remove(tenant, id, precondition) =>
      DeleteKeepsInv(w.db, tenant, id, precondition);
      var (db, result) := Delete(w.db, tenant, id, precondition);
      (w.(db := db), Wrote(result))
    case ListCursor(tenant, after, limit) =>
      (w, CursorPage(ListAfter(TenantRows(w.db, tenant), after, limit)))
    case ListOffset(tenant, page, perPage) =>
      var (users, meta) := ListUsers(TenantRows(w.db, tenant), page, perPage);
      (w, NumberedPage(users, meta))
    case Sweep(now, picked) =>
      SweepKeepsInv(w.db, picked);
      (World(SweepLedger(w.db, picked), now, w.issued), Swept)
  }

  ghost predicate LegalRun(w: World, ops: seq<Op>)
    requires WInv(w)
    decreases ops
  {
    ops == [] || (Legal(w, ops[0]) && LegalRun(Step(w, ops[0]).0, ops[1..]))
  }

  ghost function Run(w: World, ops: seq<Op>): (r: World)
    requires WInv(w) && LegalRun(w, ops)
    ensures WInv(r)
    decreases ops
  {
    if ops == [] then w else Run(Step(w, ops[0]).0, ops[1..])
  }

  function Empty(clock: int): World {
    World(Db(map[], map[]), clock, {})
  }

  /** In every state a run reaches, each ledger row is complete and points to a live user of its
      own tenant, emails are unique within a tenant, and no request meets an inconsistency. */
  lemma {:induction false} LedgerInvariant(w: World, ops: seq<Op>, next: Op)
    requires WInv(w) && LegalRun(w, ops) && Legal(Run(w, ops), next)
    ensures Inv(Run(w, ops).db)
    ensures Step(Run(w, ops), next).1 != CreateAnswer(Inconsistent)
  {
    var now := Run(w, ops);
    if next.CreateOnce? {
      CreateIdempotentlyKeepsInv(now.db, next.tenant, next.key, next.email, next.name, next.now, next.id);
    }
  }

  // ---- what time does to one user ----

  /** Between two states: ids are never reissued, a user keeps its tenant and creation time, its
      version only grows, and its content changes only together with its version. */
  ghost predicate Later(a: World, b: World) {
    && a.clock <= b.clock && a.issued <= b.issued
    && forall id :: id in a.issued && id in b.db.users ==>
         && id in a.db.users
         && SameRow(a.db.users[id], b.db.users[id])
  }

  predicate SameRow(u: User, v: User) {
    && u.tenant == v.tenant && u.createdAt == v.createdAt
    && u.version <= v.version
    && (u.version == v.version ==> u == v)
  }

  lemma StepIsLater(w: World, op: Op)
    requires WInv(w) && Legal(w, op)
    ensures Later(w, Step(w, op).0)
  {
    var next := Step(w, op).0;
    forall id | id in w.issued && id in next.db.users
      ensures id in w.db.users && SameRow(w.db.users[id], next.db.users[id])
    {
      StepKeepsUser(w, op, id);
    }
  }

  lemma StepKeepsUser(w: World, op: Op, id: Id)
    requires WInv(w) && Legal(w, op) && id in w.issued && id in Step(w, op).0.db.users
    ensures id in w.db.users && SameRow(w.db.users[id], Step(w, op).0.db.users[id])
  {
    if op.CreateOnce? {
      CreateIdempotentlyKeepsInv(w.db, op.tenant, op.key, op.email, op.name, op.now, op.id);
    }
  }

  lemma {:induction false} RunIsLater(w: World, ops: seq<Op>)
    requires WInv(w) && LegalRun(w, ops)
    ensures Later(w, Run(w, ops))
    decreases ops
  {
    if ops != [] {
      var mid := Step(w, ops[0]).0;
      StepIsLater(w, ops[0]);
      RunIsLater(mid, ops[1..]);
      var end := Run(w, ops);
      forall id | id in w.issued && id in end.db.users
        ensures id in w.db.users && SameRow(w.db.users[id], end.db.users[id])
      {
        assert id in mid.issued;
        assert id in mid.db.users && SameRow(mid.db.users[id], end.db.users[id]);
      }
    }
  }

  // ---- no lost update ----

  /** The answers of a conditional update are exact, and without a success nothing changes. */
  lemma UpdateAnswers(w: World, tenant: Tenant, id: Id, fields: Fields, precondition: VersionPrecondition)
    requires WInv(w)
    ensures var (next, response) := Step(w, Patch(tenant, id, fields, precondition));
            var held := FindById(w.db, tenant, id);
            && (response == Wrote(NotFound) <==> held == None)
            && (response == Wrote(PreconditionFailed) <==>
                  held.Some? && precondition.Versions? && held.value.version !in precondition.versions)
            && (response.outcome.Written? <==>
                  held.Some? && (precondition.Versions? ==> held.value.version in precondition.versions)
                  && (fields.email.Some? ==>
                        fields.email.value == held.value.email || !EmailTaken(w.db, tenant, fields.email.value)))
            && (!response.outcome.Written? ==> next == w)
            && (response.outcome.Written? ==>
                  var u := response.outcome.user;
                  && next.db.ledger == w.db.ledger
                  && next.db.users.Keys == w.db.users.Keys && next.db.users[id] == u
                  && (forall j :: j in w.db.users && j != id ==> next.db.users[j] == w.db.users[j])
                  && u.version == held.value.version + 1
                  && u.id == id && u.tenant == tenant && u.createdAt == held.value.createdAt
                  && u.email == fields.email.GetOr(held.value.email) && u.name == fields.name.GetOr(held.value.name))
  {
    var held := FindById(w.db, tenant, id);
    if held.Some? && fields.email.Some? && EmailTaken(w.db, tenant, fields.email.value) {
      var j :| j in w.db.users && w.db.users[j].tenant == tenant && w.db.users[j].email == fields.email.value;
      assert w.db.users[j].id == j;
    }
  }

  /** So are those of a conditional delete, which takes with it exactly the ledger rows that
      point to the user. */
  lemma DeleteAnswers(w: World, tenant: Tenant, id: Id, precondition: VersionPrecondition)
    requires WInv(w)
    ensures var (next, response) := Step(w, Remove(tenant, id, precondition));
            var held := FindById(w.db, tenant, id);
            && (response == Wrote(NotFound) <==> held == None)
            && (response == Wrote(PreconditionFailed) <==>
                  held.Some? && precondition.Versions? && held.value.version !in precondition.versions)
            && (response.outcome.Written? <==>
                  held.Some? && (precondition.Versions? ==> held.value.version in precondition.versions))
            && (!response.outcome.Written? ==> next == w)
            && (response.outcome.Written? ==>
                  && next.db.users.Keys == w.db.users.Keys - {id}
                  && (forall j :: j in next.db.users ==> next.db.users[j] == w.db.users[j])
                  && (forall k :: k in next.db.ledger <==> k in w.db.ledger && w.db.ledger[k].userId != Some(id))
                  && (forall k :: k in next.db.ledger ==> next.db.ledger[k] == w.db.ledger[k]))
  {
  }

  /** A read answers the stored user of the tenant with that id, if there is one, and a sweep removes
      the rows it picked; neither changes anything else. */
  lemma ReadAndSweepAnswers(w: World, tenant: Tenant, id: Id, now: int, picked: set<LedgerKey>)
    requires WInv(w) && Legal(w, Sweep(now, picked))
    ensures Step(w, Get(tenant, id)).0 == w
    ensures forall u :: Step(w, Get(tenant, id)).1 == Got(Some(u)) <==>
              u in w.db.users.Values && u.id == id && u.tenant == tenant
    ensures var next := Step(w, Sweep(now, picked)).0;
            && next.db.users == w.db.users && next.db.ledger.Keys == w.db.ledger.Keys - picked
            && forall k :: k in next.db.ledger ==> next.db.ledger[k] == w.db.ledger[k]
  {
  }

  /** A cursor list answers from the tenant's own rows as they are when the request commits: the first
      ones after the cursor, up to the limit. It changes nothing. */
  lemma CursorListAnswers(w: World, tenant: Tenant, after: Option<Cursor>, limit: nat)
    requires WInv(w) && limit >= 1
    ensures var rest := Candidates(TenantRows(w.db, tenant), after);
            var (next, response) := Step(w, ListCursor(tenant, after, limit));
            && next == w && response.CursorPage?
            && StandAt(rest, response.page.users, 0)
            && |response.page.users| == (if |rest| <= limit then |rest| else limit)
            && (response.page.hasMore <==> |rest| > limit)
  {
    CursorPageExact(TenantRows(w.db, tenant), after, limit);
  }

  /** An offset list likewise: the rows at the places of its page. */
  lemma OffsetListAnswers(w: World, tenant: Tenant, page: nat, perPage: nat)
    requires WInv(w) && page >= 1 && perPage >= 1
    ensures var rows := TenantRows(w.db, tenant);
            var offset: nat := (page - 1) * perPage;
            var (next, response) := Step(w, ListOffset(tenant, page, perPage));
            && next == w && response.NumberedPage?
            && StandAt(rows, response.users, offset)
            && |response.users| == (if |rows| <= offset then 0 else if |rows| <= offset + perPage then |rows| - offset
                                    else perPage)
            && response.meta.total == |rows|
  {
    OffsetPageExact(TenantRows(w.db, tenant), page, perPage);
  }

  /** A key can be used again once its row has expired: a day after a creation the same request
      creates a second user, unless the tenant has the email. */
  lemma KeyExpires(w: World, first: Op, between: seq<Op>, second: Op)
    requires WInv(w) && first.CreateOnce? && second.CreateOnce? && Legal(w, first)
    requires first.tenant == second.tenant && first.key == second.key
    requires Step(w, first).1.result.Created?
    requires LegalRun(Step(w, first).0, between) && Legal(Run(Step(w, first).0, between), second)
    requires var k := LedgerKey(first.tenant, Sha256(first.key));
             var db := Run(Step(w, first).0, between).db;
             k in db.ledger ==> db.ledger[k] == Step(w, first).0.db.ledger[k]
    requires second.now >= first.now + 86_400_000_000
    ensures var before := Run(Step(w, first).0, between);
            var r := Step(before, second).1.result;
            r == EmailExists
            || (r.Created? && MadeFrom(r.user, second.tenant, second.email, second.name, second.now, second.id))
  {
    var before := Run(Step(w, first).0, between);
    CreateOnceStores(w.db, first.tenant, first.key, first.email, first.name, first.now, first.id);
    CreateOnceAnswers(before.db, second.tenant, second.key, second.email, second.name, second.now, second.id);
  }

  /** Over a run, an id and a version name at most one row content. */
  lemma VersionNamesContent(w: World, ops: seq<Op>, id: Id)
    requires WInv(w) && LegalRun(w, ops)
    requires id in w.db.users && id in Run(w, ops).db.users
    requires w.db.users[id].version == Run(w, ops).db.users[id].version
    ensures w.db.users[id] == Run(w, ops).db.users[id]
  {
    RunIsLater(w, ops);
  }

  predicate IsWriteOn(op: Op, id: Id, version: nat) {
    (op.Patch? || op.Remove?) && op.id == id && op.precondition == Versions([version])
  }

  /** Of all writes conditioned on one version of a user at most one succeeds. */
  lemma OneWriteWins(w: World, first: Op, between: seq<Op>, second: Op, id: Id, version: nat)
    requires WInv(w) && IsWriteOn(first, id, version) && IsWriteOn(second, id, version)
    requires Step(w, first).1.outcome.Written?
    requires LegalRun(Step(w, first).0, between)
    ensures Step(Run(Step(w, first).0, between), second).1 in {Wrote(NotFound), Wrote(PreconditionFailed)}
  {
    var after := Step(w, first).0;
    RunIsLater(after, between);
    assert id in after.issued;
  }

  /** A write that carries the entity tag of a read succeeds only on the row that was read. */
  lemma WriteSeesWhatWasRead(w: World, read: Op, between: seq<Op>, write: Op, header: string)
    requires WInv(w) && read.Get? && Step(w, read).1.user.Some?
    requires Step(w, read).1.user.value.version <= MAX_SAFE_INTEGER
    requires LegalRun(w, between)
    requires FormatUserEntityTag(Step(w, read).1.user.value.version) == Some(header)
    requires (write.Patch? || write.Remove?) && write.id == read.id
    requires IfMatch(header) == Parsed.Ok(write.precondition)
    requires Step(Run(w, between), write).1.outcome.Written?
    ensures Run(w, between).db.users[read.id] == Step(w, read).1.user.value
  {
    var u := Step(w, read).1.user.value;
    TagRoundTrip(u.version);
    RunIsLater(w, between);
    WrittenMeansVersion(Run(w, between), write, u.version);
  }

  /** A write conditioned on one version succeeds only on a row at that version. */
  lemma WrittenMeansVersion(w: World, write: Op, version: nat)
    requires WInv(w) && (write.Patch? || write.Remove?) && write.precondition == Versions([version])
    requires Step(w, write).1.outcome.Written?
    ensures write.id in w.db.users && w.db.users[write.id].version == version
  {
  }

  // ---- exactly once ----

  /** The completed ledger row of a created user stays as it is while it has not expired and the
      user has not been deleted. */
  lemma StepKeepsRow(w: World, op: Op, k: LedgerKey)
    requires WInv(w) && Legal(w, op) && k in w.db.ledger
    requires Step(w, op).0.clock < w.db.ledger[k].expiresAt
    requires w.db.ledger[k].userId.value in Step(w, op).0.db.users
    ensures k in Step(w, op).0.db.ledger && Step(w, op).0.db.ledger[k] == w.db.ledger[k]
  {
    assert Complete(w.db, k, w.db.ledger[k]);
    match op
    case CreateOnce(tenant, key, email, name, now, id) =>
      CreateIdempotentlyKeepsInv(w.db, tenant, key, email, name, now, id);
    case _ =>
  }

  lemma {:induction false} RowPersists(w: World, ops: seq<Op>, k: LedgerKey)
    requires WInv(w) && LegalRun(w, ops) && k in w.db.ledger
    requires w.db.ledger[k].userId.Some?
    requires Run(w, ops).clock < w.db.ledger[k].expiresAt
    requires w.db.ledger[k].userId.value in Run(w, ops).db.users
    ensures k in Run(w, ops).db.ledger && Run(w, ops).db.ledger[k] == w.db.ledger[k]
    decreases ops
  {
    if ops != [] {
      var mid := Step(w, ops[0]).0;
      assert Complete(w.db, k, w.db.ledger[k]);
      StepIsLater(w, ops[0]);
      RunIsLater(mid, ops[1..]);
      StepKeepsRow(w, ops[0], k);
      RowPersists(mid, ops[1..], k);
    }
  }

  /** Two requests with one tenant and key, the first of which created a user. Until 86400 seconds
      later, and while that user lives, the second creates nothing: with an equal payload it
      answers with that user as it is now, with another payload it fails. */
  lemma ReplayWithinADay(w: World, first: Op, between: seq<Op>, second: Op)
    requires WInv(w) && first.CreateOnce? && second.CreateOnce? && Legal(w, first)
    requires first.tenant == second.tenant && first.key == second.key
    requires '\n' !in first.email && '\n' !in second.email
    requires Step(w, first).1.result.Created?
    requires LegalRun(Step(w, first).0, between) && Legal(Run(Step(w, first).0, between), second)
    requires second.now < first.now + 86_400_000_000
    requires first.id in Run(Step(w, first).0, between).db.users
    ensures var before := Run(Step(w, first).0, between);
            var (after, response) := Step(before, second);
            && after.db == before.db
            && response == CreateAnswer(if first.email == second.email && first.name == second.name
                                   then Replayed(before.db.users[first.id]) else KeyReused)
  {
    var start := Step(w, first).0;
    var before := Run(start, between);
    var k := LedgerKey(first.tenant, Sha256(first.key));
    CreateIdempotentlyKeepsInv(w.db, first.tenant, first.key, first.email, first.name, first.now, first.id);
    RowPersists(start, between, k);
    assert Complete(before.db, k, before.db.ledger[k]);
    FingerprintInjective(first.email, first.name, second.email, second.name);
    CreateIdempotentlyKeepsInv(before.db, second.tenant, second.key, second.email, second.name, second.now, second.id);
  }

  /** Exactly once: two creations under one tenant and key are a day apart, or the user that the
      first one created was deleted in between. */
  lemma ExactlyOncePerKey(w: World, first: Op, between: seq<Op>, second: Op)
    requires WInv(w) && first.CreateOnce? && second.CreateOnce? && Legal(w, first)
    requires first.tenant == second.tenant && first.key == second.key
    requires Step(w, first).1.result.Created?
    requires LegalRun(Step(w, first).0, between) && Legal(Run(Step(w, first).0, between), second)
    requires Step(Run(Step(w, first).0, between), second).1.result.Created?
    ensures second.now >= first.now + 86_400_000_000 || first.id !in Run(Step(w, first).0, between).db.users
  {
    var start := Step(w, first).0;
    var before := Run(start, between);
    var k := LedgerKey(first.tenant, Sha256(first.key));
    CreateIdempotentlyKeepsInv(w.db, first.tenant, first.key, first.email, first.name, first.now, first.id);
    if second.now < first.now + 86_400_000_000 && first.id in before.db.users {
      RowPersists(start, between, k);
    }
  }

  // ---- tenants do not interfere ----

  /** The ledger row that a claim at this time or later can see. */
  function LiveRow(db: Db, k: LedgerKey, clock: int): Option<LedgerRow> {
    if k in db.ledger && db.ledger[k].expiresAt > clock then Some(db.ledger[k]) else None
  }

  /** Two states look the same to a tenant: its users, and its ledger rows that have not expired. */
  ghost predicate Agree(tenant: Tenant, a: World, b: World) {
    && b.clock <= a.clock && b.issued <= a.issued
    && (forall id :: FindById(a.db, tenant, id) == FindById(b.db, tenant, id))
    && (forall k: LedgerKey :: k.tenant == tenant ==> LiveRow(a.db, k, a.clock) == LiveRow(b.db, k, a.clock))
  }

  predicate BelongsTo(op: Op, tenant: Tenant) {
    !op.Sweep? && op.tenant == tenant
  }

  lemma SameEmails(tenant: Tenant, a: World, b: World, email: string)
    requires Agree(tenant, a, b)
    ensures EmailTaken(a.db, tenant, email) <==> EmailTaken(b.db, tenant, email)
  {
    if EmailTaken(a.db, tenant, email) {
      var id :| id in a.db.users && a.db.users[id].tenant == tenant && a.db.users[id].email == email;
      assert FindById(a.db, tenant, id) == FindById(b.db, tenant, id);
    }
    if EmailTaken(b.db, tenant, email) {
      var id :| id in b.db.users && b.db.users[id].tenant == tenant && b.db.users[id].email == email;
      assert FindById(a.db, tenant, id) == FindById(b.db, tenant, id);
    }
  }

  lemma SameRows(tenant: Tenant, a: World, b: World)
    requires WInv(a) && WInv(b) && Agree(tenant, a, b)
    ensures TenantRows(a.db, tenant) == TenantRows(b.db, tenant)
  {
    forall u
      ensures u in TenantRows(a.db, tenant) <==> u in TenantRows(b.db, tenant)
    {
      assert FindById(a.db, tenant, u.id) == FindById(b.db, tenant, u.id);
    }
  }

  /** The tenant's own step answers alike on both sides. */
  lemma OwnStep(tenant: Tenant, a: World, b: World, op: Op)
    requires WInv(a) && WInv(b) && Agree(tenant, a, b) && BelongsTo(op, tenant) && Legal(a, op)
    ensures Legal(b, op)
    ensures Step(a, op).1 == Step(b, op).1
    ensures Agree(tenant, Step(a, op).0, Step(b, op).0)
  {
    match op
    case CreatePlain(_, email, name, now, id) =>
      OwnCreatePlain(tenant, a, b, email, name, now, id);
    case CreateOnce(_, key, email, name, now, id) =>
      OwnCreateOnce(tenant, a, b, key, email, name, now, id);
    case Get(_, id) =>
    case Patch(_, id, fields, precondition) =>
      assert FindById(a.db, tenant, id) == FindById(b.db, tenant, id);
      OwnPatch(tenant, a, b, id, fields, precondition);
    case Remove(_, id, precondition) =>
      assert FindById(a.db, tenant, id) == FindById(b.db, tenant, id);
      OwnRemove(tenant, a, b, id, precondition);
    case ListCursor(_, after, limit) =>
      SameRows(tenant, a, b);
    case ListOffset(_, page, perPage) =>
      SameRows(tenant, a, b);
  }

  lemma OwnCreatePlain(tenant: Tenant, a: World, b: World, email: string, name: string, now: int, id: Id)
    requires WInv(a) && WInv(b) && Agree(tenant, a, b) && Legal(a, CreatePlain(tenant, email, name, now, id))
    ensures var op := CreatePlain(tenant, email, name, now, id);
            && Step(a, op).1 == Step(b, op).1
            && Agree(tenant, Step(a, op).0, Step(b, op).0)
  {
    var op := CreatePlain(tenant, email, name, now, id);
    var a', b' := Step(a, op).0, Step(b, op).0;
    SameEmails(tenant, a, b, email);
    forall j
      ensures FindById(a'.db, tenant, j) == FindById(b'.db, tenant, j)
    {
      assert FindById(a.db, tenant, j) == FindById(b.db, tenant, j);
    }
    forall k: LedgerKey | k.tenant == tenant
      ensures LiveRow(a'.db, k, a'.clock) == LiveRow(b'.db, k, a'.clock)
    {
      assert LiveRow(a.db, k, a.clock) == LiveRow(b.db, k, a.clock);
    }
  }

  /** What CreateIdempotently answers, from what the tenant can see. */
  lemma CreateOnceByView(db: Db, tenant: Tenant, key: string, email: string, name: string, now: int, id: Id)
    requires Inv(db) && id !in db.users
    ensures var row := LiveRow(db, LedgerKey(tenant, Sha256(key)), now);
            CreateIdempotently(db, tenant, key, email, name, now, id).1 ==
              if row.Some? then
                if row.value.fingerprint != Fingerprint(email, name) then KeyReused
                else
                  var held := FindById(db, tenant, row.value.userId.GetOr(0));
                  Replayed(held.GetOr(NewUser(tenant, email, name, now, id)))
              else if EmailTaken(db, tenant, email) then EmailExists
              else Created(NewUser(tenant, email, name, now, id))
  {
    CreateIdempotentlyKeepsInv(db, tenant, key, email, name, now, id);
    var k := LedgerKey(tenant, Sha256(key));
    if k in db.ledger {
      assert Complete(db, k, db.ledger[k]);
    }
  }

  lemma OwnCreateOnce(tenant: Tenant, a: World, b: World, key: string, email: string, name: string, now: int, id: Id)
    requires WInv(a) && WInv(b) && Agree(tenant, a, b) && Legal(a, CreateOnce(tenant, key, email, name, now, id))
    ensures var op := CreateOnce(tenant, key, email, name, now, id);
            && Step(a, op).1 == Step(b, op).1
            && Agree(tenant, Step(a, op).0, Step(b, op).0)
  {
    var op := CreateOnce(tenant, key, email, name, now, id);
    var k := LedgerKey(tenant, Sha256(key));
    SameEmails(tenant, a, b, email);
    assert LiveRow(a.db, k, a.clock) == LiveRow(b.db, k, a.clock);
    CreateOnceByView(a.db, tenant, key, email, name, now, id);
    CreateOnceByView(b.db, tenant, key, email, name, now, id);
    if LiveRow(a.db, k, now).Some? {
      var uid := a.db.ledger[k].userId.GetOr(0);
      assert FindById(a.db, tenant, uid) == FindById(b.db, tenant, uid);
    }
    assert Step(a, op).1 == Step(b, op).1;
    AgreeAfterCreateOnce(tenant, a, b, key, email, name, now, id);
  }

  /** Equal writes to the tenant's part, at a later time, keep the agreement. */
  lemma AgreeAfterWrites(tenant: Tenant, a: World, b: World, user: User, k: LedgerKey, row: LedgerRow, now: int)
    requires Agree(tenant, a, b) && a.clock <= now && user.tenant == tenant && k.tenant == tenant
    ensures Agree(tenant,
                  World(Db(a.db.users[user.id := user], a.db.ledger[k := row]), now, a.issued + {user.id}),
                  World(Db(b.db.users[user.id := user], b.db.ledger[k := row]), now, b.issued + {user.id}))
  {
    var da := Db(a.db.users[user.id := user], a.db.ledger[k := row]);
    var db := Db(b.db.users[user.id := user], b.db.ledger[k := row]);
    forall j
      ensures FindById(da, tenant, j) == FindById(db, tenant, j)
    {
      assert FindById(a.db, tenant, j) == FindById(b.db, tenant, j);
    }
    forall l: LedgerKey | l.tenant == tenant
      ensures LiveRow(da, l, now) == LiveRow(db, l, now)
    {
      assert LiveRow(a.db, l, a.clock) == LiveRow(b.db, l, a.clock);
    }
  }

  lemma AgreeLater(tenant: Tenant, a: World, b: World, now: int, id: Id)
    requires Agree(tenant, a, b) && a.clock <= now
    ensures Agree(tenant, World(a.db, now, a.issued + {id}), World(b.db, now, b.issued + {id}))
  {
    forall l: LedgerKey | l.tenant == tenant
      ensures LiveRow(a.db, l, now) == LiveRow(b.db, l, now)
    {
      assert LiveRow(a.db, l, a.clock) == LiveRow(b.db, l, a.clock);
    }
  }

  lemma AgreeAfterCreateOnce(tenant: Tenant, a: World, b: World, key: string, email: string, name: string, now: int,
                             id: Id)
    requires WInv(a) && WInv(b) && Agree(tenant, a, b) && Legal(a, CreateOnce(tenant, key, email, name, now, id))
    requires var op := CreateOnce(tenant, key, email, name, now, id); Step(a, op).1 == Step(b, op).1
    ensures var op := CreateOnce(tenant, key, email, name, now, id);
            Agree(tenant, Step(a, op).0, Step(b, op).0)
  {
    var op := CreateOnce(tenant, key, email, name, now, id);
    CreateIdempotentlyKeepsInv(a.db, tenant, key, email, name, now, id);
    CreateIdempotentlyKeepsInv(b.db, tenant, key, email, name, now, id);
    var result := CreateIdempotently(a.db, tenant, key, email, name, now, id).1;
    AgreeLater(tenant, a, b, now, id);
    if result.Created? {
      CreateOnceByView(a.db, tenant, key, email, name, now, id);
      AgreeAfterWrites(tenant, a, b, result.user, LedgerKey(tenant, Sha256(key)),
                       LedgerRow(Fingerprint(email, name), Some(id), now, now + TTL), now);
    }
  }

  lemma OwnPatch(tenant: Tenant, a: World, b: World, id: Id, fields: Fields, precondition: VersionPrecondition)
    requires WInv(a) && WInv(b) && Agree(tenant, a, b)
    ensures var op := Patch(tenant, id, fields, precondition);
            && Step(a, op).1 == Step(b, op).1
            && Agree(tenant, Step(a, op).0, Step(b, op).0)
  {
    assert FindById(a.db, tenant, id) == FindById(b.db, tenant, id);
    if FindById(a.db, tenant, id).Some? {
      var u := Assigned(a.db.users[id], fields);
      assert Collides(a.db, u) <==> Collides(b.db, u) by {
        if Collides(a.db, u) {
          var j :| j in a.db.users && j != u.id && a.db.users[j].tenant == u.tenant && a.db.users[j].email == u.email;
          assert FindById(a.db, tenant, j) == FindById(b.db, tenant, j);
        }
        if Collides(b.db, u) {
          var j :| j in b.db.users && j != u.id && b.db.users[j].tenant == u.tenant && b.db.users[j].email == u.email;
          assert FindById(a.db, tenant, j) == FindById(b.db, tenant, j);
        }
      }
    }
    var op := Patch(tenant, id, fields, precondition);
    var a', b' := Step(a, op).0, Step(b, op).0;
    forall j
      ensures FindById(a'.db, tenant, j) == FindById(b'.db, tenant, j)
    {
      assert FindById(a.db, tenant, j) == FindById(b.db, tenant, j);
    }
    forall k: LedgerKey | k.tenant == tenant
      ensures LiveRow(a'.db, k, a'.clock) == LiveRow(b'.db, k, a'.clock)
    {
      assert LiveRow(a.db, k, a.clock) == LiveRow(b.db, k, a.clock);
    }
  }

  lemma OwnRemove(tenant: Tenant, a: World, b: World, id: Id, precondition: VersionPrecondition)
    requires WInv(a) && WInv(b) && Agree(tenant, a, b)
    ensures var op := Remove(tenant, id, precondition);
            && Step(a, op).1 == Step(b, op).1
            && Agree(tenant, Step(a, op).0, Step(b, op).0)
  {
    assert FindById(a.db, tenant, id) == FindById(b.db, tenant, id);
    var op := Remove(tenant, id, precondition);
    var a', b' := Step(a, op).0, Step(b, op).0;
    forall j
      ensures FindById(a'.db, tenant, j) == FindById(b'.db, tenant, j)
    {
      assert FindById(a.db, tenant, j) == FindById(b.db, tenant, j);
    }
    forall k: LedgerKey | k.tenant == tenant
      ensures LiveRow(a'.db, k, a'.clock) == LiveRow(b'.db, k, a'.clock)
    {
      assert LiveRow(a.db, k, a.clock) == LiveRow(b.db, k, a.clock);
    }
  }

  lemma ForeignUsers(tenant: Tenant, a: World, op: Op, id: Id)
    requires WInv(a) && !BelongsTo(op, tenant) && Legal(a, op)
    ensures FindById(Step(a, op).0.db, tenant, id) == FindById(a.db, tenant, id)
  {
    if op.CreateOnce? {
      CreateIdempotentlyKeepsInv(a.db, op.tenant, op.key, op.email, op.name, op.now, op.id);
    }
  }

  /** The cascade of a delete stays within its tenant because a ledger row and its user share one. */
  lemma ForeignLedger(tenant: Tenant, a: World, op: Op, k: LedgerKey)
    requires WInv(a) && !BelongsTo(op, tenant) && Legal(a, op) && k.tenant == tenant
    ensures a.clock <= Step(a, op).0.clock
    ensures LiveRow(Step(a, op).0.db, k, Step(a, op).0.clock) == LiveRow(a.db, k, Step(a, op).0.clock)
  {
    if k in a.db.ledger {
      assert Complete(a.db, k, a.db.ledger[k]);
    }
    if op.CreateOnce? {
      ForeignCreateOnce(a, op, k);
    }
  }

  lemma ForeignCreateOnce(a: World, op: Op, k: LedgerKey)
    requires WInv(a) && op.CreateOnce? && op.tenant != k.tenant && Legal(a, op)
    ensures a.clock <= Step(a, op).0.clock
    ensures LiveRow(Step(a, op).0.db, k, Step(a, op).0.clock) == LiveRow(a.db, k, Step(a, op).0.clock)
  {
    CreateIdempotentlyKeepsInv(a.db, op.tenant, op.key, op.email, op.name, op.now, op.id);
  }

  /** A sweep, or another tenant's step, leaves what the tenant sees as it was. */
  lemma ForeignStep(tenant: Tenant, a: World, b: World, op: Op)
    requires WInv(a) && WInv(b) && Agree(tenant, a, b) && !BelongsTo(op, tenant) && Legal(a, op)
    ensures Agree(tenant, Step(a, op).0, b)
  {
    var next := Step(a, op).0;
    StepIsLater(a, op);
    forall id
      ensures FindById(next.db, tenant, id) == FindById(b.db, tenant, id)
    {
      ForeignUsers(tenant, a, op, id);
      assert FindById(a.db, tenant, id) == FindById(b.db, tenant, id);
    }
    forall k: LedgerKey | k.tenant == tenant
      ensures LiveRow(next.db, k, next.clock) == LiveRow(b.db, k, next.clock)
    {
      ForeignLedger(tenant, a, op, k);
      assert LiveRow(a.db, k, a.clock) == LiveRow(b.db, k, a.clock);
    }
  }

  function Own(ops: seq<Op>, tenant: Tenant): seq<Op> {
    if ops == [] then []
    else (if BelongsTo(ops[0], tenant) then [ops[0]] else []) + Own(ops[1..], tenant)
  }

  /** The answers of a run to one tenant. */
  ghost function AnswersTo(w: World, ops: seq<Op>, tenant: Tenant): seq<Response>
    requires WInv(w) && LegalRun(w, ops)
    decreases ops
  {
    if ops == [] then []
    else
      var (next, response) := Step(w, ops[0]);
      (if BelongsTo(ops[0], tenant) then [response] else []) + AnswersTo(next, ops[1..], tenant)
  }

  lemma {:induction false} NonInterferenceFrom(tenant: Tenant, a: World, b: World, ops: seq<Op>)
    requires WInv(a) && WInv(b) && Agree(tenant, a, b) && LegalRun(a, ops)
    ensures LegalRun(b, Own(ops, tenant))
    ensures AnswersTo(a, ops, tenant) == AnswersTo(b, Own(ops, tenant), tenant)
    decreases ops
  {
    if ops != [] {
      var a' := Step(a, ops[0]).0;
      if BelongsTo(ops[0], tenant) {
        OwnStep(tenant, a, b, ops[0]);
        NonInterferenceFrom(tenant, a', Step(b, ops[0]).0, ops[1..]);
        assert Own(ops, tenant)[1..] == Own(ops[1..], tenant);
      } else {
        ForeignStep(tenant, a, b, ops[0]);
        NonInterferenceFrom(tenant, a', b, ops[1..]);
        assert Own(ops, tenant) == Own(ops[1..], tenant);
      }
    }
  }

  /** Tenant noninterference: without the requests of every other tenant, and without any sweep,
      a run is still legal and answers the tenant the same. */
  lemma TenantsDoNotInterfere(clock: int, ops: seq<Op>, tenant: Tenant)
    requires LegalRun(Empty(clock), ops)
    ensures LegalRun(Empty(clock), Own(ops, tenant))
    ensures AnswersTo(Empty(clock), ops, tenant) == AnswersTo(Empty(clock), Own(ops, tenant), tenant)
  {
    NonInterferenceFrom(tenant, Empty(clock), Empty(clock), ops);
  }

  // ---- walking a list while the table changes ----

  ghost predicate LegalSegments(w: World, segments: seq<seq<Op>>)
    requires WInv(w)
    decreases segments
  {
    segments == [] || (LegalRun(w, segments[0]) && LegalSegments(Run(w, segments[0]), segments[1..]))
  }

  /** The tenant's table as each page query finds it, one segment of other requests before each. */
  ghost function Tables(w: World, segments: seq<seq<Op>>, tenant: Tenant): (tables: seq<set<User>>)
    requires WInv(w) && LegalSegments(w, segments)
    ensures |tables| == |segments| && TablesOk(tables)
    decreases segments
  {
    if segments == [] then []
    else
      var next := Run(w, segments[0]);
      [TenantRows(next.db, tenant)] + Tables(next, segments[1..], tenant)
  }

  lemma {:induction false} TablesAreLater(w: World, segments: seq<seq<Op>>, tenant: Tenant, i: nat)
    requires WInv(w) && LegalSegments(w, segments) && i < |segments|
    ensures var table := Tables(w, segments, tenant)[i];
            forall u :: u in table
                ==> (u.id in w.issued ==> u.id in w.db.users && w.db.users[u.id].createdAt == u.createdAt)
    decreases segments
  {
    var next := Run(w, segments[0]);
    RunIsLater(w, segments[0]);
    if i > 0 {
      TablesAreLater(next, segments[1..], tenant, i - 1);
      assert Tables(w, segments, tenant)[i] == Tables(next, segments[1..], tenant)[i - 1];
    }
  }

  lemma {:induction false} TablesPairwise(w: World, segments: seq<seq<Op>>, tenant: Tenant, i: nat, j: nat, u: User,
                                          v: User)
    requires WInv(w) && LegalSegments(w, segments) && i <= j < |segments|
    requires u in Tables(w, segments, tenant)[i] && v in Tables(w, segments, tenant)[j] && u.id == v.id
    ensures u.createdAt == v.createdAt
    decreases segments
  {
    var next := Run(w, segments[0]);
    if i > 0 {
      TablesPairwise(next, segments[1..], tenant, i - 1, j - 1, u, v);
    } else if j > 0 {
      TablesAreLater(next, segments[1..], tenant, j - 1);
      assert Tables(w, segments, tenant)[j] == Tables(next, segments[1..], tenant)[j - 1];
    }
  }

  /** A cursor walk between whose pages any requests commit: keys strictly descend, no id comes
      twice, and a finished walk holds every row that was there throughout, exactly once. */
  lemma WalkOverARun(w: World, segments: seq<seq<Op>>, tenant: Tenant, limit: nat)
    requires WInv(w) && LegalSegments(w, segments) && limit >= 1
    ensures var tables := Tables(w, segments, tenant);
            var walked := Walk(tables, None, limit);
            var list := Flat(walked.pages);
            && Descending(list)
            && (forall i, j :: 0 <= i < j < |list| ==> list[i].id != list[j].id)
            && (walked.finished ==> forall key :: PresentThroughout(tables, key) ==>
                  exists i :: 0 <= i < |list| && KeyOf(list[i]) == key)
  {
    var tables := Tables(w, segments, tenant);
    var walked := Walk(tables, None, limit);
    var list := Flat(walked.pages);
    forall i, j, u: User, v: User | 0 <= i < |tables| && 0 <= j < |tables| && u in tables[i] && v in tables[j]
        && u.id == v.id
      ensures u.createdAt == v.createdAt
    {
      if i <= j {
        TablesPairwise(w, segments, tenant, i, j, u, v);
      } else {
        TablesPairwise(w, segments, tenant, j, i, v, u);
      }
    }
    WalkDescends(tables, None, limit);
    forall i, j | 0 <= i < j < |list|
      ensures list[i].id != list[j].id
    {
      WalkNeverRepeats(tables, limit, i, j);
    }
    if walked.finished {
      forall key | PresentThroughout(tables, key)
        ensures exists i :: 0 <= i < |list| && KeyOf(list[i]) == key
      {
        FinishedWalkIsComplete(tables, limit, key);
      }
    }
  }
}
