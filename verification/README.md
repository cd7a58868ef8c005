# Verified model of the API's stateful core

This project models the parts of the service whose correctness lives in runs and interleavings
rather than in single branches, and proves what they promise.

- **Rate limiting** (`Gcra`, `GcraRuns`, `GcraLimiter`, `FixedWindow`). A GCRA bucket is one row
  that any number of clients change by INSERT, UPDATE and SELECT, each its own atomic step with its
  own readings of the database clock, while a cleanup DELETE may act anywhere. Time is counted in
  ticks of 1/limit microsecond, which makes the emission interval and the tolerance whole numbers.
  The machine refines a token bucket, and from that follow the throughput bounds. `GcraQuota`
  covers the quota metadata, including the cut of timestamps to milliseconds.
- **Tenant users** (`Users`, `UserRuns`, `UserPaging`, `LedgerClaim`, `ClaimExhaustion`). Two
  tables, the idempotent create transaction, conditional update and delete with cascade, the ledger
  sweep and both listings. The run-level results speak of every finite sequence of committed
  transactions. The three-statement claim loop is modelled a second time with others acting between
  its statements.
- **Addresses** (`IpAddress`, `IpRoundTrip`, `IpExact`, `IpCidr`, `CidrExact`, `TrustedProxy`). The
  IPv4/IPv6 parser and printer as the loops they are, which texts are read and as what, CIDR blocks,
  and the forwarded-for walk.
- **Retry machinery** (`RetryPolicy`, `HttpRetry`, `ErrorChain`, `TransactionRetry`). The HTTP loop
  under one deadline, the walk over a possibly cyclic graph of causes, error normalization, and the
  manager that repeats whole transactions.
- **Entity tags and shutdown** (`EntityTag`, `Lifecycle`, `GracefulShutdown`). The asynchronous
  shutdown code is cut at its awaits: settlements, timeouts and calls from hooks or anybody else
  arrive in any order, and the results hold for every such run.

Code that works step by step is a method, or a class whose fields the methods update, proved
against a function or predicate over its inputs or old state; the lemmas are about those. `JsText`,
`Digits`, `Arith` and `RateLimit` are shared vocabulary.

`dafny verify dfyconfig.toml` checks the whole project.

## Where the code does less than one might expect

Each of these is a lemma with a concrete witness or an exact condition.

- A cleanup that deletes the GCRA row between a request's own INSERT and UPDATE makes that UPDATE
  match nothing. The request then fails with "state disappeared"
  (`GcraRuns.CleanupInsideRequest`), or, if another client inserts the row again in time, is refused
  with a retry time although it was never checked (`GcraRuns.RefusedUnchecked`); in both cases the
  bucket had a token. An UPDATE answers as the token bucket does if and only if it meets a row
  (`GcraRuns.UpdateView`), and without a deletion every refusal is the bucket's
  (`GcraRuns.RefusedRightly`). No interleaving ever grants too much.
- The limiters read timestamps in whole milliseconds. GCRA's answers are exact for an instant less
  than a millisecond from the one observed (`GcraQuota.WithinAMillisecond`); counted from the
  observed instant itself an advised wait can be too short (`GcraQuota.CutWaitFallsShort`), exactly
  when `GcraQuota.RetryAfterFromObserved`, `GcraQuota.ResetFromObserved` and
  `FixedWindow.RetryAfterIsExact` say, and never by as much as a millisecond.
- The claim loop fails only after others deleted the row three times, as long as their claims began
  less than a day before (`ClaimExhaustion.ExhaustionCost`). With claims that began earlier one
  deletion is enough if there was no row at first, and two if there was
  (`ClaimExhaustion.OldClaimsExhaust`, `ClaimExhaustion.OldClaimsExhaustLive`); fewer never are
  (`ClaimExhaustion.ExhaustionCostsAnyway`).
- The idempotency fingerprint separates payloads because an email holds no newline; without that
  premise two different payloads collide (`Users.FingerprintNeedsOneLine`).
- Prepending text to a forwarded chain cannot choose the client address, but unreadable text, or
  text beyond the size caps, replaces the answer by the peer itself (`TrustedProxy.PrependingHops`).
- The transaction manager commits an effect at most once because the database reports a
  serialization failure or deadlock only for a transaction it aborted; an error of that kind after
  a commit would double the effect (`TransactionRetry.LateRetryableErrorDoubles`).
- A graceful stop that rejects after its timeout is not reported: the race has already been
  decided. All failures are reported if and only if that does not happen
  (`GracefulShutdown.AllReportedUnlessLate`).

## Model

| member | source | states |
|---|---|---|
| `Gcra.ConsumeByEffective` | src/infrastructure/rate-limit/postgres-gcra-rate-limiter.ts:102-153 | a request at one instant is accepted iff the effective arrival time is within the tolerance, and acceptance moves it by one interval, whether the row exists or not |
| `Gcra.SweepsChangeNoDecision` | src/infrastructure/rate-limit/postgres-gcra-rate-limiter.ts:250-311 | removing every sweep from a run of requests leaves every decision as it was |
| `Gcra.AcceptedAtInstant` | src/infrastructure/rate-limit/postgres-gcra-rate-limiter.ts:125-153 | at one instant exactly floor((tolerance - debt)/interval) + 1 further requests pass, then none |
| `GcraQuota.WithinAMillisecond` | src/infrastructure/rate-limit/postgres-gcra-rate-limiter.ts:194-219 | the metadata from millisecond timestamps is the exact metadata for an instant less than 1 ms away |
| `GcraQuota.ExactOnTheGrid` | src/infrastructure/rate-limit/postgres-gcra-rate-limiter.ts:175-219 | with both timestamps on one millisecond grid nothing is lost |
| `GcraQuota.ClampsNeverAct` | src/infrastructure/rate-limit/postgres-gcra-rate-limiter.ts:201-204 | after an accept the clamps to 0 and to the limit change nothing |
| `GcraQuota.RemainingIsExact` | src/infrastructure/rate-limit/postgres-gcra-rate-limiter.ts:194-219 | of any number of further requests exactly `remaining` are accepted, at an instant less than a millisecond from the observed one; `RemainingAtObserved` says when at the observed one |
| `GcraQuota.RemainingAtObserved` | src/infrastructure/rate-limit/postgres-gcra-rate-limiter.ts:194-219 | at the observed instant itself `remaining` is exact iff the cut to milliseconds moves the debt across no multiple of the interval |
| `GcraQuota.RetryAfterIsExact` | src/infrastructure/rate-limit/postgres-gcra-rate-limiter.ts:175-192 | after a denial the advised wait suffices and no smaller positive whole number of seconds does, counted from an instant less than a millisecond away; `RetryAfterFromObserved` counts from the observed one |
| `GcraQuota.RetryAfterFromObserved` | src/infrastructure/rate-limit/postgres-gcra-rate-limiter.ts:175-192 | counted from the observed instant: the advised wait suffices iff the milliseconds agree or the cut took at most the slack of rounding up, a smaller one iff the cut had added enough, and one millisecond more always suffices |
| `GcraQuota.CutWait` | src/infrastructure/rate-limit/postgres-gcra-rate-limiter.ts:175-192 | the arithmetic of both waits: when a wait computed from cut timestamps reaches the exact debt |
| `GcraQuota.ResetRestoresTheBurst` | src/infrastructure/rate-limit/postgres-gcra-rate-limiter.ts:184-190 | after `resetAfterSeconds` idle a burst of `limit` is accepted in full, after fewer whole seconds it is not, counted from an instant less than a millisecond away; `ResetFromObserved` counts from the observed one |
| `GcraQuota.ResetFromObserved` | src/infrastructure/rate-limit/postgres-gcra-rate-limiter.ts:184-190 | counted from the observed instant: the exact condition for the reset time, for every smaller number of seconds, and that a millisecond more always suffices |
| `GcraQuota.CutWaitFallsShort` | src/infrastructure/rate-limit/postgres-gcra-rate-limiter.ts:175-183 | a concrete denial whose advised wait, counted from the observed instant, is too short |
| `GcraQuota.BurstIsTheLimit` | src/infrastructure/rate-limit/postgres-gcra-rate-limiter.ts:95-119 | at one instant an unused bucket accepts exactly `limit` requests, which leave its arrival time a whole window ahead |
| `GcraQuota.RefillIsExact` | src/infrastructure/rate-limit/postgres-gcra-rate-limiter.ts:95-148 | a bucket spent like that regains one request every windowSeconds/limit seconds and never more than the limit: after any idle time exactly min(limit, floor(idle·limit/window)) of any number of requests pass |
| `GcraQuota.RefillsInTime` | src/infrastructure/rate-limit/postgres-gcra-rate-limiter.ts:95-148 | after any accepted request the next passes windowSeconds/limit seconds later, and a burst of the limit windowSeconds later |
| `GcraRuns.StepKeepsInv` | src/infrastructure/rate-limit/postgres-gcra-rate-limiter.ts:102-173 | every statement of any client and every cleanup keeps the link between row and token bucket, that a request in flight that finds no row has seen a deletion, and what the UPDATE of each request at its SELECT was told |
| `GcraRuns.RefinesTokenBucket` | src/infrastructure/rate-limit/postgres-gcra-rate-limiter.ts:102-173 | in every interleaving every UPDATE that met a row, and every INSERT that met none, was granted iff a token bucket had a token at its check; the row, or its absence, represents the bucket |
| `GcraRuns.InsertView` | src/infrastructure/rate-limit/postgres-gcra-rate-limiter.ts:102-119 | an INSERT is accepted iff it meets no row, and then the bucket has a token |
| `GcraRuns.UpdateView` | src/infrastructure/rate-limit/postgres-gcra-rate-limiter.ts:121-153 | an UPDATE answers as the token bucket iff it meets a row, and misses one only after a deletion since the own INSERT |
| `GcraRuns.SelectView` | src/infrastructure/rate-limit/postgres-gcra-rate-limiter.ts:155-192 | a SELECT follows a denial that the bucket shares, logged for this client, or an UPDATE that met no row while a token was left and the row had been deleted; refusal or "state disappeared" depends on the row alone |
| `GcraRuns.RefusedRightly` | src/infrastructure/rate-limit/postgres-gcra-rate-limiter.ts:155-192 | in every run a request refused without a deletion since its own INSERT was denied by the token bucket, at the very attempt its own UPDATE logged |
| `GcraRuns.RefusedUnchecked` | src/infrastructure/rate-limit/postgres-gcra-rate-limiter.ts:155-192 | under every policy with a limit of two or more there is a run in which a request is refused, with a token left and without ever being checked, because another client re-inserted the deleted row |
| `GcraRuns.CleanupInsideRequest` | src/infrastructure/rate-limit/postgres-gcra-rate-limiter.ts:157-173 | under every policy there is a run in which a full bucket answers "state disappeared" |
| `GcraRuns.GrantsPushFullness` | src/infrastructure/rate-limit/postgres-gcra-rate-limiter.ts:125-148 | n grants in [a, b] push the time of fullness n intervals past a, and fit in the span plus the tolerance |
| `GcraRuns.ThroughputBound` | src/infrastructure/rate-limit/postgres-gcra-rate-limiter.ts:95-153 | at most 1 + floor((b - a + tolerance)/interval) grants in [a, b], for any interleaving and any interval > 0 |
| `GcraRuns.PolicyThroughput` | src/infrastructure/rate-limit/postgres-gcra-rate-limiter.ts:95-153 | for a policy, at most limit + floor(T·limit/window) grants in any T microseconds |
| `GcraRuns.LogIsTheAnswers` | src/infrastructure/rate-limit/postgres-gcra-rate-limiter.ts:117-153 | the grants counted above are the accepted answers the clients received |
| `GcraLimiter.PostgresGcraRateLimiter.Consume` | src/infrastructure/rate-limit/postgres-gcra-rate-limiter.ts:90-192 | on whatever tables its three statements find, the request does and answers what the statement-level machine does, in that order, with the policy of its scope |
| `GcraLimiter.PostgresGcraRateLimiter.InsertBucket` | src/infrastructure/rate-limit/postgres-gcra-rate-limiter.ts:102-119 | the INSERT is the machine's first step and touches no other key |
| `GcraLimiter.PostgresGcraRateLimiter.UpdateBucket` | src/infrastructure/rate-limit/postgres-gcra-rate-limiter.ts:121-148 | the conditional UPDATE is the machine's second step and touches no other key |
| `GcraLimiter.PostgresGcraRateLimiter.CleanupExpiredIfDue` | src/infrastructure/rate-limit/postgres-gcra-rate-limiter.ts:250-311 | a sweep if the gate lets one pass, and only picked rows go |
| `RateLimit.SweepsAreSpaced` | src/infrastructure/rate-limit/postgres-gcra-rate-limiter.ts:250-257 | over any requests, even if the host clock goes back, two sweeps are at least an interval apart |
| `RateLimit.SweepsWhenDue` | src/infrastructure/rate-limit/postgres-gcra-rate-limiter.ts:250-257 | and none is left out: a request sweeps iff every earlier one that swept lies an interval back on the host clock |
| `RateLimit.Policies.For` | src/infrastructure/rate-limit/postgres-gcra-rate-limiter.ts:95 | a scope is limited by its own policy if it has one, else by the default |
| `GcraLimiter.AcceptedRowsAreQuotable` | src/infrastructure/rate-limit/postgres-gcra-rate-limiter.ts:102-153 | every accepting statement leaves a row that meets the premise of the quota lemmas and whose arrival time is not after its expiry |
| `GcraLimiter.BatchIsHarmless` | src/infrastructure/rate-limit/postgres-gcra-rate-limiter.ts:258-285 | a batch the DELETE may pick removes nothing a later request could feel, and is bounded |
| `FixedWindow.WindowsDisjoint` | src/infrastructure/rate-limit/postgres-fixed-window-rate-limiter.ts:93-125 | windows never overlap and each request lies in its own |
| `FixedWindow.AnswersAreRanks` | src/infrastructure/rate-limit/postgres-fixed-window-rate-limiter.ts:93-150 | from any state that represents a past, a run answers by rank: the i-th request of a window passes iff i <= limit |
| `FixedWindow.AllowedIsTheRank` | src/infrastructure/rate-limit/postgres-fixed-window-rate-limiter.ts:130-150 | the decision on a request from any state that represents a past: allowed iff its rank in its window is within the limit, `remaining` is what the rank leaves of it, and a retry time is given iff it is denied |
| `FixedWindow.RankCounts` | src/infrastructure/rate-limit/postgres-fixed-window-rate-limiter.ts:93-125 | the rank is the number of requests of the same window up to and with this one |
| `FixedWindow.WindowInSeconds` | src/infrastructure/rate-limit/postgres-fixed-window-rate-limiter.ts:97-125 | a request opens a new window iff windowSeconds seconds have passed since the last one opened, and the row expires that long after its window opened |
| `FixedWindow.SweepsChangeNoAnswer` | src/infrastructure/rate-limit/postgres-fixed-window-rate-limiter.ts:181-242 | a run's answers depend on its request times alone, wherever expired rows are deleted |
| `FixedWindow.AllowedByWindow` | src/infrastructure/rate-limit/postgres-fixed-window-rate-limiter.ts:93-150 | how many of the first n requests pass within one window length, by where the current window started |
| `FixedWindow.TwiceTheLimit` | src/infrastructure/rate-limit/postgres-fixed-window-rate-limiter.ts:93-150 | any half-open interval of window length sees at most 2·limit allowed requests |
| `FixedWindow.PostgresFixedWindowRateLimiter.Consume` | src/infrastructure/rate-limit/postgres-fixed-window-rate-limiter.ts:88-151 | under the policy of its scope the request upserts its key alone and answers from the row it wrote, by `AllowedIsTheRank` the rank of the request |
| `FixedWindow.PostgresFixedWindowRateLimiter.CleanupExpiredIfDue` | src/infrastructure/rate-limit/postgres-fixed-window-rate-limiter.ts:181-242 | a sweep if the gate lets one pass (spaced as `RateLimit.SweepsAreSpaced` states), and only picked rows go |
| `FixedWindow.RemainingIsExact` | src/infrastructure/rate-limit/postgres-fixed-window-rate-limiter.ts:130-150 | of further requests before the window ends exactly `remaining` are allowed |
| `FixedWindow.RetryAfterIsExact` | src/infrastructure/rate-limit/postgres-fixed-window-rate-limiter.ts:130-150 | after a denial the advised wait, counted from the observed instant, suffices iff the milliseconds agree or the cut took at most the slack of rounding up; any smaller number of seconds suffices iff the cut had added enough |
| `FixedWindow.RetryAfterSuffices` | src/infrastructure/rate-limit/postgres-fixed-window-rate-limiter.ts:130-150 | one more millisecond always suffices |
| `FixedWindow.ResetIsExact` | src/infrastructure/rate-limit/postgres-fixed-window-rate-limiter.ts:130-150 | for every decision: when the reset time, counted from the observed instant, and every smaller number of seconds reach the expiry, and that one more millisecond always suffices |
| `Users.FingerprintInjective` | src/modules/users/application/create-user.service.ts:69-74 | the text that is hashed separates any two payloads whose emails hold no newline |
| `Users.FingerprintNeedsOneLine` | src/modules/users/application/create-user.service.ts:69-74 | with a newline in an email two different payloads share one text |
| `Users.CreateKeepsInv` | src/modules/users/infrastructure/drizzle-user.repository.ts:363-382 | a plain create keeps ids, (tenant, email) uniqueness and the ledger invariant |
| `Users.CreateAnswers` | src/modules/users/infrastructure/drizzle-user.repository.ts:363-382 | a plain create fails iff the tenant has the email, and then changes nothing; otherwise it adds and answers exactly one user: fresh id, tenant, email and name as sent, version 1, created at now() to the nearest millisecond |
| `Users.CreateIdempotentlyKeepsInv` | src/modules/users/application/create-user.service.ts:62-117 | the transaction commits a state in which every ledger row is complete and points to a live user of its tenant, never answers "inconsistent", changes nothing unless it creates, and then leaves one completed row with its expiry |
| `Users.CreateOnceAnswers` | src/modules/users/application/create-user.service.ts:62-117 | each answer of an idempotent create, from the ledger row of tenant and key and the emails in use: reused iff the live row has another fingerprint, replayed with its user iff it has this one, otherwise as a plain create, with the user it was sent |
| `Users.CreateOnceStores` | src/modules/users/application/create-user.service.ts:75-116 | a creation stores the user and one ledger row with the fingerprint of the payload, the new id and an expiry 86400 s later; any other answer changes nothing |
| `Users.CompletesOnce` | src/modules/users/infrastructure/drizzle-user-creation-idempotency.repository.ts:97-122 | a claimed row is completed only under the fingerprint it was claimed with, and only once |
| `Users.UpdateKeepsInv` | src/modules/users/infrastructure/drizzle-user.repository.ts:286-361 | an update keeps the invariants |
| `Users.DeleteKeepsInv` | src/modules/users/infrastructure/drizzle-user.repository.ts:242-284 | a delete with its cascade keeps the invariants, so no ledger row dangles |
| `Users.SweepKeepsInv` | src/modules/users/infrastructure/drizzle-user-creation-idempotency-maintenance.ts:21-82 | a ledger sweep keeps the invariants |
| `Users.UserStore.ClaimKey` | src/modules/users/infrastructure/drizzle-user-creation-idempotency.repository.ts:21-95 | an undisturbed claim takes over an absent or expired row and reports a live one |
| `Users.UserStore.InsertUser` | src/modules/users/infrastructure/drizzle-user.repository.ts:363-382 | a duplicate (tenant, email) changes nothing, otherwise exactly one row is added, the one `CreateAnswers` describes |
| `Users.UserStore.CompleteKey` | src/modules/users/infrastructure/drizzle-user-creation-idempotency.repository.ts:97-122 | completes only an incomplete row with the same fingerprint |
| `Users.UserStore.CreateOnce` | src/modules/users/application/create-user.service.ts:62-117 | the ordered writes with rollback amount to the one-step transaction, keep the invariant, and never reach the "inconsistent" branches; `CreateOnceAnswers` and `CreateOnceStores` say what it answers and stores |
| `Users.UserStore.UpdateUser` | src/modules/users/infrastructure/drizzle-user.repository.ts:286-361 | the conditional update as a state change, one row and one version step |
| `Users.UserStore.DeleteById` | src/modules/users/infrastructure/drizzle-user.repository.ts:242-284 | the conditional delete with its cascade as a state change |
| `UserRuns.LedgerInvariant` | src/modules/users/application/create-user.service.ts:83-113 | after any legal run every ledger row is complete and points to a live user of its tenant, and no next create answers "inconsistent" |
| `UserRuns.RunIsLater` | src/modules/users/infrastructure/drizzle-user.repository.ts:292-348 | over any run versions never go back, content changes only with the version, creation times and tenants are fixed and a deleted id never returns |
| `UserRuns.UpdateAnswers` | src/modules/users/infrastructure/drizzle-user.repository.ts:292-348 | updated, not_found and precondition_failed answers are exact, failures change nothing, and a success changes the named fields of that row and moves v to v + 1 |
| `UserRuns.DeleteAnswers` | src/modules/users/infrastructure/drizzle-user.repository.ts:247-279 | the answers of a delete are exact, and it removes that row and exactly the ledger rows that point to it |
| `UserRuns.ReadAndSweepAnswers` | src/modules/users/infrastructure/drizzle-user.repository.ts:116-129 | a read answers the stored user of that id and tenant, a sweep removes the picked rows, and neither changes anything else |
| `UserRuns.CursorListAnswers` | src/modules/users/infrastructure/drizzle-user.repository.ts:205-240 | a cursor list answers from the tenant's rows at its commit: the first ones after the cursor, up to the limit, and whether there are more |
| `UserRuns.OffsetListAnswers` | src/modules/users/infrastructure/drizzle-user.repository.ts:146-203 | an offset list answers the tenant's rows that stand at the places of its page, and their total |
| `UserRuns.VersionNamesContent` | src/modules/users/infrastructure/drizzle-user.repository.ts:292-348 | over a run an (id, version) pair names one row content |
| `UserRuns.OneWriteWins` | src/modules/users/infrastructure/drizzle-user.repository.ts:23-35 | of two writes conditioned on the same version of an id at most one succeeds, whatever runs in between |
| `UserRuns.WriteSeesWhatWasRead` | src/modules/users/presentation/user-etag.ts:6-32 | a write carrying the entity tag of a read succeeds only if the row is still the one read |
| `UserRuns.RowPersists` | src/db/schema/user-creation-idempotency.ts:7-15 | a completed ledger row is unchanged by any run until it expires or its user is deleted |
| `UserRuns.ReplayWithinADay` | src/modules/users/application/create-user.service.ts:69-116 | within 86400 s and while the user lives an equal payload replays that user, a different one fails, and nothing changes |
| `UserRuns.ExactlyOncePerKey` | src/modules/users/application/create-user.service.ts:69-116 | two creations under one (tenant, key) are a day apart or separated by the deletion of the first user |
| `UserRuns.KeyExpires` | src/modules/users/application/create-user.service.ts:69-116 | a day after a creation, with its row unchanged or gone, the same key creates again, unless the email is taken |
| `UserRuns.OwnStep` | src/modules/users/infrastructure/drizzle-user.repository.ts:116-382 | in two worlds that agree on a tenant, its request gets one answer and leaves them in agreement |
| `UserRuns.ForeignStep` | src/modules/users/infrastructure/drizzle-user.repository.ts:116-382 | another tenant's request or a sweep leaves the tenant's view as it was |
| `UserRuns.TenantsDoNotInterfere` | src/modules/users/infrastructure/drizzle-user.repository.ts:116-382 | dropping every foreign request and every sweep from a run leaves it legal and all answers to the tenant unchanged |
| `UserRuns.WalkOverARun` | src/modules/users/infrastructure/drizzle-user.repository.ts:205-240 | a cursor walk with any requests between its pages descends, never repeats an id, and if finished holds every row present throughout |
| `UserPaging.SortedIsTheRows` | src/modules/users/infrastructure/drizzle-user.repository.ts:216-234 | the sorted list holds exactly the rows, in strictly descending (createdAt, id) order |
| `UserPaging.DescendingUnique` | src/modules/users/infrastructure/drizzle-user.repository.ts:216-234 | that order determines the list |
| `UserPaging.OffsetPageExact` | src/modules/users/application/list-users.service.ts:24-40 | for every page number: the i-th user of the page has exactly (page - 1)·perPage + i rows newer than it, or as new with a larger id; the page is as full as the rows allow; page, perPage, total and the page count are right |
| `UserPaging.CursorPageExact` | src/modules/users/application/list-users-cursor.service.ts:26-43 | a cursor page holds the first rows after the cursor, up to the limit; there are more iff more rows follow the cursor than fit, and only then the next cursor names the last row |
| `UserPaging.WalkDescends` | src/modules/users/infrastructure/drizzle-user.repository.ts:216-234 | keys of a walk over arbitrary tables strictly descend below its start |
| `UserPaging.WalkNeverRepeats` | src/modules/users/application/list-users-cursor.service.ts:30-41 | no id comes twice while creation times are stable |
| `UserPaging.FinishedWalkIsComplete` | src/modules/users/application/list-users-cursor.service.ts:30-41 | a finished walk holds every key present in all tables at exactly one place |
| `UserPaging.PageCountIsCeil` | src/modules/users/application/list-users.service.ts:26-39 | pages taken one by one number max(1, ceil(n/limit)) |
| `UserPaging.FrozenWalk` | src/modules/users/application/list-users.service.ts:26-39 | on a frozen table the walk reads the whole sorted list in max(1, ceil(n/limit)) = totalPages pages, each the offset page of its number |
| `LedgerClaim.ClaimRepository.ClaimLoop` | src/modules/users/infrastructure/drizzle-user-creation-idempotency.repository.ts:21-95 | under any interference it acts and answers as the atomic claim on the row met by its first deciding statement, and throws only if none of nine decides |
| `LedgerClaim.ClaimRepository.Round` | src/modules/users/infrastructure/drizzle-user-creation-idempotency.repository.ts:29-91 | the same of one UPDATE, INSERT and SELECT |
| `LedgerClaim.AtomicClaimIsClaimRow` | src/modules/users/infrastructure/drizzle-user-creation-idempotency.repository.ts:29-94 | the atomic claim on one row is the transaction-level claim, which leaves users and other keys alone |
| `LedgerClaim.QuietRoundDecides` | src/modules/users/infrastructure/drizzle-user-creation-idempotency.repository.ts:29-91 | without interference the first attempt resolves, on the row as it was |
| `ClaimExhaustion.EveryTransactionIsAMove` | src/modules/users/infrastructure/drizzle-user-creation-idempotency.repository.ts:29-122 | every request and every sweep of the service leaves a ledger row as it was or makes one of the moves counted below: a claim at its own now(), a sweep at its own now(), or a cascade |
| `ClaimExhaustion.ExpiryNeverGoesBack` | src/modules/users/infrastructure/drizzle-user-creation-idempotency.repository.ts:32-67 | as long as no move deletes the row its expiry never goes back |
| `ClaimExhaustion.ExhaustionCost` | src/modules/users/infrastructure/drizzle-user-creation-idempotency.repository.ts:94 | if the claims that others commit began less than a day before, the thrown error needs three deletions and two insertions by them, three if there was no row at first |
| `ClaimExhaustion.ExhaustionCostsAnyway` | src/modules/users/infrastructure/drizzle-user-creation-idempotency.repository.ts:94 | whenever others began, the error needs a deletion and an insertion, two deletions if the row was there at first, two insertions if it was not |
| `ClaimExhaustion.ExhaustionNeedsNoMore` | src/modules/users/infrastructure/drizzle-user-creation-idempotency.repository.ts:94 | three cascades and two young claims, each with a row of its own, do exhaust the loop |
| `ClaimExhaustion.OldClaimsExhaust` | src/modules/users/infrastructure/drizzle-user-creation-idempotency.repository.ts:94 | with claims that began a day before or earlier, one deletion and two insertions do, from no row |
| `ClaimExhaustion.OldClaimsExhaustLive` | src/modules/users/infrastructure/drizzle-user-creation-idempotency.repository.ts:94 | and two deletions and one insertion do, from a live row |
| `IpAddress.ParseIpv4` | src/core/network/ip-cidr.ts:13-41 | the octet loops compute the positional value of four short decimals or reject |
| `IpAddress.ParseIpv6Groups` | src/core/network/ip-cidr.ts:43-100 | the group parser with one `::` and an IPv4 tail, including the tail the code accepts before a trailing `::` |
| `IpAddress.EightGroups` | src/core/network/ip-cidr.ts:84-100 | whatever is accepted has eight groups below 65536 |
| `IpAddress.CanonicalizeIpv6` | src/core/network/ip-cidr.ts:102-131 | the one-pass scan compresses the first longest zero run of two or more groups (RFC 5952 section 4.2), or none |
| `IpAddress.FirstLongestRunUnique` | src/core/network/ip-cidr.ts:103-121 | there is only one such run |
| `IpAddress.FoldInjective` | src/core/network/ip-cidr.ts:160-163 | equally long group lists of one value are equal |
| `IpAddress.ParseIpv6` | src/core/network/ip-cidr.ts:133-170 | value and text of a version-6 address; an IPv4-mapped one becomes version 4 |
| `IpAddress.ParseIpAddress` | src/core/network/ip-cidr.ts:172-174 | a colon selects the version-6 parser |
| `IpRoundTrip.RoundTrip` | src/core/network/ip-cidr.ts:13-174 | parsing the canonical text of any parsed address gives the same version, value and text |
| `IpRoundTrip.CanonicalIdentifies` | src/core/network/ip-cidr.ts:13-174 | canonical texts are equal iff version and value are |
| `IpRoundTrip.CanonicalForm` | src/core/network/ip-cidr.ts:102-131 | the text of a version-6 address shortens the first longest zero run and no other |
| `IpRoundTrip.CanonicalParses` | src/core/network/ip-cidr.ts:43-131 | printing eight groups and parsing the text returns them |
| `IpRoundTrip.ValueBound` | src/core/network/ip-cidr.ts:13-170 | values fit 32 or 128 bits |
| `IpExact.Ipv4Exact` | src/core/network/ip-cidr.ts:13-41 | a dotted text is read iff it writes four numbers up to 255 without leading zeros; the value is their positional value and the text its own canonical form |
| `IpExact.TokensExact` | src/core/network/ip-cidr.ts:58-82 | a token list is read iff each token has one to four hexadecimal digits, except that a dotted text may end it where allowed and stands for its upper and lower 16 bits |
| `IpExact.Ipv6Exact` | src/core/network/ip-cidr.ts:43-100 | a text is read as groups iff it denotes them: eight tokens' worth without a double colon, or with exactly one, at most seven around it and zeros between; no zone |
| `IpExact.ColonTextExact` | src/core/network/ip-cidr.ts:133-174 | a text with a colon is an address iff it denotes eight groups; behind 0:0:0:0:0:ffff it is the version-4 address of the last two, otherwise the version-6 address of all |
| `IpExact.DottedTextExact` | src/core/network/ip-cidr.ts:172-174 | a text without a colon is read as the dotted text it is |
| `IpExact.MappedText` | src/core/network/ip-cidr.ts:66-76 | `::ffff:` before the text of a version-4 address is read as that address |
| `IpExact.Fold8` | src/core/network/ip-cidr.ts:160-163 | the value of eight groups is positional in base 65536 |
| `IpExact.RunIsMaximal` | src/core/network/ip-cidr.ts:106-114 | the zero runs that compete for shortening end at the last group or before one that is not zero |
| `IpCidr.ParsedIsWellFormed` | src/core/network/ip-cidr.ts:176-201 | a parsed block has a legal prefix, no host bits, fits the address space and contains the address it was written with |
| `CidrExact.BlockExact` | src/core/network/ip-cidr.ts:176-201 | a text is a block iff it writes an address, a slash and a prefix length without leading zeros of at most 32 or 128; the block has that prefix length, and as network the address with the host bits cleared |
| `CidrExact.BlockMembers` | src/core/network/ip-cidr.ts:203-212 | a parsed block holds exactly the 2^(32 or 128 - prefix length) addresses from its network on, all within the range of its version |
| `IpCidr.MembershipIsInterval` | src/core/network/ip-cidr.ts:203-212 | membership is network <= value < network + 2^hostBits |
| `IpCidr.NestedOrDisjoint` | src/core/network/ip-cidr.ts:203-212 | two blocks of one version are nested or disjoint |
| `TrustedProxy.ParseForwardedChain` | src/http/trusted-proxy-client-address.ts:13-32 | the chain is read within the caps and only if every hop parses |
| `TrustedProxy.WalkHops` | src/http/trusted-proxy-client-address.ts:67-74 | the right-to-left walk returns the rightmost untrusted hop, or the leftmost if all are trusted |
| `TrustedProxy.ResolveClientAddress` | src/http/trusted-proxy-client-address.ts:45-75 | the whole resolver; `HeaderIgnored` says what each fallback answers, `RightmostUntrusted` the rest |
| `TrustedProxy.HeaderIgnored` | src/http/trusted-proxy-client-address.ts:48-66 | for every header: an untrusted peer is answered in canonical form, so is a trusted one without a readable header, an unreadable peer address as it is, and no address with none |
| `TrustedProxy.TrustedExactly` | src/http/trusted-proxy-client-address.ts:45-46 | an address is trusted iff it lies in the interval of one of the blocks |
| `TrustedProxy.ChainExact` | src/http/trusted-proxy-client-address.ts:13-32 | a header is read iff it has 1 to 4096 characters, at most 32 parts and each trimmed part is an address; those are the hops in order |
| `TrustedProxy.ClientHopMeans` | src/http/trusted-proxy-client-address.ts:67-74 | the client hop has only trusted hops to its right and is itself untrusted unless leftmost |
| `TrustedProxy.RightmostUntrusted` | src/http/trusted-proxy-client-address.ts:45-75 | the answer is the hop with only trusted hops to its right, itself untrusted unless leftmost |
| `TrustedProxy.ClientHopUnique` | src/http/trusted-proxy-client-address.ts:67-74 | there is only one such hop |
| `TrustedProxy.PrependingHops` | src/http/trusted-proxy-client-address.ts:13-75 | once an untrusted hop exists, prepended text leaves the answer as it was if readable within the caps, and otherwise yields the peer |
| `EntityTag.SplitEntityTagList` | src/modules/users/presentation/user-etag.ts:56-100 | the one-pass splitter with its quotation flag computes the specified segmentation |
| `EntityTag.SplitOfWritten` | src/modules/users/presentation/user-etag.ts:56-100 | splitting any written list of well-formed tags, commas inside quotes and blanks around members included, returns the list |
| `EntityTag.SplitIsExact` | src/modules/users/presentation/user-etag.ts:56-100 | it returns a list iff the value is a written form of that list |
| `EntityTag.TagGrammar` | src/modules/users/presentation/user-etag.ts:90-97 | the members of a list are quoted texts of printable characters other than space and quotation mark, or of the upper half of Latin-1, with an optional W/ |
| `EntityTag.VersionTagExact` | src/modules/users/presentation/user-etag.ts:47-54 | a tag carries a version iff it is the tag formatted for it |
| `EntityTag.ParseUserIfMatch` | src/modules/users/presentation/user-etag.ts:13-32 | the loop collects each strong version once; `IfMatchCases` and `IfMatchExact` say what comes out |
| `EntityTag.IfMatchCases` | src/modules/users/presentation/user-etag.ts:13-32 | the write is unconditional iff the trimmed header is `*`, conditional iff it is a written list of tags, and malformed otherwise |
| `EntityTag.IfMatchExact` | src/modules/users/presentation/user-etag.ts:13-32 | If-Match yields exactly the listed strong versions, never a weak one |
| `EntityTag.IfNoneMatchExact` | src/modules/users/presentation/user-etag.ts:34-45 | If-None-Match matches iff the current version is listed, weak or strong |
| `EntityTag.IfNoneMatchCases` | src/modules/users/presentation/user-etag.ts:34-45 | `*` matches any version, and a header that is neither that nor a written list is malformed |
| `EntityTag.TagRoundTrip` | src/modules/users/presentation/user-etag.ts:6-32 | the tag formatted for a version, sent back, names that version alone |
| `RetryPolicy.BackoffBound` | src/infrastructure/http/retry-policy.ts:317-324 | backoff is a whole number of ms within min(maxDelay, base·2^(k-1)) |
| `RetryPolicy.BackoffExact` | src/infrastructure/http/retry-policy.ts:317-324 | without Retry-After the delay is the floor of min(maxDelay, base·2^(k-1)) times the sample held between 0 and 1, and an error iff the random hook fails |
| `RetryPolicy.RetryConditions` | src/infrastructure/http/retry-policy.ts:270-296 | no retry iff the budget is spent, the method is not opted in, or the status is not retryable; delays are never negative |
| `RetryPolicy.RetriedExactly` | src/infrastructure/http/retry-policy.ts:270-296 | a failure is repeated iff retries are left, the mode is idempotent or, without a mode, the method GET, HEAD or OPTIONS, and it was a transport failure or status 408, 429, 502, 503 or 504 |
| `RetryPolicy.RetryAfterHonoured` | src/infrastructure/http/retry-policy.ts:298-315 | a numeric Retry-After is honoured to the second, saturating at the largest safe integer, whatever the backoff cap |
| `RetryPolicy.RetryAfterDate` | src/infrastructure/http/retry-policy.ts:298-315 | a Retry-After date means the time left until then, at least zero, and a local error if the clock hook fails; text that is neither number nor date is ignored |
| `HttpRetry.RequestClock.Now` | src/infrastructure/http/fetch-http-client.ts:1418-1448 | a reading is accepted iff it is finite and not before the last accepted one |
| `HttpRetry.JudgeFailure` | src/infrastructure/http/fetch-http-client.ts:1243-1276 | another attempt only with the policy's delay, counted from this reading, strictly before the deadline; giving up only if the policy asks for none or its delay reaches the deadline |
| `HttpRetry.RunAttempt` | src/infrastructure/http/fetch-http-client.ts:442-610 | one pass: the fetch gets max(1, ceil(min(attempt limit, what the deadline leaves at its own clock reading))), and the pass ends, or asks for another, for the reason that applies at its own readings |
| `HttpRetry.ExecuteRequest` | src/infrastructure/http/fetch-http-client.ts:439-611 | the loop makes the attempts, fetches and sleeps, and returns the result, that the clock, the policy and the attempts determine |
| `HttpRetry.Execute` | src/infrastructure/http/fetch-http-client.ts:317-333 | the same for a whole request from its first clock reading |
| `HttpRetry.RunDetermined` | src/infrastructure/http/fetch-http-client.ts:439-611 | attempts, fetches with their readings and limits, sleeps and result of a run are unique: nothing is left to choice |
| `HttpRetry.FetchBound` | src/infrastructure/http/fetch-http-client.ts:442-611 | at most maxRetries + 1 fetches, one for a method not opted in, another only after a transport failure or a retryable status and so never after a 2xx |
| `HttpRetry.ResultOfLastFetch` | src/infrastructure/http/fetch-http-client.ts:442-610 | success carries the status of the last fetch, a 2xx; giving up follows a transport failure or another status; timing out a timed-out fetch or a clock at the deadline; and a 2xx is always the last fetch |
| `HttpRetry.RetriedWhenItFits` | src/infrastructure/http/fetch-http-client.ts:496-511 | no retry is skipped: a failure whose delay ends before the deadline is followed by another fetch if the sleep works, the clock is still before the deadline and a signal is there |
| `HttpRetry.BudgetShrinks` | src/infrastructure/http/fetch-http-client.ts:443-460 | the budget of an attempt is what the deadline leaves at its reading: positive, at most the timeout, never more than an earlier attempt had, and it bounds the limit of the fetch |
| `HttpRetry.LimitRoundsUp` | src/infrastructure/http/fetch-http-client.ts:449-457 | the limit of a fetch is the budget or the attempt limit, whichever is less, rounded up to a whole millisecond |
| `HttpRetry.SleepsExact` | src/infrastructure/http/fetch-http-client.ts:496-511 | the sleeps of a run are exactly the positive delays the policy answered to its repeated attempts, in order |
| `HttpRetry.SleepsWithinTimeout` | src/infrastructure/http/fetch-http-client.ts:496-511 | while each sleep advances the clock by its delay, all delays total less than the timeout |
| `HttpRetry.NoLocalError` | src/infrastructure/http/fetch-http-client.ts:442-611 | a local error means a failing hook, clock, signal or response object |
| `ErrorChain.WalkErrorChain` | src/infrastructure/database/database-error.ts:36-51 | on any graph, cyclic or not, the loop ends and lists the metadata of the walk |
| `ErrorChain.Chain` | src/infrastructure/database/database-error.ts:36-51 | the walk is the cause chain up to its first repetition |
| `ErrorChain.WalkVisitsTheReachable` | src/infrastructure/database/database-error.ts:36-51 | it visits each reachable error exactly once and nothing else |
| `ErrorChain.WalkUnique` | src/infrastructure/database/database-error.ts:36-51 | there is only one such walk |
| `ErrorChain.ReasonIsNearest` | src/infrastructure/database/database-error.ts:94-110 | retryable iff some reachable error carries one of the two codes, with the reason of the nearest |
| `ErrorChain.ReasonExactly` | src/infrastructure/database/database-error.ts:94-110 | serialization failure iff 40001 occurs in the chain with no 40P01 nearer, deadlock iff 40P01 with no 40001 nearer, none iff neither occurs |
| `ErrorChain.NormalizationKeepsReason` | src/infrastructure/database/database-error.ts:132-160 | normalization never changes the retry decision or its reason |
| `ErrorChain.NormalizationIdempotent` | src/infrastructure/database/database-error.ts:132-160 | normalizing twice is normalizing once, and every reachable error stays reachable |
| `ErrorChain.NormalizationClasses` | src/infrastructure/database/database-error.ts:132-160 | busy, timeout, unavailable or unchanged, decided in this order by the reachable errors; the old error is the cause |
| `ErrorChain.ClassTables` | src/infrastructure/database/database-error.ts:116-154 | the codes of the three classes |
| `ErrorChain.TimeoutMessages` | src/infrastructure/database/database-error.ts:76-88 | the two pool messages, in capital or small letters |
| `ErrorChain.NormalizationLeaves` | src/infrastructure/database/database-error.ts:132-135 | application errors, and thrown values that are no objects, are left alone |
| `TransactionRetry.RetryDelayMs` | src/infrastructure/database/drizzle-transaction-manager.ts:349-373 | a delay within min(maxDelay, base·2^(k-1)), or none iff the random hook fails |
| `TransactionRetry.DelayIsShare` | src/infrastructure/database/drizzle-transaction-manager.ts:349-373 | the delay is the floor of min(maxDelay, base·2^(k-1)) times the sample held between 0 and 1 |
| `TransactionRetry.RunUnique` | src/infrastructure/database/drizzle-transaction-manager.ts:315-334 | the number of attempts is determined by the database and the hooks, not by the observer |
| `TransactionRetry.AttemptIsMade` | src/infrastructure/database/drizzle-transaction-manager.ts:315-334 | attempt n is made iff n is within maxAttempts and every attempt before it threw a retryable error and got its random number and its sleep |
| `TransactionRetry.ExactlyOnceOrNotAtAll` | src/infrastructure/database/drizzle-transaction-manager.ts:295-335 | a run commits its effect once or not at all: just when its last attempt did |
| `TransactionRetry.LateRetryableErrorDoubles` | src/infrastructure/database/drizzle-transaction-manager.ts:315-334 | without the database's promise a concrete run commits twice |
| `TransactionRetry.TotalWait` | src/infrastructure/database/drizzle-transaction-manager.ts:328-373 | all delays together are within attempts·maxDelay and base·(2^n - 1) |
| `TransactionRetry.Database.Transaction` | src/infrastructure/database/drizzle-transaction-manager.ts:304-307 | one transaction adds others' commits and its own effect or nothing |
| `TransactionRetry.TransactionManager.ExecuteAttempt` | src/infrastructure/database/drizzle-transaction-manager.ts:308-309 | an observer changes the reported error and nothing else |
| `TransactionRetry.TransactionManager.RunOnce` | src/infrastructure/database/drizzle-transaction-manager.ts:311-313 | without retry there is one attempt and its answer |
| `TransactionRetry.TransactionManager.JudgeFailure` | src/infrastructure/database/drizzle-transaction-manager.ts:320-347 | another attempt iff the error of this one is retryable, attempts are left and both hooks work |
| `TransactionRetry.TransactionManager.RunSafe` | src/infrastructure/database/drizzle-transaction-manager.ts:315-347 | with or without observer the loop makes the determined attempts, at most maxAttempts, commits what they commit, waits as the policy says, and answers with the last attempt or a hook failure |
| `Lifecycle.EveryFailureIsReported` | src/core/lifecycle/application-lifecycle.ts:37-55 | closing resolves iff all hooks do; each failing hook is reported once under its name |
| `Lifecycle.ErrorsInOrder` | src/core/lifecycle/application-lifecycle.ts:37-55 | the errors come in the order in which the hooks settled |
| `Lifecycle.StepsKeepInv` | src/core/lifecycle/application-lifecycle.ts:13-55 | registering, close() and each settled hook keep: the hooks settled so far followed by those in the queue are the resources in reverse order, the promise settles with the last as they did, and resources are fixed from close() on |
| `Lifecycle.ApplicationLifecycle.Register` | src/core/lifecycle/application-lifecycle.ts:13-18 | registers before shutdown, refuses and changes nothing after |
| `Lifecycle.ApplicationLifecycle.Close` | src/core/lifecycle/application-lifecycle.ts:20-35 | the first call starts closing with the last registered resource; any other changes nothing |
| `Lifecycle.ApplicationLifecycle.ResumeClosing` | src/core/lifecycle/application-lifecycle.ts:37-55 | one turn of the loop: the pending hook is closed, a failure noted, and the next of the loop's own list called or the promise settled with all failures |
| `GracefulShutdown.StepKeepsInv` | src/app/lifecycle/graceful-shutdown.ts:161-226 | every call, settlement and timeout keeps the order of a shutdown and what its promise reports |
| `GracefulShutdown.InOrder` | src/app/lifecycle/graceful-shutdown.ts:176-226 | in any interleaving of calls and settlements draining begins once and first, one graceful stop follows, then at most two forced stops, and the closing of the lifecycle last |
| `GracefulShutdown.ClosedOnceInReverse` | src/core/lifecycle/application-lifecycle.ts:20-55 | in any run the hooks settled are a prefix of the reverse registration order, and all of it, each once, when the promise settles with their failures, whoever calls close() |
| `GracefulShutdown.ClosedAfterStops` | src/app/lifecycle/graceful-shutdown.ts:196-219 | unless somebody else calls close(), the lifecycle is closed only after the last stop |
| `GracefulShutdown.CallsAreMemoized` | src/app/lifecycle/graceful-shutdown.ts:161-174 | shutdown() and close() called again, by hooks or anybody, and register() afterwards, change nothing |
| `GracefulShutdown.FinishedReports` | src/app/lifecycle/graceful-shutdown.ts:182-226 | a finished shutdown reports every failure of its hooks and of the lifecycle in order, and stays as it is whatever comes later |
| `GracefulShutdown.FailuresInOrder` | src/app/lifecycle/graceful-shutdown.ts:182-219 | which events are failures: any hook that rejects and a lifecycle that closes with errors, not a timeout; they are reported in order |
| `GracefulShutdown.SettlingIsProgress` | src/app/lifecycle/graceful-shutdown.ts:176-226 | over any run the settlements and timeouts are at most what was left at first plus the registrations made |
| `GracefulShutdown.ClosingIsProgress` | src/app/lifecycle/graceful-shutdown.ts:176-226 | once close() was called they are at most what is left, whatever is called |
| `GracefulShutdown.FinishesIfAllSettle` | src/app/lifecycle/graceful-shutdown.ts:176-226 | a run of a begun shutdown that no longer waits for any settlement has finished |
| `GracefulShutdown.ReachesTheEnd` | src/app/lifecycle/graceful-shutdown.ts:176-226 | from any state of a begun shutdown, however its hooks settle, at most as many settlements as are left lead to the end |
| `GracefulShutdown.AlwaysWaitsForSomething` | src/app/lifecycle/graceful-shutdown.ts:176-226 | a shutdown under way always waits for a hook, a resource or the lifecycle |
| `GracefulShutdown.AllReportedUnlessLate` | src/app/lifecycle/graceful-shutdown.ts:192-226 | all failures are reported iff the graceful stop does not fail after its timeout |
| `GracefulShutdown.LateFailureIsLost` | src/app/lifecycle/graceful-shutdown.ts:244-258 | a concrete run that ends as completed although its graceful stop failed |
| `GracefulShutdown.GracefulShutdownCoordinator.Shutdown` | src/app/lifecycle/graceful-shutdown.ts:161-174 | the first call sets the promise before draining begins; any other changes nothing |
| `GracefulShutdown.GracefulShutdownCoordinator.Resume` | src/app/lifecycle/graceful-shutdown.ts:176-219 | performShutdown from one await to the next, calling close() of the lifecycle after the last stop |
| `GracefulShutdown.GracefulShutdownCoordinator.TimeOut` | src/app/lifecycle/graceful-shutdown.ts:198-205 | a graceful stop past its timeout leads to a forced one |
| `GracefulShutdown.GracefulShutdownCoordinator.StopSettlesLate` | src/app/lifecycle/graceful-shutdown.ts:244-258 | a timed-out stop that settles later changes no more than the record of it |
| `GracefulShutdown.GracefulShutdownCoordinator.Conclude` | src/app/lifecycle/graceful-shutdown.ts:215-226 | the settled lifecycle ends the shutdown, with all noted failures |

## Left out

- PostgreSQL's own machinery: statements are atomic, transactions that touch users are taken one after another, and lock waits are not modelled; `LedgerClaim` alone looks inside a transaction.
- The rows a cleanup batch picks are an input, bound only to be expired; `RateLimit.IsBatch` says what the statement's ORDER BY and LIMIT allow.
- The cleanup interval is a constructor parameter; its computation from the shortest window, a failing cleanup (equal to an empty batch) and the deleted-row count are not modelled.
- Rounding of the emission interval to microseconds by make_interval: the throughput bound holds for any interval above zero, the exact quota claims are for the unrounded values.
- Floating-point rounding in quota, backoff and deadline arithmetic: integers and reals are exact.
- Fixed-window upserts take effect in the order of their now(); a transaction that started earlier but writes later is not modelled.
- 32-bit overflow of version and request counters.
- Validation of requests and options, and reading hooks off option objects: hooks are taken as validated.
- Observers, metrics, tracing and logging, except that the database observer normalizes errors.
- SHA-256 is taken as free of collisions.
- Emails and names arrive normalized; trimming and lower-casing belong to the request schema.
- The text of cursors and of database timestamps.
- HTTP headers, URL resolution, bodies and their disposal: an attempt's body either decodes or not.
- A custom HTTP retry policy; only the default policy is modelled.
- The list of trusted CIDR texts and its construction error; the resolver starts from parsed networks.
- Getters of error objects that answer differently on each read.
- Progress of a shutdown whose hooks never settle, among them a resource hook that awaits its own lifecycle's closing; what it has done so far is covered.
- The observer's retry telemetry in the transaction manager.
