# Verification model of the auth service

This project models the stateful core of the service and proves what it promises over whole
runs. Verify it with `dafny verify dfyconfig.toml`.

| file | what it models |
|---|---|
| `History.dfy`, `HistoryLaws.dfy` | the history triggers of the tracked tables, generic in key and payload, and what the history says about the past |
| `Lex.dfy`, `Roles.dfy` | `SetRoles` on top of the `tb_user_role` trigger |
| `Store.dfy` | the `seg` tables the authentication flows touch, and transactions over them |
| `Sessions.dfy`, `Passwords.dfy`, `EmailChange.dfy`, `Signup.dfy`, `Login.dfy`, `Quota.dfy` | the flows: for each operation a method that does what the service does, call by call, and the function on tables it is proved equal to |
| `Machine.dfy` | all flows as one state machine; a run is any sequence of operations, each with its own instant and its own set of failing calls |
| `FamilyLaws.dfy`, `CodeLaws.dfy`, `RecoveryLaws.dfy`, `LockoutLaws.dfy`, `AtomicityLaws.dfy` | laws over runs of that machine |
| `RequestLaws.dfy`, `OutcomeLaws.dfy` | for every operation the exact condition of each answer and the whole effect on the tables, in the rows and the configured numbers themselves |
| `Interleaving.dfy`, `RevocationLaws.dfy` | refresh-token transactions interleaved statement by statement, with the snapshot of the revoking UPDATE |
| `Text.dfy`, `Schema.dfy`, `Runner.dfy` | the schema directory and the runner under its ledger |
| `Retry.dfy` | the connection retry loop |
| `PasswordHash.dfy` | the stored form of a password hash |

Time is an integer read once per operation. Random values (tokens, families, codes, ids) are
parameters; a token or a code that collides with a stored one takes the branch the unique
constraint forces, and laws that need a fresh family say so (`FreshRun`). SHA-256 is a free
constructor, so one-to-one. A set of failing calls is a parameter of every operation, so each
law holds at every failure point.

What the proofs show about the code that its own texts do not say:

- Between two lifetimes of a key nothing orders the history. `UnambiguousIffInTime` gives the
  exact condition, for every run and with no assumption on clocks: no instant is ever covered
  twice iff no statement brings the key back in, by an insert or by changing another row's key,
  dated before the end of an earlier interval. `KeyChangeEntersTooEarly` is a run that fails it.
- Rows stored before the triggers existed (`database/init/06-seeds.sql:39-61`) have no history,
  on purpose (`database/diagram_base.txt:666`). The laws carry them as "dark" keys until the
  first recorded write.
- `database/init/03-seg-tables.sql:75-78` says that a new code invalidates the older ones of its
  purpose. The code does this for EMAIL_CHANGE only: `NewResetCodeInvalidatesNothing` gives the
  condition under which a new recovery code is the only unused one, `OlderResetCodeComesBack`
  the condition under which an older one works after a newer was spent, and
  `OlderCodeIsSpentAfterNewer` a run in which it does.
- `database/init/03-seg-tables.sql:86-88` says that a code is rejected if the address changed
  meanwhile. No flow compares a stored target with the account's present address. For address
  changes the rule holds all the same, by invalidation: over every run the code spent was created
  after the account's last move (`ChangeHonoursAddress`). For recovery it does not:
  `ResetHonoursTargetIff` gives the exact condition, over every run: the code spent was sent to
  the present address iff the account has not moved since the code was created, or last moved
  back. `StaleTargetIsAccepted` is a run that fails it.
- Revocation can be outrun. As one atomic step, presenting a rotated token again kills its family,
  and a reset, password change or address change signs the user out. Interleaved with a rotation
  of the family's live token they need not: the revoking UPDATE waits for the row, finds it
  revoked, and never sees the successor, which is not in its snapshot (`ReuseCanBeOutrun`,
  `SignOutCanBeOutrun`). `RevocationKillsIff` gives the exact condition, for every interleaving
  between the start of the UPDATE and its commit.
- A wrong code whose attempt the store fails to record is compared but not counted; the caller
  gets a store error (`UncountedGuessIsAStoreError`). The compared codes exceed the bound on
  counted ones by exactly those, and without limit (`ComparisonsAreLimited`,
  `ComparisonsAreUnbounded`).
- `api/API.md:330-331` says that the sessions of a suspended account expire by themselves. A
  rotation never looks at the account (`RefreshIgnoresUsers`) and renews the lifetime, so a
  session whose token is exchanged in time goes on for ever (`SuspendedSessionsGoOn`).
- A fresh schema directory is applied once each and in order, whatever fails, iff no start loses
  the ledger record of a batch that ran: a condition on what a start finds and on its failing
  calls, checkable before it (`FreshDatabaseResumes`). After a lost record the next start runs the batch again, or adopts a
  half-built schema (`LostRecordRunsTwiceOrAdopts`).

## Model

| member | source | states |
|---|---|---|
| History.TrackedTable.UpdateInterval | database/init/08-history-triggers.sql:68-76 | a history row can be updated iff it is open and the CHECK accepts the result; a closed one is refused whatever the update |
| History.TrackedTable.CloseOpen | database/init/08-history-triggers.sql:289-294 | closing succeeds iff no open interval of the key starts later; then exactly the open intervals of the key are closed, and the immutability guard never raises |
| History.TrackedTable.Trigger | database/init/08-history-triggers.sql:279-311 | the trigger body moves the history as specified or leaves it untouched with the rejecting constraint |
| History.TrackedTable.Execute | database/init/11-locale-columns.sql:92-135 | a statement with its trigger moves both tables, or is rejected and moves neither |
| HistoryLaws.HistoryMirrorsSource | database/init/07-history-tables.sql:187-201 | in every reachable state, with no assumption on clocks, a key has exactly one open interval iff its row exists and has a recorded write, with equal payload |
| HistoryLaws.HistoryRebuildsSource | database/init/07-history-tables.sql:199-201 | the current payloads are reconstructible from the open intervals alone |
| HistoryLaws.RejectedExactlyWhenTooEarly | database/init/07-history-tables.sql:195-196 | in every reachable state a statement the table itself accepts is rejected by the history iff it would close an interval before its start, and then neither table changes |
| HistoryLaws.HistoryIsAppendOnly | database/init/08-history-triggers.sql:63-76 | over any run rows are never removed or reordered, a closed row never changes, and an open one changes only by getting an end |
| HistoryLaws.RecordedIff | database/init/08-history-triggers.sql:284-303 | a statement is recorded iff it is accepted and touches a row, unless it is an update that leaves every column but `dt_updated_at` as it was |
| HistoryLaws.RecordedRow | database/init/08-history-triggers.sql:296-310 | every recorded row carries the operation, the actor, the instant, the key and the payload of its statement |
| HistoryLaws.TriggersAreTransparent | database/init/08-history-triggers.sql:91-119 | with nondecreasing clock the source goes through exactly the states of a table without triggers |
| HistoryLaws.AsOfIsThePast | database/init/08-history-triggers.sql:279-311 | for every run with nondecreasing clock, key and instant: one covering interval iff the key existed then, with the payload the table held after its last change at or before it, none otherwise |
| HistoryLaws.LifetimesHaveNoGaps | database/init/08-history-triggers.sql:289-310 | with no assumption on clocks, inside one lifetime of a key each interval ends where the next begins, in order |
| HistoryLaws.EntryNeedsTheClock | database/init/08-history-triggers.sql:289-310 | in any state, a statement that brings a key in, by an insert or by a key change, leaves its past unambiguous iff it is not dated before the end of a nonempty earlier interval of the key |
| HistoryLaws.OthersKeepUnambiguous | database/init/08-history-triggers.sql:289-310 | a statement that does not bring the key in keeps its past unambiguous, whatever its instant |
| HistoryLaws.UnambiguousIffInTime | database/init/07-history-tables.sql:195-201 | for every run, with no assumption on clocks, no instant of a key is ever covered twice iff every statement that brought it in was in time |
| HistoryLaws.KeyChangeEntersTooEarly | database/init/08-history-triggers.sql:289-310 | a concrete accepted run, with no backdated insert, in which a key change makes one instant covered twice |
| Lex.SortedIsUnique | api/internal/db/migrate.go:175 | a sorted list is determined by its elements, so the sorting algorithm does not matter |
| Lex.LexicalOrder | api/internal/db/migrate.go:175 | the order of names: a prefix comes first, otherwise the first difference decides |
| Roles.Directory.ValidateRoles | api/internal/identity/admin.go:159-171 | passes iff no name is empty and no name repeats |
| Roles.Directory.Resolve | api/internal/identity/admin_postgres.go:167-189 | returns each active role whose name was asked for, once, with its name |
| Roles.LengthCheckIsExact | api/internal/identity/admin_postgres.go:190-192 | given distinct names and unique active role names, the length comparison holds iff every name is an active role |
| Roles.LengthCheckNeedsUniqueNames | database/init/03-seg-tables.sql:170-172 | without the unique index the length comparison would accept a missing role |
| Roles.Directory.SetRoles | api/internal/identity/admin_postgres.go:141-213 | accepts iff the user is live and the names are well formed and active roles (no call failing, no interval in the future); then the user has exactly those roles, the answer is the names sorted, and, if no earlier write is dated later, earlier instants, kept roles and other users' intervals are untouched, also with grants older than the triggers; otherwise both tables are unchanged |
| Roles.ReplacementThroughHistory | api/internal/identity/admin_postgres.go:194-209 | whatever rows the bridge held before the triggers: as-of roles are unchanged before the replacement, exactly the requested set from it on, a kept role has no gap, and no other user's interval changes |
| Roles.RolesAsOfIsThePast | database/init/08-history-triggers.sql:275-311 | the as-of role set of a user is the set of bridge rows at that instant, but for rows older than the triggers that no recorded write had touched |
| RequestLaws.CheckInFields | api/internal/security/limit.go:33-76 | in the configured fields, with 60 seconds, 24 hours and 5 codes for those that are not positive: the check passes iff the cooldown since the last code is over and the window holds fewer than the limit; and how long each refusal tells to wait |
| RequestLaws.AdmitsIff | api/internal/password/postgres.go:199-222 | seen on the rows: a request is admitted iff none of the user's codes of the purpose is younger than the cooldown and fewer than the limit of them lie in the window |
| RequestLaws.ConfiguredBounds | api/internal/security/limit.go:49-76 | the creation and guess bounds in the configured fields: over every run at most `limit` codes a window, `cooldown` apart, and five counted wrong guesses for each in a window less ten minutes |
| RequestLaws.AddressChangesAreRare | api/internal/emailchange/service.go:101-113 | as the service configures address changes: one code in 24 hours and five counted guesses in 23 hours and 50 minutes |
| RequestLaws.LockoutInFields | api/internal/login/service.go:245-257 | the lockout in the configured fields: 5 attempts and 15 minutes for those that are not positive |
| Store.Tx.Commit | api/internal/session/refresh_postgres.go:97 | a commit publishes the transaction's view and ends it, or fails and leaves both as they were |
| Store.NewestUnused | api/internal/password/postgres.go:127-149 | the code found is an unused one of the user and purpose, and none such is newer |
| FamilyLaws.IssueHands | api/internal/session/session.go:88-129 | an issued session has one new unrevoked token of the user that expires after the configured time; no other token changes state and no user row moves |
| Sessions.Refreshing | api/internal/session/refresh.go:69-155 | the call-by-call rotation equals `RefreshStep` at every failure point, and its transaction ends exactly once |
| Sessions.RefreshIn | api/internal/session/refresh.go:89-142 | `settled` is true iff the transaction has been committed |
| Sessions.RevokeFamilyOf | api/internal/session/refresh_postgres.go:69-80 | revokes every token of the presented token's family, or nothing |
| Sessions.Logout | api/internal/session/refresh.go:162-198 | equals `LogoutStep` at every failure point, and its transaction ends exactly once |
| OutcomeLaws.LogoutOutcome | api/internal/session/refresh.go:162-198 | a logout revokes, now, exactly the live tokens of the presented token's family, every other row and table being equal, or changes nothing; an unknown token is answered like a closed one |
| OutcomeLaws.RefreshOutcome | api/internal/session/refresh.go:69-155 | the exact condition of every answer; an exchange spends the presented token and adds one row with its user, family and device; a reuse revokes exactly the family's live tokens; anything else changes nothing |
| OutcomeLaws.OpenOutcome | api/internal/session/session.go:88-129 | a session is opened iff the subject exists, the token is new and no call fails, and is then the one new row |
| Passwords.RequestReset | api/internal/password/service.go:129-190 | the request with its code loop equals `RequestResetStep`: silent for unknown addresses and spent quotas |
| RequestLaws.AskResetOutcome | api/internal/password/service.go:129-190 | a recovery code is stored iff the address has an account, the quota admits it, a free code is drawn in three tries and no call fails; it is the first free draw, for ten minutes; and the exact condition of each answer |
| Passwords.Reset | api/internal/password/service.go:193-257 | equals `ResetStep` at every failure point, and its transaction ends exactly once |
| Passwords.Change | api/internal/password/service.go:260-288 | equals `ChangeStep` at every failure point |
| Passwords.ChangeIn | api/internal/password/postgres.go:90-119 | new password and sign-out are committed together iff no call fails; otherwise nothing changes |
| EmailChange.CreateChangeToken | api/internal/emailchange/postgres.go:81-118 | invalidating older codes and storing the new one happen together; a collision leaves the pending change intact |
| EmailChange.Request | api/internal/emailchange/service.go:117-194 | the request with its retry loop equals `RequestChangeStep` |
| RequestLaws.AskChangeStores | api/internal/emailchange/service.go:117-194 | a change code is stored iff the user is live, gives his password, asks for an address that is neither his nor any live account's, is admitted, draws a free code and no call fails; otherwise nothing changes |
| RequestLaws.AskChangeRefuses | api/internal/emailchange/service.go:120-163 | the exact condition of each refusal: same address, address taken, wrong password, too many requests |
| EmailChange.Verify | api/internal/emailchange/service.go:197-263 | equals `VerifyChangeStep` at every failure point, and its transaction ends exactly once |
| Signup.Verify | api/internal/signup/verify.go:89-194 | equals `VerifySignupStep`: promotion and code consumption in one transaction, the session after it |
| OutcomeLaws.AskSignupOutcome | api/internal/signup/postgres.go:36-60 | a signup request replaces the whole pending row of its address, password, code, attempts and expiry, or changes nothing; and when it answers success |
| OutcomeLaws.PendingIsLastRequest | api/internal/signup/postgres.go:43-54 | over every run a pending row carries the password and the code of the last request that issued for its address, and expires ten minutes after it |
| OutcomeLaws.RegisteredAsRequested | api/internal/signup/verify.go:119-168 | over every run the account a verification registers has the password of that last request, and its code was used |
| OutcomeLaws.VerifySignupOutcome | api/internal/signup/verify.go:89-194 | the exact condition of every answer, and the account registered |
| Login.LoggingIn | api/internal/login/service.go:103-180 | equals `LoginStep` at every failure point |
| OutcomeLaws.LoginAnswers | api/internal/login/service.go:106-180 | a login answers a session iff the address has an active, unlocked owner, the password is his, the token is new and no call fails; and the exact condition of every other answer |
| OutcomeLaws.LoginDoes | api/internal/login/service.go:151-205 | the right password clears counter and lock and opens a session, a wrong one adds one failure and from the configured limit on the lock, anything else changes nothing |
| Login.FailAttempt | api/internal/login/service.go:182-221 | one more failure is counted, and the lock set from the limit on, or nothing if the store fails |
| Machine.RunKeepsEmailsUnique | database/init/03-seg-tables.sql:37-41 | in every reachable state no two live accounts share an address |
| FamilyLaws.FamiliesStaySound | api/internal/session/refresh.go:112-142 | over any run from any sound token table all tokens of a family belong to one user and at most one of them is live |
| FamilyLaws.DeadFamilyStaysDead | api/internal/session/refresh.go:101-142 | once a family has no live token, no run of any operations changes its rows or adds one |
| FamilyLaws.DeadFamilyIsRefused | api/internal/session/refresh.go:101-110 | every token of a dead family is refused after any run, and presenting it changes no token |
| FamilyLaws.WhatKillsFamilies | api/internal/session/refresh.go:101-110 | as one atomic step, reuse and logout revoke every token of the family, and reset, password change and address change all and only the user's live tokens |
| FamilyLaws.SignOutKillsFamiliesForGood | api/internal/password/postgres.go:102-118 | as one atomic step, after any run, a completed reset, password change or address change kills every family its user has a token in, and no later run revives it |
| FamilyLaws.RefreshIgnoresUsers | api/internal/session/refresh.go:69-155 | the answer and the effect of a refresh or logout are the same whatever the user table holds |
| FamilyLaws.SuspendedSessionsGoOn | api/API.md:330-331 | any number of rotations, each within the lifetime of the last token, leaves a live token expiring a lifetime after the last one, with the user table unread and unchanged |
| FamilyLaws.PairMeansExchange | api/internal/session/refresh.go:112-154 | a refresh that hands out a pair consumed an unexpired, unrevoked token |
| FamilyLaws.ExchangedAtMostOnce | api/internal/session/refresh.go:69-155 | over any run each token is exchanged at most once |
| FamilyLaws.ReplayKillsTheFamily | api/internal/session/refresh.go:99-110 | as one atomic step, presenting an exchanged token again revokes its whole family, expired or not |
| FamilyLaws.SessionsAreLive | api/internal/session/session.go:88-129 | whatever operation answers with a session, its token is new, unrevoked, expires after the configured time and belongs to the proven account; no revoked token comes back |
| CodeLaws.CreateChangeShape | api/internal/emailchange/service.go:165-181 | however many draws collide, only the code finally stored replaces the pending change |
| CodeLaws.CreationsAreLimited | api/internal/security/limit.go:63-75 | for any run every closed window holds at most Limit code creations per user and purpose, and consecutive ones are a cooldown apart |
| CodeLaws.RefusalTellsWhenToRetry | api/internal/security/limit.go:63-73 | after the wait a refusal names the cooldown is over; if the window refused, the same request then passes unless a code was created meanwhile |
| CodeLaws.AttemptsAreExact | api/internal/password/service.go:215-234 | with nondecreasing clock each attempt counter is the number of wrong guesses counted on that code, at most the limit, all within the code's life |
| CodeLaws.GuessesAreLimited | api/internal/emailchange/service.go:150-181 | in any interval of length Window - CodeLifetime at most Limit * MaxAttempts wrong codes are counted for a user in the reset flow or in the change flow |
| CodeLaws.ComparisonsAreLimited | api/internal/password/service.go:223-234 | the wrong codes compared in such an interval, recorded or not, number at most Limit * MaxAttempts plus those the store failed to record, which have no bound |
| CodeLaws.UnrecordedGuessesRepeat | api/internal/password/service.go:223-229 | in any state a wrong guess whose recording fails can be repeated any number of times, each compared, and nothing changes |
| RecoveryLaws.ComparisonsAreUnbounded | api/internal/password/service.go:223-229 | a run from the empty code table that reaches such a state, and any number of wrong codes compared in it at one instant |
| CodeLaws.UncountedGuessIsAStoreError | api/internal/password/service.go:223-234 | a wrong guess is counted iff the answer is "invalid code"; otherwise nothing changed and the answer is a store error |
| CodeLaws.AtMostOneUnusedChange | api/internal/emailchange/postgres.go:77-118 | over any run a user has at most one unused address-change code |
| CodeLaws.CodesTakeEffectOnce | api/internal/emailchange/service.go:217-259 | over any run each code takes effect at most once |
| RecoveryLaws.RequestsRevealNothing | api/internal/password/service.go:127-157 | when no call fails and the drawn code is free, a recovery or signup request answers success whether or not the address has an account or a quota left, and writes nothing for the wrong kind of address |
| RecoveryLaws.RequestsTellApartIff | api/internal/password/service.go:129-183 | exactly which failing calls and draws make the answer differ between a database that knows the address and one that does not |
| RecoveryLaws.NewResetCodeInvalidatesNothing | database/init/03-seg-tables.sql:75-78 | a stored recovery code leaves the older ones as they were, so it is the only unused one of its user iff there was none before |
| RecoveryLaws.OlderResetCodeIsNext | api/internal/password/postgres.go:127-149 | after a reset the account's code is an unused one no newer than the spent one, if another unused one is left, and there is none otherwise |
| RecoveryLaws.OlderResetCodeComesBack | api/internal/password/service.go:207-223 | after a reset some code resets the password again iff another unused one is left and the one found next is unexpired with attempts left |
| RecoveryLaws.OlderCodeIsSpentAfterNewer | database/init/03-seg-tables.sql:75-78 | a run in which the older of two codes resets the password after the newer was spent, until it expires, and never from then on |
| RecoveryLaws.ResetIgnoresTargets | api/internal/password/service.go:193-257 | answer and effect of a reset are the same whatever target addresses the codes carry |
| RecoveryLaws.TargetIsAddressAtCreation | api/internal/password/postgres.go:43-60 | over every run a recovery code carries the address its user had at creation: the user is there still, or where he last moved to since |
| RecoveryLaws.ResetHonoursTargetIff | database/init/03-seg-tables.sql:86-88 | over every run, a reset spends a code sent to the account's present address iff the account has not moved since the code's creation or last moved back |
| RecoveryLaws.StaleTargetIsAccepted | database/init/03-seg-tables.sql:86-88 | a run in which the account moves and a code sent to the old address then resets its password |
| RecoveryLaws.ChangeHonoursAddress | api/internal/emailchange/postgres.go:77-80 | over every run, the code an address change spends was created after the account's last move |
| RecoveryLaws.AddressStep | api/internal/emailchange/service.go:238-256 | an account's address changes only when an address change of it takes effect, and then to the target of the code spent |
| LockoutLaws.FailuresAreSpaced | api/internal/login/service.go:122-154 | between two clearings the n-th counted failure comes at least (n - MaxAttempts) locks after the MaxAttempts-th |
| LockoutLaws.LockedLoginChecksNothing | api/internal/login/service.go:124-135 | while locked the answer and the tables do not depend on the password |
| LockoutLaws.ExpiredLockRelocksAtOnce | api/internal/login/postgres.go:44-56 | the counter outlives the lock: one wrong password after it expired locks the account again for the whole duration |
| LockoutLaws.LoginOutcome | api/internal/login/service.go:137-180 | a session implies an active, unlocked account and its password, and leaves no failure; a wrong password is counted; no other account moves |
| AtomicityLaws.ResetIsAllOrNothing | api/internal/password/service.go:196-253 | password, code and sign-out move together, or only the counter, or nothing; with the exact condition of each |
| AtomicityLaws.VerifyChangeIsAllOrNothing | api/internal/emailchange/service.go:198-259 | the same for the address; a correct code whose target is taken is neither counted nor consumed |
| AtomicityLaws.ChangeIsAllOrNothing | api/internal/password/postgres.go:90-119 | a password change moves password and sessions together iff the current password is right and no call fails |
| OutcomeLaws.ResetAnswers | api/internal/password/service.go:207-234 | the exact condition of the answers too many attempts and invalid code of a reset |
| OutcomeLaws.VerifyChangeAnswers | api/internal/emailchange/service.go:209-236 | the same of an address change |
| OutcomeLaws.ChangeAnswers | api/internal/password/service.go:260-275 | a password change is refused iff the user is live and does not give his password |
| OutcomeLaws.JoinOutcome | api/internal/social/postgres.go:46-109 | a first social login adds one account without a password, and without the verified address if a live account has it |
| OutcomeLaws.AdministerOutcome | api/internal/identity/admin_postgres.go:119-135 | an administrator's edit moves the status of one live account, and only if one is given |
| AtomicityLaws.SignupIsAllOrNothing | api/internal/signup/verify.go:92-168 | user and code consumption happen together, or only the counter moves, or nothing |
| AtomicityLaws.PendingAttemptsAreExact | api/internal/signup/verify.go:129-148 | a pending registration's counter is the number of wrong guesses counted since its code was issued, at most the limit |
| AtomicityLaws.SignupHasNoQuota | api/internal/signup/postgres.go:36-60 | asking again replaces the pending code and resets its attempts, however recent the last request |
| Interleaving.NeverTwoLiveTokens | api/internal/session/refresh_postgres.go:36-95 | under any statement interleaving with row locks no family has two committed unrevoked tokens |
| Interleaving.ExchangedAtMostOnce | api/internal/session/refresh_postgres.go:36-65 | under any interleaving a token is exchanged at most once |
| RevocationLaws.DeadFamilyStaysDead | api/internal/session/refresh_postgres.go:36-95 | under any interleaving a family whose committed tokens are all revoked never gets a live one again |
| RevocationLaws.StartsJustBegun | api/internal/session/refresh_postgres.go:69-76 | the start of the UPDATE, for a family or for a user, is a state the laws below start from |
| RevocationLaws.RevocationKillsIff | api/internal/session/refresh_postgres.go:67-95 | from the start of the revoking UPDATE to its commit, whatever is interleaved, the family is dead afterwards iff no rotation of it committed in between after the last other revocation of it; without other revocations, iff no rotation of it committed in between |
| RevocationLaws.RevocationKillsForGood | api/internal/session/refresh_postgres.go:67-95 | and then it stays dead under any further interleaving |
| RevocationLaws.ReachedIsStable | api/internal/session/refresh_postgres.go:67-80 | once the UPDATE has locked the live token, no rotation or other revocation of the family can commit before it ends |
| RevocationLaws.ReuseCanBeOutrun | api/internal/session/refresh.go:99-110 | an interleaving in which a reuse is detected and its revocation, having dealt with every row it saw, commits, yet the family has a live token |
| RevocationLaws.SignOutCanBeOutrun | api/internal/password/postgres.go:108-113 | the same for the revocation of a reset, password change or address change |
| Schema.StripMetaCommands | api/internal/db/migrate.go:190-200 | the loop computes `Stripped` |
| Schema.StrippedLines | api/internal/db/migrate.go:188-200 | exactly the meta-command lines are gone, the others stay in order, plain files are unchanged, stripping twice is stripping once |
| Schema.MetaIff | api/internal/db/migrate.go:194 | a meta-command line is one with a backslash after white space only |
| Schema.SchemaFileShape | api/internal/db/migrate.go:179-186 | a schema file is named by two digits, a dash, anything, and `.sql` |
| Schema.CandidateIff | api/internal/db/migrate.go:154-161 | every schema file but the bootstrap one is loaded, and directories never are |
| Schema.Load | api/internal/db/migrate.go:146-177 | fails iff a candidate file cannot be read; otherwise returns exactly the nonblank stripped candidates, once each, in lexical order |
| Runner.SchemaRunner.AdoptExisting | api/internal/db/migrate.go:106-143 | adopts iff the ledger is empty and `tb_user` exists, recording every file; otherwise the ledger is unchanged |
| Runner.SchemaRunner.Run | api/internal/db/migrate.go:51-93 | the loop equals `Start` at every failure point |
| Runner.StartFromPrefix | api/internal/db/migrate.go:69-93 | a start of a database in step goes on where the last one stopped, reports exactly what it applied and recorded, completes when nothing fails, and leaves the database in step or one executed batch ahead of the ledger |
| Runner.StartStaysInStep | api/internal/db/migrate.go:79-84 | a start leaves a database in step iff, by the ledger and the failing calls it meets, it loses no record |
| Runner.CompletesIff | api/internal/db/migrate.go:51-93 | a start reports an error iff a call it makes fails |
| Runner.FreshDatabaseResumes | api/internal/db/migrate.go:49-93 | from a fresh database, after every start of any series, with a directory that may grow in between, a prefix of the files was executed, each once and in order, and exactly it is recorded, iff no start lost the record of a batch |
| Runner.NothingAfterCompletion | api/internal/db/pool.go:121-127 | once every file of its directory is recorded no start executes or records anything |
| Runner.OlderDatabaseIsAdopted | api/internal/db/migrate.go:95-143 | on a database that already has `tb_user` no file of the first start's directory is ever executed, only files added to it since, and none before the adoption |
| Runner.OnlyALostRecordDiverges | api/internal/db/migrate.go:70-90 | from any state in which ledger and executed batches hold the same files, the loop keeps that iff the failing calls and the ledger make it lose no record |
| Runner.LostRecordRunsTwiceOrAdopts | api/internal/db/migrate.go:100-105 | for any directory and any lost record, the next faultless start runs that batch again and all after it, or adopts the half-built schema when nothing was recorded and `tb_user` exists |
| Runner.FirstRecordLost | api/internal/db/migrate.go:79-84 | such a state is reached from a fresh database when recording the first file fails |
| Retry.Retry | api/internal/db/pool.go:47-83 | ends at the first turn that succeeds or is cancelled or at the last attempt, with at most max(1, attempts) calls and exactly the specified pauses, the last one possibly cut short |
| Retry.BackoffIsExponential | api/internal/db/pool.go:76-79 | from a base between zero and the cap the i-th pause is min(base * 2^i, cap) |
| Retry.LaterPausesAreCapped | api/internal/db/pool.go:76-79 | whatever the base, even if doubling wraps around, only the first pause can exceed the cap |
| Retry.WaitingIsBounded | api/internal/db/pool.go:70-74 | total waiting is at most (attempts - 1) caps for a base up to the cap, and base + (attempts - 2) caps otherwise |
| PasswordHash.Base64RoundTrip | api/internal/security/password.go:43-44 | unpadded base64 (sections 3.2 and 4 of RFC 4648) decodes to what was encoded |
| PasswordHash.DecodesIff | api/internal/security/password.go:68-75 | exactly which texts decode: but for line breaks, symbols of the alphabet only, never one alone in the last group |
| PasswordHash.ScanOfPrint | api/internal/security/password.go:57 | a printed number scans back, leaving the text after it, iff it is in range |
| PasswordHash.FormatRoundTrip | api/internal/security/password.go:51-75 | parsing an encoded hash recovers parameters, salt and digest, for all of them in range |
| PasswordHash.StoredForm | api/internal/security/password.go:20-45 | the stored text written out, with the configured version, memory, passes, lanes and key length |
| PasswordHash.FormatIsInjective | api/internal/security/password.go:41-45 | different parts never share an encoding |
| PasswordHash.OtherVersionsAreRefused | api/internal/security/password.go:56-59 | a hash of another version is malformed |
| PasswordHash.HashVerifies | api/internal/security/password.go:33-79 | a stored hash accepts a password iff the derived keys agree; so always its own |
| Text.SplitJoin | api/internal/db/migrate.go:190-200 | splitting a joined list of separator-free lines gives the list back |

## Left out

- HTTP handlers, cookies, CSRF, CORS, configuration, health checks and commands: transport and wiring.
- Mail text and delivery, audit records, logging: only whether queueing the mail fails is kept; audit writes cannot change an outcome.
- JWT signing and parsing, OIDC, Argon2id, SHA-256: a failing signature is a failing call, the key derivation is a parameter, hashing is a free constructor. Argon2id panics on zero passes or threads, which the parameter does not.
- Social login: the provider's side and the identity links. Its effect on the modelled tables is `Join`, a new account, and `Open`, a session opened for any user.
- User listing, names and profiles, audit queries, paging: easy members; of the administrator's edit only the status is kept (`Administer`).
- Address normalisation: addresses are taken already trimmed and lower-cased; user names are left out and the user agent is merged with the device.
- Clocks: an operation has one instant, where the service reads its own clock for expiry and quota and PostgreSQL stamps rows with `now()` at microsecond precision.
- Atomic steps: outside `Interleaving` each operation is one step, also `Login` and the code requests, which are several statements outside a transaction. A commit that reports failure is taken to have applied nothing.
- FamilyLaws.ReplayKillsTheFamily: holds for atomic operations; `RevocationLaws.RevocationKillsIff` has the exact condition when a rotation is in flight.
- FamilyLaws.WhatKillsFamilies: likewise.
- FamilyLaws.SignOutKillsFamiliesForGood: likewise.
- Isolation: `Interleaving` models row locks and the visibility of committed rows only, for the refresh-token table only.
- Interleaving.NeverTwoLiveTokens: takes token hashes and family ids of new sessions as fresh, as the random generators make them.
- Retention: deleting history rows in bulk, which the owner of the database may do.
- Surrogate ids of history rows and the parsing of the announced actor: the actor is a parameter.
- History.TrackedTable.Execute: one row at a time; a multi-row UPDATE that swaps keys within one statement is not modelled.
- CodeLaws.GuessesAreLimited: counts the wrong codes the store recorded; `CodeLaws.ComparisonsAreLimited` bounds the compared ones by adding those it failed to record, which nothing in the code limits.
- Runner.FreshDatabaseResumes: a batch is taken to apply wholly or not at all, and the files of a directory to be the first ones of every later one; a failure to read it stops a start before anything happens.
- Roles.Directory.SetRoles: role and user rows are taken as stable for the duration of the transaction.
- PasswordHash.FormatRoundTrip: texts are sequences of characters, where the program has bytes.
