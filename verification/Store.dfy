/**
 The tables of the `seg` schema the authentication flows touch, the statements they issue on
 them, and transactions over the whole.

 Hashes are modelled as free constructors, so hashing is one-to-one; time is an integer count
 of nanoseconds read once per operation.
 */
module Store {
  import opened Prelude

  type UserId = string

  const SECOND := 1_000_000_000
  const MINUTE := 60 * SECOND

  /** SHA-256 of a token or a code. */
  datatype Digest = Digest(of: string)

  /** A stored Argon2id hash, or a value that does not parse as one. */
  datatype PasswordHash = Hashed(plain: string, salt: int) | Unreadable

  predicate Verifies(stored: Option<PasswordHash>, plain: string) {
    stored.Some? && stored.value.Hashed? && stored.value.plain == plain
  }

  datatype User = User(email: Option<string>, password: Option<PasswordHash>, active: bool,
                       failed: nat, lockedUntil: Option<int>, deleted: bool)

  datatype Refresh = Refresh(user: UserId, family: string, device: string, ip: string,
                             expiresAt: int, revokedAt: Option<int>)

  datatype Purpose = PASSWORD_RESET | EMAIL_CHANGE

  datatype Code = Code(user: UserId, purpose: Purpose, hash: Digest, target: string,
                       attempts: nat, createdAt: int, expiresAt: int, usedAt: Option<int>)

  datatype Pending = Pending(password: PasswordHash, hash: Digest, attempts: nat, expiresAt: int)

  /** `codes` is `tb_user_token` in insertion order; `refresh` and `signups` are keyed by
      their unique columns, the token hash and the address. */
  datatype Tables = Tables(users: map<UserId, User>, refresh: map<Digest, Refresh>,
                           codes: seq<Code>, signups: map<string, Pending>)

  /** The outcomes the services distinguish. */
  datatype Reply =
    | Done
    | Session(token: string)
    | MissingSubject
    | NotFound
    | InvalidRefresh
    | RefreshReused
    | InvalidCredentials
    | Locked(lockedFor: int)
    | InvalidCode
    | TooManyAttempts
    | InvalidPassword
    | SameEmail
    | EmailTaken
    | TooManyRequests(retryAfter: int)
    | StoreError

  /** The calls that can fail: statements, transaction control, entropy, signing, the mail
      queue. A set of them says which ones fail during one operation. */
  datatype Call =
    | Begin | Commit
    | Entropy | Sign | Publish | HashPassword
    | ReadRow | ReadUser | ReadHash | ReadAddress | ReadLast | ReadCount
    | Revoke | RevokeFamily | RevokeUser | Insert
    | RecordFailure | ResetFailures
    | Invalidate | StoreCode(attempt: nat) | RecordAttempt | Consume | SetPassword | SetEmail
    | UpsertPending | Promote | Discard | UpdateUser

  // ---------------------------------------------------------------------------
  // Users.
  // ---------------------------------------------------------------------------

  predicate Owns(users: map<UserId, User>, u: UserId, email: string) {
    u in users && !users[u].deleted && users[u].email == Some(email)
  }

  /** The partial unique index on the address of live accounts. */
  ghost predicate UniqueEmails(users: map<UserId, User>) {
    forall a, b, email | Owns(users, a, email) && Owns(users, b, email) :: a == b
  }

  /** The live account owning an address. */
  ghost function Owner(users: map<UserId, User>, email: string): Option<UserId> {
    if u :| Owns(users, u, email) then Some(u) else None
  }

  method FindOwner(users: map<UserId, User>, email: string) returns (o: Option<UserId>)
    requires UniqueEmails(users)
    ensures o == Owner(users, email)
  {
    var owners := set u | u in users && Owns(users, u, email);
    if owners == {} {
      assert forall u :: Owns(users, u, email) ==> u in owners;
      return None;
    }
    var u :| u in owners;
    return Some(u);
  }

  predicate Live(users: map<UserId, User>, u: UserId) {
    u in users && !users[u].deleted
  }

  /** `UPDATE tb_user SET tx_password_hash, nu_failed_attempts = 0, dt_locked_until = NULL` */
  function WithPassword(users: map<UserId, User>, u: UserId, password: PasswordHash): map<UserId, User> {
    if u in users then users[u := users[u].(password := Some(password), failed := 0, lockedUntil := None)] else users
  }

  function WithEmail(users: map<UserId, User>, u: UserId, email: string): map<UserId, User> {
    if u in users then users[u := users[u].(email := Some(email))] else users
  }

  // ---------------------------------------------------------------------------
  // Refresh tokens.
  // ---------------------------------------------------------------------------

  function RevokedAt(row: Refresh, now: int): Refresh {
    if row.revokedAt.Some? then row else row.(revokedAt := Some(now))
  }

  function FamilyRevoked(refresh: map<Digest, Refresh>, family: string, now: int): map<Digest, Refresh> {
    map h | h in refresh :: if refresh[h].family == family then RevokedAt(refresh[h], now) else refresh[h]
  }

  function UserRevoked(refresh: map<Digest, Refresh>, user: UserId, now: int): map<Digest, Refresh> {
    map h | h in refresh :: if refresh[h].user == user then RevokedAt(refresh[h], now) else refresh[h]
  }

  // ---------------------------------------------------------------------------
  // Codes.
  // ---------------------------------------------------------------------------

  predicate IsFor(c: Code, user: UserId, purpose: Purpose) {
    c.user == user && c.purpose == purpose
  }

  /** The unique constraint on the code hash, over all users and purposes. */
  predicate Collides(codes: seq<Code>, hash: Digest) {
    exists i | 0 <= i < |codes| :: codes[i].hash == hash
  }

  /** `SELECT count(*) ... WHERE dt_created_at >= since` */
  function CountSince(codes: seq<Code>, user: UserId, purpose: Purpose, since: int): nat {
    if codes == [] then 0
    else
      var last := codes[|codes| - 1];
      CountSince(codes[..|codes| - 1], user, purpose, since) +
        if IsFor(last, user, purpose) && last.createdAt >= since then 1 else 0
  }

  /** `SELECT max(dt_created_at)` */
  function LastCreated(codes: seq<Code>, user: UserId, purpose: Purpose): Option<int> {
    if codes == [] then None
    else
      var before, last := LastCreated(codes[..|codes| - 1], user, purpose), codes[|codes| - 1];
      if IsFor(last, user, purpose) && (before.None? || before.value <= last.createdAt) then Some(last.createdAt)
        else before
  }

  /** The newest unused code: `ORDER BY dt_created_at DESC LIMIT 1`. */
  function NewestUnused(codes: seq<Code>, user: UserId, purpose: Purpose): (r: Option<nat>)
    ensures r.Some? ==> r.value < |codes| && IsFor(codes[r.value], user, purpose) && codes[r.value].usedAt.None?
    ensures forall i | 0 <= i < |codes| && IsFor(codes[i], user, purpose) && codes[i].usedAt.None? ::
              r.Some? && codes[i].createdAt <= codes[r.value].createdAt
  {
    if codes == [] then None
    else
      var before, last := NewestUnused(codes[..|codes| - 1], user, purpose), codes[|codes| - 1];
      if IsFor(last, user, purpose) && last.usedAt.None?
        && (before.None? || codes[before.value].createdAt <= last.createdAt)
      then Some(|codes| - 1) else before
  }

  /** Marks every unused code of a user and purpose as used. */
  function Invalidated(codes: seq<Code>, user: UserId, purpose: Purpose, now: int): (r: seq<Code>)
    ensures |r| == |codes|
    ensures forall i | 0 <= i < |codes| ::
              r[i] == if IsFor(codes[i], user, purpose) && codes[i].usedAt.None? then codes[i].(usedAt := Some(now))
                else codes[i]
  {
    seq(|codes|, i requires 0 <= i < |codes| =>
      if IsFor(codes[i], user, purpose) && codes[i].usedAt.None? then codes[i].(usedAt := Some(now)) else codes[i])
  }

  // ---------------------------------------------------------------------------
  // Transactions.
  // ---------------------------------------------------------------------------

  /** The database, with the number of transactions begun and not yet ended. */
  class Database {
    var tables: Tables
    var inFlight: nat

    constructor (tables: Tables)
      ensures this.tables == tables && inFlight == 0
    {
      this.tables := tables;
      this.inFlight := 0;
    }
  }

  /** One transaction: its own view of the tables until it ends, which it does once. */
  class Tx {
    const db: Database
    var work: Tables
    var active: bool

    constructor Begin(db: Database)
      modifies db`inFlight
      ensures this.db == db && work == db.tables && active
      ensures db.inFlight == old(db.inFlight) + 1
    {
      this.db := db;
      this.work := db.tables;
      this.active := true;
      new;
      db.inFlight := db.inFlight + 1;
    }

    method Commit(fails: bool) returns (ok: bool)
      requires active && db.inFlight > 0
      modifies this`active, db
      ensures ok == !fails
      ensures ok ==> !active && db.tables == work && db.inFlight == old(db.inFlight) - 1
      ensures !ok ==> active && db.tables == old(db.tables) && db.inFlight == old(db.inFlight)
    {
      if fails {
        return false;
      }
      db.tables := work;
      active := false;
      db.inFlight := db.inFlight - 1;
      return true;
    }

    method Rollback()
      requires active && db.inFlight > 0
      modifies this`active, db`inFlight
      ensures !active && db.inFlight == old(db.inFlight) - 1
    {
      active := false;
      db.inFlight := db.inFlight - 1;
    }
  }
}
