/** Recovering and changing the account password. */
module Passwords {
  import opened Prelude
  import opened Store
  import opened Quota

  const CODE_LIFETIME := 10 * MINUTE
  const MAX_ATTEMPTS := 5
  const MAX_CODE_TRIES := 3

  /** The codes the generator draws during one request; None is a failing entropy source. */
  type Draws = d: seq<Option<string>> | |d| == MAX_CODE_TRIES witness [None, None, None]

  /** One insert into `tb_user_token` for a fresh code. */
  function WithCode(codes: seq<Code>, user: UserId, purpose: Purpose, target: string, code: string,
                    now: int): seq<Code> {
    codes + [Code(user, purpose, Digest(code), target, 0, now, now + CODE_LIFETIME, None)]
  }

  /** The code loop from try `i` on: a collision draws again, anything else stops. */
  function CreateReset(codes: seq<Code>, user: UserId, email: string, draws: Draws, i: nat, now: int, faults: set<Call>)
    : Result<seq<Code>, Reply>
    decreases MAX_CODE_TRIES - i
  {
    if i >= MAX_CODE_TRIES || draws[i].None? || StoreCode(i) in faults then Err(StoreError)
    else if Collides(codes, Digest(draws[i].value)) then CreateReset(codes, user, email, draws, i + 1, now, faults)
    else Ok(WithCode(codes, user, PASSWORD_RESET, email, draws[i].value, now))
  }

  /** A recovery request; it answers success for unknown addresses and spent quotas. */
  ghost function RequestResetStep(t: Tables, email: string, draws: Draws, quota: Quota, now: int,
                                  faults: set<Call>): (Tables, Reply) {
    if ReadUser in faults then (t, StoreError)
    else if Owner(t.users, email).None? then (t, Done)
    else if ReadLast in faults || ReadCount in faults then (t, StoreError)
    else
      var user := Owner(t.users, email).value;
      var inWindow := CountSince(t.codes, user, PASSWORD_RESET, now - quota.Window());
      if quota.Check(now, LastCreated(t.codes, user, PASSWORD_RESET), inWindow).Fail? then (t, Done)
      else
        match CreateReset(t.codes, user, email, draws, 0, now, faults)
        case Err(e) => (t, e)
        case Ok(codes) => (t.(codes := codes), if Publish in faults then StoreError else Done)
  }

  /** The newest unused recovery code of the account owning the address. */
  ghost function ResetCode(t: Tables, email: string): Option<nat> {
    match Owner(t.users, email)
    case None => None
    case Some(u) => NewestUnused(t.codes, u, PASSWORD_RESET)
  }

  /** The tables after code `i` reset the password of its user. */
  function AfterReset(t: Tables, i: nat, password: PasswordHash, now: int): Tables
    requires i < |t.codes|
  {
    t.(users := WithPassword(t.users, t.codes[i].user, password),
       codes := t.codes[i := t.codes[i].(usedAt := Some(now))],
       refresh := UserRevoked(t.refresh, t.codes[i].user, now))
  }

  function AfterMiss(t: Tables, i: nat): Tables
    requires i < |t.codes|
  {
    t.(codes := t.codes[i := t.codes[i].(attempts := t.codes[i].attempts + 1)])
  }

  /** Spending a recovery code. */
  ghost function ResetStep(t: Tables, email: string, code: string, password: PasswordHash, now: int,
                           faults: set<Call>): (Tables, Reply) {
    if Begin in faults || ReadRow in faults then (t, StoreError)
    else if ResetCode(t, email).None? then (t, InvalidCode)
    else
      var i := ResetCode(t, email).value;
      if t.codes[i].expiresAt <= now then (t, InvalidCode)
      else if t.codes[i].attempts >= MAX_ATTEMPTS then (t, TooManyAttempts)
      else if Digest(code) != t.codes[i].hash then
        if RecordAttempt in faults || Commit in faults then (t, StoreError) else (AfterMiss(t, i), InvalidCode)
      else if faults !! {HashPassword, SetPassword, Consume, RevokeUser, Commit}
        then (AfterReset(t, i, password, now), Done)
      else (t, StoreError)
  }

  /** Changing the password of an authenticated user. */
  function ChangeStep(t: Tables, user: UserId, current: string, password: PasswordHash, now: int,
                      faults: set<Call>): (Tables, Reply) {
    if ReadHash in faults || !Live(t.users, user) then (t, StoreError)
    else if !Verifies(t.users[user].password, current) then (t, InvalidPassword)
    else if faults !! {HashPassword, Begin, SetPassword, RevokeUser, Commit} then
      (t.(users := WithPassword(t.users, user, password), refresh := UserRevoked(t.refresh, user, now)), Done)
    else (t, StoreError)
  }

  method RequestReset(db: Database, email: string, draws: Draws, quota: Quota, now: int,
                      faults: set<Call>) returns (r: Reply)
    requires UniqueEmails(db.tables.users)
    modifies db`tables
    ensures (db.tables, r) == RequestResetStep(old(db.tables), email, draws, quota, now, faults)
  {
    if ReadUser in faults {
      return StoreError;
    }
    var owner := FindOwner(db.tables.users, email);
    if owner.None? {
      return Done;
    }
    if ReadLast in faults || ReadCount in faults {
      return StoreError;
    }
    var user := owner.value;
    var lastAt := LastCreated(db.tables.codes, user, PASSWORD_RESET);
    var inWindow := CountSince(db.tables.codes, user, PASSWORD_RESET, now - quota.Window());
    if quota.Check(now, lastAt, inWindow).Fail? {
      return Done;
    }
    var attempt, stored := 0, false;
    ghost var codes := db.tables.codes;
    while attempt < MAX_CODE_TRIES && !stored
      invariant 0 <= attempt <= MAX_CODE_TRIES
      invariant !stored ==> db.tables == old(db.tables)
      invariant CreateReset(codes, user, email, draws, 0, now, faults) ==
                if stored then Ok(db.tables.codes) else CreateReset(codes, user, email, draws, attempt, now, faults)
      invariant stored ==> db.tables == old(db.tables).(codes := db.tables.codes)
      decreases MAX_CODE_TRIES - attempt, !stored
    {
      var code := draws[attempt];
      if code.None? {
        return StoreError;
      }
      if StoreCode(attempt) in faults {
        return StoreError;
      }
      if !Collides(db.tables.codes, Digest(code.value)) {
        db.tables := db.tables.(codes := WithCode(db.tables.codes, user, PASSWORD_RESET, email, code.value, now));
        stored := true;
      } else {
        attempt := attempt + 1;
      }
    }
    if !stored {
      return StoreError;
    }
    return if Publish in faults then StoreError else Done;
  }

  method ResetIn(tx: Tx, email: string, code: string, password: PasswordHash, now: int, faults: set<Call>)
    returns (r: Reply, settled: bool)
    requires Begin !in faults && UniqueEmails(tx.work.users)
    requires tx.active && tx.work == tx.db.tables && tx.db.inFlight > 0
    modifies tx, tx.db
    ensures (tx.db.tables, r) == ResetStep(old(tx.db.tables), email, code, password, now, faults)
    ensures settled == !tx.active && tx.db.inFlight == old(tx.db.inFlight) - if settled then 1 else 0
  {
    if ReadRow in faults {
      return StoreError, false;
    }
    var owner := FindOwner(tx.work.users, email);
    var found := if owner.None? then None else NewestUnused(tx.work.codes, owner.value, PASSWORD_RESET);
    if found.None? {
      return InvalidCode, false;
    }
    var i := found.value;
    var row := tx.work.codes[i];
    if row.usedAt.Some? || row.expiresAt <= now {
      return InvalidCode, false;
    }
    if row.attempts >= MAX_ATTEMPTS {
      return TooManyAttempts, false;
    }
    if Digest(code) != row.hash {
      if RecordAttempt in faults {
        return StoreError, false;
      }
      tx.work := tx.work.(codes := tx.work.codes[i := row.(attempts := row.attempts + 1)]);
      var committed := tx.Commit(Commit in faults);
      return if committed then InvalidCode else StoreError, committed;
    }
    if HashPassword in faults {
      return StoreError, false;
    }
    if SetPassword in faults {
      return StoreError, false;
    }
    tx.work := tx.work.(users := WithPassword(tx.work.users, row.user, password));
    if Consume in faults {
      return StoreError, false;
    }
    tx.work := tx.work.(codes := tx.work.codes[i := row.(usedAt := Some(now))]);
    if RevokeUser in faults {
      return StoreError, false;
    }
    tx.work := tx.work.(refresh := UserRevoked(tx.work.refresh, row.user, now));
    var ok := tx.Commit(Commit in faults);
    return if ok then Done else StoreError, ok;
  }

  method Reset(db: Database, email: string, code: string, password: PasswordHash, now: int,
               faults: set<Call>) returns (r: Reply)
    requires UniqueEmails(db.tables.users)
    modifies db
    ensures (db.tables, r) == ResetStep(old(db.tables), email, code, password, now, faults)
    ensures db.inFlight == old(db.inFlight)
  {
    if Begin in faults {
      return StoreError;
    }
    var tx := new Tx.Begin(db);
    var settled;
    r, settled := ResetIn(tx, email, code, password, now, faults);
    if !settled {
      tx.Rollback();
    }
  }

  /** The two updates of a password change in one transaction. */
  method ChangeIn(tx: Tx, user: UserId, password: PasswordHash, now: int, faults: set<Call>) returns (settled: bool)
    requires tx.active && tx.work == tx.db.tables && tx.db.inFlight > 0
    modifies tx, tx.db
    ensures settled <==> faults !! {SetPassword, RevokeUser, Commit}
    ensures tx.db.tables == if settled
                            then old(tx.db.tables).(users := WithPassword(old(tx.db.tables).users, user, password),
                                                    refresh := UserRevoked(old(tx.db.tables).refresh, user, now))
                            else old(tx.db.tables)
    ensures settled == !tx.active && tx.db.inFlight == old(tx.db.inFlight) - if settled then 1 else 0
  {
    if SetPassword in faults {
      return false;
    }
    tx.work := tx.work.(users := WithPassword(tx.work.users, user, password));
    if RevokeUser in faults {
      return false;
    }
    tx.work := tx.work.(refresh := UserRevoked(tx.work.refresh, user, now));
    settled := tx.Commit(Commit in faults);
  }

  method Change(db: Database, user: UserId, current: string, password: PasswordHash, now: int,
                faults: set<Call>) returns (r: Reply)
    modifies db
    ensures (db.tables, r) == ChangeStep(old(db.tables), user, current, password, now, faults)
    ensures db.inFlight == old(db.inFlight)
  {
    if ReadHash in faults || !Live(db.tables.users, user) {
      return StoreError;
    }
    var stored := db.tables.users[user].password;
    if stored.None? || !Verifies(stored, current) {
      return InvalidPassword;
    }
    if HashPassword in faults || Begin in faults {
      return StoreError;
    }
    var tx := new Tx.Begin(db);
    var settled := ChangeIn(tx, user, password, now, faults);
    if !settled {
      tx.Rollback();
      return StoreError;
    }
    return Done;
  }
}
