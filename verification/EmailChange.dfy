/** Moving an account to a new address. Addresses are taken already normalised. */
module EmailChange {
  import opened Prelude
  import opened Store
  import opened Quota
  import Passwords

  /** One attempt to store a change code: older codes are invalidated in the same
      transaction, so a collision leaves them as they were. */
  function CreateChange(codes: seq<Code>, user: UserId, target: string, draws: Passwords.Draws, i: nat, now: int,
                        faults: set<Call>)
    : Result<seq<Code>, Reply>
    decreases Passwords.MAX_CODE_TRIES - i
  {
    if i >= Passwords.MAX_CODE_TRIES || draws[i].None? || Begin in faults || Invalidate in faults
      || StoreCode(i) in faults then Err(StoreError)
    else if Collides(codes, Digest(draws[i].value)) then CreateChange(codes, user, target, draws, i + 1, now, faults)
    else if Commit in faults then Err(StoreError)
    else Ok(Passwords.WithCode(Invalidated(codes, user, EMAIL_CHANGE, now), user, EMAIL_CHANGE, target, draws[i].value,
      now))
  }

  ghost function RequestChangeStep(t: Tables, user: UserId, target: string, password: string, draws: Passwords.Draws,
                                   quota: Quota,
                                   now: int, faults: set<Call>): (Tables, Reply)
  {
    if ReadUser in faults then (t, StoreError)
    else if !Live(t.users, user) then (t, InvalidPassword)
    else if t.users[user].email == Some(target) || (t.users[user].email.None? && target == "") then (t, SameEmail)
    else if ReadAddress in faults then (t, StoreError)
    else if Owner(t.users, target).Some? then (t, EmailTaken)
    else if ReadHash in faults then (t, StoreError)
    else if !Verifies(t.users[user].password, password) then (t, InvalidPassword)
    else if ReadLast in faults || ReadCount in faults then (t, StoreError)
    else
      var inWindow := CountSince(t.codes, user, EMAIL_CHANGE, now - quota.Window());
      var check := quota.Check(now, LastCreated(t.codes, user, EMAIL_CHANGE), inWindow);
      if check.Fail? then (t, TooManyRequests(check.error))
      else
        match CreateChange(t.codes, user, target, draws, 0, now, faults)
        case Err(e) => (t, e)
        case Ok(codes) => (t.(codes := codes), if Publish in faults then StoreError else Done)
  }

  /** The tables after code `i` moved its user to the target address. */
  function AfterChange(t: Tables, i: nat, now: int): Tables
    requires i < |t.codes|
  {
    t.(users := WithEmail(t.users, t.codes[i].user, t.codes[i].target),
       codes := t.codes[i := t.codes[i].(usedAt := Some(now))],
       refresh := UserRevoked(t.refresh, t.codes[i].user, now))
  }

  /** Spending a change code. A correct code whose target was taken meanwhile is rolled back. */
  ghost function VerifyChangeStep(t: Tables, user: UserId, code: string, now: int, faults: set<Call>): (Tables, Reply) {
    var found := NewestUnused(t.codes, user, EMAIL_CHANGE);
    if Begin in faults || ReadRow in faults then (t, StoreError)
    else if found.None? then (t, InvalidCode)
    else
      var i := found.value;
      if t.codes[i].expiresAt <= now then (t, InvalidCode)
      else if t.codes[i].attempts >= Passwords.MAX_ATTEMPTS then (t, TooManyAttempts)
      else if Digest(code) != t.codes[i].hash then
        if RecordAttempt in faults || Commit in faults then (t, StoreError)
          else (Passwords.AfterMiss(t, i), InvalidCode)
      else if ReadAddress in faults then (t, StoreError)
      else if Owner(t.users, t.codes[i].target).Some? then (t, EmailTaken)
      else if faults !! {SetEmail, Consume, RevokeUser, Commit} then (AfterChange(t, i, now), Done)
      else (t, StoreError)
  }

  /** `CreateChangeToken`: Ok(true) when stored, Ok(false) on a collision. */
  method CreateChangeToken(db: Database, user: UserId, target: string, code: string, attempt: nat, now: int,
                           faults: set<Call>)
    returns (r: Result<bool, Reply>)
    modifies db
    ensures db.inFlight == old(db.inFlight)
    ensures var codes := old(db.tables).codes;
            if Begin in faults || Invalidate in faults || StoreCode(attempt) in faults
              then r == Err(StoreError) && db.tables == old(db.tables)
            else if Collides(codes, Digest(code)) then r == Ok(false) && db.tables == old(db.tables)
            else if Commit in faults then r == Err(StoreError) && db.tables == old(db.tables)
            else r == Ok(true) && db.tables == old(db.tables).(codes :=
                   Passwords.WithCode(Invalidated(codes, user, EMAIL_CHANGE, now), user, EMAIL_CHANGE, target, code,
                     now))
  {
    if Begin in faults {
      return Err(StoreError);
    }
    var tx := new Tx.Begin(db);
    if Invalidate in faults {
      tx.Rollback();
      return Err(StoreError);
    }
    tx.work := tx.work.(codes := Invalidated(tx.work.codes, user, EMAIL_CHANGE, now));
    if StoreCode(attempt) in faults {
      tx.Rollback();
      return Err(StoreError);
    }
    HashesKept(db.tables.codes, user, EMAIL_CHANGE, now, Digest(code));
    if Collides(tx.work.codes, Digest(code)) {
      tx.Rollback();
      return Ok(false);
    }
    tx.work := tx.work.(codes := Passwords.WithCode(tx.work.codes, user, EMAIL_CHANGE, target, code, now));
    var ok := tx.Commit(Commit in faults);
    if !ok {
      tx.Rollback();
      return Err(StoreError);
    }
    return Ok(true);
  }

  lemma HashesKept(codes: seq<Code>, user: UserId, purpose: Purpose, now: int, hash: Digest)
    ensures Collides(Invalidated(codes, user, purpose, now), hash) <==> Collides(codes, hash)
  {
    var after := Invalidated(codes, user, purpose, now);
    forall i | 0 <= i < |codes| ensures after[i].hash == codes[i].hash {
    }
  }

  method Request(db: Database, user: UserId, target: string, password: string, draws: Passwords.Draws, quota: Quota,
                 now: int, faults: set<Call>)
    returns (r: Reply)
    requires UniqueEmails(db.tables.users)
    modifies db
    ensures (db.tables, r) == RequestChangeStep(old(db.tables), user, target, password, draws, quota, now, faults)
    ensures db.inFlight == old(db.inFlight)
  {
    if ReadUser in faults {
      return StoreError;
    }
    if !Live(db.tables.users, user) {
      return InvalidPassword;
    }
    var current := db.tables.users[user].email;
    if (if current.Some? then current.value else "") == target {
      return SameEmail;
    }
    if ReadAddress in faults {
      return StoreError;
    }
    var owner := FindOwner(db.tables.users, target);
    if owner.Some? {
      return EmailTaken;
    }
    if ReadHash in faults {
      return StoreError;
    }
    var stored := db.tables.users[user].password;
    if stored.None? || !Verifies(stored, password) {
      return InvalidPassword;
    }
    if ReadLast in faults || ReadCount in faults {
      return StoreError;
    }
    var lastAt := LastCreated(db.tables.codes, user, EMAIL_CHANGE);
    var inWindow := CountSince(db.tables.codes, user, EMAIL_CHANGE, now - quota.Window());
    var check := quota.Check(now, lastAt, inWindow);
    if check.Fail? {
      return TooManyRequests(check.error);
    }
    var attempt, stop := 0, false;
    ghost var codes := db.tables.codes;
    while attempt < Passwords.MAX_CODE_TRIES && !stop
      invariant 0 <= attempt <= Passwords.MAX_CODE_TRIES
      invariant db.inFlight == old(db.inFlight)
      invariant !stop ==> db.tables == old(db.tables)
      invariant CreateChange(codes, user, target, draws, 0, now, faults) ==
                if stop then Ok(db.tables.codes) else CreateChange(codes, user, target, draws, attempt, now, faults)
      invariant stop ==> db.tables == old(db.tables).(codes := db.tables.codes)
      decreases Passwords.MAX_CODE_TRIES - attempt, !stop
    {
      var code := draws[attempt];
      if code.None? {
        return StoreError;
      }
      var created := CreateChangeToken(db, user, target, code.value, attempt, now, faults);
      if created.Err? {
        return StoreError;
      }
      if created.value {
        stop := true;
      } else {
        attempt := attempt + 1;
      }
    }
    if !stop {
      return StoreError;
    }
    return if Publish in faults then StoreError else Done;
  }

  method VerifyIn(tx: Tx, user: UserId, code: string, now: int, faults: set<Call>) returns (r: Reply, settled: bool)
    requires Begin !in faults && UniqueEmails(tx.work.users)
    requires tx.active && tx.work == tx.db.tables && tx.db.inFlight > 0
    modifies tx, tx.db
    ensures (tx.db.tables, r) == VerifyChangeStep(old(tx.db.tables), user, code, now, faults)
    ensures settled == !tx.active && tx.db.inFlight == old(tx.db.inFlight) - if settled then 1 else 0
  {
    if ReadRow in faults {
      return StoreError, false;
    }
    var found := NewestUnused(tx.work.codes, user, EMAIL_CHANGE);
    if found.None? {
      return InvalidCode, false;
    }
    var i := found.value;
    var row := tx.work.codes[i];
    if row.usedAt.Some? || row.expiresAt <= now {
      return InvalidCode, false;
    }
    if row.attempts >= Passwords.MAX_ATTEMPTS {
      return TooManyAttempts, false;
    }
    if Digest(code) != row.hash {
      if RecordAttempt in faults {
        return StoreError, false;
      }
      tx.work := tx.work.(codes := tx.work.codes[i := row.(attempts := row.attempts + 1)]);
      var committed := tx.Commit(Commit in faults);
      return if committed then InvalidCode else StoreError, committed;
    }
    if ReadAddress in faults {
      return StoreError, false;
    }
    var owner := FindOwner(tx.work.users, row.target);
    if owner.Some? {
      return EmailTaken, false;
    }
    if SetEmail in faults {
      return StoreError, false;
    }
    tx.work := tx.work.(users := WithEmail(tx.work.users, user, row.target));
    if Consume in faults {
      return StoreError, false;
    }
    tx.work := tx.work.(codes := tx.work.codes[i := row.(usedAt := Some(now))]);
    if RevokeUser in faults {
      return StoreError, false;
    }
    tx.work := tx.work.(refresh := UserRevoked(tx.work.refresh, user, now));
    var ok := tx.Commit(Commit in faults);
    return if ok then Done else StoreError, ok;
  }

  method Verify(db: Database, user: UserId, code: string, now: int, faults: set<Call>) returns (r: Reply)
    requires UniqueEmails(db.tables.users)
    modifies db
    ensures (db.tables, r) == VerifyChangeStep(old(db.tables), user, code, now, faults)
    ensures db.inFlight == old(db.inFlight)
  {
    if Begin in faults {
      return StoreError;
    }
    var tx := new Tx.Begin(db);
    var settled;
    r, settled := VerifyIn(tx, user, code, now, faults);
    if !settled {
      tx.Rollback();
    }
  }
}
