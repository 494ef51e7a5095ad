/** Logging in with address and password, and the lockout after repeated failures. */
module Login {
  import opened Prelude
  import opened Store
  import Sessions

  const DEFAULT_MAX_ATTEMPTS := 5
  const DEFAULT_LOCK := 15 * MINUTE

  /** Non-positive fields stand for the defaults. */
  datatype Lockout = Lockout(maxAttempts: int, lockDuration: int) {
    function Max(): (r: int)
      ensures r > 0
    {
      if maxAttempts <= 0 then DEFAULT_MAX_ATTEMPTS else maxAttempts
    }

    function Duration(): (r: int)
      ensures r > 0
    {
      if lockDuration <= 0 then DEFAULT_LOCK else lockDuration
    }
  }

  predicate IsLocked(u: User, now: int) {
    u.lockedUntil.Some? && now < u.lockedUntil.value
  }

  /** The user row after one more counted failure. */
  function Failed(u: User, lockout: Lockout, now: int): User {
    u.(failed := u.failed + 1,
       lockedUntil := if u.failed + 1 >= lockout.Max() then Some(now + lockout.Duration()) else u.lockedUntil)
  }

  /** One login. */
  ghost function LoginStep(t: Tables, email: string, plain: string, lockout: Lockout, token: string, family: string,
                           meta: Sessions.Meta, ttl: int, now: int, faults: set<Call>): (Tables, Reply)
  {
    if ReadUser in faults then (t, StoreError)
    else if Owner(t.users, email).None? then (t, InvalidCredentials)
    else
      var id := Owner(t.users, email).value;
      var u := t.users[id];
      if IsLocked(u, now) then (t, Locked(u.lockedUntil.value - now))
      else if !u.active then (t, InvalidCredentials)
      else if !Verifies(u.password, plain) then
        if RecordFailure in faults then (t, StoreError)
        else
          (t.(users := t.users[id := Failed(u, lockout, now)]),
           if u.failed + 1 >= lockout.Max() then Locked(lockout.Duration()) else InvalidCredentials)
      else if ResetFailures in faults then (t, StoreError)
      else
        Sessions.IssueStep(t.(users := t.users[id := u.(failed := 0, lockedUntil := None)]), id, token, family, meta,
          ttl, now, faults)
  }

  /** Counts a failure and locks the account from the limit on. */
  method FailAttempt(db: Database, id: UserId, u: User, lockout: Lockout, now: int,
                     faults: set<Call>) returns (r: Reply)
    requires id in db.tables.users && db.tables.users[id] == u
    modifies db`tables
    ensures RecordFailure in faults ==> r == StoreError && db.tables == old(db.tables)
    ensures RecordFailure !in faults ==>
              && db.tables == old(db.tables).(users := old(db.tables).users[id := Failed(u, lockout, now)])
              && r == if u.failed + 1 >= lockout.Max() then Locked(lockout.Duration()) else InvalidCredentials
  {
    var failures := u.failed + 1;
    var lockUntil := if failures >= lockout.Max() then Some(now + lockout.Duration()) else None;
    if RecordFailure in faults {
      return StoreError;
    }
    var stored := db.tables.users[id];
    db.tables := db.tables.(users := db.tables.users[id :=
      stored.(failed := stored.failed + 1, lockedUntil := if lockUntil.Some? then lockUntil else stored.lockedUntil)]);
    return if lockUntil.Some? then Locked(lockout.Duration()) else InvalidCredentials;
  }

  method LoggingIn(db: Database, email: string, plain: string, lockout: Lockout, token: string, family: string,
                   meta: Sessions.Meta, ttl: int, now: int, faults: set<Call>) returns (r: Reply)
    requires UniqueEmails(db.tables.users)
    modifies db
    ensures (db.tables, r) == LoginStep(old(db.tables), email, plain, lockout, token, family, meta, ttl, now, faults)
    ensures db.inFlight == old(db.inFlight)
  {
    if ReadUser in faults {
      return StoreError;
    }
    var owner := FindOwner(db.tables.users, email);
    if owner.None? {
      return InvalidCredentials;
    }
    var id := owner.value;
    var u := db.tables.users[id];
    if u.lockedUntil.Some? && now < u.lockedUntil.value {
      return Locked(u.lockedUntil.value - now);
    }
    if !u.active {
      return InvalidCredentials;
    }
    if !Verifies(u.password, plain) {
      r := FailAttempt(db, id, u, lockout, now, faults);
      return;
    }
    if ResetFailures in faults {
      return StoreError;
    }
    db.tables := db.tables.(users := db.tables.users[id := db.tables.users[id].(failed := 0, lockedUntil := None)]);
    r := Sessions.Issue(db, id, token, family, meta, ttl, now, faults);
  }
}
