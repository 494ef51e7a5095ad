/** Registering: a pending request per address, promoted into a user by its code. */
module Signup {
  import opened Prelude
  import opened Store
  import Passwords
  import Sessions

  /** Requesting a code replaces whatever was pending for the address; there is no quota. */
  ghost function RequestSignupStep(t: Tables, email: string, password: PasswordHash, draw: Option<string>, now: int,
                                   faults: set<Call>)
    : (Tables, Reply)
  {
    if ReadUser in faults then (t, StoreError)
    else if Owner(t.users, email).Some? then (t, if Publish in faults then StoreError else Done)
    else if HashPassword in faults || draw.None? || UpsertPending in faults then (t, StoreError)
    else
      (t.(signups := t.signups[email := Pending(password, Digest(draw.value), 0, now + Passwords.CODE_LIFETIME)]),
       if Publish in faults then StoreError else Done)
  }

  /** The user a pending registration becomes. */
  function Promoted(email: string, p: Pending): User {
    User(Some(email), Some(p.password), true, 0, None, false)
  }

  /** The tables after the pending registration of an address became user `id`. */
  function AfterPromotion(t: Tables, email: string, id: UserId): Tables
    requires email in t.signups
  {
    t.(users := t.users[id := Promoted(email, t.signups[email])], signups := t.signups - {email})
  }

  function AfterMiss(t: Tables, email: string): Tables
    requires email in t.signups
  {
    t.(signups := t.signups[email := t.signups[email].(attempts := t.signups[email].attempts + 1)])
  }

  /** The transaction of a verification, before any session is opened. `id` is the fresh
      identifier; an address claimed by a live account meanwhile violates the unique index. */
  ghost function PromoteStep(t: Tables, email: string, code: string, id: UserId, now: int, faults: set<Call>): (Tables,
                             Reply) {
    if Begin in faults || ReadRow in faults then (t, StoreError)
    else if email !in t.signups then (t, InvalidCode)
    else
      var p := t.signups[email];
      if p.expiresAt <= now then (t, InvalidCode)
      else if p.attempts >= Passwords.MAX_ATTEMPTS then (t, TooManyAttempts)
      else if Digest(code) != p.hash then
        if RecordAttempt in faults || Commit in faults then (t, StoreError) else (AfterMiss(t, email), InvalidCode)
      else if faults !! {Promote, Discard, Commit} && id !in t.users && Owner(t.users, email).None? then
        (AfterPromotion(t, email, id), Done)
      else (t, StoreError)
  }

  /** Spending a signup code, then opening the first session. */
  ghost function VerifySignupStep(t: Tables, email: string, code: string, id: UserId, token: string, family: string,
                                  meta: Sessions.Meta, ttl: int, now: int, faults: set<Call>): (Tables, Reply)
  {
    var (t', r) := PromoteStep(t, email, code, id, now, faults);
    if r == Done then Sessions.IssueStep(t', id, token, family, meta, ttl, now, faults) else (t', r)
  }

  method Request(db: Database, email: string, password: PasswordHash, draw: Option<string>, now: int,
                 faults: set<Call>) returns (r: Reply)
    requires UniqueEmails(db.tables.users)
    modifies db`tables
    ensures (db.tables, r) == RequestSignupStep(old(db.tables), email, password, draw, now, faults)
  {
    if ReadUser in faults {
      return StoreError;
    }
    var owner := FindOwner(db.tables.users, email);
    if owner.Some? {
      return if Publish in faults then StoreError else Done;
    }
    if HashPassword in faults || draw.None? || UpsertPending in faults {
      return StoreError;
    }
    db.tables := db.tables.(signups := db.tables.signups[email := Pending(password, Digest(draw.value), 0, now
      + Passwords.CODE_LIFETIME)]);
    return if Publish in faults then StoreError else Done;
  }

  method PromoteIn(tx: Tx, email: string, code: string, id: UserId, now: int, faults: set<Call>) returns (r: Reply,
                   settled: bool)
    requires Begin !in faults && UniqueEmails(tx.work.users)
    requires tx.active && tx.work == tx.db.tables && tx.db.inFlight > 0
    modifies tx, tx.db
    ensures (tx.db.tables, r) == PromoteStep(old(tx.db.tables), email, code, id, now, faults)
    ensures settled == !tx.active && tx.db.inFlight == old(tx.db.inFlight) - if settled then 1 else 0
  {
    if ReadRow in faults {
      return StoreError, false;
    }
    if email !in tx.work.signups {
      return InvalidCode, false;
    }
    var p := tx.work.signups[email];
    if p.expiresAt <= now {
      return InvalidCode, false;
    }
    if p.attempts >= Passwords.MAX_ATTEMPTS {
      return TooManyAttempts, false;
    }
    if Digest(code) != p.hash {
      if RecordAttempt in faults {
        return StoreError, false;
      }
      tx.work := tx.work.(signups := tx.work.signups[email := p.(attempts := p.attempts + 1)]);
      var committed := tx.Commit(Commit in faults);
      return if committed then InvalidCode else StoreError, committed;
    }
    var owner := FindOwner(tx.work.users, email);
    if Promote in faults || id in tx.work.users || owner.Some? {
      return StoreError, false;
    }
    tx.work := tx.work.(users := tx.work.users[id := Promoted(email, p)]);
    if Discard in faults {
      return StoreError, false;
    }
    tx.work := tx.work.(signups := tx.work.signups - {email});
    var ok := tx.Commit(Commit in faults);
    return if ok then Done else StoreError, ok;
  }

  method Verify(db: Database, email: string, code: string, id: UserId, token: string, family: string,
                meta: Sessions.Meta, ttl: int, now: int, faults: set<Call>) returns (r: Reply)
    requires UniqueEmails(db.tables.users)
    modifies db
    ensures (db.tables, r) == VerifySignupStep(old(db.tables), email, code, id, token, family, meta, ttl, now, faults)
    ensures db.inFlight == old(db.inFlight)
  {
    if Begin in faults {
      return StoreError;
    }
    var tx := new Tx.Begin(db);
    var settled;
    r, settled := PromoteIn(tx, email, code, id, now, faults);
    if !settled {
      tx.Rollback();
    }
    if r == Done {
      r := Sessions.Issue(db, id, token, family, meta, ttl, now, faults);
    }
  }
}
